/**
  Building the error tree from the flat report (first half of `toDecodeError`): each context
  becomes a single-branch tree, and the trees are merged on (codec identity, key).
*/
module ErrorTree {
  import opened Wrappers
  import opened Codecs
  import opened Validation

  /** A tree node: one path segment, plus the message when it is the last segment of its path. */
  datatype Node<A> = Node(key: string, actual: A, codec: Codec, message: Option<string>)

  datatype Tree<A> = Tree(value: Node<A>, forest: seq<Tree<A>>)

  /** Two nodes occupy the same place when they share the codec (by identity) and the key. */
  predicate SameSlot<A>(a: Node<A>, b: Node<A>)
  {
    a.codec.id == b.codec.id && a.key == b.key
  }

  function GetNode<A>(context: Context<A>, message: Option<string>): Node<A>
    requires |context| > 0
  {
    var entry := context[0];
    Node(entry.key, entry.actual, entry.codec, if |context| == 1 then message else None)
  }

  /** Every node has at most one child. */
  ghost predicate IsChain<A>(t: Tree<A>)
    decreases t
  {
    |t.forest| <= 1 && (|t.forest| == 1 ==> IsChain(t.forest[0]))
  }

  /** The nodes of a chain, root first. */
  ghost function Spine<A>(t: Tree<A>): seq<Node<A>>
    requires IsChain(t)
    decreases t
  {
    [t.value] + if |t.forest| == 0 then [] else Spine(t.forest[0])
  }

  /** What a chain built from a context should hold: entry i of the context as node i, the
      message on the last node only. */
  ghost function ChainNodes<A>(context: Context<A>, message: Option<string>): seq<Node<A>>
  {
    seq(|context|, i requires 0 <= i < |context| =>
      Node(context[i].key, context[i].actual, context[i].codec,
           if i == |context| - 1 then message else None))
  }

  function FromContext<A>(context: Context<A>, message: Option<string>): (r: Tree<A>)
    requires |context| > 0
    ensures IsChain(r) && |Spine(r)| == |context|
    decreases |context|
  {
    var value := GetNode(context, message);
    var subContext := context[1..];
    Tree(value, if |subContext| > 0 then [FromContext(subContext, message)] else [])
  }

  lemma {:induction false} FromContextSpine<A>(context: Context<A>, message: Option<string>)
    requires |context| > 0
    ensures Spine(FromContext(context, message)) == ChainNodes(context, message)
    decreases |context|
  {
    var r := FromContext(context, message);
    if |context| > 1 {
      FromContextSpine(context[1..], message);
      var tail := ChainNodes(context[1..], message);
      assert Spine(r) == [r.value] + tail;
      forall i | 0 <= i < |context|
        ensures Spine(r)[i] == ChainNodes(context, message)[i]
      {
        if i > 0 { assert Spine(r)[i] == tail[i - 1]; }
      }
    }
  }

  function FromError<A>(error: ValidationError<A>): (r: Tree<A>)
    requires |error.context| > 0
    ensures IsChain(r) && |Spine(r)| == |error.context|
  {
    FromContext(error.context, error.message)
  }

  ghost predicate FirstSlot<A>(forest: seq<Tree<A>>, n: Node<A>, k: int)
  {
    0 <= k < |forest| && SameSlot(forest[k].value, n)
    && forall i :: 0 <= i < k ==> !SameSlot(forest[i].value, n)
  }

  ghost predicate NoSlot<A>(forest: seq<Tree<A>>, n: Node<A>)
  {
    forall i :: 0 <= i < |forest| ==> !SameSlot(forest[i].value, n)
  }

  /** `forest.findIndex(...)` on (codec identity, key): the first match, or -1. */
  function IndexOfSlot<A>(forest: seq<Tree<A>>, n: Node<A>): (k: int)
    ensures -1 <= k < |forest|
    ensures k == -1 <==> NoSlot(forest, n)
    ensures k != -1 ==> FirstSlot(forest, n, k)
    decreases |forest|
  {
    if |forest| == 0 then -1
    else if SameSlot(forest[0].value, n) then 0
    else
      var k := IndexOfSlot(forest[1..], n);
      if k == -1 then -1 else k + 1
  }

  /** Merges `tree` into `forest`: into the first node in the same slot (merging the subtrees),
      or as a new last sibling. */
  function ConcatTree<A>(forest: seq<Tree<A>>, tree: Tree<A>): (r: seq<Tree<A>>)
    ensures |forest| <= |r| <= |forest| + 1
    ensures forall i :: 0 <= i < |forest| ==> r[i].value == forest[i].value
    ensures NoSlot(forest, tree.value) ==> r == forest + [tree]
    ensures forall k :: FirstSlot(forest, tree.value, k) ==>
              |r| == |forest| && forall i :: 0 <= i < |forest| && i != k ==> r[i] == forest[i]
    decreases tree
  {
    var index := IndexOfSlot(forest, tree.value);
    if index != -1 then
      var subForest := forest[index].forest;
      forest[index := Tree(forest[index].value, ConcatForest(subForest, tree.forest))]
    else
      forest + [tree]
  }

  /** Merges every tree of `b`, in order, into `a`. */
  function ConcatForest<A>(a: seq<Tree<A>>, b: seq<Tree<A>>): (r: seq<Tree<A>>)
    ensures |a| <= |r| <= |a| + |b|
    ensures forall i :: 0 <= i < |a| ==> r[i].value == a[i].value
    decreases b
  {
    if |b| == 0 then a else ConcatForest(ConcatTree(a, b[0]), b[1..])
  }

  /** Merging a chain twice leaves the forest as merging it once did. */
  lemma {:induction false} ConcatTreeIdempotent<A>(forest: seq<Tree<A>>, tree: Tree<A>)
    requires IsChain(tree)
    ensures ConcatTree(ConcatTree(forest, tree), tree) == ConcatTree(forest, tree)
    decreases tree
  {
    var once := ConcatTree(forest, tree);
    var k := IndexOfSlot(forest, tree.value);
    if k == -1 {
      assert FirstSlot(once, tree.value, |forest|);
      assert IndexOfSlot(once, tree.value) == |forest|;
      SelfMerge(tree);
      assert once[|forest|] == tree;
    } else {
      assert FirstSlot(once, tree.value, k);
      assert IndexOfSlot(once, tree.value) == k;
      var sub := forest[k].forest;
      var merged := ConcatForest(sub, tree.forest);
      assert once[k] == Tree(forest[k].value, merged);
      if |tree.forest| == 1 {
        var child := tree.forest[0];
        assert tree.forest[1..] == [];
        assert ConcatForest(merged, tree.forest) == ConcatTree(merged, child);
        assert merged == ConcatForest(ConcatTree(sub, child), []);
        ConcatTreeIdempotent(sub, child);
      }
    }
  }

  /** A chain merged into its own subforest changes nothing. */
  lemma {:induction false} SelfMerge<A>(tree: Tree<A>)
    requires IsChain(tree)
    ensures ConcatForest(tree.forest, tree.forest) == tree.forest
    decreases tree
  {
    if |tree.forest| == 1 {
      var child := tree.forest[0];
      assert ConcatForest(tree.forest, tree.forest) == ConcatTree([child], child);
      assert FirstSlot([child], child.value, 0);
      SelfMerge(child);
    }
  }

  /** The `forEach` of `toTree`: merges each report's chain into the forest in turn. */
  function MergeAll<A>(forest: seq<Tree<A>>, errors: seq<ValidationError<A>>): (r: seq<Tree<A>>)
    requires HasContexts(errors)
    ensures |forest| <= |r| <= |forest| + |errors|
    ensures forall i :: 0 <= i < |forest| ==> r[i].value == forest[i].value
    decreases |errors|
  {
    if |errors| == 0 then forest
    else MergeAll(ConcatTree(forest, FromError(errors[0])), errors[1..])
  }

  function ToTree<A>(errors: seq<ValidationError<A>>): (r: Tree<A>)
    requires |errors| > 0 && HasContexts(errors)
    ensures r.value.key == errors[0].context[0].key
    ensures r.value.actual == errors[0].context[0].actual
    ensures r.value.codec == errors[0].context[0].codec
    ensures r.value.message == if |errors[0].context| == 1 then errors[0].message else None
  {
    var forest := MergeAll([FromError(errors[0])], errors[1..]);
    forest[0]
  }

  lemma {:induction false} MergeAllSnoc<A>(forest: seq<Tree<A>>, errors: seq<ValidationError<A>>, e: ValidationError<A>)
    requires HasContexts(errors) && |e.context| > 0
    ensures HasContexts(errors + [e])
    ensures MergeAll(forest, errors + [e]) == ConcatTree(MergeAll(forest, errors), FromError(e))
    decreases |errors|
  {
    if |errors| > 0 {
      assert (errors + [e])[1..] == errors[1..] + [e];
      MergeAllSnoc(ConcatTree(forest, FromError(errors[0])), errors[1..], e);
    } else {
      assert (errors + [e])[1..] == [];
    }
  }

  /** Adding one more report to `toTree`: its chain merges into the root when the roots share a
      slot, and is otherwise left out of the returned tree. */
  lemma ToTreeSnoc<A>(errors: seq<ValidationError<A>>, e: ValidationError<A>)
    requires |errors| > 0 && HasContexts(errors) && |e.context| > 0
    ensures HasContexts(errors + [e])
    ensures var t := ToTree(errors);
            var chain := FromError(e);
            ToTree(errors + [e]) ==
              if SameSlot(t.value, chain.value) then Tree(t.value, ConcatForest(t.forest, chain.forest)) else t
  {
    var first := [FromError(errors[0])];
    assert (errors + [e])[0] == errors[0];
    assert (errors + [e])[1..] == errors[1..] + [e];
    MergeAllSnoc(first, errors[1..], e);
    var before := MergeAll(first, errors[1..]);
    var chain := FromError(e);
    if SameSlot(before[0].value, chain.value) {
      assert FirstSlot(before, chain.value, 0);
    } else if !NoSlot(before, chain.value) {
      var k := IndexOfSlot(before, chain.value);
      assert FirstSlot(before, chain.value, k);
    }
  }

  /** A single report gives exactly its own chain. */
  lemma ToTreeSingle<A>(e: ValidationError<A>)
    requires |e.context| > 0
    ensures ToTree([e]) == FromError(e)
  {
  }

  /** How many reports a tree accounts for: one per node without children. */
  ghost function TreeLeaves<A>(t: Tree<A>): nat
    decreases t
  {
    if |t.forest| == 0 then 1 else ForestLeaves(t.forest)
  }

  ghost function ForestLeaves<A>(forest: seq<Tree<A>>): nat
    decreases forest
  {
    if |forest| == 0 then 0 else TreeLeaves(forest[0]) + ForestLeaves(forest[1..])
  }

  lemma {:induction false} TreeLeavesPositive<A>(t: Tree<A>)
    ensures TreeLeaves(t) >= 1
    decreases t
  {
    if |t.forest| > 0 {
      TreeLeavesPositive(t.forest[0]);
    }
  }

  lemma {:induction false} ChainLeaves<A>(t: Tree<A>)
    requires IsChain(t)
    ensures TreeLeaves(t) == 1
    decreases t
  {
    if |t.forest| == 1 {
      assert t.forest[1..] == [];
      ChainLeaves(t.forest[0]);
      assert ForestLeaves(t.forest) == TreeLeaves(t.forest[0]) + ForestLeaves(t.forest[1..]);
    }
  }

  lemma {:induction false} ForestLeavesAppend<A>(forest: seq<Tree<A>>, t: Tree<A>)
    ensures ForestLeaves(forest + [t]) == ForestLeaves(forest) + TreeLeaves(t)
    decreases |forest|
  {
    if |forest| == 0 {
      assert (forest + [t])[1..] == [];
    } else {
      assert (forest + [t])[1..] == forest[1..] + [t];
      ForestLeavesAppend(forest[1..], t);
    }
  }

  lemma {:induction false} ForestLeavesUpdate<A>(forest: seq<Tree<A>>, k: nat, t: Tree<A>)
    requires k < |forest|
    ensures ForestLeaves(forest[k := t]) + TreeLeaves(forest[k]) == ForestLeaves(forest) + TreeLeaves(t)
    decreases |forest|
  {
    if k == 0 {
      assert forest[k := t][1..] == forest[1..];
    } else {
      assert forest[k := t][1..] == forest[1..][k - 1 := t];
      ForestLeavesUpdate(forest[1..], k - 1, t);
    }
  }

  /** Merging one chain adds at most one failure to a forest: it either becomes a new sibling
      or extends an existing path by one branch. */
  lemma {:induction false} ConcatTreeLeaves<A>(forest: seq<Tree<A>>, tree: Tree<A>)
    requires IsChain(tree)
    ensures ForestLeaves(ConcatTree(forest, tree)) <= ForestLeaves(forest) + 1
    decreases tree
  {
    var k := IndexOfSlot(forest, tree.value);
    if k == -1 {
      ForestLeavesAppend(forest, tree);
      ChainLeaves(tree);
    } else {
      var sub := forest[k].forest;
      var merged := ConcatForest(sub, tree.forest);
      var x := Tree(forest[k].value, merged);
      ForestLeavesUpdate(forest, k, x);
      if |tree.forest| == 0 {
        assert x == forest[k];
      } else {
        var child := tree.forest[0];
        assert tree.forest[1..] == [];
        assert merged == ConcatForest(ConcatTree(sub, child), []);
        ConcatTreeLeaves(sub, child);
      }
    }
  }

  lemma {:induction false} MergeAllLeaves<A>(forest: seq<Tree<A>>, errors: seq<ValidationError<A>>)
    requires HasContexts(errors)
    ensures ForestLeaves(MergeAll(forest, errors)) <= ForestLeaves(forest) + |errors|
    decreases |errors|
  {
    if |errors| > 0 {
      var next := ConcatTree(forest, FromError(errors[0]));
      ConcatTreeLeaves(forest, FromError(errors[0]));
      MergeAllLeaves(next, errors[1..]);
    }
  }

  /** The merged tree accounts for at most one failure per report. */
  lemma ToTreeLeaves<A>(errors: seq<ValidationError<A>>)
    requires |errors| > 0 && HasContexts(errors)
    ensures TreeLeaves(ToTree(errors)) <= |errors|
  {
    var first := FromError(errors[0]);
    ChainLeaves(first);
    assert [first][1..] == [];
    MergeAllLeaves([first], errors[1..]);
    var merged := MergeAll([first], errors[1..]);
    assert ForestLeaves(merged) == TreeLeaves(merged[0]) + ForestLeaves(merged[1..]);
  }
}
