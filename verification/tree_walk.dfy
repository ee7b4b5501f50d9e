/**
  `toErrors` on the conversion of a whole merged tree: when every parent-to-child step of the
  tree is one `toErrors` can re-derive, the walk succeeds and returns one report per childless
  node, in depth-first order, each with the entries from the root down to that node.
*/
module TreeWalk {
  import opened Wrappers
  import opened Codecs
  import opened Validation
  import opened IndexKeys
  import opened DecodeErrors
  import opened ErrorTree
  import opened Conversion
  import opened Flatten
  import opened RoundTrip
  import opened FieldAssignment

  /** The context entry a tree node was built from. */
  function EntryOf<A>(n: Node<A>): ContextEntry<A>
  {
    ContextEntry(n.key, n.actual, n.codec)
  }

  /** No two siblings share a key. */
  predicate DistinctKeys<A>(forest: seq<Tree<A>>)
  {
    forall i, j :: 0 <= i < j < |forest| ==> forest[i].value.key != forest[j].value.key
  }

  /** Every child of every node is a `ChildOf` step from its parent; the children of a node with
      labeled children carry distinct keys; and, for the as-written walk, every node with
      children has a codec the source sees through. */
  ghost predicate WalkableTree<A>(t: Tree<A>, mode: Mode)
    decreases t
  {
    (mode == AsWritten && |t.forest| > 0 ==> AsWrittenSeesThrough(t.value.codec))
    && (ShellShape(Base(t.value.codec)) == LabeledShape ==> DistinctKeys(t.forest))
    && forall i :: 0 <= i < |t.forest| ==>
         ChildOf(t.value.codec, EntryOf(t.forest[i].value)) && WalkableTree(t.forest[i], mode)
  }

  /** The reports a tree stands for below `context` (which ends with the tree's own entry): one
      per childless node, depth first, its context extended by the entries of the nodes on the
      way down. */
  ghost function TreeReports<A>(t: Tree<A>, context: Context<A>): seq<ValidationError<A>>
    decreases t
  {
    if |t.forest| == 0 then [ValidationError(t.value.actual, context, t.value.message)]
    else ForestReports(t.forest, context)
  }

  ghost function ForestReports<A>(forest: seq<Tree<A>>, context: Context<A>): seq<ValidationError<A>>
    decreases forest
  {
    if |forest| == 0 then []
    else TreeReports(forest[0], context + [EntryOf(forest[0].value)]) + ForestReports(forest[1..], context)
  }

  /** A tree stands for one report per childless node. */
  lemma {:induction false} TreeReportsCount<A>(t: Tree<A>, context: Context<A>)
    ensures |TreeReports(t, context)| == TreeLeaves(t)
    decreases t
  {
    if |t.forest| > 0 {
      ForestReportsCount(t.forest, context);
    }
  }

  lemma {:induction false} ForestReportsCount<A>(forest: seq<Tree<A>>, context: Context<A>)
    ensures |ForestReports(forest, context)| == ForestLeaves(forest)
    decreases forest
  {
    if |forest| > 0 {
      TreeReportsCount(forest[0], context + [EntryOf(forest[0].value)]);
      ForestReportsCount(forest[1..], context);
    }
  }

  /** The fields of children with distinct keys: each child under its key, holding its own
      conversion, in forest order. */
  function FieldsOf<A>(forest: seq<Tree<A>>): seq<Field<A>>
    decreases forest
  {
    if |forest| == 0 then [] else [Field(forest[0].value.key, Convert(forest[0]))] + FieldsOf(forest[1..])
  }

  /** Children with distinct keys, none of them already present, are appended in order, each
      holding its own conversion. */
  lemma {:induction false} ConvertDistinctFields<A>(acc: seq<Field<A>>, forest: seq<Tree<A>>)
    requires DistinctKeys(forest)
    requires forall i :: 0 <= i < |forest| ==> forest[i].value.key !in KeySet(acc)
    ensures ConvertFields(acc, forest) == acc + FieldsOf(forest)
    decreases forest
  {
    if |forest| > 0 {
      var f := Field(forest[0].value.key, Convert(forest[0]));
      var next := acc + [f];
      assert Put(acc, f.key, f.error) == next;
      KeySetSnoc(acc, f);
      var rest := forest[1..];
      assert forall i :: 0 <= i < |rest| ==> rest[i] == forest[i + 1];
      assert DistinctKeys(rest);
      forall i | 0 <= i < |rest| ensures rest[i].value.key !in KeySet(next) {
        assert rest[i].value.key != forest[0].value.key && rest[i].value.key !in KeySet(acc);
      }
      ConvertDistinctFields(next, rest);
      var later := FieldsOf(rest);
      assert FieldsOf(forest) == [f] + later;
      Regroup(acc, [f], later);
    }
  }

  lemma Regroup<T>(a: seq<T>, b: seq<T>, c: seq<T>)
    ensures (a + b) + c == a + (b + c)
  {
  }

  /** Converting and walking a tree whose every step can be re-derived gives exactly the
      reports the tree stands for. */
  lemma {:induction false} WalkTree<A>(t: Tree<A>, context: Context<A>, mode: Mode)
    requires WalkableTree(t, mode)
    ensures Walk(Convert(t), context, t.value.codec, mode) == Some(TreeReports(t, context))
    decreases t
  {
    if |t.forest| > 0 {
      var codec := t.value.codec;
      var b := Base(codec);
      var e := Convert(t);
      assert ChildOf(codec, EntryOf(t.forest[0].value));
      if mode == Corrected {
        CorrectedSeesThroughWrappers(e, context, codec);
      } else if ShellShape(b) == LabeledShape {
        AsWrittenLabeledSeesThroughWrappers(e, context, codec);
      } else if IsWrapper(codec) {
        AsWrittenAndSeesThroughExact(e, context, codec);
      }
      forall i | 0 <= i < |t.forest|
        ensures ChildOf(b, EntryOf(t.forest[i].value)) && WalkableTree(t.forest[i], mode)
      {
      }
      ConvertChildren(t);
      if ShellShape(b) == LabeledShape {
        LabeledFields(t);
        ConvertDistinctFields([], t.forest);
        assert e.fields == FieldsOf(t.forest);
        WalkTreeFields(t.forest, context, b, mode);
      } else if ShellShape(b) == IndexedShape {
        WalkTreeElements(e.elements, t.forest, context, b, mode);
      } else {
        WalkTreeMembers(e.errors, t.forest, context, b, mode);
      }
    }
  }

  lemma {:induction false} WalkTreeFields<A>(forest: seq<Tree<A>>, context: Context<A>, b: Codec, mode: Mode)
    requires ShellShape(b) == LabeledShape
    requires forall i :: 0 <= i < |forest| ==> ChildOf(b, EntryOf(forest[i].value)) && WalkableTree(forest[i], mode)
    ensures WalkFields(FieldsOf(forest), context, b, mode) == Some(ForestReports(forest, context))
    decreases forest
  {
    if |forest| > 0 {
      var f := forest[0];
      var entry := EntryOf(f.value);
      assert ChildOf(b, entry);
      WalkTree(f, context + [entry], mode);
      WalkTreeFields(forest[1..], context, b, mode);
      assert FieldsOf(forest)[1..] == FieldsOf(forest[1..]);
      FieldsCons(FieldsOf(forest), forest, context, b, mode, TreeReports(f, context + [entry]), ForestReports(forest[1..], context));
    }
  }

  /** One child field looked up in the codec and walked, then the rest. */
  lemma FieldsCons<A>(fs: seq<Field<A>>, forest: seq<Tree<A>>, context: Context<A>, b: Codec, mode: Mode,
                      here: seq<ValidationError<A>>, rest: seq<ValidationError<A>>)
    requires |fs| > 0 && |forest| > 0 && ShellShape(b) == LabeledShape && ChildOf(b, EntryOf(forest[0].value))
    requires fs[0] == Field(forest[0].value.key, Convert(forest[0]))
    requires Walk(Convert(forest[0]), context + [EntryOf(forest[0].value)], forest[0].value.codec, mode) == Some(here)
    requires WalkFields(fs[1..], context, b, mode) == Some(rest)
    ensures WalkFields(fs, context, b, mode) == Some(here + rest)
  {
    var f := forest[0];
    assert FieldCodec(b, f.value.key, fs[0].error.expected) == Some(f.value.codec);
    assert Append(context, f.value.key, f.value.codec, fs[0].error) == context + [EntryOf(f.value)];
  }

  lemma {:induction false} WalkTreeElements<A>(els: seq<Element<A>>, forest: seq<Tree<A>>, context: Context<A>, b: Codec, mode: Mode)
    requires ShellShape(b) == IndexedShape
    requires |els| == |forest|
    requires forall i :: 0 <= i < |forest| ==> els[i] == Element(NumericKey(forest[i].value.key), Convert(forest[i]))
    requires forall i :: 0 <= i < |forest| ==> ChildOf(b, EntryOf(forest[i].value)) && WalkableTree(forest[i], mode)
    ensures WalkElements(els, context, b, mode) == Some(ForestReports(forest, context))
    decreases forest
  {
    if |forest| > 0 {
      var f := forest[0];
      var entry := EntryOf(f.value);
      assert ChildOf(b, entry);
      WalkTree(f, context + [entry], mode);
      WalkTreeElements(els[1..], forest[1..], context, b, mode);
      ElementsCons(els, forest, context, b, mode, TreeReports(f, context + [entry]), ForestReports(forest[1..], context));
    }
  }

  /** One child element looked up in the codec under its index and walked, then the rest. */
  lemma ElementsCons<A>(els: seq<Element<A>>, forest: seq<Tree<A>>, context: Context<A>, b: Codec, mode: Mode,
                        here: seq<ValidationError<A>>, rest: seq<ValidationError<A>>)
    requires |els| > 0 && |forest| > 0 && ShellShape(b) == IndexedShape && ChildOf(b, EntryOf(forest[0].value))
    requires els[0] == Element(NumericKey(forest[0].value.key), Convert(forest[0]))
    requires Walk(Convert(forest[0]), context + [EntryOf(forest[0].value)], forest[0].value.codec, mode) == Some(here)
    requires WalkElements(els[1..], context, b, mode) == Some(rest)
    ensures WalkElements(els, context, b, mode) == Some(here + rest)
  {
    var f := forest[0];
    assert IsIndexKey(f.value.key);
    assert IntString(els[0].index) == f.value.key;
    assert ElementCodec(b, els[0].index) == Some(f.value.codec);
    assert Append(context, f.value.key, f.value.codec, els[0].error) == context + [EntryOf(f.value)];
  }

  lemma {:induction false} WalkTreeMembers<A>(es: seq<DecodeError<A>>, forest: seq<Tree<A>>, context: Context<A>, b: Codec, mode: Mode)
    requires ShellShape(b) == OrShape || ShellShape(b) == AndShape
    requires |es| == |forest|
    requires forall i :: 0 <= i < |forest| ==> es[i] == Convert(forest[i])
    requires forall i :: 0 <= i < |forest| ==> ChildOf(b, EntryOf(forest[i].value)) && WalkableTree(forest[i], mode)
    ensures WalkMembers(es, context, b, mode) == Some(ForestReports(forest, context))
    decreases forest
  {
    if |forest| > 0 {
      var f := forest[0];
      var entry := EntryOf(f.value);
      WalkTree(f, context + [entry], mode);
      WalkTreeMembers(es[1..], forest[1..], context, b, mode);
      MembersCons(es, forest, context, b, mode, TreeReports(f, context + [entry]), ForestReports(forest[1..], context));
    }
  }

  /** One member found by name in the codec and walked, then the rest. */
  lemma MembersCons<A>(es: seq<DecodeError<A>>, forest: seq<Tree<A>>, context: Context<A>, b: Codec, mode: Mode,
                       here: seq<ValidationError<A>>, rest: seq<ValidationError<A>>)
    requires |es| > 0 && |forest| > 0 && (ShellShape(b) == OrShape || ShellShape(b) == AndShape)
    requires ChildOf(b, EntryOf(forest[0].value)) && es[0] == Convert(forest[0])
    requires Walk(Convert(forest[0]), context + [EntryOf(forest[0].value)], forest[0].value.codec, mode) == Some(here)
    requires WalkMembers(es[1..], context, b, mode) == Some(rest)
    ensures WalkMembers(es, context, b, mode) == Some(here + rest)
  {
    var f := forest[0];
    assert es[0].expected == f.value.codec.name && es[0].actual == f.value.actual;
    var k := MemberIndex(b, EntryOf(f.value));
    assert Members(b) == Some(b.types);
  }

  /** Where a `ChildOf` step under a union or intersection finds its member. */
  lemma MemberIndex<A>(b: Codec, entry: ContextEntry<A>) returns (k: int)
    requires b.Union? || b.Intersection?
    requires ChildOf(b, entry)
    ensures k == IndexOfName(b.types, entry.codec.name)
    ensures 0 <= k < |b.types| && b.types[k] == entry.codec && entry.key == NatString(k)
  {
    k := IndexOfName(b.types, entry.codec.name);
  }

  /** `toErrors(toDecodeError(errors), rootCodec)` for a report list rooted at key `""` whose
      merged tree can be re-derived step by step: the walk succeeds and returns one report per
      childless node of the merged tree, depth first. */
  lemma RoundTripTree<A>(errors: seq<ValidationError<A>>)
    requires |errors| > 0 && HasContexts(errors) && errors[0].context[0].key == ""
    requires WalkableTree(ToTree(errors), Corrected)
    ensures ToErrors(ToDecodeError(errors), errors[0].context[0].codec)
            == Some(TreeReports(ToTree(errors), [errors[0].context[0]]))
    ensures |TreeReports(ToTree(errors), [errors[0].context[0]])| == TreeLeaves(ToTree(errors)) <= |errors|
  {
    var t := ToTree(errors);
    WalkTree(t, [errors[0].context[0]], Corrected);
    TreeReportsCount(t, [errors[0].context[0]]);
    ToTreeLeaves(errors);
  }

  /** The same for `toErrors` as written, when moreover no node with children has a codec whose
      wrappers the source fails to see through. */
  lemma RoundTripTreeAsWritten<A>(errors: seq<ValidationError<A>>)
    requires |errors| > 0 && HasContexts(errors) && errors[0].context[0].key == ""
    requires WalkableTree(ToTree(errors), AsWritten)
    ensures ToErrorsAsWritten(ToDecodeError(errors), errors[0].context[0].codec)
            == Some(TreeReports(ToTree(errors), [errors[0].context[0]]))
    ensures |TreeReports(ToTree(errors), [errors[0].context[0]])| == TreeLeaves(ToTree(errors)) <= |errors|
  {
    var t := ToTree(errors);
    WalkTree(t, [errors[0].context[0]], AsWritten);
    TreeReportsCount(t, [errors[0].context[0]]);
    ToTreeLeaves(errors);
  }
}
