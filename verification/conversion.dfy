/**
  Turning the merged error tree into a `DecodeError` (second half of `toDecodeError`): every
  branching node is classified by its codec's tag and filled from its children.
*/
module Conversion {
  import opened Wrappers
  import opened Codecs
  import opened Validation
  import opened IndexKeys
  import opened DecodeErrors
  import opened ErrorTree

  /** The variant a non-wrapper codec induces on a node that has children. */
  function ShellShape(c: Codec): Shape
  {
    match c
    case Dictionary(_, _, _, _) => LabeledShape
    case Interface(_, _, _) => LabeledShape
    case Partial(_, _, _) => LabeledShape
    case Tuple(_, _, _) => IndexedShape
    case ArrayOf(_, _, _) => IndexedShape
    case ReadonlyArray(_, _, _) => IndexedShape
    case Union(_, _, _) => OrShape
    case Intersection(_, _, _) => AndShape
    case _ => LeafShape
  }

  /** `getRoot`: the empty shell for a codec. A wrapper takes the shape of the codec under all
      its wrappers, but the name of the outermost one. */
  function GetRoot<A>(codec: Codec, actual: A, message: Option<string>): (r: DecodeError<A>)
    ensures r.actual == actual && r.expected == codec.name
    ensures ShapeOf(r) == ShellShape(Base(codec))
    ensures IsShell(r)
    ensures r.Leaf? ==> r.message == message
    decreases codec
  {
    match codec
    case Dictionary(_, name, _, _) => LabeledProduct(actual, name, [])
    case Interface(_, name, _) => LabeledProduct(actual, name, [])
    case Partial(_, name, _) => LabeledProduct(actual, name, [])
    case Tuple(_, name, _) => IndexedProduct(actual, name, [])
    case ArrayOf(_, name, _) => IndexedProduct(actual, name, [])
    case ReadonlyArray(_, name, _) => IndexedProduct(actual, name, [])
    case Union(_, name, _) => Or(actual, name, [])
    case Intersection(_, name, _) => And(actual, name, [])
    case Exact(_, name, inner) => GetRoot(inner, actual, message).(expected := name)
    case Readonly(_, name, inner) => GetRoot(inner, actual, message).(expected := name)
    case Recursive(_, name, inner) => GetRoot(inner, actual, message).(expected := name)
    case Other(_, name) => Leaf(actual, name, message)
  }

  /** The error heads the tree: same value, and named after the tree root's codec. */
  ghost predicate Heads<A>(e: DecodeError<A>, t: Tree<A>)
  {
    e.actual == t.value.actual && e.expected == t.value.codec.name
  }

  function ForestKeys<A>(forest: seq<Tree<A>>): set<string>
  {
    set i | 0 <= i < |forest| :: forest[i].value.key
  }

  /** The inner `toDecodeError`. A childless node is a leaf whatever its codec; otherwise the
      codec's shell is filled from the children, in forest order. */
  function Convert<A>(t: Tree<A>): (r: DecodeError<A>)
    ensures Heads(r, t)
    ensures |t.forest| == 0 ==> r == Leaf(t.value.actual, t.value.codec.name, t.value.message)
    ensures |t.forest| > 0 ==> ShapeOf(r) == ShellShape(Base(t.value.codec))
    ensures r.Leaf? ==> r.message == t.value.message
    ensures r.LabeledProduct? ==>
              UniqueKeys(r.fields) && KeySet(r.fields) == ForestKeys(t.forest) && |r.fields| <= |t.forest|
    ensures r.IndexedProduct? ==>
              |r.elements| == |t.forest|
              && forall i :: 0 <= i < |t.forest| ==>
                   r.elements[i].index == NumericKey(t.forest[i].value.key) && Heads(r.elements[i].error, t.forest[i])
    ensures r.Or? || r.And? ==>
              |r.errors| == |t.forest| && forall i :: 0 <= i < |t.forest| ==> Heads(r.errors[i], t.forest[i])
    decreases t
  {
    var value := t.value;
    var forest := t.forest;
    if |forest| > 0 then
      var root := GetRoot(value.codec, value.actual, value.message);
      match root
      case LabeledProduct(actual, expected, _) =>
        ConvertFieldsKeys([], forest);
        LabeledProduct(actual, expected, ConvertFields([], forest))
      case IndexedProduct(actual, expected, _) =>
        IndexedProduct(actual, expected, ConvertElements(forest))
      case Or(actual, expected, _) =>
        Or(actual, expected, ConvertEach(forest))
      case And(actual, expected, _) =>
        And(actual, expected, ConvertEach(forest))
      case Leaf(_, _, _) => root
    else
      Leaf(value.actual, value.codec.name, value.message)
  }

  /** The entries of a converted `IndexedProduct`, `Or` or `And` are exactly the converted
      children, in forest order, an element under its child's key read as a number. */
  lemma {:induction false} ConvertChildren<A>(t: Tree<A>)
    ensures var r := Convert(t);
      (r.IndexedProduct? ==>
         forall i :: 0 <= i < |t.forest| ==>
           r.elements[i] == Element(NumericKey(t.forest[i].value.key), Convert(t.forest[i])))
      && (r.Or? || r.And? ==> forall i :: 0 <= i < |t.forest| ==> r.errors[i] == Convert(t.forest[i]))
  {
    if |t.forest| > 0 {
      var r := Convert(t);
      match GetRoot(t.value.codec, t.value.actual, t.value.message)
      case LabeledProduct(_, _, _) =>
      case IndexedProduct(_, _, _) => assert r.elements == ConvertElements(t.forest);
      case Or(_, _, _) => assert r.errors == ConvertEach(t.forest);
      case And(_, _, _) => assert r.errors == ConvertEach(t.forest);
      case Leaf(_, _, _) =>
    }
  }

  /** `forest.map(toDecodeError)`, filling an `Or` or an `And`. */
  function ConvertEach<A>(forest: seq<Tree<A>>): (r: seq<DecodeError<A>>)
    ensures |r| == |forest|
    ensures forall i :: 0 <= i < |forest| ==> r[i] == Convert(forest[i]) && Heads(r[i], forest[i])
    decreases forest
  {
    if |forest| == 0 then [] else [Convert(forest[0])] + ConvertEach(forest[1..])
  }

  /** `forest.map(subTree => [+subTree.value.key, toDecodeError(subTree)])`, filling an
      `IndexedProduct`. */
  function ConvertElements<A>(forest: seq<Tree<A>>): (r: seq<Element<A>>)
    ensures |r| == |forest|
    ensures forall i :: 0 <= i < |forest| ==>
              r[i] == Element(NumericKey(forest[i].value.key), Convert(forest[i])) && Heads(r[i].error, forest[i])
    decreases forest
  {
    if |forest| == 0 then []
    else [Element(NumericKey(forest[0].value.key), Convert(forest[0]))] + ConvertElements(forest[1..])
  }

  /** The `forEach` filling a `LabeledProduct`: each child assigned under its key, a repeated
      key overwriting the earlier value in place. */
  function ConvertFields<A>(acc: seq<Field<A>>, forest: seq<Tree<A>>): (r: seq<Field<A>>)
    ensures UniqueKeys(acc) ==> UniqueKeys(r)
    ensures |r| <= |acc| + |forest|
    decreases forest, 0
  {
    if |forest| == 0 then acc
    else
      var subTree := forest[0];
      ConvertFields(Put(acc, subTree.value.key, Convert(subTree)), forest[1..])
  }

  /** The keys after the `forEach` are the keys already present and the children's keys. */
  lemma {:induction false} ConvertFieldsKeys<A>(acc: seq<Field<A>>, forest: seq<Tree<A>>)
    ensures KeySet(ConvertFields(acc, forest)) == KeySet(acc) + ForestKeys(forest)
    decreases forest, 1
  {
    if |forest| == 0 {
      assert ForestKeys(forest) == {};
    } else {
      assert ForestKeys(forest) == {forest[0].value.key} + ForestKeys(forest[1..]) by {
        forall k | k in ForestKeys(forest) ensures k in {forest[0].value.key} + ForestKeys(forest[1..]) {
          var i :| 0 <= i < |forest| && forest[i].value.key == k;
          if i > 0 { assert forest[1..][i - 1].value.key == k; }
        }
        assert forall i :: 0 <= i < |forest[1..]| ==> forest[1..][i] == forest[i + 1];
      }
      var subTree := forest[0];
      ConvertFieldsKeys(Put(acc, subTree.value.key, Convert(subTree)), forest[1..]);
    }
  }

  /** `toDecodeError`: merge the reports into one tree and convert it. */
  function ToDecodeError<A>(errors: seq<ValidationError<A>>): (r: DecodeError<A>)
    requires |errors| > 0 && HasContexts(errors)
    ensures r.actual == errors[0].context[0].actual
    ensures r.expected == errors[0].context[0].codec.name
  {
    Convert(ToTree(errors))
  }

  /** Converting a tree produces at most one leaf per childless node; fewer when a repeated
      field key overwrites an earlier child. */
  lemma {:induction false} ConvertLeaves<A>(t: Tree<A>)
    ensures |Leaves(Convert(t))| <= TreeLeaves(t)
    decreases t
  {
    if |t.forest| > 0 {
      match GetRoot(t.value.codec, t.value.actual, t.value.message)
      case LabeledProduct(_, _, _) => ConvertFieldsLeaves([], t.forest);
      case IndexedProduct(_, _, _) => ConvertElementsLeaves(t.forest);
      case Or(_, _, _) => ConvertEachLeaves(t.forest, false);
      case And(_, _, _) => ConvertEachLeaves(t.forest, true);
      case Leaf(_, _, _) => TreeLeavesPositive(t.forest[0]);
    }
  }

  lemma {:induction false} ConvertEachLeaves<A>(forest: seq<Tree<A>>, conjunction: bool)
    ensures |MemberLeaves(ConvertEach(forest), conjunction)| <= ForestLeaves(forest)
    decreases forest
  {
    if |forest| > 0 {
      var r := ConvertEach(forest);
      assert r[0] == Convert(forest[0]) && r[1..] == ConvertEach(forest[1..]);
      ConvertLeaves(forest[0]);
      ConvertEachLeaves(forest[1..], conjunction);
    }
  }

  lemma {:induction false} ConvertElementsLeaves<A>(forest: seq<Tree<A>>)
    ensures |ElementLeaves(ConvertElements(forest))| <= ForestLeaves(forest)
    decreases forest
  {
    if |forest| > 0 {
      var r := ConvertElements(forest);
      assert r[0].error == Convert(forest[0]) && r[1..] == ConvertElements(forest[1..]);
      ConvertLeaves(forest[0]);
      ConvertElementsLeaves(forest[1..]);
    }
  }

  lemma {:induction false} ConvertFieldsLeaves<A>(acc: seq<Field<A>>, forest: seq<Tree<A>>)
    ensures |FieldLeaves(ConvertFields(acc, forest))| <= |FieldLeaves(acc)| + ForestLeaves(forest)
    decreases forest
  {
    if |forest| > 0 {
      var subTree := forest[0];
      var next := Put(acc, subTree.value.key, Convert(subTree));
      PutLeaves(acc, subTree.value.key, Convert(subTree));
      ConvertLeaves(subTree);
      ConvertFieldsLeaves(next, forest[1..]);
    }
  }

  /** `toDecodeError` never reports more failures than it was given. */
  lemma ToDecodeErrorLeaves<A>(errors: seq<ValidationError<A>>)
    requires |errors| > 0 && HasContexts(errors)
    ensures |Leaves(ToDecodeError(errors))| <= |errors|
  {
    ConvertLeaves(ToTree(errors));
    ToTreeLeaves(errors);
  }
}
