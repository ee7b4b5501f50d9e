/**
  Two examples of the converter's tests, each with all its reports: `"a"` against
  `t.union([t.boolean, NumberFromString], 'T')`, and `{}` against a `t.type` with three
  properties.
*/
module Scenarios {
  import opened Wrappers
  import opened Codecs
  import opened Validation
  import opened DecodeErrors
  import opened ErrorTree
  import opened Conversion
  import opened Flatten
  import opened IndexKeys
  import opened RoundTrip
  import opened FieldAssignment
  import opened TreeWalk

  const BooleanCodec := Other(2, "boolean")
  const NumberFromString := Other(3, "NumberFromString")
  const UnionT := Union(1, "T", [BooleanCodec, NumberFromString])
  const ParseMessage := "cannot parse to a number"

  const BooleanReport := ValidationError("a", [ContextEntry("", "a", UnionT), ContextEntry("0", "a", BooleanCodec)], None)
  const ParseReport := ValidationError("a", [ContextEntry("", "a", UnionT), ContextEntry("1", "a", NumberFromString)], Some(ParseMessage))

  /** The two reports merge under the shared root into one `Or`, in report order. */
  lemma UnionDecodeError()
    ensures ToDecodeError([BooleanReport, ParseReport])
            == Or("a", "T", [Leaf("a", "boolean", None), Leaf("a", "NumberFromString", Some(ParseMessage))])
  {
    var first := FromError(BooleanReport);
    var second := FromError(ParseReport);
    var l1 := Tree(Node("0", "a", BooleanCodec, None), []);
    var l2 := Tree(Node("1", "a", NumberFromString, Some(ParseMessage)), []);
    assert BooleanReport.context[1..] == [BooleanReport.context[1]];
    assert ParseReport.context[1..] == [ParseReport.context[1]];
    assert FromContext(BooleanReport.context[1..], None) == l1;
    assert FromContext(ParseReport.context[1..], Some(ParseMessage)) == l2;
    assert first == Tree(Node("", "a", UnionT, None), [l1]);
    assert second == Tree(Node("", "a", UnionT, None), [l2]);
    ToTreeSingle(BooleanReport);
    ToTreeSnoc([BooleanReport], ParseReport);
    assert [BooleanReport] + [ParseReport] == [BooleanReport, ParseReport];
    assert NoSlot([l1], l2.value);
    assert ConcatForest([l1], [l2]) == ConcatForest([l1, l2], []);
    var tree := Tree(Node("", "a", UnionT, None), [l1, l2]);
    assert ToTree([BooleanReport, ParseReport]) == tree;
    var leaf1 := Leaf("a", "boolean", None);
    var leaf2 := Leaf("a", "NumberFromString", Some(ParseMessage));
    assert Convert(l1) == leaf1;
    assert Convert(l2) == leaf2;
    assert [l1, l2][1..] == [l2] && [l2][1..] == [];
    assert ConvertEach([l2]) == [leaf2] + ConvertEach([]);
    assert ConvertEach([l1, l2]) == [leaf1] + ConvertEach([l2]);
  }

  const Root := [ContextEntry("", "a", UnionT)]
  const BooleanLeaf := Leaf("a", "boolean", None)
  const ParseLeaf := Leaf("a", "NumberFromString", Some(ParseMessage))

  /** The second member alone: found at index 1 by name, giving the parse failure's report. */
  lemma WalkParseMember()
    ensures WalkMembers([ParseLeaf], Root, UnionT, Corrected) == Some([ParseReport])
  {
    assert IndexOfName(UnionT.types, "NumberFromString") == 1;
    assert NatString(1) == "1";
    assert Append(Root, "1", NumberFromString, ParseLeaf) == ParseReport.context;
    assert Walk(ParseLeaf, ParseReport.context, NumberFromString, Corrected) == Some([ParseReport]);
    assert [ParseLeaf][1..] == [];
    assert [ParseReport] + [] == [ParseReport];
  }

  lemma WalkBothMembers()
    ensures WalkMembers([BooleanLeaf, ParseLeaf], Root, UnionT, Corrected) == Some([BooleanReport, ParseReport])
  {
    WalkParseMember();
    assert IndexOfName(UnionT.types, "boolean") == 0;
    assert NatString(0) == "0";
    assert Append(Root, "0", BooleanCodec, BooleanLeaf) == BooleanReport.context;
    assert Walk(BooleanLeaf, BooleanReport.context, BooleanCodec, Corrected) == Some([BooleanReport]);
    assert [BooleanLeaf, ParseLeaf][1..] == [ParseLeaf];
    assert [BooleanReport] + [ParseReport] == [BooleanReport, ParseReport];
  }

  /** Walking the `Or` back against the union finds each member by name and returns both
      reports. */
  lemma UnionScenario()
    ensures ToDecodeError([BooleanReport, ParseReport]) == Or("a", "T", [BooleanLeaf, ParseLeaf])
    ensures ToErrors(ToDecodeError([BooleanReport, ParseReport]), UnionT) == Some([BooleanReport, ParseReport])
  {
    UnionDecodeError();
    WalkBothMembers();
    var e := Or("a", "T", [BooleanLeaf, ParseLeaf]);
    assert GetContextEntry(e, "", UnionT) == Root[0];
    assert ToErrors(e, UnionT) == WalkMembers([BooleanLeaf, ParseLeaf], Root, UnionT, Corrected);
  }

  const StringCodec := Other(12, "string")
  const NumberCodec := Other(13, "number")
  const C := Interface(11, "C", map["d" := Other(14, "boolean")])
  const TypeLabeledProduct := Interface(10, "TypeLabeledProduct", map["a" := StringCodec, "b" := NumberCodec, "c" := C])

  /** Decoding `v` (`{}`) against `TypeLabeledProduct`: each of the three properties is `u`
      (`undefined`) and fails, `c` as a whole since it is not an object. */
  function MissingReports<A>(v: A, u: A): seq<ValidationError<A>>
  {
    [ValidationError(u, [ContextEntry("", v, TypeLabeledProduct), ContextEntry("a", u, StringCodec)], None),
     ValidationError(u, [ContextEntry("", v, TypeLabeledProduct), ContextEntry("b", u, NumberCodec)], None),
     ValidationError(u, [ContextEntry("", v, TypeLabeledProduct), ContextEntry("c", u, C)], None)]
  }

  function MissingTree<A>(v: A, u: A): Tree<A>
  {
    Tree(Node("", v, TypeLabeledProduct, None),
         [Tree(Node("a", u, StringCodec, None), []),
          Tree(Node("b", u, NumberCodec, None), []),
          Tree(Node("c", u, C, None), [])])
  }

  /** A report one level below the root is the root with one childless child. */
  lemma OneLevelChain<A>(v: A, u: A, key: string, codec: Codec)
    ensures FromError(ValidationError(u, [ContextEntry("", v, TypeLabeledProduct), ContextEntry(key, u, codec)], None))
            == Tree(Node("", v, TypeLabeledProduct, None), [Tree(Node(key, u, codec, None), [])])
  {
    var context := [ContextEntry("", v, TypeLabeledProduct), ContextEntry(key, u, codec)];
    assert context[1..] == [context[1]];
    assert FromContext(context[1..], None) == Tree(Node(key, u, codec, None), []);
  }

  /** The three chains merge under the shared root, in report order. */
  lemma MissingToTree<A>(v: A, u: A)
    ensures HasContexts(MissingReports(v, u))
    ensures ToTree(MissingReports(v, u)) == MissingTree(v, u)
  {
    var rs := MissingReports(v, u);
    var root := Node("", v, TypeLabeledProduct, None);
    var la := Tree(Node("a", u, StringCodec, None), []);
    var lb := Tree(Node("b", u, NumberCodec, None), []);
    var lc := Tree(Node("c", u, C, None), []);
    OneLevelChain(v, u, "a", StringCodec);
    OneLevelChain(v, u, "b", NumberCodec);
    OneLevelChain(v, u, "c", C);
    ToTreeSingle(rs[0]);
    ToTreeSnoc([rs[0]], rs[1]);
    assert [rs[0]] + [rs[1]] == rs[..2];
    assert NoSlot([la], lb.value);
    assert ConcatForest([la], [lb]) == ConcatForest([la, lb], []);
    assert ToTree(rs[..2]) == Tree(root, [la, lb]);
    ToTreeSnoc(rs[..2], rs[2]);
    assert rs[..2] + [rs[2]] == rs;
    assert NoSlot([la, lb], lc.value);
    assert ConcatForest([la, lb], [lc]) == ConcatForest([la, lb, lc], []);
  }

  /** Every property of the tree is declared with the codec of its node. */
  lemma MissingWalkable<A>(v: A, u: A)
    ensures WalkableTree(MissingTree(v, u), Corrected) && WalkableTree(MissingTree(v, u), AsWritten)
  {
    var t := MissingTree(v, u);
    assert DistinctKeys(t.forest);
    forall i, mode: Mode | 0 <= i < 3
      ensures ChildOf(TypeLabeledProduct, EntryOf(t.forest[i].value)) && WalkableTree(t.forest[i], mode)
    {
    }
  }

  /** The reports the tree stands for are the three reports. */
  lemma MissingTreeReports<A>(v: A, u: A)
    ensures TreeReports(MissingTree(v, u), [ContextEntry("", v, TypeLabeledProduct)]) == MissingReports(v, u)
  {
    var t := MissingTree(v, u);
    var rootEntry := [ContextEntry("", v, TypeLabeledProduct)];
    var rs := MissingReports(v, u);
    var f := t.forest;
    assert f[1..] == [f[1], f[2]] && f[1..][1..] == [f[2]] && f[1..][1..][1..] == [];
    assert rootEntry + [EntryOf(f[2].value)] == rs[2].context;
    assert TreeReports(f[2], rs[2].context) == [rs[2]];
    assert ForestReports(f[1..][1..], rootEntry) == [rs[2]];
    assert rootEntry + [EntryOf(f[1].value)] == rs[1].context;
    assert TreeReports(f[1], rs[1].context) == [rs[1]];
    assert ForestReports(f[1..], rootEntry) == [rs[1], rs[2]];
    assert rootEntry + [EntryOf(f[0].value)] == rs[0].context;
    assert TreeReports(f[0], rs[0].context) == [rs[0]];
    assert ForestReports(f, rootEntry) == [rs[0], rs[1], rs[2]];
  }

  /** The three children become three fields, in order. */
  lemma MissingConvert<A>(v: A, u: A)
    ensures Convert(MissingTree(v, u))
            == LabeledProduct(v, "TypeLabeledProduct",
                 [Field("a", Leaf(u, "string", None)), Field("b", Leaf(u, "number", None)), Field("c", Leaf(u, "C", None))])
  {
    var t := MissingTree(v, u);
    assert DistinctKeys(t.forest);
    ConvertDistinctFields([], t.forest);
    LabeledFields(t);
    var f := t.forest;
    assert f[1..] == [f[1], f[2]] && f[1..][1..] == [f[2]] && f[1..][1..][1..] == [];
    assert FieldsOf(f[1..][1..]) == [Field("c", Leaf(u, "C", None))];
    assert FieldsOf(f[1..]) == [Field("b", Leaf(u, "number", None)), Field("c", Leaf(u, "C", None))];
    assert [] + FieldsOf(f) == FieldsOf(f);
  }

  /** `labeledProduct({}, 'TypeLabeledProduct', { a: leaf(undefined, 'string'), b: leaf(undefined,
      'number'), c: leaf(undefined, 'C') })`, and both walks give the three reports back. */
  lemma LabeledScenario<A>(v: A, u: A)
    ensures ToDecodeError(MissingReports(v, u))
            == LabeledProduct(v, "TypeLabeledProduct",
                 [Field("a", Leaf(u, "string", None)), Field("b", Leaf(u, "number", None)), Field("c", Leaf(u, "C", None))])
    ensures ToErrors(ToDecodeError(MissingReports(v, u)), TypeLabeledProduct) == Some(MissingReports(v, u))
    ensures ToErrorsAsWritten(ToDecodeError(MissingReports(v, u)), TypeLabeledProduct) == Some(MissingReports(v, u))
  {
    var rs := MissingReports(v, u);
    MissingToTree(v, u);
    MissingWalkable(v, u);
    MissingTreeReports(v, u);
    MissingConvert(v, u);
    RoundTripTree(rs);
    RoundTripTreeAsWritten(rs);
  }
}
