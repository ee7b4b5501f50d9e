/**
  `toErrors` against `toDecodeError`: for a single report whose every step is one `toErrors` can
  re-derive, converting to a `DecodeError` and back gives the report again. Also the two places
  where the source's wrapper handling breaks this.
*/
module RoundTrip {
  import opened Wrappers
  import opened Codecs
  import opened Validation
  import opened IndexKeys
  import opened DecodeErrors
  import opened ErrorTree
  import opened Conversion
  import opened Flatten

  /** `entry` is a path step under a value checked against `parent` that can be told apart from
      its codec name: a dictionary's domain or codomain (chosen by name), a declared property, a
      tuple component or array element under its index, or the first member carrying its name. */
  predicate ChildOf<A>(parent: Codec, entry: ContextEntry<A>)
  {
    match Base(parent)
    case Dictionary(_, _, domain, codomain) =>
      entry.codec == if entry.codec.name == domain.name then domain else codomain
    case Interface(_, _, props) => entry.key in props && props[entry.key] == entry.codec
    case Partial(_, _, props) => entry.key in props && props[entry.key] == entry.codec
    case Tuple(_, _, types) =>
      IsIndexKey(entry.key) && NumericKey(entry.key) < |types| && types[NumericKey(entry.key)] == entry.codec
    case ArrayOf(_, _, elem) => IsIndexKey(entry.key) && entry.codec == elem
    case ReadonlyArray(_, _, elem) => IsIndexKey(entry.key) && entry.codec == elem
    case Union(_, _, types) =>
      var k := IndexOfName(types, entry.codec.name);
      k != -1 && entry.key == NatString(k) && types[k] == entry.codec
    case Intersection(_, _, types) =>
      var k := IndexOfName(types, entry.codec.name);
      k != -1 && entry.key == NatString(k) && types[k] == entry.codec
    case _ => false
  }

  /** Every step of the context from `from` on is a `ChildOf` step. */
  ghost predicate Derivable<A>(context: Context<A>, from: nat)
  {
    forall j :: from <= j < |context| - 1 ==> ChildOf(context[j].codec, context[j + 1])
  }

  /** A node with one child whose step is a `ChildOf` step: walking its conversion appends the
      child's entry and then does what walking the child's conversion does. */
  ghost predicate OneStep<A>(t: Tree<A>, entry: ContextEntry<A>)
  {
    |t.forest| == 1
    && t.forest[0].value.key == entry.key
    && t.forest[0].value.actual == entry.actual
    && t.forest[0].value.codec == entry.codec
    && ChildOf(t.value.codec, entry)
  }

  lemma StepLabeled<A>(t: Tree<A>, prefix: Context<A>, entry: ContextEntry<A>, rest: seq<ValidationError<A>>, mode: Mode)
    requires OneStep(t, entry) && ShellShape(Base(t.value.codec)) == LabeledShape
    requires Walk(Convert(t.forest[0]), prefix + [entry], entry.codec, mode) == Some(rest)
    ensures Walk(Convert(t), prefix, Base(t.value.codec), mode) == Some(rest)
  {
    var child := Convert(t.forest[0]);
    var e := Convert(t);
    assert t.forest[1..] == [];
    assert ConvertFields([], t.forest) == ConvertFields(Put([], entry.key, child), []);
    assert e.fields == [Field(entry.key, child)];
    var b := Base(t.value.codec);
    assert FieldCodec(b, entry.key, child.expected) == Some(entry.codec);
    assert Append(prefix, entry.key, entry.codec, child) == prefix + [entry];
    assert e.fields[1..] == [];
    assert WalkFields(e.fields[1..], prefix, b, mode) == Some([]);
    assert rest + [] == rest;
    assert WalkFields(e.fields, prefix, b, mode) == Some(rest);
    assert Walk(e, prefix, b, mode) == WalkFields(e.fields, prefix, b, mode);
  }

  lemma StepIndexed<A>(t: Tree<A>, prefix: Context<A>, entry: ContextEntry<A>, rest: seq<ValidationError<A>>, mode: Mode)
    requires OneStep(t, entry) && ShellShape(Base(t.value.codec)) == IndexedShape
    requires Walk(Convert(t.forest[0]), prefix + [entry], entry.codec, mode) == Some(rest)
    ensures Walk(Convert(t), prefix, Base(t.value.codec), mode) == Some(rest)
  {
    var child := Convert(t.forest[0]);
    var e := Convert(t);
    var index := NumericKey(entry.key);
    assert t.forest[1..] == [];
    assert ConvertElements(t.forest) == [Element(index, child)] + ConvertElements([]);
    assert e.elements == [Element(index, child)];
    assert IsIndexKey(entry.key);
    assert IntString(index) == entry.key;
    var b := Base(t.value.codec);
    assert ElementCodec(b, index) == Some(entry.codec);
    assert Append(prefix, entry.key, entry.codec, child) == prefix + [entry];
    assert e.elements[1..] == [];
    assert WalkElements(e.elements[1..], prefix, b, mode) == Some([]);
    assert rest + [] == rest;
    assert WalkElements(e.elements, prefix, b, mode) == Some(rest);
    assert Walk(e, prefix, b, mode) == WalkElements(e.elements, prefix, b, mode);
  }

  lemma StepMembers<A>(t: Tree<A>, prefix: Context<A>, entry: ContextEntry<A>, rest: seq<ValidationError<A>>, mode: Mode)
    requires OneStep(t, entry)
    requires ShellShape(Base(t.value.codec)) == OrShape || ShellShape(Base(t.value.codec)) == AndShape
    requires Walk(Convert(t.forest[0]), prefix + [entry], entry.codec, mode) == Some(rest)
    ensures Walk(Convert(t), prefix, Base(t.value.codec), mode) == Some(rest)
  {
    var child := Convert(t.forest[0]);
    var e := Convert(t);
    assert t.forest[1..] == [];
    assert ConvertEach(t.forest) == [child] + ConvertEach([]);
    assert e.errors == [child];
    var b := Base(t.value.codec);
    var k := IndexOfName(b.types, child.expected);
    assert Members(b) == Some(b.types) && k != -1 && b.types[k] == entry.codec;
    assert Append(prefix, NatString(k), entry.codec, child) == prefix + [entry];
    assert e.errors[1..] == [];
    assert WalkMembers(e.errors[1..], prefix, b, mode) == Some([]);
    assert rest + [] == rest;
    assert WalkMembers(e.errors, prefix, b, mode) == Some(rest);
    assert Walk(e, prefix, b, mode) == WalkMembers(e.errors, prefix, b, mode);
  }

  /** The as-written walk reaches the children of a node checked against `c` as the corrected
      walk does: `c` is no wrapper, or it wraps a codec with labeled children, or it is a stack
      of `Exact` wrappers over an intersection. */
  predicate AsWrittenSeesThrough(c: Codec)
  {
    !IsWrapper(c) || ShellShape(Base(c)) == LabeledShape || (Base(c).Intersection? && StripExact(c) == Base(c))
  }

  lemma Step<A>(t: Tree<A>, prefix: Context<A>, entry: ContextEntry<A>, rest: seq<ValidationError<A>>, mode: Mode)
    requires OneStep(t, entry)
    requires mode == Corrected || AsWrittenSeesThrough(t.value.codec)
    requires Walk(Convert(t.forest[0]), prefix + [entry], entry.codec, mode) == Some(rest)
    ensures Walk(Convert(t), prefix, t.value.codec, mode) == Some(rest)
  {
    var codec := t.value.codec;
    var shape := ShellShape(Base(codec));
    assert shape != LeafShape;
    if mode == Corrected {
      CorrectedSeesThroughWrappers(Convert(t), prefix, codec);
    } else if shape == LabeledShape {
      AsWrittenLabeledSeesThroughWrappers(Convert(t), prefix, codec);
    } else if IsWrapper(codec) {
      AsWrittenAndSeesThroughExact(Convert(t), prefix, codec);
    }
    if shape == LabeledShape {
      StepLabeled(t, prefix, entry, rest, mode);
    } else if shape == IndexedShape {
      StepIndexed(t, prefix, entry, rest, mode);
    } else {
      StepMembers(t, prefix, entry, rest, mode);
    }
  }

  /** The suffix of a chain from entry i, converted and walked from the prefix ending at entry i,
      emits the whole context once. */
  lemma {:induction false} WalkChain<A>(context: Context<A>, message: Option<string>, i: nat, mode: Mode)
    requires i < |context| && Derivable(context, i)
    requires mode == Corrected || forall j :: i <= j < |context| - 1 ==> AsWrittenSeesThrough(context[j].codec)
    ensures Walk(Convert(FromContext(context[i..], message)), context[..i + 1], context[i].codec, mode)
            == Some([ValidationError(context[|context| - 1].actual, context, message)])
    decreases |context| - i
  {
    if i == |context| - 1 {
      ChainEnd(context, message, mode);
    } else {
      var entry := context[i + 1];
      ChainStep(context, message, i);
      assert context[..i + 1] + [entry] == context[..i + 2];
      WalkChain(context, message, i + 1, mode);
      Step(FromContext(context[i..], message), context[..i + 1], entry,
           [ValidationError(context[|context| - 1].actual, context, message)], mode);
    }
  }

  /** The last entry alone becomes a leaf, which the walk reports with the whole context. */
  lemma ChainEnd<A>(context: Context<A>, message: Option<string>, mode: Mode)
    requires |context| > 0
    ensures var i := |context| - 1;
            Walk(Convert(FromContext(context[i..], message)), context[..i + 1], context[i].codec, mode)
            == Some([ValidationError(context[i].actual, context, message)])
  {
    var i := |context| - 1;
    assert context[i..][1..] == [];
    assert context[..i + 1] == context;
  }

  /** The chain built from entry i on is a derivable step to the chain built from entry i + 1. */
  lemma ChainStep<A>(context: Context<A>, message: Option<string>, i: nat)
    requires i < |context| - 1 && Derivable(context, i)
    ensures var t := FromContext(context[i..], message);
            t.value.codec == context[i].codec
            && t.forest == [FromContext(context[i + 1..], message)]
            && OneStep(t, context[i + 1])
  {
  }

  /** Round trip for one report: converting a derivable report rooted at key "" to a
      `DecodeError` and walking it back against the root codec gives the report. */
  lemma RoundTripChain<A>(err: ValidationError<A>)
    requires |err.context| > 0 && err.context[0].key == ""
    requires Derivable(err.context, 0)
    requires err.value == err.context[|err.context| - 1].actual
    ensures ToErrors(ToDecodeError([err]), err.context[0].codec) == Some([err])
  {
    var context := err.context;
    WalkChain(context, err.message, 0, Corrected);
    assert context[0..] == context;
    ToTreeSingle(err);
    assert [GetContextEntry(ToDecodeError([err]), "", context[0].codec)] == context[..1];
  }

  /** The same round trip for `toErrors` as written, when no step of the report goes through a
      wrapper that the source fails to see through. */
  lemma RoundTripChainAsWritten<A>(err: ValidationError<A>)
    requires |err.context| > 0 && err.context[0].key == ""
    requires Derivable(err.context, 0)
    requires forall j :: 0 <= j < |err.context| - 1 ==> AsWrittenSeesThrough(err.context[j].codec)
    requires err.value == err.context[|err.context| - 1].actual
    ensures ToErrorsAsWritten(ToDecodeError([err]), err.context[0].codec) == Some([err])
  {
    var context := err.context;
    WalkChain(context, err.message, 0, AsWritten);
    assert context[0..] == context;
    ToTreeSingle(err);
    assert [GetContextEntry(ToDecodeError([err]), "", context[0].codec)] == context[..1];
  }

  /** Whatever the reports, converting them and walking the result back never yields more
      reports than there were: one per leaf, and at most one leaf per report. */
  lemma ReportsNeverMultiply<A>(errors: seq<ValidationError<A>>, codec: Codec)
    requires |errors| > 0 && HasContexts(errors)
    ensures var r := ToErrors(ToDecodeError(errors), codec); r.Some? ==> |r.value| <= |errors|
    ensures var r := ToErrorsAsWritten(ToDecodeError(errors), codec); r.Some? ==> |r.value| <= |errors|
  {
    ToDecodeErrorLeaves(errors);
  }

  /** `t.recursion('List', () => t.array(t.string))`, and a report of a bad first element. */
  const ListElement := Other(3, "string")
  const ListArray := ArrayOf(2, "Array<string>", ListElement)
  const List := Recursive(1, "List", ListArray)

  function ListReport<A>(v: A, x: A, message: Option<string>): ValidationError<A>
  {
    ValidationError(x, [ContextEntry("", v, List), ContextEntry("0", x, ListElement)], message)
  }

  lemma ListDecodeError<A>(v: A, x: A, message: Option<string>)
    ensures ToDecodeError([ListReport(v, x, message)])
            == IndexedProduct(v, "List", [Element(0, Leaf(x, "string", message))])
  {
    var err := ListReport(v, x, message);
    ToTreeSingle(err);
    NumericKeyOfNatString(0);
    assert NatString(0) == "0";
    var leafTree := Tree(Node("0", x, ListElement, message), []);
    assert err.context[1..] == [err.context[1]];
    assert FromContext(err.context[1..], message) == leafTree;
    assert FromError(err) == Tree(Node("", v, List, None), [leafTree]);
    assert Convert(leafTree) == Leaf(x, "string", message);
    assert [leafTree][1..] == [];
    assert ConvertElements([leafTree]) == [Element(0, Leaf(x, "string", message))] + ConvertElements([]);
  }

  /** Under a recursive codec over an array, the source takes the wrapper's `type` (the array
      codec itself) as the element codec, so the walk back records the array codec where the
      report had the element codec; the corrected walk gives the report back. */
  lemma RecursiveArrayCounterexample<A>(v: A, x: A, message: Option<string>)
    ensures ToErrors(ToDecodeError([ListReport(v, x, message)]), List) == Some([ListReport(v, x, message)])
    ensures ToErrorsAsWritten(ToDecodeError([ListReport(v, x, message)]), List)
            == Some([ValidationError(x, [ContextEntry("", v, List), ContextEntry("0", x, ListArray)], message)])
  {
    var err := ListReport(v, x, message);
    NatStringIsIndexKey(0);
    assert NatString(0) == "0";
    assert Base(List) == ListArray;
    assert ChildOf(List, err.context[1]);
    RoundTripChain(err);
    ListDecodeError(v, x, message);
    ListWalkAsWritten(v, x, message);
  }

  /** The as-written walk of the list's error: the element is found under `List` itself, whose
      `type` is the array codec. */
  lemma ListWalkAsWritten<A>(v: A, x: A, message: Option<string>)
    ensures ToErrorsAsWritten(IndexedProduct(v, "List", [Element(0, Leaf(x, "string", message))]), List)
            == Some([ValidationError(x, [ContextEntry("", v, List), ContextEntry("0", x, ListArray)], message)])
  {
    assert NatString(0) == "0";
    var leaf := Leaf(x, "string", message);
    var root := [ContextEntry("", v, List)];
    var context := root + [ContextEntry("0", x, ListArray)];
    var walked := [ValidationError(x, context, message)];
    assert Walk(leaf, context, ListArray, AsWritten) == Some(walked);
    assert WalkElements([Element(0, leaf)][1..], root, List, AsWritten) == Some([]);
    assert walked + [] == walked;
    assert WalkElements([Element(0, leaf)], root, List, AsWritten) == Some(walked);
    assert context == [ContextEntry("", v, List), ContextEntry("0", x, ListArray)];
  }

  /** `t.readonly(t.intersection([t.type({ a: t.string }), t.type({ b: t.number })]))`, and a
      report of a bad `a` found through the first member. */
  const FieldA := Other(4, "string")
  const MemberA := Interface(3, "{ a: string }", map["a" := FieldA])
  const MemberB := Interface(5, "{ b: number }", map["b" := Other(6, "number")])
  const Both := Intersection(2, "({ a: string } & { b: number })", [MemberA, MemberB])
  const ReadonlyBoth := Readonly(1, "Readonly<({ a: string } & { b: number })>", Both)

  function ReadonlyReport<A>(v: A, x: A, message: Option<string>): ValidationError<A>
  {
    ValidationError(x, [ContextEntry("", v, ReadonlyBoth), ContextEntry("0", v, MemberA), ContextEntry("a", x, FieldA)], message)
  }

  /** Under a read-only intersection, the source reads `types` of the read-only codec, which has
      none, so the walk back fails where the corrected walk gives the report back. */
  lemma ReadonlyIntersectionCounterexample<A>(v: A, x: A, message: Option<string>)
    ensures ToErrors(ToDecodeError([ReadonlyReport(v, x, message)]), ReadonlyBoth) == Some([ReadonlyReport(v, x, message)])
    ensures ToErrorsAsWritten(ToDecodeError([ReadonlyReport(v, x, message)]), ReadonlyBoth) == None
  {
    var err := ReadonlyReport(v, x, message);
    assert Base(ReadonlyBoth) == Both;
    assert NatString(0) == "0";
    assert IndexOfName(Both.types, MemberA.name) == 0;
    assert ChildOf(ReadonlyBoth, err.context[1]);
    assert ChildOf(MemberA, err.context[2]);
    RoundTripChain(err);
    ToTreeSingle(err);
    var tree := FromError(err);
    assert |tree.forest| == 1;
    var e := Convert(tree);
    assert e.And? && |e.errors| == 1;
    AsWrittenMembersUnderWrapper(e, [ContextEntry("", v, ReadonlyBoth)], ReadonlyBoth);
  }
}
