/**
  `toErrors`: the walk from a `DecodeError` back to the flat report, re-deriving at every step
  the codec of the child from the parent codec.

  A lookup that throws in the source (`props` or `types` of a codec without them) or yields
  `undefined` there (a missing `type`, an undeclared key, a member index of -1, a tuple index out
  of range) makes the whole result `None`.
*/
module Flatten {
  import opened Wrappers
  import opened Codecs
  import opened Validation
  import opened IndexKeys
  import opened DecodeErrors

  /** `AsWritten` unwraps a wrapper codec only where the source does (a `LabeledProduct` under
      any wrapper, an `And` under `Exact`); `Corrected` unwraps it under every compound error. */
  datatype Mode = AsWritten | Corrected

  predicate Unwraps<A>(e: DecodeError<A>, codec: Codec, mode: Mode)
  {
    match mode
    case AsWritten => (e.LabeledProduct? && IsWrapper(codec)) || (e.And? && codec.Exact?)
    case Corrected => !e.Leaf? && IsWrapper(codec)
  }

  function GetContextEntry<A>(e: DecodeError<A>, key: string, codec: Codec): ContextEntry<A>
  {
    ContextEntry(key, e.actual, codec)
  }

  /** The codec of a named field: a dictionary's domain when the field error names it, its
      codomain otherwise; a declared property of an interface or partial codec. */
  function FieldCodec(codec: Codec, key: string, expected: string): Option<Codec>
  {
    match codec
    case Dictionary(_, _, domain, codomain) => Some(if expected == domain.name then domain else codomain)
    case Interface(_, _, props) => if key in props then Some(props[key]) else None
    case Partial(_, _, props) => if key in props then Some(props[key]) else None
    case _ => None
  }

  /** The codec of a position: the tuple component at that index, or the uniform `type` of any
      other codec that has one (array element, or the wrapped codec of a wrapper). */
  function ElementCodec(codec: Codec, index: int): Option<Codec>
  {
    match codec
    case Tuple(_, _, types) => if 0 <= index < |types| then Some(types[index]) else None
    case ArrayOf(_, _, elem) => Some(elem)
    case ReadonlyArray(_, _, elem) => Some(elem)
    case Exact(_, _, inner) => Some(inner)
    case Readonly(_, _, inner) => Some(inner)
    case Recursive(_, _, inner) => Some(inner)
    case _ => None
  }

  /** `codec.types`, which the union, intersection and tuple codecs have. */
  function Members(codec: Codec): Option<seq<Codec>>
  {
    match codec
    case Tuple(_, _, types) => Some(types)
    case Union(_, _, types) => Some(types)
    case Intersection(_, _, types) => Some(types)
    case _ => None
  }

  /** `types.findIndex(codec => codec.name === name)`: the first member with that name, or -1. */
  function IndexOfName(types: seq<Codec>, name: string): (k: int)
    ensures -1 <= k < |types|
    ensures k == -1 <==> forall i :: 0 <= i < |types| ==> types[i].name != name
    ensures k != -1 ==> types[k].name == name && forall i :: 0 <= i < k ==> types[i].name != name
    decreases |types|
  {
    if |types| == 0 then -1
    else if types[0].name == name then 0
    else
      var k := IndexOfName(types[1..], name);
      if k == -1 then -1 else k + 1
  }

  /** The codec whose `props`, `types` or `type` the walk reads to find a child reached by step
      `s` under a parent checked against `parent`. As written, a field sees through every
      wrapper, an element and a member of an `Or` read the parent itself, and a member of an
      `And` sees through `Exact` only; corrected, every step sees through every wrapper. */
  function ReadCodec<A>(parent: Codec, s: PathStep<A>, mode: Mode): Codec
  {
    match mode
    case Corrected => Base(parent)
    case AsWritten =>
      match s
      case FieldStep(_, _, _) => Base(parent)
      case ElementStep(_, _, _) => parent
      case MemberStep(conjunction, _, _) => if conjunction then StripExact(parent) else parent
  }

  /** `entry` holds the first of `types` named `name`, under its index. */
  ghost predicate FirstNamed<A>(types: seq<Codec>, name: string, entry: ContextEntry<A>)
  {
    exists k :: 0 <= k < |types| && types[k] == entry.codec && entry.key == NatString(k)
      && types[k].name == name && forall j :: 0 <= j < k ==> types[j].name != name
  }

  /** `entry` is the context entry for the child reached by step `s` when the codec read is
      `read`. It holds the child's value, and
      - for a field: the field key, with a dictionary's domain when the child is named after it
        (its codomain otherwise), or the property an interface or partial codec declares;
      - for an element: `String(index)`, with the tuple component at the index, an array's
        element codec, or the codec a wrapper wraps;
      - for a member: the index of the first member carrying the child's name, with that member. */
  ghost predicate Resolves<A>(read: Codec, s: PathStep<A>, entry: ContextEntry<A>)
  {
    entry.actual == s.actual &&
    match s
    case FieldStep(key, _, expected) =>
      entry.key == key &&
      (match read
       case Dictionary(_, _, domain, codomain) => entry.codec == (if expected == domain.name then domain else codomain)
       case Interface(_, _, props) => key in props && entry.codec == props[key]
       case Partial(_, _, props) => key in props && entry.codec == props[key]
       case _ => false)
    case ElementStep(index, _, _) =>
      entry.key == IntString(index) &&
      (match read
       case Tuple(_, _, types) => 0 <= index < |types| && entry.codec == types[index]
       case ArrayOf(_, _, elem) => entry.codec == elem
       case ReadonlyArray(_, _, elem) => entry.codec == elem
       case Exact(_, _, inner) => entry.codec == inner
       case Readonly(_, _, inner) => entry.codec == inner
       case Recursive(_, _, inner) => entry.codec == inner
       case _ => false)
    case MemberStep(_, _, expected) =>
      match read
      case Tuple(_, _, types) => FirstNamed(types, expected, entry)
      case Union(_, _, types) => FirstNamed(types, expected, entry)
      case Intersection(_, _, types) => FirstNamed(types, expected, entry)
      case _ => false
  }

  /** Report `r` is leaf `leaf` emitted below `context`: it has the leaf's value and message, and
      its context extends `context` by one entry per step of the leaf's path, each entry after
      the first being the one that step resolves to under the entry before it. */
  ghost predicate Follows<A>(r: ValidationError<A>, leaf: LeafAt<A>, context: Context<A>, mode: Mode)
  {
    r.value == leaf.actual && r.message == leaf.message
    && |r.context| == |context| + |leaf.path| && r.context[..|context|] == context
    && forall j :: 1 <= j < |leaf.path| ==>
         Resolves(ReadCodec(r.context[|context| + j - 1].codec, leaf.path[j], mode), leaf.path[j], r.context[|context| + j])
  }

  /** The reports `r` are the leaves `ls` emitted below `context`, one per leaf and in order, and
      the first step of every leaf resolves against the codec `read`. */
  ghost predicate EmitsReading<A>(r: seq<ValidationError<A>>, ls: seq<LeafAt<A>>, context: Context<A>, read: Codec, mode: Mode)
  {
    |r| == |ls|
    && forall i :: 0 <= i < |r| ==>
         Follows(r[i], ls[i], context, mode)
         && (|ls[i].path| > 0 ==> Resolves(read, ls[i].path[0], r[i].context[|context|]))
  }

  /** The reports `r` are the leaves `ls` emitted below `context`, one per leaf and in order, by a
      walk under the codec `parent`. */
  ghost predicate Emits<A>(r: seq<ValidationError<A>>, ls: seq<LeafAt<A>>, context: Context<A>, parent: Codec, mode: Mode)
  {
    |r| == |ls|
    && forall i :: 0 <= i < |r| ==>
         Follows(r[i], ls[i], context, mode)
         && (|ls[i].path| > 0 ==>
               Resolves(ReadCodec(parent, ls[i].path[0], mode), ls[i].path[0], r[i].context[|context|]))
  }

  lemma EmitsConcat<A>(r1: seq<ValidationError<A>>, l1: seq<LeafAt<A>>,
                       r2: seq<ValidationError<A>>, l2: seq<LeafAt<A>>,
                       context: Context<A>, read: Codec, mode: Mode)
    requires EmitsReading(r1, l1, context, read, mode) && EmitsReading(r2, l2, context, read, mode)
    ensures EmitsReading(r1 + r2, l1 + l2, context, read, mode)
  {
    forall i | 0 <= i < |r1 + r2|
      ensures Follows((r1 + r2)[i], (l1 + l2)[i], context, mode)
              && (|(l1 + l2)[i].path| > 0 ==> Resolves(read, (l1 + l2)[i].path[0], (r1 + r2)[i].context[|context|]))
    {
      if i < |r1| {
        assert (r1 + r2)[i] == r1[i] && (l1 + l2)[i] == l1[i];
      } else {
        assert (r1 + r2)[i] == r2[i - |r1|] && (l1 + l2)[i] == l2[i - |r1|];
      }
    }
  }

  /** One report of a child walked below `context + [entry]`, seen from the parent: its path has
      one step more, and the entry of that step is `entry`. */
  lemma FollowsBelow<A>(x: ValidationError<A>, leaf: LeafAt<A>, context: Context<A>,
                        entry: ContextEntry<A>, step: PathStep<A>, mode: Mode)
    requires Follows(x, leaf, context + [entry], mode)
    requires |leaf.path| > 0 ==>
               Resolves(ReadCodec(entry.codec, leaf.path[0], mode), leaf.path[0], x.context[|context| + 1])
    ensures Follows(x, leaf.(path := [step] + leaf.path), context, mode)
    ensures x.context[|context|] == entry
  {
    var c := x.context;
    var p := [step] + leaf.path;
    var n := |context|;
    assert c[..n + 1] == context + [entry];
    assert c[..n] == c[..n + 1][..n];
    assert c[n] == c[..n + 1][n];
    forall j | 1 <= j < |p|
      ensures Resolves(ReadCodec(c[n + j - 1].codec, p[j], mode), p[j], c[n + j])
    {
      assert p[j] == leaf.path[j - 1];
    }
  }

  /** The reports of a child walked below `context + [entry]`, seen from the parent: one step
      more on every path, the first of them resolving to `entry`. */
  lemma EmitsBelow<A>(r: seq<ValidationError<A>>, ls: seq<LeafAt<A>>, context: Context<A>,
                      entry: ContextEntry<A>, step: PathStep<A>, read: Codec, mode: Mode)
    requires Emits(r, ls, context + [entry], entry.codec, mode)
    requires Resolves(read, step, entry)
    ensures EmitsReading(r, Below(step, ls), context, read, mode)
  {
    var below := Below(step, ls);
    forall i | 0 <= i < |r|
      ensures Follows(r[i], below[i], context, mode) && Resolves(read, below[i].path[0], r[i].context[|context|])
    {
      FollowsBelow(r[i], ls[i], context, entry, step, mode);
    }
  }

  /** Where the walk unwraps, the codec each first step reads is the same for the wrapper as for
      the codec it wraps. */
  lemma EmitsUnwrap<A>(e: DecodeError<A>, r: seq<ValidationError<A>>, context: Context<A>, codec: Codec, mode: Mode)
    requires !e.Leaf? && Unwraps(e, codec, mode)
    requires Emits(r, Leaves(e), context, codec.inner, mode)
    ensures Emits(r, Leaves(e), context, codec, mode)
  {
    forall s | StepFits(e, s)
      ensures ReadCodec(codec.inner, s, mode) == ReadCodec(codec, s, mode)
    {
    }
  }

  /** Where the walk does not unwrap, every first step reads the codec itself. */
  lemma EmitsDirect<A>(e: DecodeError<A>, r: seq<ValidationError<A>>, context: Context<A>, codec: Codec, mode: Mode)
    requires !e.Leaf? && !Unwraps(e, codec, mode)
    requires EmitsReading(r, Leaves(e), context, codec, mode)
    ensures Emits(r, Leaves(e), context, codec, mode)
  {
    forall s | StepFits(e, s)
      ensures ReadCodec(codec, s, mode) == codec
    {
    }
  }

  /** One step down: the entry appended for a child error found under `key` with codec `child`. */
  function Append<A>(context: Context<A>, key: string, child: Codec, next: DecodeError<A>): Context<A>
  {
    context + [ContextEntry(key, next.actual, child)]
  }

  /** `visit`. */
  function Walk<A>(e: DecodeError<A>, context: Context<A>, codec: Codec, mode: Mode): (r: Option<seq<ValidationError<A>>>)
    ensures r.Some? ==> Emits(r.value, Leaves(e), context, codec, mode)
    decreases e, codec
  {
    if e.Leaf? then Some([ValidationError(e.actual, context, e.message)])
    else if Unwraps(e, codec, mode) then
      var r := Walk(e, context, codec.inner, mode);
      if r.Some? then EmitsUnwrap(e, r.value, context, codec, mode); r else r
    else
      var r :=
        match e
        case LabeledProduct(_, _, fs) => WalkFields(fs, context, codec, mode)
        case IndexedProduct(_, _, els) => WalkElements(els, context, codec, mode)
        case Or(_, _, es) => WalkMembers(es, context, codec, mode)
        case And(_, _, es) => WalkMembers(es, context, codec, mode);
      if r.Some? then EmitsDirect(e, r.value, context, codec, mode); r else r
  }

  function WalkFields<A>(fs: seq<Field<A>>, context: Context<A>, codec: Codec, mode: Mode): (r: Option<seq<ValidationError<A>>>)
    ensures r.Some? ==> EmitsReading(r.value, FieldLeaves(fs), context, codec, mode)
    decreases fs
  {
    if |fs| == 0 then Some([])
    else
      var next := fs[0].error;
      match FieldCodec(codec, fs[0].key, next.expected)
      case None => None
      case Some(nextCodec) =>
        var nextContext := Append(context, fs[0].key, nextCodec, next);
        match Walk(next, nextContext, nextCodec, mode)
        case None => None
        case Some(here) =>
          match WalkFields(fs[1..], context, codec, mode)
          case None => None
          case Some(rest) =>
            var step := FieldStep(fs[0].key, next.actual, next.expected);
            EmitsBelow(here, Leaves(next), context, nextContext[|context|], step, codec, mode);
            EmitsConcat(here, Below(step, Leaves(next)), rest, FieldLeaves(fs[1..]), context, codec, mode);
            Some(here + rest)
  }

  function WalkElements<A>(els: seq<Element<A>>, context: Context<A>, codec: Codec, mode: Mode): (r: Option<seq<ValidationError<A>>>)
    ensures r.Some? ==> EmitsReading(r.value, ElementLeaves(els), context, codec, mode)
    decreases els
  {
    if |els| == 0 then Some([])
    else
      var next := els[0].error;
      assert next < els[0];
      match ElementCodec(codec, els[0].index)
      case None => None
      case Some(nextCodec) =>
        var nextContext := Append(context, IntString(els[0].index), nextCodec, next);
        match Walk(next, nextContext, nextCodec, mode)
        case None => None
        case Some(here) =>
          match WalkElements(els[1..], context, codec, mode)
          case None => None
          case Some(rest) =>
            var step := ElementStep(els[0].index, next.actual, next.expected);
            EmitsBelow(here, Leaves(next), context, nextContext[|context|], step, codec, mode);
            EmitsConcat(here, Below(step, Leaves(next)), rest, ElementLeaves(els[1..]), context, codec, mode);
            Some(here + rest)
  }

  /** The members of an `Or` and of an `And` are walked alike; the reports follow the leaves of
      either. */
  function WalkMembers<A>(es: seq<DecodeError<A>>, context: Context<A>, codec: Codec, mode: Mode): (r: Option<seq<ValidationError<A>>>)
    ensures r.Some? ==> EmitsReading(r.value, MemberLeaves(es, false), context, codec, mode)
    ensures r.Some? ==> EmitsReading(r.value, MemberLeaves(es, true), context, codec, mode)
    decreases es
  {
    if |es| == 0 then Some([])
    else
      var next := es[0];
      match Members(codec)
      case None => None
      case Some(types) =>
        var index := IndexOfName(types, next.expected);
        if index == -1 then None
        else
          var nextCodec := types[index];
          var nextContext := Append(context, NatString(index), nextCodec, next);
          match Walk(next, nextContext, nextCodec, mode)
          case None => None
          case Some(here) =>
            match WalkMembers(es[1..], context, codec, mode)
            case None => None
            case Some(rest) =>
              var entry := nextContext[|context|];
              assert FirstNamed(types, next.expected, entry) by {
                assert types[index] == entry.codec;
              }
              var disjunct := MemberStep(false, next.actual, next.expected);
              var conjunct := MemberStep(true, next.actual, next.expected);
              EmitsBelow(here, Leaves(next), context, entry, disjunct, codec, mode);
              EmitsConcat(here, Below(disjunct, Leaves(next)), rest, MemberLeaves(es[1..], false), context, codec, mode);
              EmitsBelow(here, Leaves(next), context, entry, conjunct, codec, mode);
              EmitsConcat(here, Below(conjunct, Leaves(next)), rest, MemberLeaves(es[1..], true), context, codec, mode);
              Some(here + rest)
  }

  /** `toErrors` with the wrapper handling of the source. */
  function ToErrorsAsWritten<A>(e: DecodeError<A>, codec: Codec): (r: Option<seq<ValidationError<A>>>)
    ensures r.Some? ==> Emits(r.value, Leaves(e), [ContextEntry("", e.actual, codec)], codec, AsWritten)
  {
    Walk(e, [GetContextEntry(e, "", codec)], codec, AsWritten)
  }

  /** `toErrors` with wrappers seen through under every compound error. */
  function ToErrors<A>(e: DecodeError<A>, codec: Codec): (r: Option<seq<ValidationError<A>>>)
    ensures r.Some? ==> Emits(r.value, Leaves(e), [ContextEntry("", e.actual, codec)], codec, Corrected)
  {
    Walk(e, [GetContextEntry(e, "", codec)], codec, Corrected)
  }

  /** As written: a `LabeledProduct` under any stack of wrappers is walked against the codec under
      them, with the context unchanged. */
  lemma {:induction false} AsWrittenLabeledSeesThroughWrappers<A>(e: DecodeError<A>, context: Context<A>, codec: Codec)
    requires e.LabeledProduct?
    ensures Walk(e, context, codec, AsWritten) == Walk(e, context, Base(codec), AsWritten)
    decreases codec
  {
    if IsWrapper(codec) {
      AsWrittenLabeledSeesThroughWrappers(e, context, codec.inner);
    }
  }

  /** As written: an `And` under any stack of `Exact` wrappers is walked against the codec under
      them, with the context unchanged. */
  lemma {:induction false} AsWrittenAndSeesThroughExact<A>(e: DecodeError<A>, context: Context<A>, codec: Codec)
    requires e.And?
    ensures Walk(e, context, codec, AsWritten) == Walk(e, context, StripExact(codec), AsWritten)
    decreases codec
  {
    if codec.Exact? {
      AsWrittenAndSeesThroughExact(e, context, codec.inner);
    }
  }

  /** Corrected: every compound error under any stack of wrappers is walked against the codec
      under them, with the context unchanged. */
  lemma {:induction false} CorrectedSeesThroughWrappers<A>(e: DecodeError<A>, context: Context<A>, codec: Codec)
    requires !e.Leaf?
    ensures Walk(e, context, codec, Corrected) == Walk(e, context, Base(codec), Corrected)
    decreases codec
  {
    if IsWrapper(codec) {
      CorrectedSeesThroughWrappers(e, context, codec.inner);
    }
  }

  /** As written: the members of an `Or` under any wrapper, or of an `And` under a read-only or
      recursive wrapper, are looked up in the wrapper's `types`, which it does not have. */
  lemma AsWrittenMembersUnderWrapper<A>(e: DecodeError<A>, context: Context<A>, codec: Codec)
    requires (e.Or? && IsWrapper(codec)) || (e.And? && (codec.Readonly? || codec.Recursive?))
    requires |e.errors| > 0
    ensures Walk(e, context, codec, AsWritten) == None
  {
    assert !Unwraps(e, codec, AsWritten) && Members(codec) == None;
    assert WalkMembers(e.errors, context, codec, AsWritten) == None;
  }
}
