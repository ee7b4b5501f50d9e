/**
  The schema-shaped error value (`DecodeError`): a leaf failure, or the failures found under the
  fields, the positions, or the members of a codec.
*/
module DecodeErrors {
  import opened Wrappers

  /** A named-field entry of a `LabeledProduct`. */
  datatype Field<A> = Field(key: string, error: DecodeError<A>)

  /** A positional entry of an `IndexedProduct`. */
  datatype Element<A> = Element(index: int, error: DecodeError<A>)

  /** Every variant carries the value that failed (`actual`) and the name of the codec that
      rejected it (`expected`). A `LabeledProduct` keeps its fields as an association list in
      insertion order. */
  datatype DecodeError<A> =
    | Leaf(actual: A, expected: string, message: Option<string>)
    | LabeledProduct(actual: A, expected: string, fields: seq<Field<A>>)
    | IndexedProduct(actual: A, expected: string, elements: seq<Element<A>>)
    | Or(actual: A, expected: string, errors: seq<DecodeError<A>>)
    | And(actual: A, expected: string, errors: seq<DecodeError<A>>)

  /** The variant of an error, without its contents. */
  datatype Shape = LeafShape | LabeledShape | IndexedShape | OrShape | AndShape

  function ShapeOf<A>(e: DecodeError<A>): Shape
  {
    match e
    case Leaf(_, _, _) => LeafShape
    case LabeledProduct(_, _, _) => LabeledShape
    case IndexedProduct(_, _, _) => IndexedShape
    case Or(_, _, _) => OrShape
    case And(_, _, _) => AndShape
  }

  /** A freshly classified error: a compound variant whose children are not filled in yet. */
  predicate IsShell<A>(e: DecodeError<A>)
  {
    match e
    case Leaf(_, _, _) => true
    case LabeledProduct(_, _, fs) => fs == []
    case IndexedProduct(_, _, els) => els == []
    case Or(_, _, es) => es == []
    case And(_, _, es) => es == []
  }

  function KeySet<A>(fs: seq<Field<A>>): set<string>
  {
    set i | 0 <= i < |fs| :: fs[i].key
  }

  predicate UniqueKeys<A>(fs: seq<Field<A>>)
  {
    forall i, j :: 0 <= i < j < |fs| ==> fs[i].key != fs[j].key
  }

  lemma KeySetCons<A>(f: Field<A>, rest: seq<Field<A>>)
    ensures KeySet([f] + rest) == {f.key} + KeySet(rest)
  {
    var fs := [f] + rest;
    forall k | k in KeySet(fs) ensures k in {f.key} + KeySet(rest) {
      var i :| 0 <= i < |fs| && fs[i].key == k;
      if i > 0 { assert rest[i - 1].key == k; }
    }
    forall k | k in KeySet(rest) ensures k in KeySet(fs) {
      var i :| 0 <= i < |rest| && rest[i].key == k;
      assert fs[i + 1].key == k;
    }
    assert fs[0].key == f.key;
  }

  lemma KeySetSnoc<A>(fs: seq<Field<A>>, f: Field<A>)
    ensures KeySet(fs + [f]) == KeySet(fs) + {f.key}
  {
    var r := fs + [f];
    forall k | k in KeySet(fs) ensures k in KeySet(r) {
      var i :| 0 <= i < |fs| && fs[i].key == k;
      assert r[i] == fs[i];
    }
    assert r[|fs|] == f;
  }

  lemma KeySetUpdate<A>(fs: seq<Field<A>>, k: nat, f: Field<A>)
    requires k < |fs| && fs[k].key == f.key
    ensures KeySet(fs[k := f]) == KeySet(fs)
  {
    var r := fs[k := f];
    forall key | key in KeySet(fs) ensures key in KeySet(r) {
      var i :| 0 <= i < |fs| && fs[i].key == key;
      assert r[i].key == key;
    }
    forall key | key in KeySet(r) ensures key in KeySet(fs) {
      var i :| 0 <= i < |r| && r[i].key == key;
      assert fs[i].key == key;
    }
  }

  /** The position of the first field named `key`, or -1 when there is none. */
  function KeyIndex<A>(fs: seq<Field<A>>, key: string): (k: int)
    ensures -1 <= k < |fs|
    ensures k == -1 <==> key !in KeySet(fs)
    ensures k != -1 ==> fs[k].key == key && forall j :: 0 <= j < k ==> fs[j].key != key
    decreases |fs|
  {
    if |fs| == 0 then -1
    else
      assert fs == [fs[0]] + fs[1..];
      KeySetCons(fs[0], fs[1..]);
      if fs[0].key == key then 0
      else
        var k := KeyIndex(fs[1..], key);
        if k == -1 then -1 else k + 1
  }

  /** `errors[key] = error` on a JavaScript object: an existing key keeps its position and gets the
      new value; a new key goes last. */
  function Put<A>(fs: seq<Field<A>>, key: string, error: DecodeError<A>): (r: seq<Field<A>>)
    ensures KeySet(r) == KeySet(fs) + {key}
    ensures key in KeySet(fs) ==> |r| == |fs|
    ensures key !in KeySet(fs) ==> r == fs + [Field(key, error)]
    ensures forall i :: 0 <= i < |r| && r[i].key != key ==> i < |fs| && r[i] == fs[i]
    ensures forall i :: 0 <= i < |fs| ==> r[i].key == fs[i].key
    ensures UniqueKeys(fs) ==> UniqueKeys(r) && forall i :: 0 <= i < |r| && r[i].key == key ==> r[i].error == error
  {
    var k := KeyIndex(fs, key);
    if k == -1 then
      KeySetSnoc(fs, Field(key, error));
      assert forall i :: 0 <= i < |fs| ==> fs[i].key in KeySet(fs);
      fs + [Field(key, error)]
    else
      KeySetUpdate(fs, k, Field(key, error));
      fs[k := Field(key, error)]
  }

  /** One level of nesting on the way down to a leaf: how the child sits in its parent (under a
      field key, at an element index, or as a member of an `Or` or an `And`), with the child's
      value and name. */
  datatype PathStep<A> =
    | FieldStep(key: string, actual: A, expected: string)
    | ElementStep(index: int, actual: A, expected: string)
    | MemberStep(conjunction: bool, actual: A, expected: string)

  /** A leaf failure together with the steps from the error's root down to it. */
  datatype LeafAt<A> = LeafAt(actual: A, message: Option<string>, path: seq<PathStep<A>>)

  /** The leaves of a child, seen from its parent: one more step in front of every path. */
  function Below<A>(step: PathStep<A>, ls: seq<LeafAt<A>>): seq<LeafAt<A>>
  {
    seq(|ls|, i requires 0 <= i < |ls| => ls[i].(path := [step] + ls[i].path))
  }

  /** The kind of step a child of `e` takes: a field key under a `LabeledProduct`, an index under
      an `IndexedProduct`, a member under an `Or` or an `And`. */
  predicate StepFits<A>(e: DecodeError<A>, s: PathStep<A>)
  {
    match e
    case Leaf(_, _, _) => false
    case LabeledProduct(_, _, _) => s.FieldStep?
    case IndexedProduct(_, _, _) => s.ElementStep?
    case Or(_, _, _) => s.MemberStep? && !s.conjunction
    case And(_, _, _) => s.MemberStep? && s.conjunction
  }

  /** The leaf failures of an error, left to right (fields in insertion order, elements and
      members in sequence order), each with its path from the root. */
  function Leaves<A>(e: DecodeError<A>): (r: seq<LeafAt<A>>)
    ensures e.Leaf? ==> r == [LeafAt(e.actual, e.message, [])]
    ensures !e.Leaf? ==> forall i :: 0 <= i < |r| ==> |r[i].path| > 0 && StepFits(e, r[i].path[0])
    decreases e
  {
    match e
    case Leaf(a, _, m) => [LeafAt(a, m, [])]
    case LabeledProduct(_, _, fs) => FieldLeaves(fs)
    case IndexedProduct(_, _, els) => ElementLeaves(els)
    case Or(_, _, es) => MemberLeaves(es, false)
    case And(_, _, es) => MemberLeaves(es, true)
  }

  function FieldLeaves<A>(fs: seq<Field<A>>): (r: seq<LeafAt<A>>)
    ensures forall i :: 0 <= i < |r| ==> |r[i].path| > 0 && r[i].path[0].FieldStep?
    decreases fs
  {
    if |fs| == 0 then []
    else
      var next := fs[0].error;
      Below(FieldStep(fs[0].key, next.actual, next.expected), Leaves(next)) + FieldLeaves(fs[1..])
  }

  function ElementLeaves<A>(els: seq<Element<A>>): (r: seq<LeafAt<A>>)
    ensures forall i :: 0 <= i < |r| ==> |r[i].path| > 0 && r[i].path[0].ElementStep?
    decreases els
  {
    if |els| == 0 then []
    else
      var next := els[0].error;
      assert next < els[0];
      Below(ElementStep(els[0].index, next.actual, next.expected), Leaves(next)) + ElementLeaves(els[1..])
  }

  function MemberLeaves<A>(es: seq<DecodeError<A>>, conjunction: bool): (r: seq<LeafAt<A>>)
    ensures forall i :: 0 <= i < |r| ==>
              |r[i].path| > 0 && r[i].path[0].MemberStep? && r[i].path[0].conjunction == conjunction
    decreases es
  {
    if |es| == 0 then []
    else
      var next := es[0];
      Below(MemberStep(conjunction, next.actual, next.expected), Leaves(next)) + MemberLeaves(es[1..], conjunction)
  }

  lemma {:induction false} FieldLeavesSnoc<A>(fs: seq<Field<A>>, f: Field<A>)
    ensures |FieldLeaves(fs + [f])| == |FieldLeaves(fs)| + |Leaves(f.error)|
    decreases |fs|
  {
    if |fs| == 0 {
      assert (fs + [f])[1..] == [];
    } else {
      assert (fs + [f])[1..] == fs[1..] + [f];
      FieldLeavesSnoc(fs[1..], f);
    }
  }

  lemma {:induction false} FieldLeavesUpdate<A>(fs: seq<Field<A>>, k: nat, f: Field<A>)
    requires k < |fs|
    ensures |FieldLeaves(fs[k := f])| + |Leaves(fs[k].error)| == |FieldLeaves(fs)| + |Leaves(f.error)|
    decreases |fs|
  {
    if k == 0 {
      assert fs[k := f][1..] == fs[1..];
    } else {
      assert fs[k := f][1..] == fs[1..][k - 1 := f];
      FieldLeavesUpdate(fs[1..], k - 1, f);
    }
  }

  /** Assigning a field never adds more failures than the assigned error holds: a replaced
      field takes its old failures with it. */
  lemma PutLeaves<A>(fs: seq<Field<A>>, key: string, error: DecodeError<A>)
    ensures |FieldLeaves(Put(fs, key, error))| <= |FieldLeaves(fs)| + |Leaves(error)|
  {
    var k := KeyIndex(fs, key);
    if k == -1 {
      FieldLeavesSnoc(fs, Field(key, error));
    } else {
      FieldLeavesUpdate(fs, k, Field(key, error));
    }
  }
}
