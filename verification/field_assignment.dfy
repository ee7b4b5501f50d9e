/** Where a key first and last appears among a node's children. */
module KeyIndex {
  import opened ErrorTree

  /** The position of the first child under `key`, or -1 when no child has that key. */
  function FirstKeyIndex<A>(forest: seq<Tree<A>>, key: string): (k: int)
    ensures -1 <= k < |forest|
    ensures k == -1 <==> forall j :: 0 <= j < |forest| ==> forest[j].value.key != key
    ensures k != -1 ==> forest[k].value.key == key && forall j :: 0 <= j < k ==> forest[j].value.key != key
    decreases |forest|
  {
    if |forest| == 0 then -1
    else if forest[0].value.key == key then 0
    else
      var k := FirstKeyIndex(forest[1..], key);
      assert forall j :: 1 <= j < |forest| ==> forest[1..][j - 1] == forest[j];
      if k == -1 then -1 else k + 1
  }

  /** The position of the last child under `key`, or -1 when no child has that key. */
  function LastKeyIndex<A>(forest: seq<Tree<A>>, key: string): (k: int)
    ensures -1 <= k < |forest|
    ensures k == -1 <==> forall j :: 0 <= j < |forest| ==> forest[j].value.key != key
    ensures k != -1 ==> forest[k].value.key == key && forall j :: k < j < |forest| ==> forest[j].value.key != key
    decreases |forest|
  {
    if |forest| == 0 then -1
    else
      var k := LastKeyIndex(forest[1..], key);
      assert forall j :: 1 <= j < |forest| ==> forest[1..][j - 1] == forest[j];
      if k != -1 then k + 1 else if forest[0].value.key == key then 0 else -1
  }
}

/**
  What the `forEach` that fills a `LabeledProduct` leaves behind: which child each field holds
  and in which order the keys appear.
*/
module FieldAssignment {
  import opened DecodeErrors
  import opened KeyIndex
  import opened ErrorTree
  import opened Conversion

  lemma LastKeyIndexCons<A>(forest: seq<Tree<A>>, key: string)
    requires |forest| > 0
    ensures LastKeyIndex(forest, key) ==
      if LastKeyIndex(forest[1..], key) != -1 then LastKeyIndex(forest[1..], key) + 1
      else if forest[0].value.key == key then 0 else -1
  {
  }

  lemma FirstKeyIndexCons<A>(forest: seq<Tree<A>>, key: string)
    requires |forest| > 0
    ensures FirstKeyIndex(forest, key) ==
      if forest[0].value.key == key then 0
      else if FirstKeyIndex(forest[1..], key) == -1 then -1 else FirstKeyIndex(forest[1..], key) + 1
  {
  }

  /** The fields already present keep their positions and keys. */
  lemma {:induction false} ConvertFieldsKeeps<A>(acc: seq<Field<A>>, forest: seq<Tree<A>>)
    ensures |acc| <= |ConvertFields(acc, forest)|
    ensures forall i :: 0 <= i < |acc| ==> ConvertFields(acc, forest)[i].key == acc[i].key
    decreases forest
  {
    if |forest| > 0 {
      var k0 := forest[0].value.key;
      var next := Put(acc, k0, Convert(forest[0]));
      assert |acc| <= |next| by {
        if k0 !in KeySet(acc) { assert next == acc + [Field(k0, Convert(forest[0]))]; }
      }
      ConvertFieldsKeeps(next, forest[1..]);
    }
  }

  /** A key some child carries holds the conversion of the last such child; any other field is
      one that was already present, untouched. */
  lemma {:induction false} ConvertFieldsLast<A>(acc: seq<Field<A>>, forest: seq<Tree<A>>)
    requires UniqueKeys(acc)
    ensures forall i :: 0 <= i < |ConvertFields(acc, forest)| ==>
              var f := ConvertFields(acc, forest)[i];
              LastKeyIndex(forest, f.key) != -1 ==> f.error == Convert(forest[LastKeyIndex(forest, f.key)])
    ensures forall i :: 0 <= i < |ConvertFields(acc, forest)| ==>
              var f := ConvertFields(acc, forest)[i];
              LastKeyIndex(forest, f.key) == -1 ==> i < |acc| && f == acc[i]
    decreases forest
  {
    if |forest| > 0 {
      var k0 := forest[0].value.key;
      var next := Put(acc, k0, Convert(forest[0]));
      var r := ConvertFields(acc, forest);
      assert r == ConvertFields(next, forest[1..]);
      ConvertFieldsLast(next, forest[1..]);
      forall i | 0 <= i < |r|
        ensures LastKeyIndex(forest, r[i].key) != -1 ==> r[i].error == Convert(forest[LastKeyIndex(forest, r[i].key)])
        ensures LastKeyIndex(forest, r[i].key) == -1 ==> i < |acc| && r[i] == acc[i]
      {
        LastKeyIndexCons(forest, r[i].key);
        var j := LastKeyIndex(forest[1..], r[i].key);
        if j != -1 {
          assert forest[1..][j] == forest[j + 1];
        }
      }
    }
  }

  /** The keys added after the fields already present are new ones that some child carries. */
  lemma {:induction false} ConvertFieldsNew<A>(acc: seq<Field<A>>, forest: seq<Tree<A>>)
    requires UniqueKeys(acc)
    ensures forall i :: |acc| <= i < |ConvertFields(acc, forest)| ==>
              var key := ConvertFields(acc, forest)[i].key;
              key !in KeySet(acc) && FirstKeyIndex(forest, key) != -1
    decreases forest
  {
    if |forest| > 0 {
      var k0 := forest[0].value.key;
      var next := Put(acc, k0, Convert(forest[0]));
      var r := ConvertFields(acc, forest);
      assert r == ConvertFields(next, forest[1..]);
      ConvertFieldsNew(next, forest[1..]);
      ConvertFieldsKeeps(next, forest[1..]);
      forall i | |acc| <= i < |r| ensures r[i].key !in KeySet(acc) && FirstKeyIndex(forest, r[i].key) != -1 {
        var key := r[i].key;
        FirstKeyIndexCons(forest, key);
        if i < |next| {
          assert next == acc + [Field(k0, Convert(forest[0]))];
          assert key == next[i].key == k0;
        } else {
          assert key !in KeySet(next);
        }
      }
    }
  }

  /** The keys added after the fields already present follow the order in which children first
      carry them. */
  lemma {:induction false} ConvertFieldsOrder<A>(acc: seq<Field<A>>, forest: seq<Tree<A>>)
    requires UniqueKeys(acc)
    ensures forall i, i' :: |acc| <= i < i' < |ConvertFields(acc, forest)| ==>
              FirstKeyIndex(forest, ConvertFields(acc, forest)[i].key)
              < FirstKeyIndex(forest, ConvertFields(acc, forest)[i'].key)
    decreases forest
  {
    if |forest| > 0 {
      var k0 := forest[0].value.key;
      var next := Put(acc, k0, Convert(forest[0]));
      var r := ConvertFields(acc, forest);
      assert r == ConvertFields(next, forest[1..]);
      ConvertFieldsOrder(next, forest[1..]);
      ConvertFieldsNew(next, forest[1..]);
      forall i, i' | |acc| <= i < i' < |r|
        ensures FirstKeyIndex(forest, r[i].key) < FirstKeyIndex(forest, r[i'].key)
      {
        var key, key' := r[i].key, r[i'].key;
        FirstKeyIndexCons(forest, key);
        FirstKeyIndexCons(forest, key');
        assert key' !in KeySet(next) && FirstKeyIndex(forest[1..], key') != -1;
        if i < |next| {
          ConvertFieldsKeeps(next, forest[1..]);
          assert next == acc + [Field(k0, Convert(forest[0]))];
          assert key == next[i].key == k0;
        } else {
          assert key !in KeySet(next);
        }
      }
    }
  }

  /** Filling an empty object: every field holds the last child with its key, and the keys are
      in first-seen order. */
  lemma {:induction false} FromNoFields<A>(forest: seq<Tree<A>>, fs: seq<Field<A>>)
    requires fs == ConvertFields([], forest)
    ensures forall i :: 0 <= i < |fs| ==>
              LastKeyIndex(forest, fs[i].key) != -1 && fs[i].error == Convert(forest[LastKeyIndex(forest, fs[i].key)])
    ensures forall i :: 0 <= i < |fs| ==> 0 <= FirstKeyIndex(forest, fs[i].key)
    ensures forall i :: 0 <= i < |fs| - 1 ==> FirstKeyIndex(forest, fs[i].key) < FirstKeyIndex(forest, fs[i + 1].key)
  {
    var none: seq<Field<A>> := [];
    ConvertFieldsLast(none, forest);
    ConvertFieldsNew(none, forest);
    ConvertFieldsOrder(none, forest);
    forall i | 0 <= i < |fs|
      ensures LastKeyIndex(forest, fs[i].key) != -1 && fs[i].error == Convert(forest[LastKeyIndex(forest, fs[i].key)])
    {
      assert |none| <= i;
      var k := FirstKeyIndex(forest, fs[i].key);
      assert k != -1;
      assert forest[k].value.key == fs[i].key;
    }
    forall i | 0 <= i < |fs| - 1
      ensures FirstKeyIndex(forest, fs[i].key) < FirstKeyIndex(forest, fs[i + 1].key)
    {
      assert |none| <= i < i + 1 < |fs|;
    }
  }

  lemma LabeledFields<A>(t: Tree<A>)
    requires Convert(t).LabeledProduct?
    ensures Convert(t).fields == ConvertFields([], t.forest)
  {
  }

  /** A `LabeledProduct` built from a node: one field per distinct child key, in the order the
      keys first occur among the children, each holding the conversion of the last child with
      that key. */
  lemma {:induction false} ConvertLabeled<A>(t: Tree<A>)
    requires Convert(t).LabeledProduct?
    ensures forall i :: 0 <= i < |Convert(t).fields| ==>
              var f := Convert(t).fields[i];
              LastKeyIndex(t.forest, f.key) != -1 && f.error == Convert(t.forest[LastKeyIndex(t.forest, f.key)])
    ensures forall i :: 0 <= i < |Convert(t).fields| - 1 ==>
              0 <= FirstKeyIndex(t.forest, Convert(t).fields[i].key)
                 < FirstKeyIndex(t.forest, Convert(t).fields[i + 1].key)
  {
    LabeledFields(t);
    FromNoFields(t.forest, Convert(t).fields);
  }
}
