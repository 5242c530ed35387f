/**
 The container mutations the engine performs while it fills a fresh clone:
 `Set.prototype.add`, `Map.prototype.set` and property assignment on a
 plain record.  Each one keeps a key unique; the lemmas say when a run of
 them degenerates to plain appending.
 */
module Builders {
  import opened JsHeap

  /** `Set.prototype.add`: a value already present leaves the set unchanged. */
  function SetAdd(ms: seq<Value>, x: Value): (r: seq<Value>)
    ensures x in r
    ensures forall y :: y in r <==> y in ms || y == x
    ensures DistinctValues(ms) ==> DistinctValues(r)
    ensures x !in ms ==> r == ms + [x]
  {
    if x in ms then ms else ms + [x]
  }

  /** Adds `xs` one after the other, as the Set handler's loop does. */
  function AddAll(ms: seq<Value>, xs: seq<Value>): (r: seq<Value>)
    decreases |xs|
  {
    if |xs| == 0 then ms else AddAll(SetAdd(ms, xs[0]), xs[1..])
  }

  /** Adding distinct new members keeps every one of them, in order. */
  lemma {:induction false} AddAllFresh(ms: seq<Value>, xs: seq<Value>)
    requires DistinctValues(xs)
    requires forall i :: 0 <= i < |xs| ==> xs[i] !in ms
    ensures AddAll(ms, xs) == ms + xs
    decreases |xs|
  {
    if |xs| > 0 {
      assert SetAdd(ms, xs[0]) == ms + [xs[0]];
      forall i | 0 <= i < |xs[1..]|
        ensures xs[1..][i] !in ms + [xs[0]]
      {
        assert xs[1..][i] == xs[i + 1];
      }
      AddAllFresh(ms + [xs[0]], xs[1..]);
      Associative(ms, [xs[0]], xs[1..]);
      assert [xs[0]] + xs[1..] == xs;
    }
  }

  /** The position of key `k` among the entries, if any. */
  function FindEntry(es: seq<Entry>, k: Value): (r: Option<nat>)
    ensures r.Some? ==> r.value < |es| && es[r.value].key == k
    ensures r.None? ==> forall i :: 0 <= i < |es| ==> es[i].key != k
  {
    if |es| == 0 then None
    else if es[|es| - 1].key == k then Some(|es| - 1)
    else FindEntry(es[..|es| - 1], k)
  }

  /** `Map.prototype.set`: an existing key keeps its position and takes the new value. */
  function MapSet(es: seq<Entry>, k: Value, v: Value): (r: seq<Entry>)
    ensures exists i :: 0 <= i < |r| && r[i] == Entry(k, v)
    ensures DistinctEntryKeys(es) ==> DistinctEntryKeys(r)
    ensures (forall i :: 0 <= i < |es| ==> es[i].key != k) ==> r == es + [Entry(k, v)]
    ensures FindEntry(es, k).Some? ==> var i := FindEntry(es, k).value;
      |r| == |es| && r[i] == Entry(k, v) && forall j :: 0 <= j < |es| && j != i ==> r[j] == es[j]
  {
    match FindEntry(es, k)
    case Some(i) =>
      assert es[i := Entry(k, v)][i] == Entry(k, v);
      es[i := Entry(k, v)]
    case None =>
      assert (es + [Entry(k, v)])[|es|] == Entry(k, v);
      es + [Entry(k, v)]
  }

  /** Regroups key0, value0, key1, value1, ... into entries. */
  function Pairs(vs: seq<Value>): (es: seq<Entry>)
    requires |vs| % 2 == 0
    ensures |es| == |vs| / 2
    ensures forall i :: 0 <= i < |es| ==> es[i] == Entry(vs[2 * i], vs[2 * i + 1])
    decreases |vs|
  {
    if |vs| == 0 then [] else [Entry(vs[0], vs[1])] + Pairs(vs[2..])
  }

  /** Regrouping undoes flattening. */
  lemma PairsFlatten(es: seq<Entry>)
    ensures Pairs(Flatten(es)) == es
  {
    var ps := Pairs(Flatten(es));
    assert |ps| == |es|;
    forall i | 0 <= i < |es|
      ensures ps[i] == es[i]
    {
    }
  }

  /** Sets the entries one after the other, as the Map handler's loop does. */
  function MapSetAll(es: seq<Entry>, ps: seq<Entry>): (r: seq<Entry>)
    decreases |ps|
  {
    if |ps| == 0 then es else MapSetAll(MapSet(es, ps[0].key, ps[0].val), ps[1..])
  }

  /** Setting entries with distinct new keys appends every one of them, in order. */
  lemma {:induction false} MapSetAllFresh(es: seq<Entry>, ps: seq<Entry>)
    requires DistinctEntryKeys(ps)
    requires forall i, j :: 0 <= i < |ps| && 0 <= j < |es| ==> ps[i].key != es[j].key
    ensures MapSetAll(es, ps) == es + ps
    decreases |ps|
  {
    if |ps| > 0 {
      forall j | 0 <= j < |es|
        ensures es[j].key != ps[0].key
      {
      }
      SetNewEntry(es, ps[0]);
      EntriesStillFresh(es, ps);
      MapSetAllFresh(es + [ps[0]], ps[1..]);
      Associative(es, [ps[0]], ps[1..]);
      assert [ps[0]] + ps[1..] == ps;
    }
  }

  /** Setting a key the Map does not hold appends its entry. */
  lemma SetNewEntry(es: seq<Entry>, p: Entry)
    requires forall j :: 0 <= j < |es| ==> es[j].key != p.key
    ensures MapSet(es, p.key, p.val) == es + [p]
  {
  }

  /** After the first entry is appended, the remaining keys are still distinct and new. */
  lemma EntriesStillFresh(es: seq<Entry>, ps: seq<Entry>)
    requires |ps| > 0 && DistinctEntryKeys(ps)
    requires forall i, j :: 0 <= i < |ps| && 0 <= j < |es| ==> ps[i].key != es[j].key
    ensures DistinctEntryKeys(ps[1..])
    ensures forall i, j :: 0 <= i < |ps[1..]| && 0 <= j < |es + [ps[0]]| ==> ps[1..][i].key != (es + [ps[0]])[j].key
  {
    forall i, j | 0 <= i < |ps[1..]| && 0 <= j < |es + [ps[0]]|
      ensures ps[1..][i].key != (es + [ps[0]])[j].key
    {
      assert ps[1..][i] == ps[i + 1];
      if j < |es| {
        assert (es + [ps[0]])[j] == es[j];
      }
    }
  }

  /**
   The position of property `k`, if the record has it: the search of
   `FindEntry` over string keys, since records and Maps keep keys of
   different types.
   */
  function FindField(fs: seq<Field>, k: string): (r: Option<nat>)
    ensures r.Some? ==> r.value < |fs| && fs[r.value].key == k
    ensures r.None? ==> forall i :: 0 <= i < |fs| ==> fs[i].key != k
  {
    if |fs| == 0 then None
    else if fs[|fs| - 1].key == k then Some(|fs| - 1)
    else FindField(fs[..|fs| - 1], k)
  }

  /** Property assignment `o[k] = v`: an existing property keeps its place. */
  function PutField(fs: seq<Field>, k: string, v: Value): (r: seq<Field>)
    ensures exists i :: 0 <= i < |r| && r[i] == Field(k, v)
    ensures DistinctKeys(fs) ==> DistinctKeys(r)
    ensures (forall i :: 0 <= i < |fs| ==> fs[i].key != k) ==> r == fs + [Field(k, v)]
    ensures FindField(fs, k).Some? ==> var i := FindField(fs, k).value;
      |r| == |fs| && r[i] == Field(k, v) && forall j :: 0 <= j < |fs| && j != i ==> r[j] == fs[j]
  {
    match FindField(fs, k)
    case Some(i) =>
      assert fs[i := Field(k, v)][i] == Field(k, v);
      fs[i := Field(k, v)]
    case None =>
      assert (fs + [Field(k, v)])[|fs|] == Field(k, v);
      fs + [Field(k, v)]
  }

  /** Assigns `vs[i]` to the `i`-th key of `keys`, in order. */
  function PutAll(fs: seq<Field>, keys: seq<Field>, vs: seq<Value>): (r: seq<Field>)
    requires |keys| == |vs|
    decreases |keys|
  {
    if |keys| == 0 then fs else PutAll(PutField(fs, keys[0].key, vs[0]), keys[1..], vs[1..])
  }

  /** The record with `keys`' keys, in order, bound to `vs`. */
  function Rebind(keys: seq<Field>, vs: seq<Value>): (r: seq<Field>)
    requires |keys| == |vs|
    ensures |r| == |keys|
    ensures forall i :: 0 <= i < |r| ==> r[i] == Field(keys[i].key, vs[i])
    decreases |keys|
  {
    if |keys| == 0 then [] else [Field(keys[0].key, vs[0])] + Rebind(keys[1..], vs[1..])
  }

  /** After the first key is appended, the remaining keys are still distinct and new. */
  lemma StillFresh(fs: seq<Field>, keys: seq<Field>, f: Field)
    requires |keys| > 0 && f.key == keys[0].key
    requires DistinctKeys(keys)
    requires forall i, j :: 0 <= i < |keys| && 0 <= j < |fs| ==> keys[i].key != fs[j].key
    ensures DistinctKeys(keys[1..])
    ensures forall i, j :: 0 <= i < |keys[1..]| && 0 <= j < |fs + [f]| ==> keys[1..][i].key != (fs + [f])[j].key
  {
    forall i, j | 0 <= i < |keys[1..]| && 0 <= j < |fs + [f]|
      ensures keys[1..][i].key != (fs + [f])[j].key
    {
      assert keys[1..][i] == keys[i + 1];
      if j < |fs| {
        assert (fs + [f])[j] == fs[j];
      } else {
        assert (fs + [f])[j] == f;
      }
    }
  }

  /**
   Assigning distinct keys none of which is present appends them in order:
   a fresh record filled from `Object.keys` holds exactly those keys.
   */
  lemma {:induction false} PutAllFresh(fs: seq<Field>, keys: seq<Field>, vs: seq<Value>)
    requires |keys| == |vs|
    requires DistinctKeys(keys)
    requires forall i, j :: 0 <= i < |keys| && 0 <= j < |fs| ==> keys[i].key != fs[j].key
    ensures PutAll(fs, keys, vs) == fs + Rebind(keys, vs)
    decreases |keys|
  {
    if |keys| > 0 {
      var f := Field(keys[0].key, vs[0]);
      assert PutAll(fs, keys, vs) == PutAll(fs + [f], keys[1..], vs[1..]) by {
        assert PutField(fs, keys[0].key, vs[0]) == fs + [f];
      }
      StillFresh(fs, keys, f);
      PutAllFresh(fs + [f], keys[1..], vs[1..]);
      Associative(fs, [f], Rebind(keys[1..], vs[1..]));
    }
  }

  lemma Associative<T>(a: seq<T>, b: seq<T>, c: seq<T>)
    ensures a + b + c == a + (b + c)
  {
  }
}
