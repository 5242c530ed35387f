/**
 The entry point `dkopy(input)` with a fresh cache, and what it guarantees.

 On an input in which no cycle passes through a Set or Map, the clone
 finishes with as much fuel as there are objects, every clone is new, the
 originals are untouched, and the clone graph has exactly the sharing of
 the original graph: two members are the same object in the clone if and
 only if they are the same object in the original.  A Set that contains
 itself is never finished, and a cycle that passes through a Set comes back
 with a second copy of that Set instead of closing.
 */
module Dkopy {
  import opened JsHeap
  import opened Builders
  import opened Engine
  import opened Coherence
  import opened Termination

  /** Every address of `h` lies below `next`. */
  ghost predicate Below(h: Heap, next: Addr)
  {
    forall a :: a in h ==> a < next
  }

  /** The world of a top-level call: the caller's heap and `new Map()` as the cache. */
  function Start(h: Heap, next: Addr): (st: St)
    requires Below(h, next)
    ensures Inv(h, st) && st.cache == map[] && st.next == next
  {
    St(h, map[], next)
  }

  /** `dkopy(input)`: the engine with an empty cache. */
  function DeepClone(h: Heap, v: Value, next: Addr, fuel: nat): (r: Step<Value>)
    requires HeapWf(h) && InHeap(h, v) && Below(h, next)
    ensures v.Prim? ==> r == Done(v, Start(h, next))
    ensures r.Done? ==> Inv(h, r.st) && HeapGrows(h, r.st.heap) && Corresponds(h, r.st.cache, v, r.out)
    ensures r.Done? ==> forall a :: a in r.st.cache ==> a in h && r.st.cache[a] !in h && r.st.cache[a] >= next
  {
    Clone(h, v, Start(h, next), fuel)
  }

  /** With no cycle through a Set or Map, one unit of fuel per object is enough. */
  lemma DeepCloneFinishes(h: Heap, v: Value, next: Addr, fuel: nat, rank: map<Addr, nat>)
    requires HeapWf(h) && InHeap(h, v) && Below(h, next)
    requires Ranked(h, rank) && fuel > |h|
    ensures DeepClone(h, v, next, fuel).Done?
  {
    if v.Ref? {
      PendingBounded(h, rank, map[], rank[v.addr]);
    }
    CloneDone(h, v, Start(h, next), fuel, rank);
  }

  /** With no cycle through a Set or Map, every clone made is a faithful image of its original. */
  lemma DeepCloneFaithful(h: Heap, v: Value, next: Addr, fuel: nat, rank: map<Addr, nat>)
    requires HeapWf(h) && InHeap(h, v) && Below(h, next)
    requires Ranked(h, rank) && DeepClone(h, v, next, fuel).Done?
    ensures var st := DeepClone(h, v, next, fuel).st;
      forall a :: a in st.cache ==> a in h && Image(h, st.heap, st.cache, a)
  {
    CloneCoherent(h, v, Start(h, next), fuel, rank, {});
  }

  /**
   Sharing is preserved exactly: member `i` of `a` and member `j` of `b` are
   the same value in the original if and only if they are in the clone.
   */
  lemma SharingPreserved(h: Heap, st: St, a: Addr, i: nat, b: Addr, j: nat)
    requires HeapWf(h) && Inv(h, st)
    requires a in st.cache && b in st.cache
    requires Image(h, st.heap, st.cache, a) && Image(h, st.heap, st.cache, b)
    requires i < |Kids(h[a])| && j < |Kids(h[b])|
    ensures st.cache[a] in st.heap && st.cache[b] in st.heap
    ensures i < |Kids(st.heap[st.cache[a]])| && j < |Kids(st.heap[st.cache[b]])|
    ensures Kids(h[a])[i] == Kids(h[b])[j] <==> Kids(st.heap[st.cache[a]])[i] == Kids(st.heap[st.cache[b]])[j]
  {
    assert NodeWf(h, h[a]) && NodeWf(h, h[b]);
    var v1, v2 := Kids(h[a])[i], Kids(h[b])[j];
    var w1, w2 := Kids(st.heap[st.cache[a]])[i], Kids(st.heap[st.cache[b]])[j];
    assert Corresponds(h, st.cache, v1, w1) && Corresponds(h, st.cache, v2, w2);
    if v1 != v2 {
      CorrInjective(h, st, v1, w1, v2, w2);
    }
  }

  /** A member that is its own container comes out as the clone of the container. */
  lemma CycleCloses(h: Heap, st: St, a: Addr, i: nat)
    requires HeapWf(h) && Inv(h, st)
    requires a in st.cache && Image(h, st.heap, st.cache, a)
    requires i < |Kids(h[a])| && Kids(h[a])[i] == Ref(a)
    ensures st.cache[a] in st.heap && i < |Kids(st.heap[st.cache[a]])|
    ensures Kids(st.heap[st.cache[a]])[i] == Ref(st.cache[a])
  {
    assert NodeWf(h, h[a]);
    assert Corresponds(h, st.cache, Kids(h[a])[i], Kids(st.heap[st.cache[a]])[i]);
  }

  /** `const obj = { self: obj }`. */
  function SelfRecord(): (h: Heap)
    ensures SelfRecordShape(h)
  {
    var h := map[0 := ObjectNode([Field("self", Ref(0))])];
    assert NodeWf(h, h[0]) by { assert Kids(h[0]) == [Ref(0)]; }
    h
  }

  /** One record at 0 whose only property `self` refers to it. */
  ghost predicate SelfRecordShape(h: Heap)
  {
    HeapWf(h) && Below(h, 1) && 0 in h && h[0] == ObjectNode([Field("self", Ref(0))])
  }

  /** The clone of `obj` is a new record whose `self` is the clone itself. */
  lemma SelfRecordCloned(fuel: nat)
    requires fuel > 1
    ensures var r := DeepClone(SelfRecord(), Ref(0), 1, fuel);
      && r.Done? && r.out.Ref? && r.out != Ref(0)
      && r.out.addr in r.st.heap && r.st.heap[r.out.addr] == ObjectNode([Field("self", r.out)])
  {
    SelfRecordClones(SelfRecord(), fuel);
  }

  lemma SelfRecordClones(h: Heap, fuel: nat)
    requires SelfRecordShape(h) && fuel > 1
    ensures var r := DeepClone(h, Ref(0), 1, fuel);
      && r.Done? && r.out.Ref? && r.out != Ref(0)
      && r.out.addr in r.st.heap && r.st.heap[r.out.addr] == ObjectNode([Field("self", r.out)])
  {
    var rank := map[0 := 0];
    SelfRecordRanked(h);
    DeepCloneFinishes(h, Ref(0), 1, fuel, rank);
    DeepCloneFaithful(h, Ref(0), 1, fuel, rank);
    var r := DeepClone(h, Ref(0), 1, fuel);
    var d := r.st.cache[0];
    CycleCloses(h, r.st, 0, 0);
    OneField(r.st.heap[d], "self", Ref(d));
  }

  lemma SelfRecordRanked(h: Heap)
    requires SelfRecordShape(h)
    ensures |h| == 1 && Kids(h[0]) == [Ref(0)] && Ranked(h, map[0 := 0])
  {
    assert h.Keys == {0};
    assert Kids(h[0]) == [Ref(0)];
    assert RankedKids(map[0 := 0], h[0], 0);
  }

  /** A record with one property `k` holding `v`. */
  lemma OneField(m: Node, k: string, v: Value)
    requires m.ObjectNode? && |m.fields| == 1 && m.fields[0].key == k
    requires |Kids(m)| == 1 && Kids(m)[0] == v
    ensures m == ObjectNode([Field(k, v)])
  {
    assert Kids(m)[0] == m.fields[0].val;
    assert m.fields == [Field(k, v)];
  }

  /** `const arr = ['x', arr]`. */
  function SelfArray(): (h: Heap)
    ensures SelfArrayShape(h)
  {
    var h := map[0 := ArrayNode([Prim(Str("x")), Ref(0)])];
    assert NodeWf(h, h[0]);
    h
  }

  /** One array at 0 holding `'x'` and then itself. */
  ghost predicate SelfArrayShape(h: Heap)
  {
    HeapWf(h) && Below(h, 1) && 0 in h && h[0] == ArrayNode([Prim(Str("x")), Ref(0)])
  }

  /** The clone of `arr` is a new array whose second element is the clone itself. */
  lemma SelfArrayCloned(fuel: nat)
    requires fuel > 1
    ensures var r := DeepClone(SelfArray(), Ref(0), 1, fuel);
      && r.Done? && r.out.Ref? && r.out != Ref(0)
      && r.out.addr in r.st.heap && r.st.heap[r.out.addr] == ArrayNode([Prim(Str("x")), r.out])
  {
    SelfArrayClones(SelfArray(), fuel);
  }

  lemma SelfArrayClones(h: Heap, fuel: nat)
    requires SelfArrayShape(h) && fuel > 1
    ensures var r := DeepClone(h, Ref(0), 1, fuel);
      && r.Done? && r.out.Ref? && r.out != Ref(0)
      && r.out.addr in r.st.heap && r.st.heap[r.out.addr] == ArrayNode([Prim(Str("x")), r.out])
  {
    var rank := map[0 := 0];
    SelfArrayRanked(h);
    DeepCloneFinishes(h, Ref(0), 1, fuel, rank);
    DeepCloneFaithful(h, Ref(0), 1, fuel, rank);
    var r := DeepClone(h, Ref(0), 1, fuel);
    var d := r.st.cache[0];
    CycleCloses(h, r.st, 0, 1);
    var m := r.st.heap[d];
    assert Corresponds(h, r.st.cache, Kids(h[0])[0], Kids(m)[0]);
    TwoElems(m, Prim(Str("x")), Ref(d));
  }

  lemma SelfArrayRanked(h: Heap)
    requires SelfArrayShape(h)
    ensures |h| == 1 && Ranked(h, map[0 := 0])
  {
    assert h.Keys == {0};
    assert RankedKids(map[0 := 0], h[0], 0);
  }

  /** An array of two elements `v` and `w`. */
  lemma TwoElems(m: Node, v: Value, w: Value)
    requires m.ArrayNode? && |Kids(m)| == 2 && Kids(m)[0] == v && Kids(m)[1] == w
    ensures m == ArrayNode([v, w])
  {
    assert m.elems == [v, w];
  }

  /** `const x = {}; const obj = { a: x, b: x }`. */
  function SharedChild(): (h: Heap)
    ensures SharedChildShape(h)
  {
    var h := map[0 := ObjectNode([Field("a", Ref(1)), Field("b", Ref(1))]), 1 := ObjectNode([])];
    assert NodeWf(h, h[0]) by { assert Kids(h[0]) == [Ref(1), Ref(1)]; }
    assert NodeWf(h, h[1]);
    h
  }

  /** A record at 0 whose properties `a` and `b` both refer to the empty record at 1. */
  ghost predicate SharedChildShape(h: Heap)
  {
    && HeapWf(h) && Below(h, 2) && 0 in h && 1 in h
    && h[0] == ObjectNode([Field("a", Ref(1)), Field("b", Ref(1))]) && h[1] == ObjectNode([])
  }

  /** Both properties of the clone hold one and the same new, empty record. */
  lemma SharedChildCloned(fuel: nat)
    requires fuel > 2
    ensures var r := DeepClone(SharedChild(), Ref(0), 2, fuel);
      && r.Done? && r.out.Ref? && r.out.addr in r.st.heap
      && SharedShape(r.st, r.st.heap[r.out.addr])
  {
    SharedChildClones(SharedChild(), fuel);
  }

  lemma SharedChildClones(h: Heap, fuel: nat)
    requires SharedChildShape(h) && fuel > 2
    ensures var r := DeepClone(h, Ref(0), 2, fuel);
      && r.Done? && r.out.Ref? && r.out.addr in r.st.heap
      && SharedShape(r.st, r.st.heap[r.out.addr])
  {
    var rank := map[0 := 0, 1 := 0];
    SharedChildRanked(h);
    DeepCloneFinishes(h, Ref(0), 2, fuel, rank);
    DeepCloneFaithful(h, Ref(0), 2, fuel, rank);
    var r := DeepClone(h, Ref(0), 2, fuel);
    SharedImages(h, r.st);
  }

  lemma SharedChildRanked(h: Heap)
    requires SharedChildShape(h)
    ensures |h| == 2 && Kids(h[0]) == [Ref(1), Ref(1)] && Ranked(h, map[0 := 0, 1 := 0])
  {
    assert h.Keys == {0, 1};
    assert Kids(h[0]) == [Ref(1), Ref(1)];
    assert RankedKids(map[0 := 0, 1 := 0], h[0], 0) && RankedKids(map[0 := 0, 1 := 0], h[1], 0);
  }

  /** A record whose properties `a` and `b` are one new, empty record. */
  ghost predicate SharedShape(st: St, m: Node)
  {
    && m.ObjectNode? && |m.fields| == 2
    && m.fields[0].key == "a" && m.fields[1].key == "b"
    && m.fields[0].val == m.fields[1].val != Ref(1)
    && m.fields[0].val.Ref? && m.fields[0].val.addr in st.heap
    && st.heap[m.fields[0].val.addr] == ObjectNode([])
  }

  lemma SharedImages(h: Heap, st: St)
    requires SharedChildShape(h) && Inv(h, st) && 0 in st.cache
    requires forall a :: a in st.cache ==> a in h && Image(h, st.heap, st.cache, a)
    ensures st.cache[0] in st.heap && SharedShape(st, st.heap[st.cache[0]])
  {
    SharedChildRanked(h);
    assert Image(h, st.heap, st.cache, 0);
    var m := st.heap[st.cache[0]];
    assert Kids(m)[0] == m.fields[0].val && Kids(m)[1] == m.fields[1].val;
    assert Corresponds(h, st.cache, Kids(h[0])[0], m.fields[0].val);
    assert Corresponds(h, st.cache, Kids(h[0])[1], m.fields[1].val);
    assert Image(h, st.heap, st.cache, 1);
    var e := st.heap[st.cache[1]];
    assert |Kids(e)| == 0;
  }

  /** `const s = new Set(); s.add(s)`. */
  function SelfSet(): (h: Heap)
    ensures HeapWf(h) && Below(h, 1)
  {
    var h := map[0 := SetNode([Ref(0)])];
    assert NodeWf(h, h[0]);
    h
  }

  /**
   Cloning the self-containing Set never finishes: the Set is recorded only
   after its members are cloned, so the member meets it unrecorded again.
   */
  lemma {:induction false} SelfSetLoops(st: St, fuel: nat)
    requires Inv(SelfSet(), st) && 0 !in st.cache
    ensures CloneSet(SelfSet(), 0, st, fuel) == Exhausted
    decreases fuel
  {
    var h := SelfSet();
    if fuel > 0 {
      var st1 := Alloc(st, SetNode([]));
      AllocOnly(h, st, SetNode([]));
      SelfSetLoops(st1, Less(fuel));
      assert Clone(h, Ref(0), st1, Less(fuel)) == Exhausted;
      assert CloneSeq(h, [Ref(0)], st1, Less(fuel)) == Exhausted;
    }
  }

  /** No amount of fuel finishes `dkopy(s)` for the self-containing Set. */
  lemma SelfSetNeverFinishes(fuel: nat)
    ensures DeepClone(SelfSet(), Ref(0), 1, fuel) == Exhausted
  {
    var h := SelfSet();
    SelfSetLoops(Start(h, 1), fuel);
    assert !ShouldShallowCopy(h, Ref(0)) && TagOf(h[0]) == TagSet;
    assert CloneWithHandler(h, 0, Start(h, 1), fuel) == CloneSet(h, 0, Start(h, 1), fuel);
  }

  /** `const s = new Set(); const arr = [s]; s.add(arr)`: a cycle through a Set. */
  function SetArrayCycle(): (h: Heap)
    ensures CycleShape(h)
  {
    var h := map[0 := SetNode([Ref(1)]), 1 := ArrayNode([Ref(0)])];
    assert NodeWf(h, h[0]) && NodeWf(h, h[1]);
    h
  }

  /** A Set at 0 holding the array at 1, which holds the Set. */
  ghost predicate CycleShape(h: Heap)
  {
    HeapWf(h) && Below(h, 2) && 0 in h && 1 in h && h[0] == SetNode([Ref(1)]) && h[1] == ArrayNode([Ref(0)])
  }

  /**
   Cloning `s` finishes, but the cycle does not close: the array clone at 3
   holds a second Set clone at 4 instead of the returned clone at 2, and the
   cache ends up naming the outer one.
   */
  lemma SetArrayCycleDuplicates(fuel: nat)
    requires fuel > 2
    ensures var r := DeepClone(SetArrayCycle(), Ref(0), 2, fuel);
      && r.Done? && r.out == Ref(2)
      && 2 in r.st.heap && 3 in r.st.heap && 4 in r.st.heap
      && r.st.heap[2] == SetNode([Ref(3)])
      && r.st.heap[3] == ArrayNode([Ref(4)])
      && r.st.heap[4] == SetNode([Ref(3)])
      && 0 in r.st.cache && 1 in r.st.cache && r.st.cache[0] == 2 && r.st.cache[1] == 3
  {
    CycleCloned(SetArrayCycle(), fuel);
  }

  /** The same, for any heap of that shape. */
  lemma CycleCloned(h: Heap, fuel: nat)
    requires CycleShape(h) && fuel > 2
    ensures var r := DeepClone(h, Ref(0), 2, fuel);
      && r.Done? && r.out == Ref(2)
      && 2 in r.st.heap && 3 in r.st.heap && 4 in r.st.heap
      && r.st.heap[2] == SetNode([Ref(3)])
      && r.st.heap[3] == ArrayNode([Ref(4)])
      && r.st.heap[4] == SetNode([Ref(3)])
      && 0 in r.st.cache && 1 in r.st.cache && r.st.cache[0] == 2 && r.st.cache[1] == 3
  {
    var st0 := Start(h, 2);
    var st1 := Alloc(st0, SetNode([]));
    CycleOuterSet(h, st1, fuel);
    SetDispatch(h, 0, st0, fuel);
    CycleWorld(h, st1);
  }

  /** What the final world holds at the three clone addresses. */
  lemma CycleWorld(h: Heap, st1: St)
    requires CycleShape(h) && st1 == Alloc(Start(h, 2), SetNode([]))
    ensures var fin := Record(Fill(Fill(InnerSetDone(st1), 3, ArrayNode([Ref(4)])), 2, SetNode([Ref(3)])), 0, 2);
      && 2 in fin.heap && 3 in fin.heap && 4 in fin.heap
      && fin.heap[2] == SetNode([Ref(3)]) && fin.heap[3] == ArrayNode([Ref(4)]) && fin.heap[4] == SetNode([Ref(3)])
      && 0 in fin.cache && 1 in fin.cache && fin.cache[0] == 2 && fin.cache[1] == 3
  {
  }

  /** The outer Set clone at 2, around the array clone at 3. */
  lemma CycleOuterSet(h: Heap, st1: St, fuel: nat)
    requires CycleShape(h) && st1 == Alloc(Start(h, 2), SetNode([])) && fuel > 2
    ensures CloneSet(h, 0, Start(h, 2), fuel)
      == Done(Ref(2), Record(Fill(Fill(InnerSetDone(st1), 3, ArrayNode([Ref(4)])), 2, SetNode([Ref(3)])), 0, 2))
  {
    var st5 := Fill(InnerSetDone(st1), 3, ArrayNode([Ref(4)]));
    CycleOuterMembers(h, st1, Less(fuel));
    SetUnfold(h, 0, Start(h, 2), fuel, [Ref(3)], st5);
    OneAdd(Ref(3));
  }

  /** The outer Set's only member, the array, clones to 3. */
  lemma CycleOuterMembers(h: Heap, st1: St, f1: nat)
    requires CycleShape(h) && st1 == Alloc(Start(h, 2), SetNode([])) && f1 > 1
    ensures Inv(h, st1) && AllInHeap(h, Kids(h[0]))
    ensures CloneSeq(h, Kids(h[0]), st1, f1) == Done([Ref(3)], Fill(InnerSetDone(st1), 3, ArrayNode([Ref(4)])))
  {
    CycleKids(h);
    CycleArray(h, st1, f1);
    ArrayDispatch(h, 1, st1, f1);
    SingleSeq(h, Ref(1), st1, f1);
  }

  lemma CycleKids(h: Heap)
    requires CycleShape(h)
    ensures Kids(h[0]) == [Ref(1)] && Kids(h[1]) == [Ref(0)] && |h[1].elems| == 1
  {
  }

  /** The world after the inner Set clone: array placeholder at 3 recorded, then the Set filled at 4 and recorded. */
  ghost function InnerSetDone(st1: St): St
  {
    Record(Fill(Alloc(Record(Alloc(st1, ArrayNode(Holes(1))), 1, 3), SetNode([])), 4, SetNode([Ref(3)])), 0, 4)
  }

  /** The array, met inside the outer Set's clone, is recorded at 3 and holds the inner Set clone. */
  lemma CycleArray(h: Heap, st1: St, f: nat)
    requires CycleShape(h) && st1 == Alloc(Start(h, 2), SetNode([])) && f > 1
    ensures Inv(h, st1)
    ensures CloneArray(h, 1, st1, f) == Done(Ref(3), Fill(InnerSetDone(st1), 3, ArrayNode([Ref(4)])))
  {
    AllocOnly(h, Start(h, 2), SetNode([]));
    var st2 := Record(Alloc(st1, ArrayNode(Holes(1))), 1, 3);
    AllocRecord(h, st1, ArrayNode(Holes(1)), 1);
    var f2 := Less(f);
    CycleInnerSet(h, st2, f2);
    var st4 := InnerSetDone(st1);
    SetDispatch(h, 0, st2, f2);
    SingleSeq(h, Ref(0), st2, f2);
    CycleKids(h);
    assert st1.next == 3;
    ArrayUnfold(h, 1, st1, f, [Ref(4)], st4);
  }

  /** The Set, met again inside the array, is cloned a second time at 4, around the recorded array. */
  lemma CycleInnerSet(h: Heap, st2: St, f: nat)
    requires CycleShape(h)
    requires st2 == Record(Alloc(Alloc(Start(h, 2), SetNode([])), ArrayNode(Holes(1))), 1, 3)
    requires Inv(h, st2) && f > 0
    ensures CloneSet(h, 0, st2, f) == Done(Ref(4), Record(Fill(Alloc(st2, SetNode([])), 4, SetNode([Ref(3)])), 0, 4))
  {
    var st3 := Alloc(st2, SetNode([]));
    AllocOnly(h, st2, SetNode([]));
    assert Clone(h, Ref(1), st3, Less(f)) == Done(Ref(3), st3);
    SingleSeq(h, Ref(1), st3, Less(f));
    CycleKids(h);
    SetUnfold(h, 0, st2, f, [Ref(3)], st3);
    OneAdd(Ref(3));
    assert st2.next == 4;
  }

  /** A reference to an unrecorded Set goes to the Set handler. */
  lemma SetDispatch(h: Heap, a: Addr, st: St, fuel: nat)
    requires HeapWf(h) && a in h && a !in st.cache && h[a].SetNode? && Inv(h, st)
    ensures Clone(h, Ref(a), st, fuel) == CloneSet(h, a, st, fuel)
  {
    assert TagOf(h[a]) == TagSet && ConstructorHandlers[TagSet] == SetHandler;
    assert !ShouldShallowCopy(h, Ref(a));
    assert CloneWithHandler(h, a, st, fuel) == CloneSet(h, a, st, fuel);
  }

  /** A reference to an unrecorded array goes to the array case. */
  lemma ArrayDispatch(h: Heap, a: Addr, st: St, fuel: nat)
    requires HeapWf(h) && a in h && a !in st.cache && h[a].ArrayNode? && Inv(h, st)
    ensures Clone(h, Ref(a), st, fuel) == CloneArray(h, a, st, fuel)
  {
    assert TagOf(h[a]) == TagArray && TagArray !in ConstructorHandlers;
    assert !ShouldShallowCopy(h, Ref(a));
  }

  /** Cloning a one-element sequence is cloning its element. */
  lemma SingleSeq(h: Heap, v: Value, st: St, fuel: nat)
    requires HeapWf(h) && InHeap(h, v) && Inv(h, st) && Clone(h, v, st, fuel).Done?
    ensures CloneSeq(h, [v], st, fuel) == Done([Clone(h, v, st, fuel).out], Clone(h, v, st, fuel).st)
  {
    assert [v][1..] == [];
    assert [Clone(h, v, st, fuel).out] + [] == [Clone(h, v, st, fuel).out];
  }

  lemma OneAdd(v: Value)
    ensures AddAll([], [v]) == [v]
  {
    assert [v][1..] == [];
  }

  /** One step of the Set handler, given what its members' clone returned. */
  lemma SetUnfold(h: Heap, a: Addr, st: St, fuel: nat, ms: seq<Value>, st2: St)
    requires HeapWf(h) && a in h && a !in st.cache && h[a].SetNode? && Inv(h, st) && fuel > 0
    requires AllInHeap(h, Kids(h[a])) && Inv(h, Alloc(st, SetNode([])))
    requires CloneSeq(h, Kids(h[a]), Alloc(st, SetNode([])), Less(fuel)) == Done(ms, st2)
    ensures CloneSet(h, a, st, fuel) == Done(Ref(st.next), Record(Fill(st2, st.next, SetNode(AddAll([], ms))), a, st.next))
  {
  }

  /** One step of the array case, given what its elements' clone returned. */
  lemma ArrayUnfold(h: Heap, a: Addr, st: St, fuel: nat, es: seq<Value>, st2: St)
    requires HeapWf(h) && a in h && a !in st.cache && h[a].ArrayNode? && Inv(h, st) && fuel > 0
    requires AllInHeap(h, Kids(h[a])) && Inv(h, Record(Alloc(st, ArrayNode(Holes(|h[a].elems|))), a, st.next))
    requires CloneSeq(h, Kids(h[a]), Record(Alloc(st, ArrayNode(Holes(|h[a].elems|))), a, st.next), Less(fuel)) == Done(es, st2)
    ensures CloneArray(h, a, st, fuel) == Done(Ref(st.next), Fill(st2, st.next, ArrayNode(es)))
  {
  }
}
