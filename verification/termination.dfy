/**
 When the engine finishes.

 Arrays, records and the byte-copied kinds are recorded before (or without)
 recursing, so a cycle through them is cut by a cache hit.  A Set or Map is
 recorded only after its members are cloned, so a cycle through one of
 them is never cut: with `Ranked` (no cycle through a Set or Map) the
 engine always finishes with more fuel than there are objects, and a Set
 that contains itself exhausts every amount of fuel.
 */
module Termination {
  import opened JsHeap
  import opened Builders
  import opened Engine
  import opened Coherence

  /** The originals of rank at most `k` that are not yet recorded: the work still ahead. */
  ghost function Pending(h: Heap, rank: map<Addr, nat>, c: map<Addr, Addr>, k: int): (s: set<Addr>)
    ensures forall b :: b in s <==> b in h && b !in c && b in rank && rank[b] <= k
  {
    set b | b in h && b !in c && b in rank && rank[b] <= k
  }

  lemma SubsetCard(s: set<Addr>, t: set<Addr>)
    requires s <= t
    ensures |s| <= |t|
    ensures s < t ==> |s| < |t|
  {
    assert t == s + (t - s);
    if s < t {
      var x :| x in t && x !in s;
      assert x in t - s;
    }
  }

  /** Recording more originals never adds work; a lower rank bound never does either. */
  lemma PendingShrinks(h: Heap, rank: map<Addr, nat>, c: map<Addr, Addr>, c': map<Addr, Addr>, k: int, k': int)
    requires CacheGrows(c, c') && k' <= k
    ensures |Pending(h, rank, c', k')| <= |Pending(h, rank, c, k)|
  {
    SubsetCard(Pending(h, rank, c', k'), Pending(h, rank, c, k));
  }

  /** An unrecorded original of rank at most `k` is work that recording it, or lowering `k` below its rank, removes. */
  lemma PendingDrops(h: Heap, rank: map<Addr, nat>, c: map<Addr, Addr>, a: Addr, d: Addr, k: int)
    requires a in h && a !in c && a in rank && rank[a] <= k
    ensures |Pending(h, rank, c[a := d], k)| < |Pending(h, rank, c, k)|
    ensures |Pending(h, rank, c, rank[a] as int - 1)| < |Pending(h, rank, c, k)|
  {
    SubsetCard(Pending(h, rank, c[a := d], k), Pending(h, rank, c, k));
    SubsetCard(Pending(h, rank, c, rank[a] as int - 1), Pending(h, rank, c, k));
  }

  /** There is never more work than objects. */
  lemma PendingBounded(h: Heap, rank: map<Addr, nat>, c: map<Addr, Addr>, k: int)
    ensures |Pending(h, rank, c, k)| <= |h|
  {
    SubsetCard(Pending(h, rank, c, k), h.Keys);
  }

  /** More fuel than pending work below the value's rank is enough. */
  lemma {:induction false} CloneDone(h: Heap, v: Value, st: St, fuel: nat, rank: map<Addr, nat>)
    requires HeapWf(h) && InHeap(h, v) && Inv(h, st) && Ranked(h, rank)
    requires v.Ref? ==> v.addr in rank && fuel > |Pending(h, rank, st.cache, rank[v.addr])|
    ensures Clone(h, v, st, fuel).Done?
    decreases fuel, 2
  {
    if v.Ref? && v.addr !in st.cache && Cloneable(h[v.addr]) {
      var a := v.addr;
      assert !ShouldShallowCopy(h, v);
      if TagOf(h[a]) in ConstructorHandlers {
        HandlerDone(h, a, st, fuel, rank);
      } else if h[a].ArrayNode? {
        ArrayDone(h, a, st, fuel, rank);
      } else if h[a].ObjectNode? {
        ObjectDone(h, a, st, fuel, rank);
      }
    }
  }

  lemma {:induction false} CloneSeqDone(h: Heap, vs: seq<Value>, st: St, fuel: nat, rank: map<Addr, nat>, k: int)
    requires HeapWf(h) && AllInHeap(h, vs) && Inv(h, st) && Ranked(h, rank)
    requires RankedAtMost(rank, vs, k) && fuel > |Pending(h, rank, st.cache, k)|
    ensures CloneSeq(h, vs, st, fuel).Done?
    decreases fuel, 3, |vs|
  {
    if |vs| > 0 {
      if vs[0].Ref? {
        PendingShrinks(h, rank, st.cache, st.cache, k, rank[vs[0].addr]);
      }
      CloneDone(h, vs[0], st, fuel, rank);
      var r1 := Clone(h, vs[0], st, fuel);
      PendingShrinks(h, rank, st.cache, r1.st.cache, k, k);
      assert RankedAtMost(rank, vs[1..], k) by {
        forall i | 0 <= i < |vs[1..]| && vs[1..][i].Ref?
          ensures vs[1..][i].addr in rank && rank[vs[1..][i].addr] <= k
        {
          assert vs[1..][i] == vs[i + 1];
        }
      }
      CloneSeqDone(h, vs[1..], r1.st, fuel, rank, k);
    }
  }

  lemma {:induction false} HandlerDone(h: Heap, a: Addr, st: St, fuel: nat, rank: map<Addr, nat>)
    requires HeapWf(h) && a in h && a !in st.cache && TagOf(h[a]) in ConstructorHandlers && Inv(h, st)
    requires Ranked(h, rank) && a in rank && fuel > |Pending(h, rank, st.cache, rank[a])|
    ensures CloneWithHandler(h, a, st, fuel).Done?
    decreases fuel, 1
  {
    HandlerDispatch(h, a, st, fuel);
    if h[a].SetNode? || h[a].MapNode? {
      LateDone(h, a, st, fuel, rank);
    }
  }

  /** A Set or Map: its members all have a lower rank, so it is off the pending work while they are cloned. */
  lemma {:induction false} LateDone(h: Heap, a: Addr, st: St, fuel: nat, rank: map<Addr, nat>)
    requires HeapWf(h) && a in h && a !in st.cache && (h[a].SetNode? || h[a].MapNode?) && Inv(h, st)
    requires Ranked(h, rank) && a in rank && fuel > |Pending(h, rank, st.cache, rank[a])|
    ensures h[a].SetNode? ==> CloneSet(h, a, st, fuel).Done?
    ensures h[a].MapNode? ==> CloneMap(h, a, st, fuel).Done?
    decreases fuel, 0
  {
    var holder := if h[a].SetNode? then SetNode([]) else MapNode([]);
    var st1 := Alloc(st, holder);
    AllocOnly(h, st, holder);
    KidsInHeap(h, a);
    KidsRanked(h, rank, a);
    PendingDrops(h, rank, st.cache, a, st.next, rank[a]);
    CloneSeqDone(h, Kids(h[a]), st1, Less(fuel), rank, rank[a] as int - 1);
  }

  lemma {:induction false} ArrayDone(h: Heap, a: Addr, st: St, fuel: nat, rank: map<Addr, nat>)
    requires HeapWf(h) && a in h && a !in st.cache && h[a].ArrayNode? && Inv(h, st)
    requires Ranked(h, rank) && a in rank && fuel > |Pending(h, rank, st.cache, rank[a])|
    ensures CloneArray(h, a, st, fuel).Done?
    decreases fuel, 1
  {
    var holder := ArrayNode(Holes(|h[a].elems|));
    var st1 := Record(Alloc(st, holder), a, st.next);
    AllocRecord(h, st, holder, a);
    KidsInHeap(h, a);
    KidsRanked(h, rank, a);
    PendingDrops(h, rank, st.cache, a, st.next, rank[a]);
    CloneSeqDone(h, Kids(h[a]), st1, Less(fuel), rank, rank[a]);
  }

  lemma {:induction false} ObjectDone(h: Heap, a: Addr, st: St, fuel: nat, rank: map<Addr, nat>)
    requires HeapWf(h) && a in h && a !in st.cache && h[a].ObjectNode? && Inv(h, st)
    requires Ranked(h, rank) && a in rank && fuel > |Pending(h, rank, st.cache, rank[a])|
    ensures CloneObject(h, a, st, fuel).Done?
    decreases fuel, 1
  {
    var st1 := Record(Alloc(st, ObjectNode([])), a, st.next);
    AllocRecord(h, st, ObjectNode([]), a);
    KidsInHeap(h, a);
    KidsRanked(h, rank, a);
    PendingDrops(h, rank, st.cache, a, st.next, rank[a]);
    CloneSeqDone(h, Kids(h[a]), st1, Less(fuel), rank, rank[a]);
  }
}
