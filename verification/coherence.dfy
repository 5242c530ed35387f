/**
 What a finished deep clone looks like, for inputs in which no cycle passes
 through a Set or a Map.

 Every original recorded in the cache has, at its clone's address, a node of
 the same kind whose payload is carried over and whose members are the
 clones of the original's members under the very same cache.  Because one
 cache is consulted everywhere, a composite reached along two paths is
 cloned once, and a cycle through arrays and records closes onto the clone.
 */
module Coherence {
  import opened JsHeap
  import opened Builders
  import opened Engine

  /**
   No cycle passes through a Set or Map: a rank that never grows along an
   edge from a node to a member, and strictly drops out of a Set or Map.
   */
  ghost predicate Ranked(h: Heap, rank: map<Addr, nat>)
  {
    forall a :: a in h ==> a in rank && RankedKids(rank, h[a], rank[a])
  }

  ghost predicate RankedKids(rank: map<Addr, nat>, n: Node, k: nat)
  {
    forall i :: 0 <= i < |Kids(n)| && Kids(n)[i].Ref? ==>
      Kids(n)[i].addr in rank &&
      (if CachedLate(n) then rank[Kids(n)[i].addr] < k else rank[Kids(n)[i].addr] <= k)
  }

  /** Every value of `vs` that is a reference has rank at most `k`. */
  ghost predicate RankedAtMost(rank: map<Addr, nat>, vs: seq<Value>, k: int)
  {
    forall i :: 0 <= i < |vs| && vs[i].Ref? ==> vs[i].addr in rank && rank[vs[i].addr] <= k
  }

  /** The originals newly recorded between `c` and `c'` all have rank at most `k`. */
  ghost predicate NewKeysAtMost(rank: map<Addr, nat>, c: map<Addr, Addr>, c': map<Addr, Addr>, k: int)
  {
    forall b :: b in c' && b !in c ==> b in rank && rank[b] <= k
  }

  /** What of an original node's own payload its clone `m` carries. */
  ghost predicate Payload(h: Heap, heap: Heap, n: Node, m: Node)
  {
    match n
    case ArrayNode(_) => m.ArrayNode?
    case ObjectNode(fs) =>
      m.ObjectNode? && |m.fields| == |fs| && forall i :: 0 <= i < |fs| ==> m.fields[i].key == fs[i].key
    case DateNode(t) => m == DateNode(t)
    case RegExpNode(src, fl, _) => m == RegExpNode(src, fl, 0)
    case SetNode(_) => m.SetNode?
    case MapNode(_) => m.MapNode?
    case TypedArrayNode(k, buf, off, len) =>
      && m.TypedArrayNode? && m.kind == k && m.byteOffset == off && m.length == len
      && buf in h && h[buf].ArrayBufferNode?
      && m.buffer in heap && m.buffer !in h && heap[m.buffer] == ArrayBufferNode(h[buf].bytes)
    case ArrayBufferNode(bs) => m == ArrayBufferNode(bs)
    case _ => false
  }

  /** The clone recorded for `a` is a faithful image of `h[a]` under cache `c`. */
  ghost predicate Image(h: Heap, heap: Heap, c: map<Addr, Addr>, a: Addr)
    requires HeapWf(h) && a in h && a in c
  {
    var n := h[a];
    var d := c[a];
    assert NodeWf(h, n);
    && d in heap
    && Payload(h, heap, n, heap[d])
    && |Kids(heap[d])| == |Kids(n)|
    && forall i :: 0 <= i < |Kids(n)| ==> Corresponds(h, c, Kids(n)[i], Kids(heap[d])[i])
  }

  /** Every recorded original outside `pend` (the arrays and records still being filled) has a faithful image. */
  ghost predicate AllImages(h: Heap, st: St, pend: set<Addr>)
    requires HeapWf(h)
  {
    forall a :: a in st.cache && a in h && a !in pend ==> Image(h, st.heap, st.cache, a)
  }

  lemma CorrGrows(h: Heap, c: map<Addr, Addr>, c': map<Addr, Addr>, v: Value, w: Value)
    requires InHeap(h, v) && Corresponds(h, c, v, w) && CacheGrows(c, c')
    ensures Corresponds(h, c', v, w)
  {
  }

  /** Distinct originals have distinct clones. */
  lemma CorrInjective(h: Heap, st: St, v1: Value, w1: Value, v2: Value, w2: Value)
    requires Inv(h, st) && InHeap(h, v1) && InHeap(h, v2)
    requires Corresponds(h, st.cache, v1, w1) && Corresponds(h, st.cache, v2, w2)
    requires v1 != v2
    ensures w1 != w2
  {
    if v1.Ref? && v2.Ref? && Cloneable(h[v1.addr]) && Cloneable(h[v2.addr]) {
      assert st.cache[v1.addr] != st.cache[v2.addr];
    }
  }

  lemma ImageGrows(h: Heap, heap: Heap, c: map<Addr, Addr>, heap': Heap, c': map<Addr, Addr>, a: Addr)
    requires HeapWf(h) && a in h && a in c && Image(h, heap, c, a)
    requires HeapGrows(heap, heap') && CacheGrows(c, c')
    ensures a in c' && Image(h, heap', c', a)
  {
    var n := h[a];
    assert NodeWf(h, n);
    forall i | 0 <= i < |Kids(n)|
      ensures Corresponds(h, c', Kids(n)[i], Kids(heap'[c'[a]])[i])
    {
      CorrGrows(h, c, c', Kids(n)[i], Kids(heap[c[a]])[i]);
    }
  }

  lemma AllImagesGrow(h: Heap, st: St, st': St, pend: set<Addr>, pend': set<Addr>)
    requires HeapWf(h) && AllImages(h, st, pend)
    requires HeapGrows(st.heap, st'.heap) && CacheGrows(st.cache, st'.cache)
    requires forall a :: a in st'.cache && a !in st.cache ==> a in pend'
    requires pend <= pend'
    ensures AllImages(h, st', pend')
  {
    forall a | a in st'.cache && a in h && a !in pend'
      ensures Image(h, st'.heap, st'.cache, a)
    {
      ImageGrows(h, st.heap, st.cache, st'.heap, st'.cache, a);
    }
  }

  /** Filling an address that is neither a finished clone nor a buffer copy disturbs no image. */
  lemma AllImagesFill(h: Heap, st: St, pend: set<Addr>, d: Addr, m: Node)
    requires HeapWf(h) && AllImages(h, st, pend)
    requires d in st.heap && !st.heap[d].ArrayBufferNode?
    requires forall b :: b in st.cache && b in h && b !in pend ==> st.cache[b] != d
    ensures AllImages(h, Fill(st, d, m), pend)
  {
    var st' := Fill(st, d, m);
    forall a | a in st'.cache && a in h && a !in pend
      ensures Image(h, st'.heap, st'.cache, a)
    {
      var n := h[a];
      assert NodeWf(h, n);
      assert st'.heap[st.cache[a]] == st.heap[st.cache[a]];
      if n.TypedArrayNode? {
        var bc := st.heap[st.cache[a]].buffer;
        assert st.heap[bc].ArrayBufferNode?;
        assert st'.heap[bc] == st.heap[bc];
      }
    }
  }

  /** The top of the recursion: what a call of the engine leaves behind. */
  lemma {:induction false} CloneCoherent(h: Heap, v: Value, st: St, fuel: nat, rank: map<Addr, nat>, pend: set<Addr>)
    requires HeapWf(h) && InHeap(h, v) && Inv(h, st) && Ranked(h, rank)
    requires AllImages(h, st, pend)
    requires Clone(h, v, st, fuel).Done?
    ensures AllImages(h, Clone(h, v, st, fuel).st, pend)
    ensures v.Ref? ==> NewKeysAtMost(rank, st.cache, Clone(h, v, st, fuel).st.cache, rank[v.addr])
    decreases fuel, 2
  {
    if !ShouldShallowCopy(h, v) && v.addr !in st.cache {
      var a := v.addr;
      var t := TagOf(h[a]);
      if t in ConstructorHandlers {
        HandlerCoherent(h, a, st, fuel, rank, pend);
      } else if t == TagArray || t == TagObject {
        if t == TagArray { ArrayCoherent(h, a, st, fuel, rank, pend); } else { ObjectCoherent(h, a, st, fuel, rank, pend); }
      } else if t.TagTyped? && t.kind in CopiedKinds {
        TypedCoherent(h, a, st, rank, pend);
      } else if t == TagArrayBuffer {
        LeafCoherent(h, a, st, ArrayBufferNode(h[a].bytes), rank, pend);
      }
    }
  }

  lemma {:induction false} CloneSeqCoherent(h: Heap, vs: seq<Value>, st: St, fuel: nat, rank: map<Addr, nat>, pend: set<Addr>, k: int)
    requires HeapWf(h) && AllInHeap(h, vs) && Inv(h, st) && Ranked(h, rank)
    requires AllImages(h, st, pend) && RankedAtMost(rank, vs, k)
    requires CloneSeq(h, vs, st, fuel).Done?
    ensures AllImages(h, CloneSeq(h, vs, st, fuel).st, pend)
    ensures NewKeysAtMost(rank, st.cache, CloneSeq(h, vs, st, fuel).st.cache, k)
    decreases fuel, 3, |vs|
  {
    if |vs| > 0 {
      var r1 := Clone(h, vs[0], st, fuel);
      CloneCoherent(h, vs[0], st, fuel, rank, pend);
      assert RankedAtMost(rank, vs[1..], k) by {
        forall i | 0 <= i < |vs[1..]| && vs[1..][i].Ref?
          ensures vs[1..][i].addr in rank && rank[vs[1..][i].addr] <= k
        {
          assert vs[1..][i] == vs[i + 1];
        }
      }
      CloneSeqCoherent(h, vs[1..], r1.st, fuel, rank, pend, k);
    }
  }

  /** A clone without members (Date, RegExp, ArrayBuffer): one allocation, recorded at once. */
  lemma LeafCoherent(h: Heap, a: Addr, st: St, m: Node, rank: map<Addr, nat>, pend: set<Addr>)
    requires HeapWf(h) && a in h && a !in st.cache && Cloneable(h[a]) && Inv(h, st)
    requires Ranked(h, rank) && AllImages(h, st, pend)
    requires Kids(h[a]) == [] && Kids(m) == [] && Payload(h, Alloc(st, m).heap, h[a], m)
    ensures AllImages(h, Record(Alloc(st, m), a, st.next), pend)
    ensures NewKeysAtMost(rank, st.cache, Record(Alloc(st, m), a, st.next).cache, rank[a])
  {
    var st' := Record(Alloc(st, m), a, st.next);
    AllocRecord(h, st, m, a);
    AllImagesGrow(h, st, st', pend, pend + {a});
    assert Image(h, st'.heap, st'.cache, a);
  }

  lemma TypedCoherent(h: Heap, a: Addr, st: St, rank: map<Addr, nat>, pend: set<Addr>)
    requires HeapWf(h) && a in h && a !in st.cache && h[a].TypedArrayNode? && h[a].kind in CopiedKinds && Inv(h, st)
    requires Ranked(h, rank) && AllImages(h, st, pend)
    ensures AllImages(h, CopyTypedArray(h, a, st).st, pend)
    ensures NewKeysAtMost(rank, st.cache, CopyTypedArray(h, a, st).st.cache, rank[a])
  {
    TypedWorld(h, a, st);
    var st' := CopyTypedArray(h, a, st).st;
    AllImagesGrow(h, st, st', pend, pend + {a});
    TypedImage(h, a, st);
  }

  /** A copied typed array is a view of the same kind and window over a fresh copy of its buffer. */
  lemma TypedImage(h: Heap, a: Addr, st: St)
    requires HeapWf(h) && a in h && a !in st.cache && h[a].TypedArrayNode? && h[a].kind in CopiedKinds && Inv(h, st)
    ensures a in CopyTypedArray(h, a, st).st.cache
    ensures Image(h, CopyTypedArray(h, a, st).st.heap, CopyTypedArray(h, a, st).st.cache, a)
  {
    var n := h[a];
    var st' := CopyTypedArray(h, a, st).st;
    TypedWorld(h, a, st);
    TypedPayload(h, n, st'.heap, st.next, st.next + 1);
  }

  /** The world after copying a typed array: the buffer copy at `next`, the view after it. */
  lemma TypedWorld(h: Heap, a: Addr, st: St)
    requires HeapWf(h) && a in h && a !in st.cache && h[a].TypedArrayNode? && h[a].kind in CopiedKinds && Inv(h, st)
    ensures h[a].buffer in h && h[h[a].buffer].ArrayBufferNode? && st.next !in h
    ensures var st' := CopyTypedArray(h, a, st).st;
      && st'.cache == st.cache[a := st.next + 1]
      && st.next in st'.heap && st'.heap[st.next] == ArrayBufferNode(h[h[a].buffer].bytes)
      && st.next + 1 in st'.heap && st'.heap[st.next + 1] == TypedArrayNode(h[a].kind, st.next, h[a].byteOffset, h[a].length)
  {
    assert NodeWf(h, h[a]);
    TypedState(h, a, st);
  }

  lemma TypedState(h: Heap, a: Addr, st: St)
    requires HeapWf(h) && a in h && a !in st.cache && h[a].TypedArrayNode? && h[a].kind in CopiedKinds && Inv(h, st)
    ensures CopyTypedArray(h, a, st).st == Record(Alloc(Alloc(st, ArrayBufferNode(h[h[a].buffer].bytes)),
      TypedArrayNode(h[a].kind, st.next, h[a].byteOffset, h[a].length)), a, st.next + 1)
  {
  }

  lemma TypedPayload(h: Heap, n: Node, heap: Heap, b: Addr, d: Addr)
    requires n.TypedArrayNode? && n.buffer in h && h[n.buffer].ArrayBufferNode? && b !in h
    requires b in heap && heap[b] == ArrayBufferNode(h[n.buffer].bytes)
    requires d in heap && heap[d] == TypedArrayNode(n.kind, b, n.byteOffset, n.length)
    ensures Payload(h, heap, n, heap[d]) && Kids(n) == [] && Kids(heap[d]) == []
  {
  }

  /** The rank bound on a node's members that `Ranked` guarantees. */
  lemma KidsRanked(h: Heap, rank: map<Addr, nat>, a: Addr)
    requires Ranked(h, rank) && a in h
    ensures a in rank
    ensures CachedLate(h[a]) ==> RankedAtMost(rank, Kids(h[a]), rank[a] as int - 1)
    ensures RankedAtMost(rank, Kids(h[a]), rank[a])
  {
    assert RankedKids(rank, h[a], rank[a]);
  }

  /** One finished array clone, step by step: placeholder, elements, fill. */
  lemma ArraySteps(h: Heap, a: Addr, st: St, fuel: nat)
    requires HeapWf(h) && a in h && a !in st.cache && h[a].ArrayNode? && Inv(h, st)
    requires CloneArray(h, a, st, fuel).Done?
    ensures fuel > 0
    ensures Inv(h, Record(Alloc(st, ArrayNode(Holes(|h[a].elems|))), a, st.next)) && AllInHeap(h, Kids(h[a]))
    ensures var st1 := Record(Alloc(st, ArrayNode(Holes(|h[a].elems|))), a, st.next);
      var r := CloneSeq(h, Kids(h[a]), st1, Less(fuel));
      r.Done? && CloneArray(h, a, st, fuel).st == Fill(r.st, st.next, ArrayNode(r.out))
  {
    var st1 := Record(Alloc(st, ArrayNode(Holes(|h[a].elems|))), a, st.next);
    AllocRecord(h, st, ArrayNode(Holes(|h[a].elems|)), a);
    KidsInHeap(h, a);
  }

  /** One finished record clone, step by step: placeholder, values, fill. */
  lemma ObjectSteps(h: Heap, a: Addr, st: St, fuel: nat)
    requires HeapWf(h) && a in h && a !in st.cache && h[a].ObjectNode? && Inv(h, st)
    requires CloneObject(h, a, st, fuel).Done?
    ensures fuel > 0
    ensures Inv(h, Record(Alloc(st, ObjectNode([])), a, st.next)) && AllInHeap(h, Kids(h[a]))
    ensures var st1 := Record(Alloc(st, ObjectNode([])), a, st.next);
      var r := CloneSeq(h, Kids(h[a]), st1, Less(fuel));
      r.Done? && CloneObject(h, a, st, fuel).st == Fill(r.st, st.next, ObjectNode(PutAll([], h[a].fields, r.out)))
  {
    AllocRecord(h, st, ObjectNode([]), a);
    KidsInHeap(h, a);
  }

  /** One finished Set clone, step by step: placeholder, members, fill, record. */
  lemma SetSteps(h: Heap, a: Addr, st: St, fuel: nat)
    requires HeapWf(h) && a in h && a !in st.cache && h[a].SetNode? && Inv(h, st)
    requires CloneSet(h, a, st, fuel).Done?
    ensures fuel > 0
    ensures Inv(h, Alloc(st, SetNode([]))) && AllInHeap(h, Kids(h[a]))
    ensures var r := CloneSeq(h, Kids(h[a]), Alloc(st, SetNode([])), Less(fuel));
      r.Done? && CloneSet(h, a, st, fuel).st == Record(Fill(r.st, st.next, SetNode(AddAll([], r.out))), a, st.next)
  {
    AllocOnly(h, st, SetNode([]));
    KidsInHeap(h, a);
  }

  /** One finished Map clone, step by step: placeholder, keys and values, fill, record. */
  lemma MapSteps(h: Heap, a: Addr, st: St, fuel: nat)
    requires HeapWf(h) && a in h && a !in st.cache && h[a].MapNode? && Inv(h, st)
    requires CloneMap(h, a, st, fuel).Done?
    ensures fuel > 0
    ensures Inv(h, Alloc(st, MapNode([]))) && AllInHeap(h, Kids(h[a]))
    ensures var r := CloneSeq(h, Kids(h[a]), Alloc(st, MapNode([])), Less(fuel));
      r.Done? && |r.out| % 2 == 0 &&
      CloneMap(h, a, st, fuel).st == Record(Fill(r.st, st.next, MapNode(MapSetAll([], Pairs(r.out)))), a, st.next)
  {
    AllocOnly(h, st, MapNode([]));
    KidsInHeap(h, a);
    var r := CloneSeq(h, Kids(h[a]), Alloc(st, MapNode([])), Less(fuel));
    assert r.Done?;
    Twice(|r.out|, |h[a].entries|);
  }

  /** Arrays: recorded before their elements are cloned, filled afterwards. */
  lemma {:induction false} ArrayCoherent(h: Heap, a: Addr, st: St, fuel: nat, rank: map<Addr, nat>, pend: set<Addr>)
    requires HeapWf(h) && a in h && a !in st.cache && h[a].ArrayNode? && Inv(h, st)
    requires Ranked(h, rank) && AllImages(h, st, pend)
    requires CloneArray(h, a, st, fuel).Done?
    ensures AllImages(h, CloneArray(h, a, st, fuel).st, pend)
    ensures NewKeysAtMost(rank, st.cache, CloneArray(h, a, st, fuel).st.cache, rank[a])
    decreases fuel, 1
  {
    var n := h[a];
    ArraySteps(h, a, st, fuel);
    EarlyStart(h, a, st, ArrayNode(Holes(|n.elems|)), rank, pend);
    var st1 := Record(Alloc(st, ArrayNode(Holes(|n.elems|))), a, st.next);
    var r := CloneSeq(h, Kids(n), st1, Less(fuel));
    CloneSeqCoherent(h, Kids(n), st1, Less(fuel), rank, pend + {a}, rank[a]);
    ArrayFinish(h, a, st, st1, r.st, r.out, rank, pend);
  }

  /** The placeholder of an array or record, recorded before any member is cloned, is the one pending image. */
  lemma EarlyStart(h: Heap, a: Addr, st: St, m: Node, rank: map<Addr, nat>, pend: set<Addr>)
    requires HeapWf(h) && a in h && a !in st.cache && Cloneable(h[a]) && Inv(h, st)
    requires Ranked(h, rank) && AllImages(h, st, pend)
    ensures Inv(h, Record(Alloc(st, m), a, st.next)) && AllImages(h, Record(Alloc(st, m), a, st.next), pend + {a})
    ensures a in rank && RankedAtMost(rank, Kids(h[a]), rank[a]) && AllInHeap(h, Kids(h[a]))
  {
    var st1 := Record(Alloc(st, m), a, st.next);
    AllocRecord(h, st, m, a);
    AllImagesGrow(h, st, st1, pend, pend + {a});
    KidsRanked(h, rank, a);
    KidsInHeap(h, a);
  }

  /** The placeholder of a Set or Map is allocated but not recorded while its members are cloned. */
  lemma LateStart(h: Heap, a: Addr, st: St, m: Node, rank: map<Addr, nat>, pend: set<Addr>)
    requires HeapWf(h) && a in h && CachedLate(h[a]) && Inv(h, st)
    requires Ranked(h, rank) && AllImages(h, st, pend)
    ensures Inv(h, Alloc(st, m)) && AllImages(h, Alloc(st, m), pend)
    ensures a in rank && RankedAtMost(rank, Kids(h[a]), rank[a] as int - 1) && AllInHeap(h, Kids(h[a]))
  {
    AllocOnly(h, st, m);
    AllImagesGrow(h, st, Alloc(st, m), pend, pend);
    KidsRanked(h, rank, a);
    KidsInHeap(h, a);
  }

  /** What is left of an array clone once its elements are cloned. */
  lemma ArrayFinish(h: Heap, a: Addr, st: St, st1: St, st2: St, out: seq<Value>, rank: map<Addr, nat>, pend: set<Addr>)
    requires HeapWf(h) && a in h && a !in st.cache && h[a].ArrayNode? && Inv(h, st)
    requires st1 == Record(Alloc(st, ArrayNode(Holes(|h[a].elems|))), a, st.next)
    requires Inv(h, st2) && Grows(st1, st2) && AllImages(h, st2, pend + {a})
    requires a in rank && NewKeysAtMost(rank, st1.cache, st2.cache, rank[a])
    requires AllInHeap(h, Kids(h[a])) && |out| == |Kids(h[a])|
    requires forall i :: 0 <= i < |out| ==> Corresponds(h, st2.cache, Kids(h[a])[i], out[i])
    ensures AllImages(h, Fill(st2, st.next, ArrayNode(out)), pend)
    ensures NewKeysAtMost(rank, st.cache, st2.cache, rank[a])
  {
    assert a in st2.cache && st2.cache[a] == st.next;
    assert st2.heap[st.next] == ArrayNode(Holes(|h[a].elems|));
    FinishEarly(h, st2, a, st.next, ArrayNode(out), pend);
  }

  /** Plain records: `{}` recorded first, then every key assigned its clone. */
  lemma {:induction false} ObjectCoherent(h: Heap, a: Addr, st: St, fuel: nat, rank: map<Addr, nat>, pend: set<Addr>)
    requires HeapWf(h) && a in h && a !in st.cache && h[a].ObjectNode? && Inv(h, st)
    requires Ranked(h, rank) && AllImages(h, st, pend)
    requires CloneObject(h, a, st, fuel).Done?
    ensures AllImages(h, CloneObject(h, a, st, fuel).st, pend)
    ensures NewKeysAtMost(rank, st.cache, CloneObject(h, a, st, fuel).st.cache, rank[a])
    decreases fuel, 1
  {
    var n := h[a];
    ObjectSteps(h, a, st, fuel);
    EarlyStart(h, a, st, ObjectNode([]), rank, pend);
    var st1 := Record(Alloc(st, ObjectNode([])), a, st.next);
    var r := CloneSeq(h, Kids(n), st1, Less(fuel));
    CloneSeqCoherent(h, Kids(n), st1, Less(fuel), rank, pend + {a}, rank[a]);
    ObjectFinish(h, a, st, st1, r.st, r.out, rank, pend);
  }

  /** What is left of a record clone once its values are cloned. */
  lemma ObjectFinish(h: Heap, a: Addr, st: St, st1: St, st2: St, out: seq<Value>, rank: map<Addr, nat>, pend: set<Addr>)
    requires HeapWf(h) && a in h && a !in st.cache && h[a].ObjectNode? && Inv(h, st)
    requires st1 == Record(Alloc(st, ObjectNode([])), a, st.next)
    requires Inv(h, st2) && Grows(st1, st2) && AllImages(h, st2, pend + {a})
    requires a in rank && NewKeysAtMost(rank, st1.cache, st2.cache, rank[a])
    requires AllInHeap(h, Kids(h[a])) && |out| == |Kids(h[a])|
    requires forall i :: 0 <= i < |out| ==> Corresponds(h, st2.cache, Kids(h[a])[i], out[i])
    ensures AllImages(h, Fill(st2, st.next, ObjectNode(PutAll([], h[a].fields, out))), pend)
    ensures NewKeysAtMost(rank, st.cache, st2.cache, rank[a])
  {
    var n := h[a];
    assert a in st2.cache && st2.cache[a] == st.next;
    assert st2.heap[st.next] == ObjectNode([]);
    assert NodeWf(h, n);
    RebuiltRecord(n.fields, out);
    FinishEarly(h, st2, a, st.next, ObjectNode(PutAll([], n.fields, out)), pend);
  }

  /** Filling an array or record recorded early makes its image complete. */
  lemma FinishEarly(h: Heap, st: St, a: Addr, d: Addr, m: Node, pend: set<Addr>)
    requires HeapWf(h) && Inv(h, st) && a in h && a in st.cache && st.cache[a] == d
    requires !st.heap[d].ArrayBufferNode? && AllImages(h, st, pend + {a})
    requires Payload(h, Fill(st, d, m).heap, h[a], m)
    requires AllInHeap(h, Kids(h[a])) && |Kids(m)| == |Kids(h[a])|
    requires forall i :: 0 <= i < |Kids(h[a])| ==> Corresponds(h, st.cache, Kids(h[a])[i], Kids(m)[i])
    ensures AllImages(h, Fill(st, d, m), pend)
  {
    forall b | b in st.cache && b in h && b !in pend + {a}
      ensures st.cache[b] != d
    {
    }
    AllImagesFill(h, st, pend + {a}, d, m);
  }

  /** Date and RegExp through their handler; Set and Map in their own lemmas. */
  lemma {:induction false} HandlerCoherent(h: Heap, a: Addr, st: St, fuel: nat, rank: map<Addr, nat>, pend: set<Addr>)
    requires HeapWf(h) && a in h && a !in st.cache && TagOf(h[a]) in ConstructorHandlers && Inv(h, st)
    requires Ranked(h, rank) && AllImages(h, st, pend)
    requires CloneWithHandler(h, a, st, fuel).Done?
    ensures AllImages(h, CloneWithHandler(h, a, st, fuel).st, pend)
    ensures NewKeysAtMost(rank, st.cache, CloneWithHandler(h, a, st, fuel).st.cache, rank[a])
    decreases fuel, 1
  {
    var n := h[a];
    HandlerDispatch(h, a, st, fuel);
    if n.DateNode? {
      LeafCoherent(h, a, st, DateNode(n.time), rank, pend);
    } else if n.RegExpNode? {
      LeafCoherent(h, a, st, RegExpNode(n.source, n.flags, 0), rank, pend);
    } else if n.SetNode? {
      SetCoherent(h, a, st, fuel, rank, pend);
    } else {
      MapCoherent(h, a, st, fuel, rank, pend);
    }
  }

  /** Sets: the members are cloned first, the clone recorded only afterwards. */
  lemma {:induction false} SetCoherent(h: Heap, a: Addr, st: St, fuel: nat, rank: map<Addr, nat>, pend: set<Addr>)
    requires HeapWf(h) && a in h && a !in st.cache && h[a].SetNode? && Inv(h, st)
    requires Ranked(h, rank) && AllImages(h, st, pend)
    requires CloneSet(h, a, st, fuel).Done?
    ensures AllImages(h, CloneSet(h, a, st, fuel).st, pend)
    ensures NewKeysAtMost(rank, st.cache, CloneSet(h, a, st, fuel).st.cache, rank[a])
    decreases fuel, 0
  {
    var n := h[a];
    SetSteps(h, a, st, fuel);
    LateStart(h, a, st, SetNode([]), rank, pend);
    var st1 := Alloc(st, SetNode([]));
    var r := CloneSeq(h, Kids(n), st1, Less(fuel));
    CloneSeqCoherent(h, Kids(n), st1, Less(fuel), rank, pend, rank[a] as int - 1);
    SetFinish(h, st, r.st, r.out, a, rank, pend);
  }

  /** Maps: keys and values are cloned first, the clone recorded only afterwards. */
  lemma {:induction false} MapCoherent(h: Heap, a: Addr, st: St, fuel: nat, rank: map<Addr, nat>, pend: set<Addr>)
    requires HeapWf(h) && a in h && a !in st.cache && h[a].MapNode? && Inv(h, st)
    requires Ranked(h, rank) && AllImages(h, st, pend)
    requires CloneMap(h, a, st, fuel).Done?
    ensures AllImages(h, CloneMap(h, a, st, fuel).st, pend)
    ensures NewKeysAtMost(rank, st.cache, CloneMap(h, a, st, fuel).st.cache, rank[a])
    decreases fuel, 0
  {
    var n := h[a];
    MapSteps(h, a, st, fuel);
    LateStart(h, a, st, MapNode([]), rank, pend);
    var st1 := Alloc(st, MapNode([]));
    var r := CloneSeq(h, Kids(n), st1, Less(fuel));
    CloneSeqCoherent(h, Kids(n), st1, Less(fuel), rank, pend, rank[a] as int - 1);
    MapFinish(h, st, r.st, r.out, a, rank, pend);
  }

  /** What is left of a Set clone once its members are cloned. */
  lemma SetFinish(h: Heap, st: St, st2: St, out: seq<Value>, a: Addr, rank: map<Addr, nat>, pend: set<Addr>)
    requires HeapWf(h) && Inv(h, st) && a in h && a !in st.cache && h[a].SetNode?
    requires Grows(Alloc(st, SetNode([])), st2) && Inv(h, st2) && AllImages(h, st2, pend)
    requires a in rank && NewKeysAtMost(rank, st.cache, st2.cache, rank[a] as int - 1)
    requires AllInHeap(h, Kids(h[a])) && |out| == |Kids(h[a])|
    requires forall i :: 0 <= i < |out| ==> Corresponds(h, st2.cache, Kids(h[a])[i], out[i])
    ensures AllImages(h, Record(Fill(st2, st.next, SetNode(AddAll([], out))), a, st.next), pend)
  {
    LateFresh(h, st, Alloc(st, SetNode([])), st2, a);
    assert NodeWf(h, h[a]);
    assert a !in st2.cache;
    SetImage(h, st2, h[a], out);
    FinishLate(h, st2, a, st.next, SetNode(AddAll([], out)), pend);
  }

  /** What is left of a Map clone once its keys and values are cloned. */
  lemma MapFinish(h: Heap, st: St, st2: St, out: seq<Value>, a: Addr, rank: map<Addr, nat>, pend: set<Addr>)
    requires HeapWf(h) && Inv(h, st) && a in h && a !in st.cache && h[a].MapNode?
    requires Grows(Alloc(st, MapNode([])), st2) && Inv(h, st2) && AllImages(h, st2, pend)
    requires a in rank && NewKeysAtMost(rank, st.cache, st2.cache, rank[a] as int - 1)
    requires AllInHeap(h, Kids(h[a])) && |out| == |Kids(h[a])|
    requires forall i :: 0 <= i < |out| ==> Corresponds(h, st2.cache, Kids(h[a])[i], out[i])
    ensures |out| % 2 == 0
    ensures AllImages(h, Record(Fill(st2, st.next, MapNode(MapSetAll([], Pairs(out)))), a, st.next), pend)
  {
    Twice(|out|, |h[a].entries|);
    LateFresh(h, st, Alloc(st, MapNode([])), st2, a);
    assert NodeWf(h, h[a]);
    assert a !in st2.cache;
    MapImage(h, st2, h[a], out);
    FinishLate(h, st2, a, st.next, MapNode(MapSetAll([], Pairs(out))), pend);
  }

  /**
   While a Set or Map's members are cloned, its placeholder at `st.next` is
   no recorded clone, and (with ranks strictly dropping) it is not recorded itself.
   */
  lemma LateFresh(h: Heap, st: St, st1: St, st2: St, a: Addr)
    requires Inv(h, st) && a in h && st1 == Alloc(st, if h[a].SetNode? then SetNode([]) else MapNode([]))
    requires a in h && (h[a].SetNode? || h[a].MapNode?) && Grows(st1, st2)
    ensures st.next in st2.heap && !st2.heap[st.next].ArrayBufferNode?
    ensures forall b :: b in st2.cache ==> st2.cache[b] != st.next
  {
    forall b | b in st2.cache
      ensures st2.cache[b] != st.next
    {
      if b in st.cache {
        assert st.cache[b] in st.heap;
      }
    }
  }

  /** Filling and then recording a Set or Map makes its image complete. */
  lemma FinishLate(h: Heap, st: St, a: Addr, d: Addr, m: Node, pend: set<Addr>)
    requires HeapWf(h) && Inv(h, st) && a in h && a !in st.cache
    requires d in st.heap && !st.heap[d].ArrayBufferNode?
    requires forall b :: b in st.cache ==> st.cache[b] != d
    requires AllImages(h, st, pend)
    requires Payload(h, Fill(st, d, m).heap, h[a], m)
    requires AllInHeap(h, Kids(h[a])) && |Kids(m)| == |Kids(h[a])|
    requires forall i :: 0 <= i < |Kids(h[a])| ==> Corresponds(h, st.cache, Kids(h[a])[i], Kids(m)[i])
    ensures AllImages(h, Record(Fill(st, d, m), a, d), pend)
  {
    AllImagesFill(h, st, pend, d, m);
    var st3 := Fill(st, d, m);
    var st4 := Record(st3, a, d);
    AllImagesGrow(h, st3, st4, pend, pend + {a});
    forall i | 0 <= i < |Kids(h[a])|
      ensures Corresponds(h, st4.cache, Kids(h[a])[i], Kids(m)[i])
    {
      CorrGrows(h, st.cache, st4.cache, Kids(h[a])[i], Kids(m)[i]);
    }
    assert Image(h, st4.heap, st4.cache, a);
  }

  /** A record rebuilt by assigning `Object.keys` in order has the same keys, in order, holding `vs`. */
  lemma RebuiltRecord(keys: seq<Field>, vs: seq<Value>)
    requires |keys| == |vs| && DistinctKeys(keys)
    ensures |PutAll([], keys, vs)| == |keys|
    ensures forall i :: 0 <= i < |keys| ==> PutAll([], keys, vs)[i].key == keys[i].key
    ensures Vals(PutAll([], keys, vs)) == vs
  {
    PutAllFresh([], keys, vs);
    assert PutAll([], keys, vs) == Rebind(keys, vs);
    ValsRebind(keys, vs);
  }

  lemma ValsRebind(keys: seq<Field>, vs: seq<Value>)
    requires |keys| == |vs|
    ensures Vals(Rebind(keys, vs)) == vs
  {
  }

  /**
   Distinct members have distinct clones, so `add` never meets a clone
   twice: the rebuilt Set lists the clones in order.
   */
  lemma SetImage(h: Heap, st: St, n: Node, out: seq<Value>)
    requires HeapWf(h) && Inv(h, st) && n.SetNode? && NodeWf(h, n)
    requires |out| == |Kids(n)|
    requires forall i :: 0 <= i < |Kids(n)| ==> Corresponds(h, st.cache, Kids(n)[i], out[i])
    ensures AddAll([], out) == out
    ensures Kids(SetNode(AddAll([], out))) == out
  {
    forall i, j | 0 <= i < j < |out|
      ensures out[i] != out[j]
    {
      assert InHeap(h, Kids(n)[i]) && InHeap(h, Kids(n)[j]);
      CorrInjective(h, st, n.members[i], out[i], n.members[j], out[j]);
    }
    AddAllFresh([], out);
    KidsOfSet(AddAll([], out));
  }

  lemma KidsOfSet(ms: seq<Value>)
    ensures Kids(SetNode(ms)) == ms
  {
  }

  /**
   Distinct keys have distinct clones, so `set` never meets a key twice: the
   rebuilt Map lists the cloned entries in order.
   */
  lemma MapImage(h: Heap, st: St, n: Node, out: seq<Value>)
    requires HeapWf(h) && Inv(h, st) && n.MapNode? && NodeWf(h, n)
    requires |out| == |Kids(n)|
    requires forall i :: 0 <= i < |Kids(n)| ==> Corresponds(h, st.cache, Kids(n)[i], out[i])
    ensures MapSetAll([], Pairs(out)) == Pairs(out)
    ensures Flatten(Pairs(out)) == out
    ensures Kids(MapNode(MapSetAll([], Pairs(out)))) == out
  {
    PairKeysDistinct(h, st, n, out);
    MapSetAllFresh([], Pairs(out));
    FlattenPairs(out);
    KidsOfMap(MapSetAll([], Pairs(out)));
  }

  lemma KidsOfMap(es: seq<Entry>)
    ensures Kids(MapNode(es)) == Flatten(es)
  {
  }

  /** The cloned keys of a Map are pairwise distinct, because its keys are. */
  lemma PairKeysDistinct(h: Heap, st: St, n: Node, out: seq<Value>)
    requires HeapWf(h) && Inv(h, st) && n.MapNode? && NodeWf(h, n)
    requires |out| == |Kids(n)|
    requires forall i :: 0 <= i < |Kids(n)| ==> Corresponds(h, st.cache, Kids(n)[i], out[i])
    ensures |out| % 2 == 0 && DistinctEntryKeys(Pairs(out))
  {
    var es := n.entries;
    var kids := Flatten(es);
    Twice(|out|, |es|);
    var ps := Pairs(out);
    forall i, j | 0 <= i < j < |ps|
      ensures ps[i].key != ps[j].key
    {
      assert kids[2 * i] == es[i].key && kids[2 * j] == es[j].key;
      assert InHeap(h, kids[2 * i]) && InHeap(h, kids[2 * j]);
      assert ps[i].key == out[2 * i] && ps[j].key == out[2 * j];
      CorrInjective(h, st, kids[2 * i], out[2 * i], kids[2 * j], out[2 * j]);
    }
  }

  lemma FlattenPairs(vs: seq<Value>)
    requires |vs| % 2 == 0
    ensures Flatten(Pairs(vs)) == vs
  {
    var f := Flatten(Pairs(vs));
    forall i | 0 <= i < |vs|
      ensures f[i] == vs[i]
    {
      var j := i / 2;
      if i % 2 == 0 {
        assert i == 2 * j;
      } else {
        assert i == 2 * j + 1;
      }
    }
  }
}
