/**
 When the engine records an original in its cache, and what that order
 does to a container that holds itself.

 An array or record is recorded before its members are visited, so a
 member that is the container itself comes out as the new container.  A
 Set or Map is recorded only after its handler has cloned every member, so
 a Set or Map that holds itself meets itself unrecorded again and again,
 and no amount of fuel finishes it.
 */
module Recording {
  import opened JsHeap
  import opened Builders
  import opened Engine
  import opened Coherence

  /** An array element that is the array itself becomes the clone itself. */
  lemma ArraySelfClosed(h: Heap, a: Addr, st: St, fuel: nat)
    requires HeapWf(h) && a in h && a !in st.cache && h[a].ArrayNode? && Inv(h, st)
    requires CloneArray(h, a, st, fuel).Done?
    ensures var r := CloneArray(h, a, st, fuel);
      && st.next in r.st.heap && r.st.heap[st.next].ArrayNode?
      && |r.st.heap[st.next].elems| == |h[a].elems|
      && forall i :: 0 <= i < |h[a].elems| && h[a].elems[i] == Ref(a) ==> r.st.heap[st.next].elems[i] == Ref(st.next)
  {
    ArraySteps(h, a, st, fuel);
    var st1 := Record(Alloc(st, ArrayNode(Holes(|h[a].elems|))), a, st.next);
    var r2 := CloneSeq(h, Kids(h[a]), st1, Less(fuel));
    assert r2.st.cache[a] == st.next;
    assert Kids(h[a]) == h[a].elems;
  }

  /** A property whose value is the record itself becomes the clone itself. */
  lemma ObjectSelfClosed(h: Heap, a: Addr, st: St, fuel: nat)
    requires HeapWf(h) && a in h && a !in st.cache && h[a].ObjectNode? && Inv(h, st)
    requires CloneObject(h, a, st, fuel).Done?
    ensures var r := CloneObject(h, a, st, fuel);
      && st.next in r.st.heap && r.st.heap[st.next].ObjectNode?
      && |r.st.heap[st.next].fields| == |h[a].fields|
      && forall i :: 0 <= i < |h[a].fields| && h[a].fields[i].val == Ref(a) ==>
           r.st.heap[st.next].fields[i] == Field(h[a].fields[i].key, Ref(st.next))
  {
    ObjectSteps(h, a, st, fuel);
    assert NodeWf(h, h[a]);
    var fs := h[a].fields;
    var st1 := Record(Alloc(st, ObjectNode([])), a, st.next);
    var r2 := CloneSeq(h, Kids(h[a]), st1, Less(fuel));
    assert r2.st.cache[a] == st.next;
    RebuiltRecord(fs, r2.out);
    var m := PutAll([], fs, r2.out);
    forall i | 0 <= i < |fs| && fs[i].val == Ref(a)
      ensures m[i] == Field(fs[i].key, Ref(st.next))
    {
      assert Kids(h[a])[i] == fs[i].val;
      assert m[i].val == Vals(m)[i];
    }
  }

  /** A Set or Map among whose members (keys or values, for a Map) is itself. */
  ghost predicate HoldsItself(h: Heap, a: Addr)
  {
    a in h && (h[a].SetNode? || h[a].MapNode?) && exists i :: 0 <= i < |Kids(h[a])| && Kids(h[a])[i] == Ref(a)
  }

  /** A Set or Map that holds itself is never finished, whatever the fuel. */
  lemma {:induction false} SelfHolderExhausted(h: Heap, a: Addr, st: St, fuel: nat)
    requires HeapWf(h) && HoldsItself(h, a) && a !in st.cache && Inv(h, st)
    ensures TagOf(h[a]) in ConstructorHandlers && CloneWithHandler(h, a, st, fuel) == Exhausted
    ensures h[a].SetNode? ==> CloneSet(h, a, st, fuel) == Exhausted
    ensures h[a].MapNode? ==> CloneMap(h, a, st, fuel) == Exhausted
    decreases fuel, 0
  {
    HandlerDispatch(h, a, st, fuel);
    if h[a].SetNode? && CloneSet(h, a, st, fuel).Done? {
      SetSteps(h, a, st, fuel);
      MeetsItself(h, a, Kids(h[a]), Alloc(st, SetNode([])), Less(fuel));
    }
    if h[a].MapNode? && CloneMap(h, a, st, fuel).Done? {
      MapSteps(h, a, st, fuel);
      MeetsItself(h, a, Kids(h[a]), Alloc(st, MapNode([])), Less(fuel));
    }
  }

  /** Cloning a sequence in which the self-holder appears, while it is unrecorded, never finishes. */
  lemma {:induction false} MeetsItself(h: Heap, a: Addr, vs: seq<Value>, st: St, fuel: nat)
    requires HeapWf(h) && HoldsItself(h, a) && a !in st.cache && Inv(h, st) && AllInHeap(h, vs)
    requires exists i :: 0 <= i < |vs| && vs[i] == Ref(a)
    ensures CloneSeq(h, vs, st, fuel) == Exhausted
    decreases fuel, 3, |vs|
  {
    if vs[0] == Ref(a) {
      SelfHolderExhausted(h, a, st, fuel);
      assert !ShouldShallowCopy(h, vs[0]);
      assert Clone(h, vs[0], st, fuel) == Exhausted;
    } else if Clone(h, vs[0], st, fuel).Done? {
      var r1 := Clone(h, vs[0], st, fuel);
      StaysUnrecorded(h, a, vs[0], st, fuel);
      var i :| 0 <= i < |vs| && vs[i] == Ref(a);
      assert vs[1..][i - 1] == Ref(a);
      MeetsItself(h, a, vs[1..], r1.st, fuel);
    }
  }

  /** While the self-holder is unrecorded, no finished call records it. */
  lemma {:induction false} StaysUnrecorded(h: Heap, a: Addr, v: Value, st: St, fuel: nat)
    requires HeapWf(h) && HoldsItself(h, a) && a !in st.cache && Inv(h, st) && InHeap(h, v)
    requires Clone(h, v, st, fuel).Done?
    ensures a !in Clone(h, v, st, fuel).st.cache
    decreases fuel, 2
  {
    if !ShouldShallowCopy(h, v) && v.addr !in st.cache {
      var b := v.addr;
      var t := TagOf(h[b]);
      TagKinds(h[b]);
      if b == a {
        SelfHolderExhausted(h, a, st, fuel);
      } else if t in ConstructorHandlers {
        HandlerUnrecorded(h, a, b, st, fuel);
      } else if t == TagArray || t == TagObject {
        EarlyUnrecorded(h, a, b, st, fuel);
      } else if t.TagTyped? && t.kind in CopiedKinds {
        LeafUnrecorded(h, a, b, st);
      } else if t == TagArrayBuffer {
        LeafUnrecorded(h, a, b, st);
      }
    }
  }

  /** Which kinds of node the tags that dispatch tests for belong to. */
  lemma TagKinds(n: Node)
    ensures TagOf(n) in ConstructorHandlers <==> n.DateNode? || n.RegExpNode? || n.SetNode? || n.MapNode?
    ensures TagOf(n) == TagArray <==> n.ArrayNode?
    ensures TagOf(n) == TagObject <==> n.ObjectNode?
    ensures TagOf(n).TagTyped? <==> n.TypedArrayNode?
    ensures TagOf(n).TagTyped? ==> TagOf(n).kind == n.kind
    ensures TagOf(n) == TagArrayBuffer <==> n.ArrayBufferNode?
  {
  }

  /** A Date or RegExp records only itself; another Set or Map too. */
  lemma {:induction false} HandlerUnrecorded(h: Heap, a: Addr, b: Addr, st: St, fuel: nat)
    requires HeapWf(h) && HoldsItself(h, a) && a !in st.cache && Inv(h, st)
    requires b in h && b != a && b !in st.cache && TagOf(h[b]) in ConstructorHandlers
    ensures CloneWithHandler(h, b, st, fuel).Done? ==> a !in CloneWithHandler(h, b, st, fuel).st.cache
    decreases fuel, 1
  {
    HandlerDispatch(h, b, st, fuel);
    if h[b].SetNode? || h[b].MapNode? {
      LateUnrecorded(h, a, b, st, fuel);
    }
  }

  /** A typed array or ArrayBuffer records only itself. */
  lemma LeafUnrecorded(h: Heap, a: Addr, b: Addr, st: St)
    requires HeapWf(h) && a !in st.cache && Inv(h, st) && b in h && b != a && b !in st.cache
    ensures h[b].TypedArrayNode? && h[b].kind in CopiedKinds ==> a !in CopyTypedArray(h, b, st).st.cache
    ensures h[b].ArrayBufferNode? ==> a !in CopyArrayBuffer(h, b, st).st.cache
  {
  }

  lemma {:induction false} SeqUnrecorded(h: Heap, a: Addr, vs: seq<Value>, st: St, fuel: nat)
    requires HeapWf(h) && HoldsItself(h, a) && a !in st.cache && Inv(h, st) && AllInHeap(h, vs)
    requires CloneSeq(h, vs, st, fuel).Done?
    ensures a !in CloneSeq(h, vs, st, fuel).st.cache
    decreases fuel, 3, |vs|
  {
    if |vs| > 0 {
      var r1 := Clone(h, vs[0], st, fuel);
      StaysUnrecorded(h, a, vs[0], st, fuel);
      SeqUnrecorded(h, a, vs[1..], r1.st, fuel);
    }
  }

  /** Another Set or Map records only itself, after its members. */
  lemma {:induction false} LateUnrecorded(h: Heap, a: Addr, b: Addr, st: St, fuel: nat)
    requires HeapWf(h) && HoldsItself(h, a) && a !in st.cache && Inv(h, st)
    requires b in h && b != a && b !in st.cache && (h[b].SetNode? || h[b].MapNode?)
    ensures h[b].SetNode? && CloneSet(h, b, st, fuel).Done? ==> a !in CloneSet(h, b, st, fuel).st.cache
    ensures h[b].MapNode? && CloneMap(h, b, st, fuel).Done? ==> a !in CloneMap(h, b, st, fuel).st.cache
    decreases fuel, 0
  {
    if h[b].SetNode? && CloneSet(h, b, st, fuel).Done? {
      SetSteps(h, b, st, fuel);
      SeqUnrecorded(h, a, Kids(h[b]), Alloc(st, SetNode([])), Less(fuel));
    }
    if h[b].MapNode? && CloneMap(h, b, st, fuel).Done? {
      MapSteps(h, b, st, fuel);
      SeqUnrecorded(h, a, Kids(h[b]), Alloc(st, MapNode([])), Less(fuel));
    }
  }

  /** An array or record records only itself, before its members. */
  lemma {:induction false} EarlyUnrecorded(h: Heap, a: Addr, b: Addr, st: St, fuel: nat)
    requires HeapWf(h) && HoldsItself(h, a) && a !in st.cache && Inv(h, st)
    requires b in h && b != a && b !in st.cache && (h[b].ArrayNode? || h[b].ObjectNode?)
    ensures h[b].ArrayNode? && CloneArray(h, b, st, fuel).Done? ==> a !in CloneArray(h, b, st, fuel).st.cache
    ensures h[b].ObjectNode? && CloneObject(h, b, st, fuel).Done? ==> a !in CloneObject(h, b, st, fuel).st.cache
    decreases fuel, 1
  {
    if h[b].ArrayNode? && CloneArray(h, b, st, fuel).Done? {
      ArraySteps(h, b, st, fuel);
      SeqUnrecorded(h, a, Kids(h[b]), Record(Alloc(st, ArrayNode(Holes(|h[b].elems|))), b, st.next), Less(fuel));
    }
    if h[b].ObjectNode? && CloneObject(h, b, st, fuel).Done? {
      ObjectSteps(h, b, st, fuel);
      SeqUnrecorded(h, a, Kids(h[b]), Record(Alloc(st, ObjectNode([])), b, st.next), Less(fuel));
    }
  }
}
