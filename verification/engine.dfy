/**
 The recursive clone engine `dkopy`.

 One call threads a world `St`: the heap (the original objects plus every
 clone allocated so far), the identity cache from original address to clone
 address, and the next free address.  The original heap `h` is read-only;
 clones only ever occupy fresh addresses.

 The engine is recursive and, for a Set or Map that (indirectly) contains
 itself, does not terminate, because those are recorded in the cache only
 after their members are cloned.  `fuel` bounds the recursion depth: every
 descent into the members of a composite costs one unit, and `Exhausted`
 stands for a run that needs more (the stack overflow of the real program).
 */
module Engine {
  import opened JsHeap
  import opened Builders

  datatype St = St(heap: Heap, cache: map<Addr, Addr>, next: Addr)

  datatype Step<T> = Done(out: T, st: St) | Exhausted

  /** `shouldShallowCopy`: null, undefined, and whatever `typeof` calls neither object nor function. */
  function ShouldShallowCopy(h: Heap, v: Value): (r: bool)
    requires InHeap(h, v)
    ensures r <==> v.Prim?
  {
    || v == Prim(Null)
    || v == Prim(Undefined)
    || (TypeOf(h, v) != TObject && TypeOf(h, v) != TFunction)
  }

  /** The entries of `CONSTRUCTOR_HANDLERS`. */
  datatype Handler = DateHandler | RegExpHandler | SetHandler | MapHandler

  const ConstructorHandlers: map<Tag, Handler> :=
    map[TagDate := DateHandler, TagRegExp := RegExpHandler, TagSet := SetHandler, TagMap := MapHandler]

  /** The eight typed-array kinds that get a byte copy; Uint8Clamped and the BigInt kinds do not. */
  const CopiedKinds: set<TypedKind> :=
    {Uint8, Uint16, Uint32, Int8, Int16, Int32, Float32, Float64}

  /** The nodes `dkopy` duplicates; every other object comes back as it is. */
  predicate Cloneable(n: Node)
  {
    var t := TagOf(n);
    || t in ConstructorHandlers
    || t == TagArray
    || (t.TagTyped? && t.kind in CopiedKinds)
    || t == TagArrayBuffer
    || t == TagObject
  }

  ghost predicate CacheInjective(c: map<Addr, Addr>)
  {
    forall a, b :: a in c && b in c && a != b ==> c[a] != c[b]
  }

  /**
   The world invariant: addresses below `next` only, the originals intact,
   the cache mapping cloneable originals to distinct clones outside `h`.
   */
  ghost predicate Inv(h: Heap, st: St)
  {
    && (forall a :: a in st.heap ==> a < st.next)
    && (forall a :: a in h ==> a in st.heap && st.heap[a] == h[a])
    && (forall a :: a in st.cache ==> a in h && Cloneable(h[a]) && st.cache[a] in st.heap && st.cache[a] !in h)
    && CacheInjective(st.cache)
  }

  /**
   How a call changes the world: nothing allocated is rewritten, no recorded
   clone is replaced, and what is newly recorded was allocated by the call.
   */
  ghost predicate Grows(st: St, st': St)
  {
    && st.next <= st'.next
    && HeapGrows(st.heap, st'.heap)
    && CacheGrows(st.cache, st'.cache)
    && (forall a :: a in st'.cache && a !in st.cache ==> st'.cache[a] >= st.next)
  }

  ghost predicate HeapGrows(heap: Heap, heap': Heap)
  {
    forall a :: a in heap ==> a in heap' && heap'[a] == heap[a]
  }

  ghost predicate CacheGrows(c: map<Addr, Addr>, c': map<Addr, Addr>)
  {
    forall a :: a in c ==> a in c' && c'[a] == c[a]
  }

  /**
   What a clone returned for `v` is, given the final cache: a primitive or a
   non-cloneable object is itself, a cloneable object is its recorded clone.
   */
  ghost predicate Corresponds(h: Heap, c: map<Addr, Addr>, v: Value, w: Value)
    requires InHeap(h, v)
  {
    if v.Prim? || !Cloneable(h[v.addr]) then w == v
    else v.addr in c && w == Ref(c[v.addr])
  }

  predicate AllInHeap(h: Heap, vs: seq<Value>)
  {
    forall i :: 0 <= i < |vs| ==> InHeap(h, vs[i])
  }

  lemma KidsInHeap(h: Heap, a: Addr)
    requires HeapWf(h) && a in h
    ensures AllInHeap(h, Kids(h[a]))
  {
    assert NodeWf(h, h[a]);
  }

  /** Allocates `n` at the next free address. */
  function Alloc(st: St, n: Node): (r: St)
    ensures r.next == st.next + 1
    ensures r.heap == st.heap[st.next := n] && r.cache == st.cache
  {
    St(st.heap[st.next := n], st.cache, st.next + 1)
  }

  /** `new Array(n)`: an array of `n` holes, which read as undefined. */
  function Holes(n: nat): (es: seq<Value>)
    ensures |es| == n
    ensures forall i :: 0 <= i < n ==> es[i] == Prim(Undefined)
  {
    seq(n, _ => Prim(Undefined))
  }

  /**
   `dkopy(input, clonedMap)`.  Atomic values come back unchanged; a cache hit
   returns the recorded clone; otherwise dispatch on the tag.
   */
  function Clone(h: Heap, v: Value, st: St, fuel: nat): (r: Step<Value>)
    requires HeapWf(h) && InHeap(h, v) && Inv(h, st)
    ensures v.Prim? ==> r == Done(v, st)
    ensures v.Ref? && v.addr in st.cache ==> r == Done(Ref(st.cache[v.addr]), st)
    ensures v.Ref? && !Cloneable(h[v.addr]) ==> r == Done(v, st)
    ensures r.Done? ==> Inv(h, r.st) && Grows(st, r.st) && Corresponds(h, r.st.cache, v, r.out)
    ensures r.Done? && v.Ref? && v.addr !in st.cache && Cloneable(h[v.addr]) ==> r.out.addr >= st.next
    decreases fuel, 2
  {
    if ShouldShallowCopy(h, v) then Done(v, st)
    else if v.addr in st.cache then Done(Ref(st.cache[v.addr]), st)
    else
      var a := v.addr;
      var t := TagOf(h[a]);
      if t in ConstructorHandlers then CloneWithHandler(h, a, st, fuel)
      else if t == TagArray then CloneArray(h, a, st, fuel)
      else if t.TagTyped? && t.kind in CopiedKinds then CopyTypedArray(h, a, st)
      else if t == TagArrayBuffer then CopyArrayBuffer(h, a, st)
      else if t == TagObject then CloneObject(h, a, st, fuel)
      else Done(v, st)
  }

  /**
   Clones `vs` left to right, each element with the cache the previous ones
   left behind.
   */
  function CloneSeq(h: Heap, vs: seq<Value>, st: St, fuel: nat): (r: Step<seq<Value>>)
    requires HeapWf(h) && AllInHeap(h, vs) && Inv(h, st)
    ensures r.Done? ==> Inv(h, r.st) && Grows(st, r.st) && |r.out| == |vs|
    ensures r.Done? ==> forall i :: 0 <= i < |vs| ==> Corresponds(h, r.st.cache, vs[i], r.out[i])
    decreases fuel, 3, |vs|
  {
    if |vs| == 0 then Done([], st)
    else
      match Clone(h, vs[0], st, fuel)
      case Exhausted => Exhausted
      case Done(w, st1) =>
        match CloneSeq(h, vs[1..], st1, fuel)
        case Exhausted => Exhausted
        case Done(ws, st2) =>
          assert forall i :: 1 <= i < |vs| ==> vs[i] == vs[1..][i - 1];
          Done([w] + ws, st2)
  }

  /**
   A tag with an entry in `CONSTRUCTOR_HANDLERS`: the handler builds the
   clone, and only then is it recorded in the cache.
   */
  function CloneWithHandler(h: Heap, a: Addr, st: St, fuel: nat): (r: Step<Value>)
    requires HeapWf(h) && a in h && a !in st.cache && TagOf(h[a]) in ConstructorHandlers && Inv(h, st)
    ensures r.Done? ==> Inv(h, r.st) && Grows(st, r.st)
    ensures r.Done? ==> r.out == Ref(st.next) && a in r.st.cache && r.st.cache[a] == st.next
    decreases fuel, 1
  {
    var n := h[a];
    var dst := st.next;
    match ConstructorHandlers[TagOf(n)]
    case DateHandler =>
      AllocRecord(h, st, DateNode(n.time), a);
      Done(Ref(dst), Record(Alloc(st, DateNode(n.time)), a, dst))
    case RegExpHandler =>
      AllocRecord(h, st, RegExpNode(n.source, n.flags, 0), a);
      Done(Ref(dst), Record(Alloc(st, RegExpNode(n.source, n.flags, 0)), a, dst))
    case SetHandler => CloneSet(h, a, st, fuel)
    case MapHandler => CloneMap(h, a, st, fuel)
  }

  /** Which handler a tag in the table selects, and what it returns. */
  lemma HandlerDispatch(h: Heap, a: Addr, st: St, fuel: nat)
    requires HeapWf(h) && a in h && a !in st.cache && TagOf(h[a]) in ConstructorHandlers && Inv(h, st)
    ensures h[a].DateNode? || h[a].RegExpNode? || h[a].SetNode? || h[a].MapNode?
    ensures h[a].DateNode? ==>
      CloneWithHandler(h, a, st, fuel) == Done(Ref(st.next), Record(Alloc(st, DateNode(h[a].time)), a, st.next))
    ensures h[a].RegExpNode? ==>
      CloneWithHandler(h, a, st, fuel)
      == Done(Ref(st.next), Record(Alloc(st, RegExpNode(h[a].source, h[a].flags, 0)), a, st.next))
    ensures h[a].SetNode? ==> CloneWithHandler(h, a, st, fuel) == CloneSet(h, a, st, fuel)
    ensures h[a].MapNode? ==> CloneWithHandler(h, a, st, fuel) == CloneMap(h, a, st, fuel)
  {
  }

  /** The Set handler: `new Set()`, then `add` the clone of every member in iteration order. */
  function CloneSet(h: Heap, a: Addr, st: St, fuel: nat): (r: Step<Value>)
    requires HeapWf(h) && a in h && a !in st.cache && h[a].SetNode? && Inv(h, st)
    ensures r.Done? ==> Inv(h, r.st) && Grows(st, r.st)
    ensures r.Done? ==> r.out == Ref(st.next) && a in r.st.cache && r.st.cache[a] == st.next
    decreases fuel, 0
  {
    if fuel == 0 then Exhausted
    else
      var dst := st.next;
      var st1 := Alloc(st, SetNode([]));
      AllocOnly(h, st, SetNode([]));
      KidsInHeap(h, a);
      match CloneSeq(h, Kids(h[a]), st1, Less(fuel))
      case Exhausted => Exhausted
      case Done(ms, st2) =>
        var s := SetNode(AddAll([], ms));
        RecordLate(h, st, st1, st2, a, s);
        Done(Ref(dst), Record(Fill(st2, dst, s), a, dst))
  }

  /** The Map handler: `new Map()`, then `set` the clones of every key and value in iteration order. */
  function CloneMap(h: Heap, a: Addr, st: St, fuel: nat): (r: Step<Value>)
    requires HeapWf(h) && a in h && a !in st.cache && h[a].MapNode? && Inv(h, st)
    ensures r.Done? ==> Inv(h, r.st) && Grows(st, r.st)
    ensures r.Done? ==> r.out == Ref(st.next) && a in r.st.cache && r.st.cache[a] == st.next
    decreases fuel, 0
  {
    if fuel == 0 then Exhausted
    else
      var dst := st.next;
      var st1 := Alloc(st, MapNode([]));
      AllocOnly(h, st, MapNode([]));
      KidsInHeap(h, a);
      match CloneSeq(h, Kids(h[a]), st1, Less(fuel))
      case Exhausted => Exhausted
      case Done(kvs, st2) =>
        Twice(|kvs|, |h[a].entries|);
        var m := MapNode(MapSetAll([], Pairs(kvs)));
        RecordLate(h, st, st1, st2, a, m);
        Done(Ref(dst), Record(Fill(st2, dst, m), a, dst))
  }

  /** An array: allocated with holes and recorded before any element is cloned. */
  function CloneArray(h: Heap, a: Addr, st: St, fuel: nat): (r: Step<Value>)
    requires HeapWf(h) && a in h && a !in st.cache && h[a].ArrayNode? && Inv(h, st)
    ensures r.Done? ==> Inv(h, r.st) && Grows(st, r.st)
    ensures r.Done? ==> r.out == Ref(st.next) && a in r.st.cache && r.st.cache[a] == st.next
    decreases fuel, 1
  {
    if fuel == 0 then Exhausted
    else
      var dst := st.next;
      var st1 := Record(Alloc(st, ArrayNode(Holes(|h[a].elems|))), a, dst);
      AllocRecord(h, st, ArrayNode(Holes(|h[a].elems|)), a);
      KidsInHeap(h, a);
      match CloneSeq(h, Kids(h[a]), st1, Less(fuel))
      case Exhausted => Exhausted
      case Done(es', st2) =>
        FillEarly(h, st, st1, st2, ArrayNode(es'));
        Done(Ref(dst), Fill(st2, dst, ArrayNode(es')))
  }

  /** A plain record: `{}` recorded first, then `Object.keys` assigned in order. */
  function CloneObject(h: Heap, a: Addr, st: St, fuel: nat): (r: Step<Value>)
    requires HeapWf(h) && a in h && a !in st.cache && h[a].ObjectNode? && Inv(h, st)
    ensures r.Done? ==> Inv(h, r.st) && Grows(st, r.st)
    ensures r.Done? ==> r.out == Ref(st.next) && a in r.st.cache && r.st.cache[a] == st.next
    decreases fuel, 1
  {
    if fuel == 0 then Exhausted
    else
      var dst := st.next;
      var st1 := Record(Alloc(st, ObjectNode([])), a, dst);
      AllocRecord(h, st, ObjectNode([]), a);
      KidsInHeap(h, a);
      match CloneSeq(h, Kids(h[a]), st1, Less(fuel))
      case Exhausted => Exhausted
      case Done(vs', st2) =>
        var o := ObjectNode(PutAll([], h[a].fields, vs'));
        FillEarly(h, st, st1, st2, o);
        Done(Ref(dst), Fill(st2, dst, o))
  }

  /** One of the eight copied typed-array kinds: a view over `buffer.slice()`. */
  function CopyTypedArray(h: Heap, a: Addr, st: St): (r: Step<Value>)
    requires HeapWf(h) && a in h && a !in st.cache && h[a].TypedArrayNode? && h[a].kind in CopiedKinds && Inv(h, st)
    ensures r.Done? && Inv(h, r.st) && Grows(st, r.st)
    ensures r.out == Ref(st.next + 1) && a in r.st.cache && r.st.cache[a] == st.next + 1
  {
    var n := h[a];
    assert NodeWf(h, n);
    var copy := ArrayBufferNode(h[n.buffer].bytes);
    var st1 := Alloc(st, copy);
    var view := TypedArrayNode(n.kind, st.next, n.byteOffset, n.length);
    AllocOnly(h, st, copy);
    AllocRecord(h, st1, view, a);
    GrowsTrans(st, st1, Record(Alloc(st1, view), a, st1.next));
    Done(Ref(st1.next), Record(Alloc(st1, view), a, st1.next))
  }

  /** An ArrayBuffer: `slice(0)`, a byte-for-byte copy. */
  function CopyArrayBuffer(h: Heap, a: Addr, st: St): (r: Step<Value>)
    requires HeapWf(h) && a in h && a !in st.cache && h[a].ArrayBufferNode? && Inv(h, st)
    ensures r.Done? && Inv(h, r.st) && Grows(st, r.st)
    ensures r.out == Ref(st.next) && a in r.st.cache && r.st.cache[a] == st.next
  {
    AllocRecord(h, st, ArrayBufferNode(h[a].bytes), a);
    Done(Ref(st.next), Record(Alloc(st, ArrayBufferNode(h[a].bytes)), a, st.next))
  }

  /** The fuel left for the members of a composite. */
  function Less(fuel: nat): (r: nat)
    requires fuel > 0
    ensures r < fuel
  {
    fuel - 1
  }

  /** `clonedMap.set(a, d)`. */
  function Record(st: St, a: Addr, d: Addr): (r: St)
    ensures r.heap == st.heap && r.next == st.next && r.cache == st.cache[a := d]
  {
    St(st.heap, st.cache[a := d], st.next)
  }

  /** Gives the clone at `d` its final contents. */
  function Fill(st: St, d: Addr, n: Node): (r: St)
    ensures r.heap == st.heap[d := n] && r.next == st.next && r.cache == st.cache
  {
    St(st.heap[d := n], st.cache, st.next)
  }

  /** A Map handler sees one key and one value per entry. */
  lemma Twice(n: nat, m: nat)
    requires n == 2 * m
    ensures n % 2 == 0
  {
  }

  lemma GrowsTrans(st0: St, st1: St, st2: St)
    requires Grows(st0, st1) && Grows(st1, st2)
    ensures Grows(st0, st2)
  {
  }

  lemma AllocOnly(h: Heap, st: St, n: Node)
    requires Inv(h, st)
    ensures Inv(h, Alloc(st, n)) && Grows(st, Alloc(st, n))
  {
    var st1 := Alloc(st, n);
    assert forall b :: b in st.cache ==> st.cache[b] != st.next;
  }

  lemma AllocRecord(h: Heap, st: St, n: Node, a: Addr)
    requires Inv(h, st) && a in h && a !in st.cache && Cloneable(h[a])
    ensures Inv(h, Record(Alloc(st, n), a, st.next))
    ensures Grows(st, Record(Alloc(st, n), a, st.next))
  {
    AllocRecordInv(h, st, n, a);
    AllocRecordGrows(st, n, a);
  }

  lemma AllocRecordInv(h: Heap, st: St, n: Node, a: Addr)
    requires Inv(h, st) && a in h && a !in st.cache && Cloneable(h[a])
    ensures Inv(h, Record(Alloc(st, n), a, st.next))
  {
    AllocOnly(h, st, n);
    assert st.next !in h;
    RecordInv(h, Alloc(st, n), a, st.next);
  }

  lemma AllocRecordGrows(st: St, n: Node, a: Addr)
    requires st.next !in st.heap && a !in st.cache
    ensures Grows(st, Record(Alloc(st, n), a, st.next))
  {
  }

  /** Filling an array or record that was recorded before its members were cloned. */
  lemma FillEarly(h: Heap, st: St, st1: St, st2: St, n: Node)
    requires Inv(h, st) && Inv(h, st2)
    requires st1.next == st.next + 1 && st.next in st1.heap && Grows(st, st1) && Grows(st1, st2)
    ensures Inv(h, Fill(st2, st.next, n)) && Grows(st, Fill(st2, st.next, n))
  {
    GrowsTrans(st, st1, st2);
    assert st.next !in h;
  }

  lemma FillInv(h: Heap, st: St, d: Addr, n: Node)
    requires Inv(h, st) && d in st.heap && d !in h
    ensures Inv(h, Fill(st, d, n))
  {
  }

  lemma RecordInv(h: Heap, st: St, a: Addr, d: Addr)
    requires Inv(h, st) && a in h && Cloneable(h[a]) && d in st.heap && d !in h
    requires forall b :: b in st.cache && b != a ==> st.cache[b] != d
    ensures Inv(h, Record(st, a, d))
  {
    var c := st.cache[a := d];
    forall b, b' | b in c && b' in c && b != b'
      ensures c[b] != c[b']
    {
      if b != a && b' != a {
        assert c[b] == st.cache[b] && c[b'] == st.cache[b'];
      }
    }
  }

  /** Filling and only then recording a Set or Map, replacing whatever its members recorded for it. */
  lemma RecordLate(h: Heap, st: St, st1: St, st2: St, a: Addr, n: Node)
    requires Inv(h, st) && Inv(h, st2) && a in h && a !in st.cache && Cloneable(h[a])
    requires st1.next == st.next + 1 && st.next in st1.heap && st1.cache == st.cache
    requires Grows(st, st1) && Grows(st1, st2)
    ensures Inv(h, Record(Fill(st2, st.next, n), a, st.next))
    ensures Grows(st, Record(Fill(st2, st.next, n), a, st.next))
  {
    assert st.next !in st.heap;
    RecordLateInv(h, st, st1, st2, a, n);
    GrowsTrans(st, st1, st2);
    GrowsFillRecord(st, st2, a, st.next, n);
  }

  /** Filling a fresh address and recording a new original for it keeps the growth. */
  lemma GrowsFillRecord(st: St, st2: St, a: Addr, d: Addr, n: Node)
    requires Grows(st, st2) && d !in st.heap && a !in st.cache && d >= st.next
    ensures Grows(st, Record(Fill(st2, d, n), a, d))
  {
  }

  lemma RecordLateInv(h: Heap, st: St, st1: St, st2: St, a: Addr, n: Node)
    requires Inv(h, st) && Inv(h, st2) && a in h && a !in st.cache && Cloneable(h[a])
    requires st1.next == st.next + 1 && st.next in st1.heap && st1.cache == st.cache
    requires Grows(st, st1) && Grows(st1, st2)
    ensures Inv(h, Record(Fill(st2, st.next, n), a, st.next))
  {
    var d := st.next;
    assert d in st2.heap;
    assert d !in h;
    var st3 := Fill(st2, d, n);
    FillInv(h, st2, d, n);
    forall b | b in st3.cache && b != a
      ensures st3.cache[b] != d
    {
      if b in st1.cache {
        assert st2.cache[b] == st.cache[b];
        assert st.cache[b] in st.heap;
      } else {
        assert st2.cache[b] >= st1.next;
      }
    }
    RecordInv(h, st3, a, d);
  }
}
