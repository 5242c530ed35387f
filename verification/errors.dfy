/**
 Cloning an Error object: `shallowCloneErrorObject` and
 `deepCloneErrorObject`.

 Both build `new Error(message)`, assign `name` and `stack` by hand and then
 copy every other own property name, in `Object.getOwnPropertyNames` order.
 The shallow clone copies the values by reference; the deep clone passes
 each one through `dkopy`.  The deep clone as written hands `dkopy` the
 options object `{ deep: true }` where the engine expects its cache, so the
 first object- or function-valued property throws a TypeError
 (`clonedMap.has` is not a function); `DeepCloneError` is the intended
 behaviour, one `dkopy` call with a fresh cache per property.
 */
module ErrorClone {
  import opened JsHeap
  import opened Builders
  import opened Engine
  import opened Coherence
  import opened Termination
  import opened Dkopy

  /** `['name', 'message', 'stack'].includes(key)`: the properties assigned by hand. */
  predicate Reserved(k: string)
  {
    k == "name" || k == "message" || k == "stack"
  }

  /** The own properties the copying loop visits: every one but the reserved three, in order. */
  function Extras(fs: seq<Field>): (r: seq<Field>)
    ensures forall f :: f in r <==> f in fs && !Reserved(f.key)
    ensures |r| <= |fs|
  {
    if |fs| == 0 then []
    else if Reserved(fs[0].key) then Extras(fs[1..])
    else [fs[0]] + Extras(fs[1..])
  }

  /** Filtering keeps keys distinct. */
  lemma {:induction false} ExtrasDistinct(fs: seq<Field>)
    requires DistinctKeys(fs)
    ensures DistinctKeys(Extras(fs))
    decreases |fs|
  {
    if |fs| > 0 {
      ExtrasDistinct(fs[1..]);
      var rest := Extras(fs[1..]);
      forall j | 0 <= j < |rest|
        ensures rest[j].key != fs[0].key
      {
        assert rest[j] in fs[1..];
        var k :| 0 <= k < |fs[1..]| && fs[1..][k] == rest[j];
        assert fs[k + 1] == rest[j];
      }
    }
  }

  /** `stack` as a property value: a string, or undefined. */
  function StackValue(s: Option<string>): Value
  {
    match s
    case None => Prim(Undefined)
    case Some(t) => Prim(Str(t))
  }

  /**
   The own properties of `new Error(message)` once `name` and `stack` are
   assigned: the host creates `stack` and `message`, the assignment adds
   `name`.
   */
  function ErrorBase(name: string, message: string, stack: Option<string>): (r: seq<Field>)
    ensures |r| == 3 && DistinctKeys(r) && forall i :: 0 <= i < 3 ==> Reserved(r[i].key)
  {
    var r := [Field("stack", StackValue(stack)), Field("message", Prim(Str(message))), Field("name", Prim(Str(name)))];
    assert r[0].key == "stack" && r[1].key == "message" && r[2].key == "name";
    r
  }

  /** Assigning the copied properties, in order, to the fresh Error: they land after the three. */
  lemma AssignAfterBase(base: seq<Field>, xs: seq<Field>, vs: seq<Value>)
    requires |xs| == |vs| && DistinctKeys(xs)
    requires forall i :: 0 <= i < |base| ==> Reserved(base[i].key)
    requires forall f :: f in xs ==> !Reserved(f.key)
    ensures PutAll(base, xs, vs) == base + Rebind(xs, vs)
  {
    forall i, j | 0 <= i < |xs| && 0 <= j < |base|
      ensures xs[i].key != base[j].key
    {
      assert xs[i] in xs;
    }
    PutAllFresh(base, xs, vs);
  }

  /** The fresh Error's properties: the three, then the copied keys with their new values, all distinct. */
  lemma Assembled(base: seq<Field>, xs: seq<Field>, ws: seq<Value>)
    requires |base| == 3 && DistinctKeys(base) && forall i :: 0 <= i < 3 ==> Reserved(base[i].key)
    requires |xs| == |ws| && DistinctKeys(xs) && forall f :: f in xs ==> !Reserved(f.key)
    ensures var props := PutAll(base, xs, ws);
      && props == base + Rebind(xs, ws)
      && DistinctKeys(props) && |props| == 3 + |xs| && props[..3] == base
      && forall i :: 0 <= i < |xs| ==> props[3 + i] == Field(xs[i].key, ws[i])
  {
    AssignAfterBase(base, xs, ws);
    var props := base + Rebind(xs, ws);
    forall i, j | 0 <= i < j < |props|
      ensures props[i].key != props[j].key
    {
      if j >= 3 && i < 3 {
        assert props[j].key == xs[j - 3].key && xs[j - 3] in xs;
      } else if i >= 3 {
        assert props[i].key == xs[i - 3].key && props[j].key == xs[j - 3].key;
      }
    }
  }

  /** Binding each key to its own value gives the record back. */
  lemma RebindOwn(xs: seq<Field>)
    ensures Rebind(xs, Vals(xs)) == xs
  {
    var r := Rebind(xs, Vals(xs));
    assert forall i :: 0 <= i < |xs| ==> r[i] == xs[i];
  }

  /**
   `shallowCloneErrorObject`: a new Error with the original's `name`,
   `message` and `stack`, and every other own property sharing the
   original's value.
   */
  function ShallowCloneError(e: Node): (r: Node)
    requires e.ErrorNode? && DistinctKeys(e.props)
    ensures r.ErrorNode? && r.name == e.name && r.message == e.message && r.stack == e.stack
    ensures DistinctKeys(r.props) && |r.props| >= 3 && r.props[..3] == ErrorBase(e.name, e.message, e.stack)
    ensures forall f :: f in r.props[3..] <==> f in e.props && !Reserved(f.key)
  {
    var base := ErrorBase(e.name, e.message, e.stack);
    var xs := Extras(e.props);
    ExtrasDistinct(e.props);
    AssignAfterBase(base, xs, Vals(xs));
    RebindOwn(xs);
    var props := PutAll(base, xs, Vals(xs));
    Assembled(base, xs, Vals(xs));
    assert props == base + xs && props[3..] == xs;
    ErrorNode(e.name, e.message, e.stack, props)
  }

  /** An original the engine duplicates, rather than returning as it is. */
  predicate Copied(h: Heap, v: Value)
    requires InHeap(h, v)
  {
    v.Ref? && Cloneable(h[v.addr])
  }

  /** `w` is what cloning `v` may return: `v` itself, or a new object allocated in `[lo, st.next)`. */
  ghost predicate FreshCopy(h: Heap, lo: Addr, st: St, v: Value, w: Value)
    requires InHeap(h, v)
  {
    if Copied(h, v) then w.Ref? && w.addr in st.heap && w.addr !in h && lo <= w.addr < st.next
    else w == v
  }

  /** Each `ws[i]` is what cloning `vs[i]` may return, new objects allocated in `[lo, st.next)`. */
  ghost predicate AllFresh(h: Heap, lo: Addr, st: St, vs: seq<Value>, ws: seq<Value>)
    requires AllInHeap(h, vs)
  {
    |ws| == |vs| && forall i :: 0 <= i < |vs| ==> FreshCopy(h, lo, st, vs[i], ws[i])
  }

  /** Different copied originals have different results. */
  ghost predicate Apart(h: Heap, vs: seq<Value>, ws: seq<Value>)
    requires AllInHeap(h, vs) && |ws| == |vs|
  {
    forall i, j :: 0 <= i < j < |vs| && Copied(h, vs[i]) && Copied(h, vs[j]) ==> ws[i] != ws[j]
  }

  /** `dkopy(value)` for each value in turn, every call with its own new cache. */
  function CloneEach(h: Heap, vs: seq<Value>, st: St, fuel: nat): (r: Step<seq<Value>>)
    requires HeapWf(h) && AllInHeap(h, vs) && Inv(h, st) && st.cache == map[]
    ensures r.Done? ==> Inv(h, r.st) && r.st.cache == map[] && HeapGrows(st.heap, r.st.heap) && st.next <= r.st.next
    ensures r.Done? ==> AllFresh(h, st.next, r.st, vs, r.out) && Apart(h, vs, r.out)
    decreases |vs|
  {
    if |vs| == 0 then Done([], st)
    else
      match Clone(h, vs[0], st, fuel)
      case Exhausted => Exhausted
      case Done(w, st1) =>
        CloneFresh(h, vs[0], st, fuel);
        var st1' := St(st1.heap, map[], st1.next);
        match CloneEach(h, vs[1..], st1', fuel)
        case Exhausted => Exhausted
        case Done(ws, st2) =>
          CloneEachLink(h, vs, st, st1, w, ws, st2);
          Done([w] + ws, st2)
  }

  /** The first value's guarantees joined to the rest's. */
  lemma CloneEachLink(h: Heap, vs: seq<Value>, st: St, st1: St, w: Value, ws: seq<Value>, st2: St)
    requires |vs| > 0 && AllInHeap(h, vs)
    requires FreshCopy(h, st.next, st1, vs[0], w) && st.next <= st1.next && HeapGrows(st.heap, st1.heap)
    requires HeapGrows(st1.heap, st2.heap) && st1.next <= st2.next
    requires AllFresh(h, st1.next, st2, vs[1..], ws) && Apart(h, vs[1..], ws)
    ensures HeapGrows(st.heap, st2.heap) && st.next <= st2.next
    ensures AllFresh(h, st.next, st2, vs, [w] + ws) && Apart(h, vs, [w] + ws)
  {
    assert [vs[0]] + vs[1..] == vs;
    CloneEachStep(h, vs[0], vs[1..], st.next, st1, w, ws, st2);
  }

  /** A top-level call returns its input or a new object, and empties the cache for the next one. */
  lemma CloneFresh(h: Heap, v: Value, st: St, fuel: nat)
    requires HeapWf(h) && InHeap(h, v) && Inv(h, st) && st.cache == map[]
    requires Clone(h, v, st, fuel).Done?
    ensures var r := Clone(h, v, st, fuel);
      && FreshCopy(h, st.next, r.st, v, r.out) && st.next <= r.st.next
      && HeapGrows(st.heap, r.st.heap) && Inv(h, St(r.st.heap, map[], r.st.next))
  {
    var r := Clone(h, v, st, fuel);
    if Copied(h, v) {
      assert r.out == Ref(r.st.cache[v.addr]);
    }
  }

  /** The first value's clone lies below every later one. */
  lemma CloneEachStep(h: Heap, v: Value, vs: seq<Value>, lo: Addr, st1: St, w: Value, ws: seq<Value>, st2: St)
    requires InHeap(h, v) && AllInHeap(h, vs)
    requires FreshCopy(h, lo, st1, v, w) && lo <= st1.next
    requires HeapGrows(st1.heap, st2.heap) && st1.next <= st2.next
    requires AllFresh(h, st1.next, st2, vs, ws) && Apart(h, vs, ws)
    ensures AllInHeap(h, [v] + vs)
    ensures AllFresh(h, lo, st2, [v] + vs, [w] + ws) && Apart(h, [v] + vs, [w] + ws)
  {
    var vs', ws' := [v] + vs, [w] + ws;
    assert AllInHeap(h, vs') by {
      forall i | 0 <= i < |vs'| ensures InHeap(h, vs'[i]) {
        if i > 0 { assert vs'[i] == vs[i - 1]; }
      }
    }
    forall i | 0 <= i < |vs'|
      ensures FreshCopy(h, lo, st2, vs'[i], ws'[i])
    {
      if i > 0 {
        assert vs'[i] == vs[i - 1] && ws'[i] == ws[i - 1];
      }
    }
    forall i, j | 0 <= i < j < |vs'| && Copied(h, vs'[i]) && Copied(h, vs'[j])
      ensures ws'[i] != ws'[j]
    {
      assert vs'[j] == vs[j - 1] && ws'[j] == ws[j - 1];
      if i > 0 {
        assert vs'[i] == vs[i - 1] && ws'[i] == ws[i - 1];
      }
    }
  }

  /**
   `w` is a faithful deep copy of `v` in `heap`: under some cache, `w` is
   the clone of `v`, and every original recorded there has a faithful image
   at an address outside the original heap, so no copied object is shared
   with the original at any depth.
   */
  ghost predicate FaithfulCopy(h: Heap, heap: Heap, v: Value, w: Value)
    requires HeapWf(h) && InHeap(h, v)
  {
    exists c: map<Addr, Addr> :: Corresponds(h, c, v, w) && forall b :: b in c ==> b in h && c[b] !in h && Image(h, heap, c, b)
  }

  /** With no cycle through a Set or Map, a top-level call makes a faithful copy. */
  lemma CloneFaithful(h: Heap, v: Value, st: St, fuel: nat, rank: map<Addr, nat>)
    requires HeapWf(h) && InHeap(h, v) && Inv(h, st) && st.cache == map[]
    requires Ranked(h, rank) && Clone(h, v, st, fuel).Done?
    ensures var r := Clone(h, v, st, fuel); FaithfulCopy(h, r.st.heap, v, r.out)
  {
    var r := Clone(h, v, st, fuel);
    CloneCoherent(h, v, st, fuel, rank, {});
    ImagesWitness(h, r.st, v, r.out);
  }

  /** A world whose every recorded original has a faithful image witnesses a faithful copy. */
  lemma ImagesWitness(h: Heap, st: St, v: Value, w: Value)
    requires HeapWf(h) && InHeap(h, v) && Inv(h, st)
    requires AllImages(h, st, {}) && Corresponds(h, st.cache, v, w)
    ensures FaithfulCopy(h, st.heap, v, w)
  {
    assert forall b :: b in st.cache ==> b in h && st.cache[b] !in h && Image(h, st.heap, st.cache, b);
  }

  /** Later allocations leave a faithful copy faithful. */
  lemma FaithfulGrows(h: Heap, heap: Heap, heap': Heap, v: Value, w: Value)
    requires HeapWf(h) && InHeap(h, v) && FaithfulCopy(h, heap, v, w) && HeapGrows(heap, heap')
    ensures FaithfulCopy(h, heap', v, w)
  {
    var c: map<Addr, Addr> :| Corresponds(h, c, v, w) && forall b :: b in c ==> b in h && c[b] !in h && Image(h, heap, c, b);
    forall b | b in c
      ensures b in h && c[b] !in h && Image(h, heap', c, b)
    {
      ImageGrows(h, heap, c, heap', c, b);
    }
  }

  /** A one-level copy, which shares the original's nested record, is not a faithful copy. */
  lemma OneLevelCopyNotFaithful()
    ensures var h := map[0 := ObjectNode([Field("x", Ref(1))]), 1 := ObjectNode([])];
      HeapWf(h) && !FaithfulCopy(h, h[2 := ObjectNode([Field("x", Ref(1))])], Ref(0), Ref(2))
  {
    var h := map[0 := ObjectNode([Field("x", Ref(1))]), 1 := ObjectNode([])];
    var heap := h[2 := ObjectNode([Field("x", Ref(1))])];
    assert HeapWf(h) by {
      assert NodeWf(h, h[0]) by { assert Kids(h[0]) == [Ref(1)]; }
      assert NodeWf(h, h[1]) by { assert Kids(h[1]) == []; }
    }
    forall c: map<Addr, Addr> | Corresponds(h, c, Ref(0), Ref(2)) && 0 in c && Image(h, heap, c, 0)
      ensures 1 in c && c[1] in h
    {
      assert Kids(h[0]) == [Ref(1)] && Kids(heap[2]) == [Ref(1)];
      assert Corresponds(h, c, Kids(h[0])[0], Kids(heap[2])[0]);
    }
  }

  /** With no cycle through a Set or Map, every value cloned one by one gets a faithful copy. */
  lemma {:induction false} CloneEachFaithful(h: Heap, vs: seq<Value>, st: St, fuel: nat, rank: map<Addr, nat>)
    requires HeapWf(h) && AllInHeap(h, vs) && Inv(h, st) && st.cache == map[]
    requires Ranked(h, rank) && CloneEach(h, vs, st, fuel).Done?
    ensures var r := CloneEach(h, vs, st, fuel);
      forall i :: 0 <= i < |vs| ==> FaithfulCopy(h, r.st.heap, vs[i], r.out[i])
    decreases |vs|
  {
    if |vs| > 0 {
      var r := CloneEach(h, vs, st, fuel);
      var r1 := Clone(h, vs[0], st, fuel);
      var st1 := St(r1.st.heap, map[], r1.st.next);
      var rest := CloneEach(h, vs[1..], st1, fuel);
      CloneFresh(h, vs[0], st, fuel);
      CloneFaithful(h, vs[0], st, fuel, rank);
      CloneEachFaithful(h, vs[1..], st1, fuel, rank);
      FaithfulGrows(h, r1.st.heap, rest.st.heap, vs[0], r1.out);
      assert r.out == [r1.out] + rest.out && r.st == rest.st;
      assert [vs[0]] + vs[1..] == vs;
      FaithfulJoin(h, r.st.heap, vs[0], vs[1..], r1.out, rest.out);
    }
  }

  /** The first value's faithful copy joined to the rest's. */
  lemma FaithfulJoin(h: Heap, heap: Heap, v: Value, vs: seq<Value>, w: Value, ws: seq<Value>)
    requires HeapWf(h) && InHeap(h, v) && AllInHeap(h, vs) && |vs| == |ws|
    requires FaithfulCopy(h, heap, v, w)
    requires forall i :: 0 <= i < |vs| ==> FaithfulCopy(h, heap, vs[i], ws[i])
    ensures AllInHeap(h, [v] + vs)
    ensures forall i :: 0 <= i < |vs| + 1 ==> FaithfulCopy(h, heap, ([v] + vs)[i], ([w] + ws)[i])
  {
    var vs', ws' := [v] + vs, [w] + ws;
    assert AllInHeap(h, vs') by {
      forall i | 0 <= i < |vs'| ensures InHeap(h, vs'[i]) {
        if i > 0 { assert vs'[i] == vs[i - 1]; }
      }
    }
    forall i | 0 <= i < |vs'|
      ensures FaithfulCopy(h, heap, vs'[i], ws'[i])
    {
      if i > 0 { assert vs'[i] == vs[i - 1] && ws'[i] == ws[i - 1]; }
    }
  }

  /** What the cloning of an Error can come to. */
  datatype Outcome = Cloned(err: Node, st: St) | TypeError | Overflow

  /**
   `deepCloneErrorObject` as intended: the three properties by hand, every
   other own property through `dkopy` with a new cache of its own.
   */
  function DeepCloneError(h: Heap, a: Addr, st: St, fuel: nat): (r: Outcome)
    requires HeapWf(h) && a in h && h[a].ErrorNode? && Inv(h, st) && st.cache == map[]
    ensures !r.TypeError?
    ensures r.Cloned? ==> Inv(h, r.st) && r.st.cache == map[] && HeapGrows(st.heap, r.st.heap)
    ensures r.Cloned? ==> r.err.ErrorNode? && r.err.name == h[a].name && r.err.message == h[a].message && r.err.stack == h[a].stack
    ensures r.Cloned? ==> var xs := Extras(h[a].props);
      && DistinctKeys(r.err.props) && |r.err.props| == 3 + |xs|
      && r.err.props[..3] == ErrorBase(h[a].name, h[a].message, h[a].stack)
      && forall i :: 0 <= i < |xs| ==>
           r.err.props[3 + i].key == xs[i].key && FreshCopy(h, st.next, r.st, xs[i].val, r.err.props[3 + i].val)
  {
    var e := h[a];
    assert NodeWf(h, e);
    var base := ErrorBase(e.name, e.message, e.stack);
    var xs := Extras(e.props);
    ExtrasDistinct(e.props);
    assert AllInHeap(h, Vals(xs)) by {
      forall i | 0 <= i < |xs| ensures InHeap(h, xs[i].val) {
        assert xs[i] in e.props;
      }
    }
    match CloneEach(h, Vals(xs), st, fuel)
    case Exhausted => Overflow
    case Done(ws, st') =>
      Assembled(base, xs, ws);
      Cloned(ErrorNode(e.name, e.message, e.stack, PutAll(base, xs, ws)), st')
  }

  /**
   With no cycle through a Set or Map, every copied property of the intended
   deep clone holds a faithful copy of the original's value.
   */
  lemma DeepCloneErrorFaithful(h: Heap, a: Addr, st: St, fuel: nat, rank: map<Addr, nat>)
    requires HeapWf(h) && a in h && h[a].ErrorNode? && Inv(h, st) && st.cache == map[]
    requires Ranked(h, rank) && DeepCloneError(h, a, st, fuel).Cloned?
    ensures var r := DeepCloneError(h, a, st, fuel); var xs := Extras(h[a].props);
      && |r.err.props| == 3 + |xs|
      && forall i :: 0 <= i < |xs| ==> InHeap(h, xs[i].val) && FaithfulCopy(h, r.st.heap, xs[i].val, r.err.props[3 + i].val)
  {
    var e := h[a];
    assert NodeWf(h, e);
    var base := ErrorBase(e.name, e.message, e.stack);
    var xs := Extras(e.props);
    ExtrasDistinct(e.props);
    assert AllInHeap(h, Vals(xs)) by {
      forall i | 0 <= i < |xs| ensures InHeap(h, xs[i].val) {
        assert xs[i] in e.props;
      }
    }
    var ce := CloneEach(h, Vals(xs), st, fuel);
    CloneEachFaithful(h, Vals(xs), st, fuel, rank);
    Assembled(base, xs, ce.out);
  }

  /** Whether every value would be returned by `shouldShallowCopy` before the cache is touched. */
  function AllPrimitive(vs: seq<Value>): (b: bool)
    ensures b <==> forall i :: 0 <= i < |vs| ==> vs[i].Prim?
  {
    if |vs| == 0 then true else vs[0].Prim? && AllPrimitive(vs[1..])
  }

  /**
   `deepCloneErrorObject` as written: the options object `{ deep: true }`
   stands where the engine expects its cache, so a primitive comes back
   unchanged and the first object or function throws a TypeError.
   */
  function DeepCloneErrorAsWritten(h: Heap, a: Addr, st: St): (r: Outcome)
    requires HeapWf(h) && a in h && h[a].ErrorNode?
    ensures r.TypeError? <==> exists i :: 0 <= i < |Extras(h[a].props)| && Extras(h[a].props)[i].val.Ref?
    ensures r.Cloned? ==> r == Cloned(ShallowCloneError(h[a]), st)
  {
    var e := h[a];
    assert NodeWf(h, e);
    var xs := Extras(e.props);
    if AllPrimitive(Vals(xs)) then
      Cloned(ShallowCloneError(e), st)
    else
      assert exists i :: 0 <= i < |Vals(xs)| && !Vals(xs)[i].Prim?;
      TypeError
  }

  /**
   When no copied property holds an object or function, the written and
   the intended deep clone agree with each other and with the shallow clone.
   */
  lemma DeepCloneErrorAgreesOnPrimitives(h: Heap, a: Addr, st: St, fuel: nat)
    requires HeapWf(h) && a in h && h[a].ErrorNode? && Inv(h, st) && st.cache == map[]
    requires forall i :: 0 <= i < |Extras(h[a].props)| ==> Extras(h[a].props)[i].val.Prim?
    ensures DeepCloneErrorAsWritten(h, a, st) == Cloned(ShallowCloneError(h[a]), st)
    ensures DeepCloneError(h, a, st, fuel) == Cloned(ShallowCloneError(h[a]), st)
  {
    var e := h[a];
    assert NodeWf(h, e);
    var xs := Extras(e.props);
    PrimitivesStay(h, Vals(xs), st, fuel);
    RebindOwn(xs);
  }

  /** Cloning primitives one by one changes nothing. */
  lemma {:induction false} PrimitivesStay(h: Heap, vs: seq<Value>, st: St, fuel: nat)
    requires HeapWf(h) && AllInHeap(h, vs) && Inv(h, st) && st.cache == map[]
    requires forall i :: 0 <= i < |vs| ==> vs[i].Prim?
    ensures CloneEach(h, vs, st, fuel) == Done(vs, st)
    decreases |vs|
  {
    if |vs| > 0 {
      assert Clone(h, vs[0], st, fuel) == Done(vs[0], st);
      assert St(st.heap, map[], st.next) == st;
      PrimitivesStay(h, vs[1..], st, fuel);
      assert [vs[0]] + vs[1..] == vs;
    }
  }

  /** With no cycle through a Set or Map, one unit of fuel per object finishes every property. */
  lemma {:induction false} CloneEachDone(h: Heap, vs: seq<Value>, st: St, fuel: nat, rank: map<Addr, nat>)
    requires HeapWf(h) && AllInHeap(h, vs) && Inv(h, st) && st.cache == map[]
    requires Ranked(h, rank) && fuel > |h|
    ensures CloneEach(h, vs, st, fuel).Done?
    decreases |vs|
  {
    if |vs| > 0 {
      if vs[0].Ref? {
        PendingBounded(h, rank, map[], rank[vs[0].addr]);
      }
      CloneDone(h, vs[0], st, fuel, rank);
      var st1 := Clone(h, vs[0], st, fuel).st;
      CloneEachDone(h, vs[1..], St(st1.heap, map[], st1.next), fuel, rank);
    }
  }

  /** With no cycle through a Set or Map, the intended deep clone of an Error always finishes. */
  lemma DeepCloneErrorFinishes(h: Heap, a: Addr, st: St, fuel: nat, rank: map<Addr, nat>)
    requires HeapWf(h) && a in h && h[a].ErrorNode? && Inv(h, st) && st.cache == map[]
    requires Ranked(h, rank) && fuel > |h|
    ensures DeepCloneError(h, a, st, fuel).Cloned?
  {
    var e := h[a];
    assert NodeWf(h, e);
    var xs := Extras(e.props);
    assert AllInHeap(h, Vals(xs)) by {
      forall i | 0 <= i < |xs| ensures InHeap(h, xs[i].val) {
        assert xs[i] in e.props;
      }
    }
    CloneEachDone(h, Vals(xs), st, fuel, rank);
  }

  /** The documented example: `new Error('测试错误')` given `customProp = { foo: 'bar' }`. */
  function ErrorExample(): (h: Heap)
    ensures HeapWf(h) && h.Keys == {0, 1} && h[0].ErrorNode? && h[1].ObjectNode?
  {
    var h := map[
      0 := ErrorNode("Error", "测试错误", Some("Error: 测试错误"),
             [Field("stack", Prim(Str("Error: 测试错误"))), Field("message", Prim(Str("测试错误"))), Field("customProp", Ref(1))]),
      1 := ObjectNode([Field("foo", Prim(Str("bar")))])];
    assert NodeWf(h, h[0]) && NodeWf(h, h[1]);
    h
  }

  /** The example has no cycle at all. */
  lemma ExampleRanked()
    ensures Ranked(ErrorExample(), map[0 := 0, 1 := 0])
  {
    var h := ErrorExample();
    assert Kids(h[1]) == [Prim(Str("bar"))];
    assert RankedKids(map[0 := 0, 1 := 0], h[0], 0);
  }

  /** The one property of the example besides stack and message. */
  lemma ExampleExtras()
    ensures Extras(ErrorExample()[0].props) == [Field("customProp", Ref(1))]
  {
    var h := ErrorExample();
    assert h[0].props[1..][1..] == [Field("customProp", Ref(1))];
    assert Extras([]) == [];
  }

  /** On the documented example the written deep clone throws. */
  lemma ErrorExampleThrows()
    ensures DeepCloneErrorAsWritten(ErrorExample(), 0, St(ErrorExample(), map[], 2)) == TypeError
  {
    ExampleExtras();
    assert Extras(ErrorExample()[0].props)[0].val.Ref?;
  }

  /** An Error whose one extra property holds an object gets a new, faithful copy of it there. */
  lemma OneObjectProperty(h: Heap, a: Addr, next: Addr, fuel: nat, rank: map<Addr, nat>, k: string, b: Addr)
    requires HeapWf(h) && a in h && h[a].ErrorNode? && forall x :: x in h ==> x < next
    requires Ranked(h, rank) && fuel > |h|
    requires Extras(h[a].props) == [Field(k, Ref(b))] && b in h && Cloneable(h[b])
    ensures var r := DeepCloneError(h, a, St(h, map[], next), fuel);
      && r.Cloned? && |r.err.props| == 4 && r.err.props[3].key == k
      && r.err.props[3].val.Ref? && r.err.props[3].val.addr !in h
      && FaithfulCopy(h, r.st.heap, Ref(b), r.err.props[3].val)
  {
    DeepCloneErrorFinishes(h, a, St(h, map[], next), fuel, rank);
    DeepCloneErrorFaithful(h, a, St(h, map[], next), fuel, rank);
    assert Copied(h, Extras(h[a].props)[0].val);
  }

  /** A faithful copy of `{ foo: 'bar' }` is a new `{ foo: 'bar' }`. */
  lemma FooBarCopy(h: Heap, heap: Heap, w: Value)
    requires HeapWf(h) && 1 in h && h[1] == ObjectNode([Field("foo", Prim(Str("bar")))])
    requires FaithfulCopy(h, heap, Ref(1), w)
    ensures w.Ref? && w.addr in heap && heap[w.addr] == ObjectNode([Field("foo", Prim(Str("bar")))])
  {
    var c: map<Addr, Addr> :| Corresponds(h, c, Ref(1), w) && forall b :: b in c ==> b in h && Image(h, heap, c, b);
    assert Kids(h[1]) == [Prim(Str("bar"))];
    assert Image(h, heap, c, 1);
    OneField(heap[c[1]], "foo", Prim(Str("bar")));
  }

  /** On the documented example the intended deep clone gives `customProp` a new `{ foo: 'bar' }`. */
  lemma ErrorExampleCloned(fuel: nat)
    requires fuel > 2
    ensures var r := DeepCloneError(ErrorExample(), 0, St(ErrorExample(), map[], 2), fuel);
      && r.Cloned? && |r.err.props| == 4 && r.err.props[3].key == "customProp"
      && r.err.props[3].val.Ref? && r.err.props[3].val != Ref(1)
      && r.err.props[3].val.addr in r.st.heap
      && r.st.heap[r.err.props[3].val.addr] == ObjectNode([Field("foo", Prim(Str("bar")))])
  {
    var h := ErrorExample();
    assert |h| == 2 by { assert h.Keys == {0, 1}; }
    ExampleExtras();
    ExampleRanked();
    assert h[1] == ObjectNode([Field("foo", Prim(Str("bar")))]);
    ExampleCloned(h, fuel);
  }

  lemma ExampleCloned(h: Heap, fuel: nat)
    requires HeapWf(h) && h.Keys == {0, 1} && |h| == 2 && fuel > 2
    requires h[0].ErrorNode? && h[1] == ObjectNode([Field("foo", Prim(Str("bar")))])
    requires Ranked(h, map[0 := 0, 1 := 0]) && Extras(h[0].props) == [Field("customProp", Ref(1))]
    ensures var r := DeepCloneError(h, 0, St(h, map[], 2), fuel);
      && r.Cloned? && |r.err.props| == 4 && r.err.props[3].key == "customProp"
      && r.err.props[3].val.Ref? && r.err.props[3].val != Ref(1)
      && r.err.props[3].val.addr in r.st.heap
      && r.st.heap[r.err.props[3].val.addr] == ObjectNode([Field("foo", Prim(Str("bar")))])
  {
    OneObjectProperty(h, 0, 2, fuel, map[0 := 0, 1 := 0], "customProp", 1);
    var r := DeepCloneError(h, 0, St(h, map[], 2), fuel);
    FooBarCopy(h, r.st.heap, r.err.props[3].val);
  }
}
