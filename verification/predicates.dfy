/**
 The type predicates of the utility module: `isObject`, `isArray`, `isDate`,
 `isRegExp`, `isMap`, `isSet`, `isNormalFunction`, `isArrowFunction` and
 `isTypedArray`.

 `instanceof` is read off the node's kind (prototype chains are not
 modelled), the `Object.prototype.toString` comparison off its tag, and a
 function's `constructor.name` and source text are fields of its node.
 */
module TypePredicates {
  import opened JsHeap
  import opened Engine
  import opened Coherence
  import opened Dkopy

  /** `isObject`: `typeof` says "object" and the value is not null, or `typeof` says "function". */
  function IsObject(h: Heap, v: Value): (r: bool)
    requires InHeap(h, v)
    ensures r <==> !ShouldShallowCopy(h, v)
    ensures r <==> v.Ref?
  {
    (v != Prim(Null) && TypeOf(h, v) == TObject) || TypeOf(h, v) == TFunction
  }

  /** `isArray`: `Array.isArray`. */
  function IsArray(h: Heap, v: Value): (r: bool)
    requires InHeap(h, v)
    ensures r <==> KindOf(h, v) == KArray
    ensures r ==> IsObject(h, v)
  {
    v.Ref? && h[v.addr].ArrayNode?
  }

  /** `isDate`: an instance of Date, tagged Date, whose time value is not NaN. */
  function IsDate(h: Heap, v: Value): (r: bool)
    requires InHeap(h, v)
    ensures r <==> KindOf(h, v) == KDate && h[v.addr].time.Time?
    ensures r ==> IsObject(h, v)
  {
    && v.Ref? && h[v.addr].DateNode?
    && TagString(TagOf(h[v.addr])) == "[object Date]"
    && !h[v.addr].time.InvalidTime?
  }

  /** `isRegExp`: an instance of RegExp tagged RegExp. */
  function IsRegExp(h: Heap, v: Value): (r: bool)
    requires InHeap(h, v)
    ensures r <==> KindOf(h, v) == KRegExp
    ensures r ==> IsObject(h, v)
  {
    v.Ref? && h[v.addr].RegExpNode? && TagString(TagOf(h[v.addr])) == "[object RegExp]"
  }

  /** `isMap`: an instance of Map tagged Map. */
  function IsMap(h: Heap, v: Value): (r: bool)
    requires InHeap(h, v)
    ensures r <==> KindOf(h, v) == KMap
    ensures r ==> IsObject(h, v)
  {
    v.Ref? && h[v.addr].MapNode? && TagString(TagOf(h[v.addr])) == "[object Map]"
  }

  /** `isSet`: an instance of Set tagged Set. */
  function IsSet(h: Heap, v: Value): (r: bool)
    requires InHeap(h, v)
    ensures r <==> KindOf(h, v) == KSet
    ensures r ==> IsObject(h, v)
  {
    v.Ref? && h[v.addr].SetNode? && TagString(TagOf(h[v.addr])) == "[object Set]"
  }

  /** `isNormalFunction` as written: any function whose constructor is named "Function". */
  function IsNormalFunction(h: Heap, v: Value): (r: bool)
    requires InHeap(h, v)
    ensures r ==> KindOf(h, v) == KFunction && IsObject(h, v)
    ensures IsNormalFunctionIntended(h, v) ==> r
  {
    TypeOf(h, v) == TFunction && h[v.addr].ctorName == "Function"
  }

  /** `isArrowFunction` as written: additionally, the source text contains "=>". */
  function IsArrowFunction(h: Heap, v: Value): (r: bool)
    requires InHeap(h, v)
    ensures r <==> IsNormalFunction(h, v) && Occurs(h[v.addr].text, "=>")
  {
    if TypeOf(h, v) == TFunction then
      IncludesIffOccurs(h[v.addr].text, "=>");
      h[v.addr].ctorName == "Function" && Includes(h[v.addr].text, "=>")
    else false
  }

  /** `ArrayBuffer.isView`: a typed array or a DataView. */
  predicate IsView(n: Node)
  {
    n.TypedArrayNode? || n.DataViewNode?
  }

  /** `isTypedArray`: a view over a buffer that is not a DataView. */
  function IsTypedArray(h: Heap, v: Value): (r: bool)
    requires InHeap(h, v)
    ensures r <==> KindOf(h, v) == KTypedArray
    ensures r ==> IsObject(h, v)
  {
    v.Ref? && IsView(h[v.addr]) && !h[v.addr].DataViewNode?
  }

  /** `String.prototype.includes`, scanning from the front. */
  function Includes(s: string, pat: string): bool
    decreases |s|
  {
    if |s| < |pat| then false
    else if s[..|pat|] == pat then true
    else Includes(s[1..], pat)
  }

  /** `pat` occurs in `s` at position `i`. */
  ghost predicate OccursAt(s: string, pat: string, i: int)
  {
    0 <= i <= |s| - |pat| && s[i..i + |pat|] == pat
  }

  /** `pat` occurs in `s` at some position. */
  ghost predicate Occurs(s: string, pat: string)
  {
    exists i :: OccursAt(s, pat, i)
  }

  /** The scan finds `pat` exactly when it occurs somewhere. */
  lemma {:induction false} IncludesIffOccurs(s: string, pat: string)
    ensures Includes(s, pat) <==> Occurs(s, pat)
    decreases |s|
  {
    if |s| < |pat| {
    } else if s[..|pat|] == pat {
      assert s[0..0 + |pat|] == s[..|pat|];
      assert OccursAt(s, pat, 0);
    } else {
      IncludesIffOccurs(s[1..], pat);
      if Occurs(s[1..], pat) {
        var i :| OccursAt(s[1..], pat, i);
        OccursShift(s, pat, i);
      }
      if Occurs(s, pat) {
        var i :| OccursAt(s, pat, i);
        OccursUnshift(s, pat, i);
      }
    }
  }

  /** An occurrence in the tail is an occurrence one place later in the whole. */
  lemma OccursShift(s: string, pat: string, i: int)
    requires |s| > 0 && OccursAt(s[1..], pat, i)
    ensures OccursAt(s, pat, i + 1)
  {
    assert s[i + 1..i + 1 + |pat|] == s[1..][i..i + |pat|];
  }

  /** An occurrence not at the front is an occurrence one place earlier in the tail. */
  lemma OccursUnshift(s: string, pat: string, i: int)
    requires |s| >= |pat| && s[..|pat|] != pat && OccursAt(s, pat, i)
    ensures OccursAt(s[1..], pat, i - 1)
  {
    assert s[0..0 + |pat|] == s[..|pat|];
    assert i != 0;
    assert s[1..][i - 1..i - 1 + |pat|] == s[i..i + |pat|];
  }

  /** What kind of value a predicate recognises, read off the node alone. */
  datatype Kind = KArray | KDate | KRegExp | KMap | KSet | KTypedArray | KFunction | KOther

  function KindOf(h: Heap, v: Value): Kind
    requires InHeap(h, v)
  {
    if v.Prim? then KOther
    else
      match h[v.addr]
      case ArrayNode(_) => KArray
      case DateNode(_) => KDate
      case RegExpNode(_, _, _) => KRegExp
      case MapNode(_) => KMap
      case SetNode(_) => KSet
      case TypedArrayNode(_, _, _, _) => KTypedArray
      case FunctionNode(_, _, _) => KFunction
      case _ => KOther
  }

  /** Typed arrays the engine does not copy: `isTypedArray` holds, yet they come back shared. */
  lemma TypedArraysLeftShared(h: Heap, v: Value)
    requires InHeap(h, v) && IsTypedArray(h, v)
    ensures !Cloneable(h[v.addr]) <==> h[v.addr].kind in {Uint8Clamped, BigInt64, BigUint64}
  {
    var k := h[v.addr].kind;
    assert TagOf(h[v.addr]) == TagTyped(k) && TagTyped(k) !in ConstructorHandlers;
    assert Cloneable(h[v.addr]) <==> k in CopiedKinds;
    match k
    case Uint8Clamped =>
    case BigInt64 =>
    case BigUint64 =>
    case _ => assert k in CopiedKinds;
  }

  /**
   A clone answers every type predicate as its original does.  For a
   recorded original this needs its clone to be a faithful image.
   */
  lemma CloneKeepsKind(h: Heap, st: St, v: Value, w: Value)
    requires HeapWf(h) && Inv(h, st) && InHeap(h, v) && Corresponds(h, st.cache, v, w)
    requires v.Ref? && v.addr in st.cache ==> Image(h, st.heap, st.cache, v.addr)
    ensures InHeap(st.heap, w)
    ensures IsObject(st.heap, w) == IsObject(h, v)
    ensures IsArray(st.heap, w) == IsArray(h, v)
    ensures IsDate(st.heap, w) == IsDate(h, v)
    ensures IsRegExp(st.heap, w) == IsRegExp(h, v)
    ensures IsMap(st.heap, w) == IsMap(h, v)
    ensures IsSet(st.heap, w) == IsSet(h, v)
    ensures IsTypedArray(st.heap, w) == IsTypedArray(h, v)
    ensures IsNormalFunction(st.heap, w) == IsNormalFunction(h, v)
    ensures IsArrowFunction(st.heap, w) == IsArrowFunction(h, v)
  {
    if v.Ref? && Cloneable(h[v.addr]) {
      var n, m := h[v.addr], st.heap[w.addr];
      assert Payload(h, st.heap, n, m);
      assert KindOf(h, v) == KindOf(st.heap, w);
    }
  }

  /** With no cycle through a Set or Map, `dkopy(v)` answers every type predicate as `v` does. */
  lemma DeepCloneKeepsKind(h: Heap, v: Value, next: Addr, fuel: nat, rank: map<Addr, nat>)
    requires HeapWf(h) && InHeap(h, v) && Below(h, next)
    requires Ranked(h, rank) && DeepClone(h, v, next, fuel).Done?
    ensures var r := DeepClone(h, v, next, fuel);
      && InHeap(r.st.heap, r.out)
      && IsObject(r.st.heap, r.out) == IsObject(h, v)
      && IsArray(r.st.heap, r.out) == IsArray(h, v)
      && IsDate(r.st.heap, r.out) == IsDate(h, v)
      && IsRegExp(r.st.heap, r.out) == IsRegExp(h, v)
      && IsMap(r.st.heap, r.out) == IsMap(h, v)
      && IsSet(r.st.heap, r.out) == IsSet(h, v)
      && IsTypedArray(r.st.heap, r.out) == IsTypedArray(h, v)
      && IsNormalFunction(r.st.heap, r.out) == IsNormalFunction(h, v)
      && IsArrowFunction(r.st.heap, r.out) == IsArrowFunction(h, v)
  {
    var r := DeepClone(h, v, next, fuel);
    DeepCloneFaithful(h, v, next, fuel, rank);
    CloneKeepsKind(h, r.st, v, r.out);
  }

  /**
   What `isNormalFunction` is documented to accept: a function made by a
   `function` declaration or expression, so not an arrow function, a class
   or a method.
   */
  predicate IsNormalFunctionIntended(h: Heap, v: Value)
    requires InHeap(h, v)
  {
    TypeOf(h, v) == TFunction && h[v.addr].ctorName == "Function" && h[v.addr].syntax == Ordinary
  }

  /** What `isArrowFunction` is documented to accept: an arrow function. */
  predicate IsArrowFunctionIntended(h: Heap, v: Value)
    requires InHeap(h, v)
  {
    TypeOf(h, v) == TFunction && h[v.addr].ctorName == "Function" && h[v.addr].syntax == Arrow
  }

  /** The host's guarantee that the source text of every arrow function contains "=>". */
  ghost predicate ArrowTextsHaveArrow(h: Heap)
  {
    forall a :: a in h && h[a].FunctionNode? && h[a].syntax == Arrow ==> Occurs(h[a].text, "=>")
  }

  /**
   The functions of the documented examples, and one more: `foo`, `bar`,
   `Baz`, `normalFn`, and an ordinary function whose body holds an arrow.
   */
  function ExampleFunctions(): (h: Heap)
    ensures forall a :: a in h ==> h[a].FunctionNode? && h[a].ctorName == "Function"
  {
    map[
      0 := FunctionNode("Function", "function foo() {}", Ordinary),
      1 := FunctionNode("Function", "() => {}", Arrow),
      2 := FunctionNode("Function", "class Baz {}", ClassSyntax),
      3 := FunctionNode("Function", "function normalFn() {}", Ordinary),
      4 := FunctionNode("Function", "function outer() { return () => 1; }", Ordinary)]
  }

  /** `isNormalFunction` as written accepts `bar` and `Baz`, which its documentation rejects. */
  lemma NormalFunctionAcceptsArrowAndClass()
    ensures IsNormalFunction(ExampleFunctions(), Ref(0))
    ensures IsNormalFunction(ExampleFunctions(), Ref(1)) && ExampleFunctions()[1].syntax == Arrow
    ensures IsNormalFunction(ExampleFunctions(), Ref(2)) && ExampleFunctions()[2].syntax == ClassSyntax
  {
  }

  /**
   The intended `isNormalFunction` gives the documented answers, implies the
   written one, and never holds together with the intended `isArrowFunction`.
   */
  lemma NormalFunctionIntendedAnswers(h: Heap, v: Value)
    requires InHeap(h, v)
    ensures IsNormalFunctionIntended(ExampleFunctions(), Ref(0))
    ensures !IsNormalFunctionIntended(ExampleFunctions(), Ref(1))
    ensures !IsNormalFunctionIntended(ExampleFunctions(), Ref(2))
    ensures IsNormalFunctionIntended(h, v) ==> IsNormalFunction(h, v) && !IsArrowFunctionIntended(h, v)
    ensures IsNormalFunction(h, v) && !IsNormalFunctionIntended(h, v) <==> IsNormalFunction(h, v) && h[v.addr].syntax != Ordinary
  {
  }

  /** `isArrowFunction` as written accepts an ordinary function whose body contains an arrow. */
  lemma ArrowFunctionAcceptsOrdinary()
    ensures IsArrowFunction(ExampleFunctions(), Ref(4)) && ExampleFunctions()[4].syntax == Ordinary
  {
    ArrowAt(ExampleFunctions()[4].text, 29);
  }

  /** On the documented examples `isArrowFunction` as written answers as documented. */
  lemma ArrowFunctionDocumented()
    ensures IsArrowFunction(ExampleFunctions(), Ref(1))
    ensures !IsArrowFunction(ExampleFunctions(), Ref(3))
  {
    ArrowAt(ExampleFunctions()[1].text, 3);
    NormalFnText();
  }

  /** The text of `normalFn` holds no "=>". */
  lemma NormalFnText()
    ensures !Includes(ExampleFunctions()[3].text, "=>")
  {
    var s := ExampleFunctions()[3].text;
    assert s == "function normalFn() {}";
    NoArrowIn(s);
  }

  /** A text with "=>" at position `i` includes it. */
  lemma ArrowAt(s: string, i: nat)
    requires i + 2 <= |s| && s[i] == '=' && s[i + 1] == '>'
    ensures Includes(s, "=>")
  {
    assert s[i..i + 2] == "=>";
    assert OccursAt(s, "=>", i);
    IncludesIffOccurs(s, "=>");
  }

  /** A text without the character '=' contains no "=>". */
  lemma NoArrowIn(s: string)
    requires forall i :: 0 <= i < |s| ==> s[i] != '='
    ensures !Includes(s, "=>")
  {
    IncludesIffOccurs(s, "=>");
    forall i | 0 <= i <= |s| - 2
      ensures !OccursAt(s, "=>", i)
    {
      assert s[i..i + 2][0] == s[i];
    }
  }

  /**
   The intended `isArrowFunction` gives the documented answers, and on a
   host where every arrow's text shows its arrow the written test never
   misses one.
   */
  lemma ArrowFunctionIntendedAnswers(h: Heap, v: Value)
    requires InHeap(h, v)
    ensures IsArrowFunctionIntended(ExampleFunctions(), Ref(1))
    ensures !IsArrowFunctionIntended(ExampleFunctions(), Ref(3))
    ensures !IsArrowFunctionIntended(ExampleFunctions(), Ref(4))
    ensures ArrowTextsHaveArrow(h) && IsArrowFunctionIntended(h, v) ==> IsArrowFunction(h, v)
  {
    if ArrowTextsHaveArrow(h) && IsArrowFunctionIntended(h, v) {
      IncludesIffOccurs(h[v.addr].text, "=>");
    }
  }
}
