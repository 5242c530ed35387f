/**
 An abstract JavaScript heap, as far as the clone engine can observe it.

 A value is either a primitive (null, undefined, boolean, number, string,
 symbol, bigint) or a reference to a heap node.  Every node carries exactly
 the payload the engine or the type predicates read from it; the kind of a
 node determines its `Object.prototype.toString` tag.
 */
module JsHeap {

  type Addr = nat
  type Byte = x: int | 0 <= x < 256

  /** Numbers are kept as their IEEE-754 bit pattern: the engine only passes them through. */
  datatype Primitive =
    | Null
    | Undefined
    | Bool(b: bool)
    | Number(bits: nat)
    | Str(s: string)
    | Symbol(id: nat)
    | BigInt(i: int)

  datatype Value = Prim(p: Primitive) | Ref(addr: Addr)

  /** The time value of a Date: milliseconds since the epoch, or NaN for an Invalid Date. */
  datatype TimeValue = Time(ms: int) | InvalidTime

  /** The eleven typed-array element kinds (a Node `Buffer` is a Uint8Array). */
  datatype TypedKind =
    | Int8 | Uint8 | Uint8Clamped | Int16 | Uint16 | Int32 | Uint32
    | Float32 | Float64 | BigInt64 | BigUint64

  /** How a function was written; `Function.prototype.toString` exposes its text. */
  datatype FnSyntax = Ordinary | Arrow | ClassSyntax | Method

  /** An own, enumerable, string-keyed property in `Object.keys` order. */
  datatype Field = Field(key: string, val: Value)

  /** One entry of a Map, in insertion order. */
  datatype Entry = Entry(key: Value, val: Value)

  datatype Node =
    | ArrayNode(elems: seq<Value>)
    | ObjectNode(fields: seq<Field>)
    | DateNode(time: TimeValue)
    | RegExpNode(source: string, flags: string, lastIndex: nat)
    | SetNode(members: seq<Value>)
    | MapNode(entries: seq<Entry>)
    | TypedArrayNode(kind: TypedKind, buffer: Addr, byteOffset: nat, length: nat)
    | ArrayBufferNode(bytes: seq<Byte>)
    | DataViewNode(buffer: Addr)
    | WeakMapNode
    | WeakSetNode
      /** `props` lists the own property names (`Object.getOwnPropertyNames`) with their values. */
    | ErrorNode(name: string, message: string, stack: Option<string>, props: seq<Field>)
    | FunctionNode(ctorName: string, text: string, syntax: FnSyntax)
      /** Any other host object (Promise, DOM node, arguments object, ...), by its tag name. */
    | OtherNode(tagName: string)

  datatype Option<T> = None | Some(value: T)

  type Heap = map<Addr, Node>

  /** The `Object.prototype.toString` tag of a node, as an enumeration. */
  datatype Tag =
    | TagArray | TagObject | TagDate | TagRegExp | TagSet | TagMap
    | TagTyped(kind: TypedKind) | TagArrayBuffer | TagDataView
    | TagWeakMap | TagWeakSet | TagError | TagFunction | TagOther(name: string)

  /** `getType` of the engine: the tag that dispatch is based on. */
  function TagOf(n: Node): Tag
  {
    match n
    case ArrayNode(_) => TagArray
    case ObjectNode(_) => TagObject
    case DateNode(_) => TagDate
    case RegExpNode(_, _, _) => TagRegExp
    case SetNode(_) => TagSet
    case MapNode(_) => TagMap
    case TypedArrayNode(k, _, _, _) => TagTyped(k)
    case ArrayBufferNode(_) => TagArrayBuffer
    case DataViewNode(_) => TagDataView
    case WeakMapNode => TagWeakMap
    case WeakSetNode => TagWeakSet
    case ErrorNode(_, _, _, _) => TagError
    case FunctionNode(_, _, _) => TagFunction
    case OtherNode(name) => TagOther(name)
  }

  /** The name `Object.prototype.toString` puts between "[object " and "]". */
  function TagName(t: Tag): string
  {
    match t
    case TagArray => "Array"
    case TagObject => "Object"
    case TagDate => "Date"
    case TagRegExp => "RegExp"
    case TagSet => "Set"
    case TagMap => "Map"
    case TagTyped(k) => KindName(k)
    case TagArrayBuffer => "ArrayBuffer"
    case TagDataView => "DataView"
    case TagWeakMap => "WeakMap"
    case TagWeakSet => "WeakSet"
    case TagError => "Error"
    case TagFunction => "Function"
    case TagOther(name) => name
  }

  /** The tag as the string `Object.prototype.toString` returns, which `getType` passes on. */
  function TagString(t: Tag): string
  {
    "[object " + TagName(t) + "]"
  }

  /** The name of a built-in tag; another host object never reports one of them. */
  ghost predicate BuiltinName(name: string)
  {
    exists t: Tag :: !t.TagOther? && TagName(t) == name
  }

  /** Reading the name back out of a tag string. */
  lemma Unwrap(x: string, y: string)
    requires "[object " + x + "]" == "[object " + y + "]"
    ensures x == y
  {
    var s := "[object " + x + "]";
    assert x == s[8..|s| - 1];
  }

  /** The built-in tags have distinct names. */
  lemma BuiltinNamesDistinct(t: Tag, u: Tag)
    requires !t.TagOther? && !u.TagOther?
    ensures TagName(t) == TagName(u) ==> t == u
  {
  }

  /**
   In a well-formed heap the string `getType` returns identifies the tag:
   two nodes give the same string exactly when they have the same tag.
   */
  lemma TagStringIdentifies(h: Heap, a: Addr, b: Addr)
    requires HeapWf(h) && a in h && b in h
    ensures TagString(TagOf(h[a])) == TagString(TagOf(h[b])) <==> TagOf(h[a]) == TagOf(h[b])
  {
    var t, u := TagOf(h[a]), TagOf(h[b]);
    assert NodeWf(h, h[a]) && NodeWf(h, h[b]);
    if TagString(t) == TagString(u) {
      Unwrap(TagName(t), TagName(u));
      if !t.TagOther? && !u.TagOther? {
        BuiltinNamesDistinct(t, u);
      }
    }
  }

  function KindName(k: TypedKind): string
  {
    match k
    case Int8 => "Int8Array"
    case Uint8 => "Uint8Array"
    case Uint8Clamped => "Uint8ClampedArray"
    case Int16 => "Int16Array"
    case Uint16 => "Uint16Array"
    case Int32 => "Int32Array"
    case Uint32 => "Uint32Array"
    case Float32 => "Float32Array"
    case Float64 => "Float64Array"
    case BigInt64 => "BigInt64Array"
    case BigUint64 => "BigUint64Array"
  }

  /** The values of a record's fields, in key order. */
  function Vals(fs: seq<Field>): (vs: seq<Value>)
    ensures |vs| == |fs|
    ensures forall i :: 0 <= i < |fs| ==> vs[i] == fs[i].val
  {
    if |fs| == 0 then [] else [fs[0].val] + Vals(fs[1..])
  }

  /** A Map's entries as the sequence key0, value0, key1, value1, ... */
  function Flatten(es: seq<Entry>): (vs: seq<Value>)
    ensures |vs| == 2 * |es|
    ensures forall i :: 0 <= i < |es| ==> vs[2 * i] == es[i].key && vs[2 * i + 1] == es[i].val
  {
    if |es| == 0 then [] else [es[0].key, es[0].val] + Flatten(es[1..])
  }

  /**
   The values the engine recurses into for a node: array elements, record
   values, Set members, Map keys and values.  Every other kind has none.
   */
  function Kids(n: Node): seq<Value>
  {
    match n
    case ArrayNode(es) => es
    case ObjectNode(fs) => Vals(fs)
    case SetNode(ms) => ms
    case MapNode(es) => Flatten(es)
    case _ => []
  }

  /** Set and Map: the nodes whose clone is recorded only after their members are cloned. */
  predicate CachedLate(n: Node)
  {
    n.SetNode? || n.MapNode?
  }

  predicate DistinctKeys(fs: seq<Field>)
  {
    forall i, j :: 0 <= i < j < |fs| ==> fs[i].key != fs[j].key
  }

  predicate DistinctValues(vs: seq<Value>)
  {
    forall i, j :: 0 <= i < j < |vs| ==> vs[i] != vs[j]
  }

  predicate DistinctEntryKeys(es: seq<Entry>)
  {
    forall i, j :: 0 <= i < j < |es| ==> es[i].key != es[j].key
  }

  /** The result of the `typeof` operator. */
  datatype TypeOfTag = TUndefined | TObject | TBoolean | TNumber | TString | TSymbol | TBigInt | TFunction

  /** `typeof v`; `typeof null` is "object", and only function nodes are "function". */
  function TypeOf(h: Heap, v: Value): TypeOfTag
    requires InHeap(h, v)
  {
    match v
    case Prim(p) =>
      (match p
       case Null => TObject
       case Undefined => TUndefined
       case Bool(_) => TBoolean
       case Number(_) => TNumber
       case Str(_) => TString
       case Symbol(_) => TSymbol
       case BigInt(_) => TBigInt)
    case Ref(a) => if h[a].FunctionNode? then TFunction else TObject
  }

  predicate InHeap(h: Heap, v: Value)
  {
    v.Ref? ==> v.addr in h
  }

  /** The shape guarantees a live JavaScript heap gives for one node. */
  ghost predicate NodeWf(h: Heap, n: Node)
  {
    && (forall i :: 0 <= i < |Kids(n)| ==> InHeap(h, Kids(n)[i]))
    && (n.ObjectNode? ==> DistinctKeys(n.fields))
    && (n.SetNode? ==> DistinctValues(n.members))
    && (n.MapNode? ==> DistinctEntryKeys(n.entries))
    && (n.ErrorNode? ==> DistinctKeys(n.props) && forall i :: 0 <= i < |n.props| ==> InHeap(h, n.props[i].val))
    && (n.TypedArrayNode? ==> n.buffer in h && h[n.buffer].ArrayBufferNode?)
    && (n.OtherNode? ==> !BuiltinName(n.tagName))
  }

  /** Every reference is live, keys are unique, members of a Set are distinct. */
  ghost predicate HeapWf(h: Heap)
  {
    forall a :: a in h ==> NodeWf(h, h[a])
  }
}
