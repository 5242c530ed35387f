# dkopy, modelled in Dafny

`dkopy` is a small TypeScript deep-clone library. Its core is one recursive
function, `dkopy(input, clonedMap)`, that copies a JavaScript value graph.
Three other parts sit around it:

- an identity cache, keyed by the original object;
- a table of constructor handlers for Date, RegExp, Set and Map;
- special cases for arrays, plain objects, eight typed-array kinds and ArrayBuffer.

Around that engine sit the copy helpers for Error objects and a family of
type predicates. This project models all three parts and proves what they
guarantee.

## How the model is built

- **Values and heap** (`heap.dfy`, module `JsHeap`). A value is a primitive or
  a `Ref` to a node of an abstract heap (`map<Addr, Node>`). There is one node
  variant per kind the engine or the predicates can tell apart. `Kids` lists
  the values the engine recurses into: array elements, record values, Set
  members, and Map keys and values in iteration order.
- **Mutations** (`builders.dfy`). `Set.prototype.add`, `Map.prototype.set` and
  property assignment are modelled as functions on sequences.
- **The engine** (`engine.dfy`). `dkopy` is a pure function of the original
  heap, a world `St(heap, cache, next)` and fuel. The original heap never
  changes. New objects are allocated at `next`, and the cache maps original
  addresses to clone addresses.
  - The result is `Done(out, world)` or `Exhausted`.
  - Running out of fuel stands for the call stack overflowing. Fuel is spent
    only when the engine descends into an object's members.
  - The engine records clones in the cache at the same moments the source does:
    - an array or plain object is recorded before its members are visited;
    - a Date, RegExp, Set or Map is recorded after its handler returns;
    - a typed array or ArrayBuffer is recorded once its copy exists.
- **What a finished clone looks like** (`coherence.dfy`, `termination.dfy`,
  `dkopy.dfy`).
  - Both properties below need a side condition, `Ranked`: no cycle in the
    original passes through a Set or a Map.
  - With `Ranked`, a top-level call finishes with one unit of fuel per object.
  - Every clone is a faithful image of its original: same kind, same payload,
    and member `i` of the clone is the clone of member `i` of the original,
    under the one shared cache. Hence:
    - a cycle through arrays and records closes onto the clone;
    - two members are the same object in the clone exactly when they are in
      the original.
- **What happens without `Ranked`.** The side condition is needed because the
  engine records a Set or a Map late:
  - `Dkopy.SelfSetNeverFinishes` shows that cloning a Set that contains
    itself exhausts every amount of fuel.
  - `Dkopy.SetArrayCycleDuplicates` shows that cloning `s` in
    `s = new Set(); arr = [s]; s.add(arr)` does finish. But the array clone
    holds a second Set clone, not the returned one.

  The rest of the model follows this behaviour as written.
- **Error objects** (`errors.dfy`). An Error is modelled as a node holding
  name, message, optional stack and its own properties in
  `Object.getOwnPropertyNames` order.
- **Recording order** (`recording.dfy`). Early recording makes an array or
  record that holds itself close onto its clone. Late recording makes a Set
  or Map that holds itself exhaust every amount of fuel.
- **Type predicates** (`predicates.dfy`). The predicates read the node kind for
  `instanceof`, the tag for `Object.prototype.toString`, and two fields of a
  function node: its constructor name and its source text.

## Model

| member | source | states |
|---|---|---|
| Engine.Clone | src/dkopy.ts:52-119 | a primitive comes back as itself and leaves the cache and heap untouched; a cached original returns its recorded clone with no allocation; an object of any kind the engine does not copy (Error, DataView, WeakMap, function, Uint8ClampedArray, ...) comes back as itself; a finished call keeps the cache injective onto fresh addresses, only adds to heap and cache, and maps the input to its recorded clone; a newly copied object lands at a fresh address |
| Engine.CloneSeq | src/dkopy.ts:78-80 | cloning members left to right threads one cache through all of them, yields one result per member, and result `i` corresponds to member `i` under the final cache |
| Engine.ShouldShallowCopy | src/dkopy.ts:131-136 | the first test holds exactly for primitives, null and undefined included; every object and every function goes on to the cache and the dispatch |
| Engine.CloneWithHandler | src/dkopy.ts:64-71 | for a tag in the handler table a finished call returns the handler's object at the next free address and records the original as mapping to it |
| Engine.CloneSet | src/dkopy.ts:26-32 | a finished Set clone is a fresh object at the next free address, recorded for the original |
| Engine.CloneMap | src/dkopy.ts:35-41 | a finished Map clone is a fresh object at the next free address, recorded for the original |
| Engine.CloneArray | src/dkopy.ts:74-82 | a finished array clone is a fresh object at the next free address, recorded for the original |
| Engine.CloneObject | src/dkopy.ts:106-115 | a finished plain-record clone is a fresh object at the next free address, recorded for the original |
| Recording.ArraySelfClosed | src/dkopy.ts:74-82 | because an array is recorded before its elements are cloned, an element that is the array itself comes out as the new array; the clone has the original's length |
| Recording.ObjectSelfClosed | src/dkopy.ts:106-115 | because a record is recorded before its values are cloned, a property whose value is the record itself comes out, under the same key and at the same position, as the new record |
| Recording.SelfHolderExhausted | src/dkopy.ts:64-71 | because a Set or Map is recorded only after its handler returns, one that holds itself (as a member, a key or a value) is never finished, whatever the fuel and whatever else the cache holds |
| Recording.MeetsItself | src/dkopy.ts:26-41 | a handler loop that reaches the self-holding Set or Map while it is still unrecorded never finishes |
| Recording.StaysUnrecorded | src/dkopy.ts:52-119 | while a self-holding Set or Map is unrecorded, no finished call of the engine records it |
| Recording.TagKinds | src/dkopy.ts:61-106 | each tag the dispatch tests for belongs to exactly one kind of node: a handler-table tag to a Date, RegExp, Set or Map, the Array, Object and ArrayBuffer tags to their own kinds, a typed-array tag to a typed array of that element kind |
| Engine.CopyTypedArray | src/dkopy.ts:85-96 | one of the eight copied typed-array kinds always yields a fresh view, allocated after a fresh buffer copy, and is recorded |
| Engine.CopyArrayBuffer | src/dkopy.ts:99-103 | an ArrayBuffer always yields a fresh object that is recorded |
| Builders.SetAdd | src/dkopy.ts:29 | adding to a Set makes the value a member, keeps every old member, keeps members distinct, and appends a value not yet present |
| Builders.AddAllFresh | src/dkopy.ts:28-30 | adding pairwise distinct values none of which is present yields the old members followed by exactly those values, in order |
| Builders.FindEntry | src/dkopy.ts:38 | the key lookup before a Map set finds a position holding the key, or reports that no position holds it |
| Builders.MapSet | src/dkopy.ts:38 | setting a Map entry leaves the key bound to the value and keeps keys distinct; a key not yet present is appended, and a present key keeps its position while every other entry stays as it was |
| Builders.MapSetAllFresh | src/dkopy.ts:37-39 | setting entries whose keys are distinct and new appends exactly those entries, in order |
| Builders.FindField | src/dkopy.ts:112 | the property lookup before an assignment finds a position holding the key, or reports that no position holds it |
| Builders.PutField | src/dkopy.ts:112 | assigning a property binds the key to the value and keeps keys unique; a key not yet present is appended, and a present key keeps its position while every other property stays as it was |
| Builders.PutAllFresh | src/dkopy.ts:109-113 | assigning `Object.keys` one by one into `{}` yields exactly those keys, in that order, bound to the given values |
| Coherence.CorrInjective | src/dkopy.ts:58 | two different originals never share a clone, because the cache is injective |
| Coherence.CloneCoherent | src/dkopy.ts:52-119 | with no cycle through a Set or Map, every original recorded by a call has a faithful image: same kind and payload, and member `i` of the clone is the clone of member `i` |
| Coherence.ArrayCoherent | src/dkopy.ts:74-82 | an array clone has the original's length, and element `i` is the clone of element `i` |
| Coherence.ObjectCoherent | src/dkopy.ts:106-115 | a record clone holds the original's keys in `Object.keys` order, each bound to the clone of its value |
| Coherence.HandlerCoherent | src/dkopy.ts:18-42 | Date keeps its time value; RegExp keeps source and flags with `lastIndex` reset; Set and Map clones have the original's members in iteration order |
| Coherence.SetCoherent | src/dkopy.ts:26-32 | a Set clone's members are the clones of the original's members, in iteration order, none lost to de-duplication |
| Coherence.MapCoherent | src/dkopy.ts:35-41 | a Map clone's entries are the cloned keys bound to the cloned values, in iteration order |
| Coherence.SetImage | src/dkopy.ts:28-30 | adding the clones of a Set's distinct members drops none of them: the rebuilt Set holds exactly the cloned members, in order |
| Coherence.MapImage | src/dkopy.ts:37-39 | setting the cloned entries of a Map overwrites none of them: the rebuilt Map holds exactly the cloned key/value pairs, in order |
| Coherence.RebuiltRecord | src/dkopy.ts:109-113 | the rebuilt record has the original's keys in order, and its values are exactly the given clones |
| Coherence.TypedCoherent | src/dkopy.ts:85-96 | a typed-array clone has the same kind, byteOffset and length over a new buffer that is not shared with the original and holds the original buffer's bytes |
| Coherence.LeafCoherent | src/dkopy.ts:99-103 | a clone without members (an ArrayBuffer byte copy, a Date, a RegExp) is recorded with a faithful image and breaks no earlier image |
| Termination.CloneDone | src/dkopy.ts:52-119 | with no cycle through a Set or Map, fuel above the number of unrecorded objects of lower or equal rank always suffices |
| Termination.LateDone | src/dkopy.ts:67-70 | a Set or Map finishes, since all its members rank strictly lower than it |
| Dkopy.Start | src/dkopy.ts:52 | a top-level call starts from an empty cache and satisfies the engine invariant |
| Dkopy.DeepClone | src/dkopy.ts:52-119 | `dkopy(input)` with a fresh cache returns a primitive unchanged; when it finishes, the original objects are untouched, and every recorded clone is a new object that does not alias any original |
| Dkopy.DeepCloneFinishes | src/dkopy.ts:52-119 | with no cycle through a Set or Map, fuel above the number of objects guarantees the top-level call finishes |
| Dkopy.DeepCloneFaithful | src/dkopy.ts:52-119 | with no cycle through a Set or Map, every object the top-level call copied has a faithful image |
| Dkopy.SharingPreserved | src/dkopy.ts:58 | two members are the same value in the original if and only if the corresponding members are the same in the clone |
| Dkopy.CycleCloses | src/dkopy.ts:77 | a member that refers to its own container comes out referring to the container's clone |
| Dkopy.SelfRecordCloned | src/dkopy.ts:106-115 | `obj = {}; obj.self = obj` clones to a new record whose `self` is that new record |
| Dkopy.SelfArrayCloned | src/dkopy.ts:74-82 | `arr = ["x"]; arr.push(arr)` clones to a new array whose second element is that new array |
| Dkopy.SharedChildCloned | src/dkopy.ts:58 | an object reached along two paths is cloned once, and both paths reach the one clone, which is not the original |
| Dkopy.SelfSetLoops | src/dkopy.ts:67-69 | a Set that contains itself meets itself unrecorded at every level, so the Set handler never finishes |
| Dkopy.SelfSetNeverFinishes | src/dkopy.ts:67-69 | cloning a self-containing Set runs out of every amount of fuel |
| Dkopy.SetArrayCycleDuplicates | src/dkopy.ts:67-69 | for a Set and an array that contain each other, the clone finishes, but the array clone holds a second Set clone instead of the returned one |
| JsHeap.TagStringIdentifies | src/dkopy.ts:9-11 | in a well-formed heap two nodes give the same `getType` string exactly when they have the same tag, so the engine's string comparisons select by tag |
| TypePredicates.IsObject | src/utils/index.ts:27-29 | holds exactly when `shouldShallowCopy` does not, which is exactly for objects and functions |
| TypePredicates.IsArray | src/utils/index.ts:45-47 | holds exactly for arrays, each of them an object |
| TypePredicates.IsDate | src/utils/index.ts:68-70 | holds exactly for Dates whose time value is valid, each of them an object |
| TypePredicates.IsRegExp | src/utils/index.ts:86-88 | holds exactly for RegExps, each of them an object |
| TypePredicates.IsMap | src/utils/index.ts:102-104 | holds exactly for Maps, so a WeakMap is rejected |
| TypePredicates.IsSet | src/utils/index.ts:118-120 | holds exactly for Sets, so a WeakSet is rejected |
| TypePredicates.IsTypedArray | src/utils/index.ts:215-217 | holds exactly for typed arrays of every element kind, so a DataView and an ArrayBuffer are rejected |
| TypePredicates.IsNormalFunction | src/utils/index.ts:159-161 | holds only for functions, and for every function the documented predicate accepts |
| TypePredicates.IsArrowFunction | src/utils/index.ts:180-182 | holds exactly where `isNormalFunction` holds and the source text contains "=>" at some position |
| TypePredicates.IncludesIffOccurs | src/utils/index.ts:181 | the front-to-back `includes` scan answers true exactly when the pattern occurs at some position |
| TypePredicates.TypedArraysLeftShared | src/dkopy.ts:85-87 | among values `isTypedArray` accepts, the engine leaves exactly the Uint8Clamped, BigInt64 and BigUint64 kinds shared |
| TypePredicates.CloneKeepsKind | src/utils/index.ts:27-217 | a value and its faithful clone answer every type predicate alike |
| TypePredicates.DeepCloneKeepsKind | src/dkopy.ts:52-119 | with no cycle through a Set or Map, the result of a finished `dkopy(input)` answers every type predicate as the input does |
| TypePredicates.ExampleFunctions | src/utils/index.ts:148-156 | the example functions are all functions whose constructor is named "Function" |
| TypePredicates.NormalFunctionAcceptsArrowAndClass | src/utils/index.ts:159-161 | `isNormalFunction` as written accepts the arrow function `bar` and the class `Baz` of its own example |
| TypePredicates.NormalFunctionIntendedAnswers | src/utils/index.ts:139-158 | the documented predicate answers the example as documented (foo yes, bar and Baz no), implies the written one and excludes arrows; the two differ exactly on functions not written with `function` |
| TypePredicates.ArrowFunctionAcceptsOrdinary | src/utils/index.ts:180-182 | `isArrowFunction` as written accepts an ordinary function whose body contains an arrow |
| TypePredicates.ArrowFunctionDocumented | src/utils/index.ts:173-177 | `isArrowFunction` as written gives the documented answers on `arrowFn` (true) and `normalFn` (false) |
| TypePredicates.ArrowAt | src/utils/index.ts:181 | a text with "=>" at some position is found by `includes` |
| TypePredicates.NoArrowIn | src/utils/index.ts:181 | a text with no "=" is never found to contain "=>" |
| TypePredicates.ArrowFunctionIntendedAnswers | src/utils/index.ts:164-179 | the documented predicate accepts `arrowFn`, rejects `normalFn` and rejects the ordinary function containing an arrow; where every arrow's text holds "=>", it implies the written one |
| ErrorClone.Extras | src/utils/clone.ts:26-27 | the copied properties are exactly the own properties other than name, message and stack, never more than the input has |
| ErrorClone.ExtrasDistinct | src/utils/clone.ts:26-27 | the copied property names are unique |
| ErrorClone.ErrorBase | src/utils/clone.ts:22-24 | `new Error(message)` with name and stack assigned has three distinct own properties, all of them reserved |
| ErrorClone.AssignAfterBase | src/utils/clone.ts:26-30 | assigning the extra properties never overwrites name, message or stack, and appends each extra in order |
| ErrorClone.Assembled | src/utils/clone.ts:26-30 | the assembled property list starts with the three reserved properties, has unique keys, and continues with the extras bound to the given values |
| ErrorClone.RebindOwn | src/utils/clone.ts:28 | binding each property to its own value gives back the same properties |
| ErrorClone.ShallowCloneError | src/utils/clone.ts:21-33 | the shallow copy has the input's name, message and stack, starts with those three properties, keeps keys unique, and its other properties are exactly the input's non-reserved own properties, each holding the identical value |
| ErrorClone.CloneEach | src/utils/clone.ts:57-61 | each extra value goes through its own top-level engine call with an empty cache; every result is a primitive kept as is, an uncopied object kept as is, or a fresh copy; copies of different fields never coincide |
| ErrorClone.CloneEachStep | src/utils/clone.ts:57-61 | one more field's engine call extends the per-field guarantees, and its fresh copy differs from the later fields' copies |
| ErrorClone.DeepCloneError | src/utils/clone.ts:52-64 | the corrected deep copy never throws; it keeps name, message and stack verbatim and binds each non-reserved own property, in order, to its own engine clone |
| ErrorClone.CloneFaithful | src/utils/clone.ts:59 | with no cycle through a Set or Map, one top-level engine call returns a faithful copy: under its cache the result is the clone of the input, and every object it recorded has a faithful image at an address outside the original heap, so no object at any depth is shared with the original |
| ErrorClone.CloneEachFaithful | src/utils/clone.ts:57-61 | with no cycle through a Set or Map, each property value cloned with a cache of its own gets a faithful copy, sharing no copied object with the original at any depth, which later fields' calls leave faithful |
| ErrorClone.DeepCloneErrorFaithful | src/utils/clone.ts:38-40 | with no cycle through a Set or Map, every copied property of the corrected deep copy holds a faithful copy of the original property's value, sharing no copied object with the original at any depth |
| ErrorClone.OneLevelCopyNotFaithful | src/utils/clone.ts:38-40 | a copy of `{ x: inner }` whose `x` still refers to the original `inner` is not a faithful copy, so the deep copy promise rules out one-level copies |
| ErrorClone.AllPrimitive | src/utils/clone.ts:57-61 | the check that every extra value is a primitive holds exactly when no extra value is an object |
| ErrorClone.DeepCloneErrorAsWritten | src/utils/clone.ts:59 | passing `{ deep: true }` as the cache throws a TypeError exactly when some extra property holds an object; otherwise the result equals the shallow copy |
| ErrorClone.PrimitivesStay | src/dkopy.ts:54 | engine calls on primitives return them unchanged and allocate nothing |
| ErrorClone.DeepCloneErrorAgreesOnPrimitives | src/utils/clone.ts:52-64 | when all extra values are primitives, the written and the corrected deep copy both equal the shallow copy |
| ErrorClone.CloneEachDone | src/utils/clone.ts:57-61 | with no cycle through a Set or Map, the per-field engine calls all finish with fuel above the number of objects |
| ErrorClone.DeepCloneErrorFinishes | src/utils/clone.ts:52-64 | with no cycle through a Set or Map, the corrected deep copy finishes |
| ErrorClone.ErrorExample | src/utils/clone.ts:47-51 | the documented example is an Error whose heap is well formed |
| ErrorClone.ErrorExampleThrows | src/utils/clone.ts:47-51 | on the documented example with `customProp = { foo: 'bar' }`, the written deep copy throws a TypeError |
| ErrorClone.OneObjectProperty | src/utils/clone.ts:52-64 | an Error whose only extra property holds a copyable object gets, from the corrected deep copy, its three reserved properties and that property bound to a new object outside the original heap that is a faithful copy of the original object, sharing none of its nested objects |
| ErrorClone.ErrorExampleCloned | src/utils/clone.ts:47-51 | on the documented example, the corrected deep copy returns four properties, `customProp` last, bound to a new object, not the original, that is `{ foo: 'bar' }` |

## Left out

- **`src/index.ts` wrappers and options.** The exported wrappers
  (`src/index.ts:10`, `src/index.ts:18`) and the `deep`, `maxDepth` and
  `circularReference` options are not modelled. The engine shown does not read
  the options, and the wrappers pass them where the engine expects its cache.
- **`src/errors.ts`.** It only builds a localised message string from the host
  language, so it is not part of this model.
- **`deepClonePromise`** (`src/utils/clone.ts:84-91`). It is asynchronous
  promise plumbing, so it is not part of this model.
- **`isBuffer` and `isDomNode`.** They test for host objects (`Buffer`,
  `HTMLDivElement`) that the abstract heap does not have. A Node Buffer is
  modelled as a Uint8Array.
- **Missing Map or Set constructors.** The `typeof Map !== 'undefined'` and
  `typeof Set !== 'undefined'` guards of `isMap` and `isSet` are assumed true:
  the host always has Map and Set.
- **Prototype chains.** `instanceof`, spoofed `Symbol.toStringTag` values,
  class instances with custom prototypes, non-enumerable and symbol-keyed
  properties, and the non-index properties of arrays are not modelled. Every
  record is a plain object, and its fields are its `Object.keys`. A host
  object of another kind never reports the tag name of a built-in kind
  (`NodeWf`), so the tag of a node is fixed by its kind.
- **Array holes.** They are not modelled: every element of an original array is
  a value.
- **Number contents.** A number is an opaque bit pattern, and SameValueZero is
  plain equality on it. Float32 and Float64 buffers are plain byte sequences.
- **Cache memory.** The cache is a finite map, so WeakMap semantics and garbage
  collection are not modelled.
- **Stack depth.** It is modelled by fuel. A run that exhausts its fuel stands
  for a stack overflow, and no particular engine limit is modelled.
- **SharedArrayBuffer** is not modelled.
- **Error allocation.** The Error object a copy helper returns is a value,
  not a heap node with an address. Its own properties are listed as `stack`,
  `message`, `name` and then the extras. That order is fixed by the assignment
  sequence, but the host decides where `stack` appears.
- Dkopy.DeepCloneFinishes: its side condition `Ranked` is a property of the
  whole heap `h`, which is meant to be the graph the input reaches. It covers
  only heaps in which no cycle anywhere passes through a Set or Map, so an
  unreachable self-holding Set elsewhere in `h` voids it although the call
  finishes. Inputs that do reach such a cycle do not finish
  (`Recording.SelfHolderExhausted`) or do not close their cycle
  (`Dkopy.SetArrayCycleDuplicates`), although the source claims
  circular-reference support in general.
- Dkopy.DeepCloneFaithful: covers only heaps in which no cycle passes through
  a Set or Map, for the same reason.
- TypePredicates.DeepCloneKeepsKind: covers only heaps in which no cycle
  passes through a Set or Map, for the same reason.
- ErrorClone.DeepCloneErrorFinishes: covers only heaps in which no cycle
  passes through a Set or Map, for the same reason.
- ErrorClone.CloneEachDone: covers only heaps in which no cycle passes through
  a Set or Map, for the same reason.
- ErrorClone.DeepCloneErrorFaithful: covers only heaps in which no cycle
  passes through a Set or Map, for the same reason.
- Coherence.CloneCoherent: covers only heaps in which no cycle passes through
  a Set or Map, for the same reason.
- Termination.CloneDone: covers only heaps in which no cycle passes through a
  Set or Map, for the same reason.
- ErrorClone.CloneFaithful: covers only heaps in which no cycle passes
  through a Set or Map, for the same reason.
- ErrorClone.CloneEachFaithful: covers only heaps in which no cycle passes
  through a Set or Map, for the same reason.
- ErrorClone.OneObjectProperty: covers only heaps in which no cycle passes
  through a Set or Map, for the same reason.
- Engine.CloneObject: a key `"__proto__"` is modelled as an ordinary own
  property. In the source, `result[key] = ...` with that key runs the
  inherited prototype setter instead, so the clone gets no own `__proto__`
  property and a changed prototype. Prototypes are not modelled.
- Coherence.ObjectCoherent: promises that the clone holds every original key,
  `"__proto__"` included; the source's clone lacks an own `__proto__`
  property, for the reason given for `Engine.CloneObject`.
- Builders.PutField: models assignment to a data property. The
  `__proto__` setter is not modelled, and neither is the rule that
  integer-like keys enumerate first, in ascending order. For the record
  clone that rule changes nothing, because `Object.keys` already lists
  those keys first.
- ErrorClone.ShallowCloneError: its clone starts with `stack`, `message` and
  `name`. When the original has an integer-like own property such as `"0"`,
  the host lists that property first in `Object.getOwnPropertyNames`.
- ErrorClone.DeepCloneError: the same order as `ErrorClone.ShallowCloneError`,
  with the same exception for integer-like keys.

## Findings

| source | as written | input that shows it | evidently intended | confidence | as-written member | corrected member |
|---|---|---|---|---|---|---|
| src/utils/clone.ts:59 | passes `{ deep: true }` as `dkopy`'s second argument, which is its identity cache, so `clonedMap.has` is not a function | an Error with `customProp = { foo: 'bar' }`, the documented example: a TypeError is thrown | each extra property is cloned by `dkopy(value)` with a fresh cache | not executed | ErrorClone.DeepCloneErrorAsWritten | ErrorClone.DeepCloneError |
| src/utils/index.ts:159-161 | accepts any function whose constructor is named `Function` | `const bar = () => {}` and `class Baz {}` are both accepted | only functions written with `function` are accepted, as the documentation promises | not executed | TypePredicates.NormalFunctionAcceptsArrowAndClass | TypePredicates.NormalFunctionIntendedAnswers |
| src/utils/index.ts:180-182 | accepts any function whose source text contains `=>` | `function outer() { return () => 1; }` is accepted | only arrow functions are accepted | not executed | TypePredicates.ArrowFunctionAcceptsOrdinary | TypePredicates.ArrowFunctionIntendedAnswers |
