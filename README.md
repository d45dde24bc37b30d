# copier — a Dafny model of the reflection-based struct copier

This project models `copier.go` of the Go library `copier`. The library
copies a source value into a destination of a possibly different type.

A `Copier` holds a registry:
- converters, keyed by an exact (origin type, target type) pair;
- rename rules ("diff pairs") from a source field name to destination field
  names, where a name may be a dotted path such as `Product.Id`;
- transformers, keyed by destination field name.

`To` copies the source set by `From` into the variable a pointer target
points to. The engine behind it (`copyValue` / `getTargetValue`) tries, in
order:
1. a registered converter;
2. Go's native conversion;
3. unwrapping a pointer on either side;
4. a struct walk, followed by a pass over dotted paths;
5. an element-by-element slice copy;
6. otherwise the zero value, with an error unless type errors are ignored.

Go's reflection is replaced by a closed model (module `Reflect`):
- types: primitive, pointer, struct (named fields, some anonymous) and slice;
- values of those types, including the nil pointer;
- `RValue`, which stands for a reflect `Value` that may be invalid.

A panic is a separate outcome (`Engine.Run.Panic`) that every caller passes
on. Writes the source makes in place through an addressable destination are
returned as that destination's new contents.

The modules:
- `Reflect`: types, values, field access by name and the `getReal*` helpers.
- `Fields`: `getStructAllFields` and `getFieldMap`.
- `Paths`: `getValueByFieldPath` and the write through a resolved path.
- `Registry`: `getConverter`, `getTargetFieldNames` and the configuration record.
- `Engine`: the copy engine as mutually recursive functions.
- `EngineLoops`: the engine's loops as methods, proved equal to those functions.
- `EngineFacts`: properties of the engine.
- `Copying`: the `Copier` class.

Where the code's behaviour differs from what the library's description or its
tests suggest, or is easy to miss, the model follows the code:
- `New` sets `ignoreTypeError` to true whatever its argument (copier.go:63).
- A converter's error is returned as is. `ignoreTypeError` only silences the
  final type mismatch (copier.go:137-139, 154-158).
- Transformers are applied in the struct walk but not in the dotted-path pass
  (copier.go:195-209).
- A nil pointer met on a dotted path yields the zero value of the pointer
  type, i.e. a nil pointer again (copier.go:297-299).
- Copying into a nil pointer destination, for example a nil pointer field,
  panics: `Set` on the invalid element Value (copier.go:132). The tests expect
  such fields to be allocated. That is behaviour of another version, which
  this code does not have.
- A nil pointer source field panics, because its element is the invalid
  Value whose `Type` is taken (copier.go:137).
- A typed nil function of one argument and one result passes every check in
  `RegisterTransformer` (copier.go:75-87) and panics when the struct walk calls
  it (copier.go:179). The model's `Callable` has such a function (`Func` with
  no body).
- In Go, `getStructAllFields` on a type that embeds a pointer to itself
  (`type T struct{ *T }`) recurses without end (copier.go:268-269). Such a type
  cannot be written in the model, see "## Left out".
- The tests call `New()` and `New(IgnoreTypeError, IgnoreZeroValue)`. Neither
  exists in copier.go, so the tests are used only for behaviour the code has.

## Model

| member | source | states |
|---|---|---|
| Copying.Copier.New | copier.go:59-65 | the registry starts empty and `ignoreTypeError` is true whatever the argument; the class invariant holds |
| Copying.Copier.RegisterDiffPairs | copier.go:67-72 | the new rules are the old ones overridden by the batch, a later pair for the same origin winning; old origins keep their place in the visiting order; the invariant is kept |
| Registry.PairsMapMeaning | copier.go:67-72 | a batch's rules have exactly the batch's origins as keys, each with the targets of its last pair |
| Registry.PairsMap | copier.go:67-72 | the last pair of a batch sets its origin's targets |
| Copying.OrderStep | copier.go:69-71 | setting one origin's targets keeps the visiting order listing every origin once |
| Copying.PairsStep | copier.go:69-71 | one loop step of the registration sets that pair's targets on top of those before it |
| Copying.Copier.RegisterTransformer | copier.go:74-90 | panics exactly when the transformer is nil, not a function, or not of one argument and one result, with the source's four messages in the source's order; otherwise only that destination field's transformer is set. A typed nil function of the right signature is accepted |
| Copying.Copier.RegisterConverter | copier.go:92-98 | panics exactly on a nil function; otherwise appends and changes nothing else |
| Copying.RegisteredConverterCallable | copier.go:92-98 | for a copier whose registry was built by its methods, a converter found for a pair always has a function, and a transformer found for a field takes one argument |
| Registry.FirstMatch | copier.go:100-107 | the index of the first converter for the exact pair, none before it matching |
| Registry.GetConverter | copier.go:100-107 | none exactly when no converter matches the pair; otherwise the earliest registered match |
| Registry.AppendKeepsPrecedence | copier.go:92-107 | appending a converter never changes the lookup of a pair that already had a match |
| Registry.FirstMatchAppend | copier.go:92-107 | the first-match index is unchanged by an append when a match exists |
| Copying.Copier.Snapshot | copier.go:38-44 | the configuration the engine reads holds the copier's registry and flag |
| Copying.Copier.From | copier.go:109-112 | sets the source and nothing else; the registry invariant is kept |
| Copying.Copier.To | copier.go:114-125 | a non-pointer target returns the error before any copy; a nil pointer source returns nil and leaves the target alone; an unset source panics; otherwise the outcome is copyValue's and the target variable holds what it wrote; any error is the target error, a converter's, or a mismatch that is not ignored; the registry invariant is kept |
| Engine.CopyValue | copier.go:127-134 | the destination keeps its type; a nil destination is not written; the error, if any, is a converter's or a mismatch that is not ignored |
| EngineFacts.CopyValueStores | copier.go:127-134 | on success the real destination holds getTargetValue's value: behind the pointer, or in place of a non-pointer; on an error only what getTargetValue wrote in place is kept; a nil source pointer panics, and after getTargetValue returns without error, so do a nil destination pointer and a value of another type |
| Engine.RealDest | copier.go:127-129 | the real destination is the pointee of a pointer, its type `getRealType` of the destination type, and strictly smaller through a pointer |
| Engine.Reattach | copier.go:127-133 | writing back through the pointer keeps the destination's type |
| Engine.TargetValue | copier.go:136-159 | writes into the destination keep its type, and an invalid destination stays invalid; only converter errors, or mismatches when not ignored, are reported |
| EngineFacts.ConverterFirst | copier.go:137-139 | a converter for the exact pair decides the result: a nil function panics, otherwise its value and its error are returned unchanged, whatever the native rules and ignoreTypeError |
| EngineFacts.NativeSecond | copier.go:140-141 | with no converter, a natively convertible pair is converted without error |
| EngineFacts.NativeStored | copier.go:127-141 | when the native conversion yields its target type, as Go's does, a convertible non-pointer value is stored into a non-pointer destination without error and without a panic |
| EngineFacts.IdentityField | copier.go:127-141 | with no transformer under the destination name, no converter from a type to itself, and conversion rules under which every type converts to itself unchanged, a non-pointer value copied onto a field of its own type arrives unchanged and without error |
| EngineFacts.PointersUnwrapped | copier.go:142-144 | two non-nil pointers: the pointees are copied and the write lands behind the destination pointer |
| EngineFacts.NilPointerPanics | copier.go:142-149 | a nil pointer on either side of the pointer case panics |
| EngineFacts.PointerToValue | copier.go:145-146 | a source pointer against a non-pointer destination: the pointee is copied into the same destination |
| EngineFacts.ValueToPointer | copier.go:148 | a non-pointer source against a destination pointer: the source is copied into the pointee and the write lands behind the pointer |
| EngineFacts.StructDelegation | copier.go:149-150 | with no converter, no native conversion and no pointer, two structs are handed to the struct walk |
| EngineFacts.SliceDelegation | copier.go:151-152 | with no converter, no native conversion and no pointer, two slices are handed to the slice copy, and the destination itself is not written |
| EngineFacts.FallbackZero | copier.go:150-158 | when nothing applies the result is the zero value of the destination type, with an error exactly when type errors are not ignored, naming both types |
| Engine.StructTargetValue | copier.go:161-193 | the result has the destination's type and is stored in place only when the destination existed; allowed errors only |
| EngineFacts.WalkThenPass | copier.go:161-193 | an error in the walk is returned with the destination as written and the dotted-path pass is not run; after a walk without error the pass runs on the walked destination and decides the outcome |
| Engine.Keep | copier.go:162-164 | the struct result is written into an existing destination, and not into an invalid one |
| Engine.WalkFields | copier.go:166-190 | the walk keeps the destination a struct of the same type and reports only allowed errors |
| EngineFacts.WalkFieldsStep | copier.go:166-190 | a field the source does not hold is passed over; otherwise the inner loop's error or panic ends the walk, and the destination it leaves is what the walk goes on with |
| Engine.WalkNames | copier.go:170-188 | each rename target's copy keeps the destination's type, and only allowed errors are reported |
| EngineFacts.AbsentNameSkipped | copier.go:171-172 | a destination name the field map does not hold is skipped, without error and without a write |
| EngineFacts.PresentNameStep | copier.go:171-186 | a name the field map holds: the field is written with its copy; an error or a panic ends the inner loop at once, with that field written; otherwise the loop goes on |
| EngineFacts.FanOutWrites | copier.go:169-188 | fan-out: an inner loop over distinct names that ends without error leaves each named field of the map holding its own copy of the source value, and every other field as it was |
| EngineFacts.IdentityWalk | copier.go:165-190 | identity copy: with no rename rules, no transformer under a destination name and no self-converter, a walk over source fields whose namesakes in the destination have the same non-pointer type ends without error; each destination field named like a source field then holds that source field's value, and every other field is as it was |
| EngineFacts.IdentityStruct | copier.go:161-193 | in the same setting, getStructTargetValue on an existing destination without embedded fields succeeds and stores the walked destination in place; each destination field named like a source field holds that field's value, every other field is unchanged, and the dotted-path pass does nothing |
| EngineFacts.FanOut | copier.go:170-188 | on a destination without embedded fields, with distinct names and a map keyed by name, an inner loop from the `j`-th name on that ends without error leaves each mapped name among `names[j..]` holding its own copy of the source value (the transformer applied first), and every other field as it was |
| Engine.CopyField | copier.go:173-183 | the field written keeps its type; allowed errors only |
| EngineFacts.TransformThenConvert | copier.go:174-182 | a transformer registered under the destination field's name is applied before the copy (convert(transform(v))); without one the value is copied directly; a non-function or a typed nil function panics |
| EngineFacts.WalkSkipsAbsent | copier.go:166-190 | a walk in which no rename target names a destination field leaves the destination unchanged, with no error |
| EngineFacts.NamesAllAbsent | copier.go:170-188 | an inner loop none of whose remaining names the field map holds leaves the destination as it was, without error |
| EngineLoops.GetStructTargetValue | copier.go:161-193 | the loops compute exactly the struct walk followed by the dotted-path pass, so WalkThenPass, WalkFieldsStep and the inner-loop lemmas describe what it writes |
| EngineLoops.WalkStruct | copier.go:166-190 | the outer loop computes exactly the walk over all source fields (WalkFieldsStep gives each step) |
| EngineLoops.CopyToTargets | copier.go:169-187 | the inner loop computes exactly the inner loop of the struct walk; on a destination without embedded fields, with distinct names, and no error, each present named field holds its own copy and every other field is unchanged |
| Engine.MultiPairs | copier.go:195-209 | the dotted-path pass keeps the destination a struct of the same type and reports only allowed errors |
| Engine.MultiTargets | copier.go:197-207 | each dotted pair's copy keeps the destination's type, and only allowed errors are reported |
| EngineFacts.UndottedSkipped | copier.go:198 | a target with no "." on either side of its pair is skipped, without a write |
| EngineFacts.DottedStep | copier.go:198-204 | a dotted pair copies the value at the origin's path onto the value at the target's path and writes the result back along the target's path; an error or a panic ends the pass; off nil pointers the target path then reads back the copied value |
| Engine.PairTargets | copier.go:196-197 | the targets the pass visits for an origin: its registered targets, none for an unregistered one |
| EngineFacts.NoDotsNoMultiLevel | copier.go:195-209 | when no origin or target contains ".", the dotted-path pass changes nothing and returns no error |
| EngineFacts.TargetsAllUndotted | copier.go:197-207 | an inner loop of the pass over targets of which none, nor the origin, has a "." leaves the destination as it was, without error |
| EngineLoops.SetMultiLevelFields | copier.go:195-209 | the outer loop computes exactly the dotted-path pass, one origin after another, stopping at the first error |
| EngineLoops.CopyDottedTargets | copier.go:197-207 | the inner loop computes exactly the dotted copies of one origin (DottedStep and UndottedSkipped give each step) |
| Engine.SliceTargetValue | copier.go:211-227 | the result is a slice of the destination's element type; allowed errors only |
| Engine.SliceElement | copier.go:220-224 | a non-pointer element type takes the value as it is; a pointer element type boxes a non-pointer value in a new pointer of that element type, and keeps a pointer |
| EngineFacts.SliceCopyShape | copier.go:211-227 | element i of the result comes from source element i alone, boxed when the element type is a pointer; the length is the source's exactly when there is no error; otherwise the result is the prefix before the first failing element, returned with that element's error |
| EngineFacts.SliceLoopShape | copier.go:214-225 | the slice loop keeps every element built so far derived from its source element |
| EngineLoops.GetSliceTargetValue | copier.go:211-227 | the append loop computes exactly the slice copy |
| Registry.TargetFieldNames | copier.go:229-234 | the registered targets when there is at least one, otherwise exactly the name itself |
| Reflect.RealValue | copier.go:236-241 | a pointer gives its pointee, a nil pointer the invalid Value, anything else itself |
| Reflect.RealType | copier.go:243-248 | a pointer type gives its element type, any other type itself; never a larger type |
| Reflect.ValuePtr | copier.go:250-260 | a pointer stays as it is; any other value is boxed in a new pointer of its type |
| Fields.GetStructAllFields | copier.go:262-276 | the loop computes the flattened field list, which holds no anonymous field |
| Fields.AllFields | copier.go:262-276 | the flattened list holds no anonymous field, and a type that is neither a struct nor a pointer to one has no fields |
| Fields.AllFieldsDerefOnce | copier.go:262-266 | one pointer level is dereferenced, not two, and a non-struct type has no fields |
| Fields.AllFieldsPlain | copier.go:262-276 | a struct without anonymous fields flattens to its declared fields, in order |
| Fields.FlattenPlain | copier.go:267-273 | each prefix of such a struct flattens to the same prefix of its fields |
| Fields.FlattenSplit | copier.go:267-273 | declaration order is kept: the fields before and after one field flatten on their own, with that field's piece in place between them |
| Fields.FlattenShift | copier.go:267-273 | the first fields of a longer declaration flatten as they would alone |
| Fields.FlattenAppend | copier.go:267-273 | the fields after a position flatten as the struct made of them alone |
| Fields.FlattenTail | copier.go:267-273 | flattening a declaration in two parts concatenates the two results |
| Fields.GetFieldMap | copier.go:278-284 | the loop's map has exactly the listed names as keys, and each maps to the last field of that name |
| Fields.FieldMap | copier.go:278-284 | every name of the list is a key, and every key maps to a field of that name |
| Fields.FieldMapKeys | copier.go:278-284 | the keys are exactly the names in the list, each mapped to a field of that name |
| Fields.FieldMapLastWins | copier.go:280-282 | each name maps to the last field carrying it |
| Fields.FieldMapSize | copier.go:278-284 | the map has no more entries than the list has fields |
| Paths.Split | copier.go:290 | a path splits into at least one piece, none containing a "." |
| Paths.IndexOfDot | copier.go:289-290 | the position of the first "." or the length, with no "." before it |
| Paths.JoinSplit | copier.go:290-292 | joining a split path with "." gives back the path |
| Paths.Join | copier.go:292 | one piece joins to itself; two or more are separated by a "." right after the first |
| Paths.SplitJoin | copier.go:290-292 | splitting a join of dot-free pieces gives back the pieces |
| Paths.NoDotIndex | copier.go:289 | a path without "." has no dot index before its end |
| Paths.DotIndex | copier.go:289 | a path with a "." has its first dot before its end |
| Paths.IndexOfDotIs | copier.go:289-290 | the first dot is at the first position holding a "." |
| Paths.FirstDot | copier.go:289-291 | in a dot-free piece followed by "." and the rest, the first dot is the one after the piece |
| Paths.ValueByPathIsFold | copier.go:288-306 | resolving a path is the fold of one field access per "."-separated segment |
| Paths.ValueByPath | copier.go:288-306 | resolving any path against the invalid Value panics, and a path without "." is a single field access |
| Paths.Step | copier.go:295-304 | one field access: on a struct or through a non-nil pointer to one, FieldByName; a nil pointer yields itself (the zero value of its type); an invalid, primitive or slice value panics |
| Paths.InvalidStaysFatal | copier.go:295-304 | once a path reaches the invalid Value, any further segment panics |
| Paths.StepSmaller | copier.go:295-304 | one field access never reaches a larger type, and from a struct or pointer a strictly smaller one |
| Paths.PathFoldSmaller | copier.go:288-306 | a non-empty path resolved against a struct lands on a value of a strictly smaller type |
| Paths.WriteByPath | copier.go:199-202 | writing through a resolved path keeps the destination's type, and a write beyond a nil pointer changes nothing |
| Paths.WriteThenRead | copier.go:199-202 | off nil pointers, the path reads back the value just written through it |
| Reflect.Zero | copier.go:158 | the zero value has the requested type |
| Reflect.FieldByName | copier.go:167-173 | a field found by name has a strictly smaller type than its struct |
| Reflect.SetFieldByName | copier.go:178-183 | writing a field keeps the struct's type, and the field then reads back the value written |
| Reflect.SetFieldToItself | copier.go:178-183 | writing a field's own value back changes nothing |
| Reflect.SetOtherField | copier.go:173-183 | in a struct without embedded fields, writing one field leaves every field of another name as it was, and adds no embedded field |
| Reflect.PlainNotPromoted | copier.go:173 | in a struct without embedded fields no name is found by promotion |

## Left out

- Go's `reflect` package itself is not modelled. `Set`, `Elem`, `Call`, `Append` and `FieldByName` are given the behaviour this model's types allow.
- Addressability is not modelled. `Set` on a non-addressable Value is not treated as a panic, and `getValuePtr` always boxes a non-pointer in a new pointer (copier.go:254-256 takes the address of an addressable value instead). Aliasing through pointers is not modelled either: a value is a tree, so two pointers never share a pointee.
- `Set` assignability is modelled as type identity. Storing a value of another type panics.
- `FieldByName` looks at direct fields first, then searches the anonymous fields depth-first, in declaration order. Go's breadth-first ambiguity rule is not modelled, and neither is its panic through a nil embedded pointer.
- Converters and transformers are opaque function values. The built-in converters `TimeStringConverter` and `StringTimeConverter` (copier.go:12-35) format and parse the date-time syntax of RFC 3339 section 5.6 through Go's `time` package. They are not part of this model.
- CopyField: in Go, a transformer whose parameter type does not accept the source value makes `Call` panic. Here a transformer accepts every value.
- Go's native `ConvertibleTo`/`Convert` rules are the parameter `Registry.Native` and are not defined.
- Go's rules are known to convert every type to itself unchanged and to yield the target type. The model states these two laws as the predicates `Registry.Reflexive` and `Registry.ConvertsToTarget`. The lemmas that rely on them take them as hypotheses.
- IdentityWalk: stated for a destination without embedded fields, and only for fields whose source and destination types agree and are not pointers. A pointer field is copied through its pointee, so its value after the copy is not the source pointer itself.
- IdentityStruct: carries the same restrictions as IdentityWalk, and also assumes that the destination already exists.
- Go does not specify the order in which `setMultiLevelFields` visits its map. The model visits origins in order of first registration (`pairOrder`).
- Copying.Copier.To: with a nil pointer source, the source calls `Set` on the non-addressable target. The model only returns nil and leaves the target unchanged.
- Copying.Copier.To: what a copy wrote in place before it panicked is dropped, and the target keeps its old value.
- Copying.Copier.To: a source set to the nil interface panics, which the model states without the panic's message.
- Panic messages follow Go's wording only approximately. The model distinguishes a panic from a return, not one panic message from another.
- `IgnoreZeroValue` and the other options the tests use are not part of this model, because copier.go does not have them.
- Self-referential Go types, such as `type Node struct{ Next *Node }`, cannot be written: `Reflect.Type` is a finite tree. The termination of the flattening and of the copy engine rests on this. Go's endless recursion on a type embedding a pointer to itself is therefore not modelled.
- Unexported fields are not modelled. Go's `Set` panics on a field reached through an unexported name (copier.go:173, 132). The model copies such a field like any other.
- FanOutWrites, FanOut: stated for a destination without embedded fields and with distinct rename targets only. With embedded fields, a write through a promoted name can reach a field that another name also reaches.
- DottedStep: the read-back is stated only off nil pointers. The lemma does not state that fields off the target's path stay unchanged.
- SetMultiLevelFields: the pass is described one pair at a time (DottedStep, UndottedSkipped). What the whole pass leaves is not stated, because a later pair may overwrite what an earlier one wrote.
