# goconveyx comparators, modelled in Dafny

goconveyx adds order-insensitive slice assertions to the GoConvey test
framework. Each assertion returns "" when it passes and a human-readable
message when it fails. This project models two of them:

- `ShouldResembleSlice(actual, expected...)` treats two slices as multisets.
  After checking the argument count, the kinds and the lengths, it lets each
  actual element consume the first unused expected element that `deep.Equal`
  finds equal. It records the consumed positions in an `indexes []bool`
  array and counts the matches.
- `ShouldResembleByKey(key)(actual, expected...)` compares two slices of
  keyed elements: maps, structs, pointers to structs, or interfaces holding
  those. It runs in a fixed order:
  - it validates its arguments, using `canGetKey` on each element type;
  - its `collectIndexes` pass indexes expected, then actual, by the value
    each element holds under `key`, and `getKey` reads that value;
  - a comparison loop walks the expected keys in expected order, with
    fail-fast reporting.

The model is laid out as follows:

- `Reflect` stands in for the part of Go reflection the comparators use. A
  `Value` carries its kind. The nil-able kinds (map, pointer, interface) hold
  an `Option` that is `None` exactly for nil.
- `Messages` replaces every formatted message with a constructor. Each
  constructor carries the slice name (`Side`), the indices and the key
  values that the text shows.
- `deep.Equal` is a parameter `deepEqual`. It is true when the differ
  reports no difference, and it takes its arguments in the order the source
  uses. It receives the slice elements as they are, so an element of a
  `[]interface{}` arrives wrapped in its interface, while the source passes
  `Interface()`, the value inside. An abstract `deepEqual` can unwrap the
  interface itself. The structural equality used by the scenarios does not,
  so it would call a `[]interface{}{m}` and a `[]M{m}` different.
- The loops are methods:
  - `ShouldResembleSlice` keeps the `indexes` array;
  - `CollectIndexes` keeps the `keys` array and the `mapIndexes` map;
  - `CompareInOrder` is the comparison loop;
  - `CanGetKey` is the field scan.
- Each method is proved equal to a specification function: `SliceVerdict`,
  `Collect`, `FirstMismatch`, `KeyTypeCheck` and `ByKeyVerdict`. The
  properties are lemmas about those functions.
- The multiset results assume `deepEqual` is an equivalence. The predicate
  `KernelOf(deepEqual, canon)` states this: `deepEqual(x, y)` holds exactly
  when `canon(x) == canon(y)`.
- The `Scenarios` module evaluates the repository's own test inputs, using
  structural equality for `deepEqual`.

## Model

| member | source | states |
|---|---|---|
| Reflect.IsNilItem | goconvey.go:135-141 | an item counts as nil exactly when it is a nil interface, a nil map or a nil pointer; no other kind is ever nil |
| Reflect.Comparable | goconvey.go:156-157 | maps and slices are not comparable, every other non-struct kind is; a comparable struct holds no map or slice field, and a struct whose fields are all ints, strings, pointers or interfaces is comparable |
| Reflect.Dynamic | goconvey.go:150-151 | `Interface()` of a value is nil exactly for a nil interface; for an interface it is the value held, and for any other kind the value itself |
| Reflect.FieldByName | goconvey.go:245-246 | absent exactly when no field has the name; otherwise it is the value of the first field with exactly that name |
| Reflect.LowerChar | goconvey.go:214 | each ASCII capital becomes its own lower-case letter, at the same place in the alphabet; every other character is unchanged |
| Reflect.LowerPointwise | goconvey.go:214 | `strings.ToLower` keeps the length and lowers each character in place |
| KeyAccess.LastSimilar | goconvey.go:211-217 | the field scan is None exactly when no field name is case-insensitively equal to the key; otherwise it is such a name, and no later name matches |
| KeyAccess.KeyTypeCheck | goconvey.go:201-228 | a "key not found in struct" verdict names the key, and happens only for a struct (after one pointer strip) that lacks a field with exactly that name |
| KeyAccess.CanGetKey | goconvey.go:201-228 | the method with its field-scan loop returns the verdict `KeyTypeCheck` specifies |
| KeyAccess.KeyTypeCheckStripsOnePointer | goconvey.go:202-204 | one pointer level is transparent; a pointer to a pointer is unsupported |
| KeyAccess.KeyTypeCheckAccepts | goconvey.go:205-227 | an element type is accepted exactly when it is, after one pointer strip, a map, an interface, or a struct with a field named exactly `key`; it is reported as unsupported exactly when it is none of map, interface or struct |
| KeyAccess.KeyTypeCheckHint | goconvey.go:208-223 | a struct without the field is rejected; the hint is absent exactly when no field matches case-insensitively, and otherwise names a differently spelled matching field; the hint is the one the field scan leaves, the last match in declaration order |
| KeyAccess.GetKey | goconvey.go:230-250 | a nil item, an interface holding a nil pointer, a nested wrapper past one interface and one pointer, and a non-map non-struct give no key; a non-nil map gives its entry for the key exactly when it has one; a struct gives its field with exactly that name; any key found is read from a map or struct reached through at most one interface and then at most one pointer, so an interface or pointer holding an int, a string or a slice gives no key |
| KeyAccess.ItemKey | goconvey.go:143-151 | there is no key value exactly when `getKey` finds nothing or finds a nil interface; a found key that is not an interface is used as it is, and a key found inside a non-nil interface is the value that interface holds |
| KeyAccess.GetKeyThroughWrappers | goconvey.go:231-240 | one interface, one pointer, or an interface holding a pointer are all transparent to key reading |
| KeyAccess.GetKeyStructField | goconvey.go:245-246 | a struct yields a key exactly when it has a field named exactly `key` |
| ResembleSlice.FirstFree | goconvey.go:67-79 | the inner loop's choice: an unused, deep-equal expected index, with every earlier index used or not deep-equal |
| ResembleSlice.Match | goconvey.go:64-90 | a successful greedy matching assigns one expected index to each actual element |
| ResembleSlice.ShouldResembleSlice | goconvey.go:43-96 | the method with the `indexes` array and `count` returns `SliceVerdict`, and never returns "Slices are not equal" (its loop keeps `count == i`, which equals the number of consumed indices) |
| ResembleSlice.MatchSound | goconvey.go:62-90 | a successful matching pairs each actual element with a distinct, previously free, deep-equal expected index |
| ResembleSlice.SliceOkPairsElements | goconvey.go:62-95 | on "" the lengths agree and some permutation pairs every actual element with a deep-equal expected element, with no assumption on deepEqual |
| ResembleSlice.SliceChecksBeforeMatching | goconvey.go:46-60 | argument count, then kinds, then lengths decide first; only "" and "Not match" depend on deepEqual |
| ResembleSlice.MatchComplete | goconvey.go:64-90 | for an equivalence, the greedy matching succeeds exactly when the classes of the actual elements fit into the classes still free in expected |
| ResembleSlice.SliceOkIffSameClasses | goconvey.go:43-96 | for an equivalence, two slices pass exactly when they are equal as multisets of classes; the only other outcomes are "Length not equal" and "Not match" |
| ResembleSlice.SlicePermutationPasses | goconvey.go:43-96 | for an equivalence, every reordering of expected passes |
| ResembleByKey.ItemFault | goconvey.go:134-161 | the four per-item checks, in order: a nil item is "is nil"; otherwise a missing key is "could not get key"; otherwise a nil key is "key is nil"; otherwise a non-comparable key is "not comparable", carrying the key; none fires exactly when the item is not nil and has a non-nil, comparable key |
| ResembleByKey.Collect | goconvey.go:128-170 | on success, `keys[i]` is item i's key and the map sends each key back to its index, and every item passed its checks; a failure is a per-item error of that side |
| ResembleByKey.CollectFailureSticks | goconvey.go:133-169 | once a prefix of the list fails, the whole pass fails with that error |
| ResembleByKey.CollectFaultAt | goconvey.go:134-161 | after a clean prefix, an item failing a per-item check ends the pass with that check's error |
| ResembleByKey.CollectDuplicateAt | goconvey.go:162-166 | after a clean prefix, an item whose key is already indexed ends the pass with a duplicate naming the earlier index |
| ResembleByKey.CollectIndexes | goconvey.go:128-170 | the closure's loop, with the `keys` array and the `mapIndexes` map, returns what `Collect` specifies |
| ResembleByKey.FirstMismatch | goconvey.go:181-197 | "" exactly when every expected item has an actual item under its key that is deep-equal to it; otherwise it reports the first expected position that fails, as "not found" or "is different" |
| ResembleByKey.CompareInOrder | goconvey.go:180-197 | the comparison loop returns what `FirstMismatch` specifies |
| ResembleByKey.Validate | goconvey.go:105-126 | validation passes exactly when there is one expected value, both are slices, `canGetKey` accepts both element types, and the lengths are equal |
| ResembleByKey.ShouldResembleByKey | goconvey.go:101-199 | the method runs validation, the two indexing passes and the comparison loop, and returns `ByKeyVerdict` |
| ResembleByKey.CollectSucceedsIff | goconvey.go:133-169 | indexing succeeds exactly when every item passes the per-item checks and the keys are pairwise distinct |
| ResembleByKey.CollectFirstFailure | goconvey.go:133-166 | the reported error belongs to the first failing item, all earlier items index cleanly, and a duplicate names an earlier item with the same key |
| ResembleByKey.ValidationBeforeItems | goconvey.go:105-126 | a validation failure does not depend on any element or on deepEqual |
| ResembleByKey.ValidationOrder | goconvey.go:105-126 | the five checks in order: argument count, kinds, actual's element type, expected's element type, lengths; each is reported when all earlier ones pass |
| ResembleByKey.ExpectedBeforeActual | goconvey.go:171-178 | an error in expected decides the outcome, and an error reported in actual implies expected indexed cleanly |
| ResembleByKey.PairingOfIndexes | goconvey.go:181-197 | when every expected item is paired, the pairing is a permutation that preserves keys and deep-equality |
| ResembleByKey.ByKeyOkPairsByKey | goconvey.go:171-197 | on "" both slices index cleanly, and a key-preserving bijection pairs every expected item with a deep-equal actual item |
| ResembleByKey.ByKeyPairingPasses | goconvey.go:171-197 | conversely, validated and cleanly indexed slices in such a bijection pass |
| ResembleByKey.IndexablePermute | goconvey.go:133-168 | reordering a list neither creates nor removes indexing faults |
| ResembleByKey.IndexFollowsItems | goconvey.go:162-167 | the index of a reordered list holds the same keys, each naming the same item |
| ResembleByKey.FirstMismatchCongruent | goconvey.go:181-195 | the comparison depends only on which keys actual has and on the item under each key |
| ResembleByKey.ByKeyPermutationInvariant | goconvey.go:180-197 | once actual indexes cleanly, permuting actual leaves the result unchanged |
| ResembleByKey.ByKeyPermutationKeepsOk | goconvey.go:180-197 | for all inputs, permuting actual keeps a pass a pass and a failure a failure |
| Scenarios.SliceSameOrder | goconvey_test.go:44-47 | [1,2,3] against [1,2,3] passes |
| Scenarios.SliceReversedOrder | goconvey_test.go:48-51 | [3,2,1] against [1,2,3] passes |
| Scenarios.SliceDifferentQuantity | goconvey_test.go:52-55 | [1,2,2] against [1,1,2] is "Not match" |
| Scenarios.SliceDifferentLength | goconvey_test.go:40-43 | [1,1,2,2] against [2,1,1] is "Length not equal" |
| Scenarios.IndexedByIds | goconvey.go:128-170 | a list whose items carry distinct ids indexes cleanly, with each id at its position and no other key |
| Scenarios.ByKeyNotSlice | goconvey_test.go:67-70 | a non-slice expected value is "Both must be slice" |
| Scenarios.ByKeyUnsupportedElement | goconvey_test.go:71-74 | actual's int element type is rejected first as not struct, *struct, map or interface |
| Scenarios.StructHintReading | goconvey.go:208-223 | struct S{ID, Value, Time} has no field "id" and the hint is "ID" |
| Scenarios.ByKeyStructHint | goconvey_test.go:93-98 | the test's two-element slices of S keyed by "id" report "Key `id` not found in struct (but it has `ID`)" |
| Scenarios.RowsIndexCleanly | goconvey.go:128-170 | rows {"id": n} with distinct ids index cleanly |
| Scenarios.ExpectedFailureDecides | goconvey.go:171-174 | after validation, an indexing error in expected is the result |
| Scenarios.ActualFailureDecides | goconvey.go:175-178 | after expected indexes cleanly, an indexing error in actual is the result |
| Scenarios.ByKeyLengthNotEqual | goconvey_test.go:75-80 | two rows against one is "Length not equal" |
| Scenarios.ByKeyNilItem | goconvey_test.go:81-86 | a nil map at actual[1] is "actual[1] is nil" |
| Scenarios.ByKeyMissingKey | goconvey_test.go:87-92 | a map without "id" at expected[1] is "Could not get key from expected[1]" |
| Scenarios.ByKeyNilKey | goconvey_test.go:99-104 | a nil id at actual[1] is "actual[1].id is nil" |
| Scenarios.ByKeyNotComparable | goconvey_test.go:105-110 | a map-valued id at actual[1] is "not comparable", carrying the map |
| Scenarios.ByKeyDuplicate | goconvey_test.go:111-116 | ids [10, 10] in expected are "expected[0] and expected[1] has duplicated keys: `10`" |
| Scenarios.FirstMismatchByIds | goconvey.go:181-197 | for integer ids and any deepEqual, the comparison loop equals a reference reading that looks each expected id up in the list of actual ids |
| Scenarios.MapsPassValidation | goconvey.go:113-126 | two equally long slices of maps pass validation, whatever the key |
| Scenarios.ReachesComparison | goconvey.go:171-181 | once both indexing passes succeed, the comparison loop decides the result |
| Scenarios.ByKeyOnIds | goconvey.go:171-197 | for map items keyed by distinct ids, the whole check equals the reference reading |
| Scenarios.MissingIdReadings | goconvey_test.go:117-147 | the first expected id missing from actual, on the ids of four test inputs |
| Scenarios.ByKeyOnRows | goconvey.go:171-197 | for plain rows, the check reports the first expected id that actual lacks, or passes |
| Scenarios.DifferentReading | goconvey_test.go:135-141 | the reference reading finds the third row different because of its extra entry "x" |
| Scenarios.ByKeySecondNotFound | goconvey_test.go:117-122 | reports "Expected item with id=`20` but not found" |
| Scenarios.ByKeyFirstNotFound | goconvey_test.go:123-128 | reports "Expected item with id=`10` but not found" |
| Scenarios.ByKeyLastNotFound | goconvey_test.go:129-134 | reports "Expected item with id=`50` but not found" |
| Scenarios.ByKeyItemDifferent | goconvey_test.go:135-141 | reports "Item with id=`30` is different" |
| Scenarios.ByKeyDifferentOrder | goconvey_test.go:142-147 | [30, 10, 20] against [10, 20, 30] passes |

## Left out

- `ShouldDeepEqual` (goconvey.go:19-40) is not modelled. It is a thin wrapper over `convey.ShouldResemble` and `deep.Equal`, both foreign, plus a choice of message wording.
- The message text is not modelled: `fmt.Sprintf`, `spew.Sdump` and the "item"/"items" wording are foreign formatting. Message constructors carry the names, indices and keys instead.
- ResembleSlice.ShouldResembleSlice: "Not match" omits the count N, because `deep.Equal` recomputes it over the whole slices and its internals are not part of this model.
- `deep.Equal` itself is a parameter. The multiset lemmas assume it is an equivalence (`KernelOf`). The other lemmas assume nothing about it.
- Reflect.FieldByName: promoted fields of embedded structs are not found.
- Fields are not marked exported or unexported. `FieldByName` finds unexported fields too, so Go accepts `struct{ id int }` under key "id" and then panics in `itemKey.Interface()` (goconvey.go:150). The model has no such panic: it uses the field's value as the key and carries on.
- Keys are compared structurally. Go compares pointer keys by address, which this model cannot express.
- There is a single unbounded integer type. Integer widths and type identity between integer kinds are not modelled.
- Reflect.LowerChar: implements `strings.ToLower` on ASCII letters only, not on the full Unicode case mapping.
- Go panics when a map insert meets a key that is comparable by type but not by contents, such as an interface holding a slice. This model does not have that panic.
- `MapIndex` with a string key on a map whose key type is not string (a panic in Go) is not modelled. Map values always have string keys.
- Reflect.Comparable: decided from the kinds in the key value, not from its static Go type. An interface-typed struct field counts as comparable whatever it holds. Its contract decides a struct outright only when the struct has a direct map or slice field (not comparable) or only int, string, pointer and interface fields (comparable). Other structs, such as one holding a struct, are decided by its definition, which applies the same test to each field in turn, as `Type.Comparable()` does.
- ResembleByKey.ShouldResembleByKey: the closure that `ShouldResembleByKey(key)` returns is modelled as one method that takes `key` with the other arguments.
- Keys are stored as the values `Interface()` returns, not as `reflect.Value`s. The comparison loop reads them back unchanged.
- The two six-element "random order" slice tests (goconvey_test.go:56-63) are not evaluated as scenarios. SlicePermutationPasses and SliceOkIffSameClasses cover them in general.
- The by-key tests on slices of interfaces, structs and pointers to structs (goconvey_test.go:148-177) are not evaluated as scenarios. GetKeyThroughWrappers, ByKeyPairingPasses and ByKeyPermutationInvariant cover them in general.
- The test harness helpers (goconvey_test.go:180-198) are not modelled.
