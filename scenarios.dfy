/** Concrete inputs taken from the repository's own test cases, with the
    verdict the model gives for each. Values are compared with structural
    equality, which is what deep.Equal reports for integers and maps of
    integers. */
module Scenarios {
  import opened Wrappers
  import opened Reflect
  import opened Messages
  import opened KeyAccess
  import opened ResembleSlice
  import opened ResembleByKey

  function Ints(xs: seq<int>): (r: seq<Value>)
    ensures |r| == |xs| && forall i :: 0 <= i < |xs| ==> r[i] == VInt(xs[i])
  {
    if xs == [] then [] else [VInt(xs[0])] + Ints(xs[1..])
  }

  const Same: (Value, Value) -> bool := (x: Value, y: Value) => x == y

  lemma SliceSameOrder()
    ensures SliceVerdict(VSlice(TInt, Ints([1, 2, 3])), [VSlice(TInt, Ints([1, 2, 3]))], Same) == Ok
  {
  }

  lemma SliceReversedOrder()
    ensures SliceVerdict(VSlice(TInt, Ints([3, 2, 1])), [VSlice(TInt, Ints([1, 2, 3]))], Same) == Ok
  {
  }

  lemma SliceDifferentQuantity()
    ensures SliceVerdict(VSlice(TInt, Ints([1, 2, 2])), [VSlice(TInt, Ints([1, 1, 2]))], Same) == NotMatch
  {
  }

  lemma SliceDifferentLength()
    ensures SliceVerdict(VSlice(TInt, Ints([1, 1, 2, 2])), [VSlice(TInt, Ints([2, 1, 1]))], Same) == LengthNotEqual
  {
  }

  /** A map[string]interface{} element {"id": id}. */
  function Row(id: int): Value {
    VMap(Some(map["id" := VIface(Some(VInt(id)))]))
  }

  function Rows(ids: seq<int>): (r: seq<Value>)
    ensures |r| == |ids| && forall i :: 0 <= i < |ids| ==> r[i] == Row(ids[i])
  {
    if ids == [] then [] else [Row(ids[0])] + Rows(ids[1..])
  }

  /** Item i of list is usable under "id" and its key is ids[i]. */
  predicate KeyedBy(list: seq<Value>, ids: seq<int>) {
    |list| == |ids| && forall i :: 0 <= i < |list| ==> Usable(list[i], "id") && ItemKey(list[i], "id") == Some(VInt(ids[i]))
  }

  lemma RowsKeyedBy(ids: seq<int>)
    ensures KeyedBy(Rows(ids), ids)
  {
    forall i | 0 <= i < |ids| ensures Usable(Rows(ids)[i], "id") && ItemKey(Rows(ids)[i], "id") == Some(VInt(ids[i])) {
      assert Rows(ids)[i] == Row(ids[i]);
    }
  }

  /** Indexing a list with distinct ids succeeds, with each id at its
      position and no other key in the index. */
  lemma IndexedByIds(side: Side, list: seq<Value>, ids: seq<int>)
    requires KeyedBy(list, ids)
    requires forall i, j :: 0 <= i < j < |ids| ==> ids[i] != ids[j]
    ensures Collect(side, list, "id").Success?
    ensures var ki := Collect(side, list, "id").value;
      && |ki.keys| == |ids|
      && (forall m :: 0 <= m < |ids| ==> ki.keys[m] == VInt(ids[m]) && VInt(ids[m]) in ki.index && ki.index[VInt(ids[m])] == m)
      && (forall k :: k in ki.index ==> k.VInt? && k.n in ids)
  {
    CollectSucceedsIff(side, list, "id");
    var ki := Collect(side, list, "id").value;
    forall k | k in ki.index ensures k.VInt? && k.n in ids {
      var m := ki.index[k];
      assert ki.keys[m] == k == VInt(ids[m]);
    }
  }

  lemma ByKeyNotSlice()
    ensures ByKeyVerdict("id", VSlice(TInt, Ints([1, 2])), [VInt(2)], Same) == NotSlice
  {
  }

  lemma ByKeyUnsupportedElement()
    ensures ByKeyVerdict("id", VSlice(TInt, Ints([1, 2])), [VSlice(TStr, [VStr("a")])], Same)
            == BadElemType(Unsupported)
  {
  }

  /** canGetKey on struct S{ID, Value, Time} with key "id": no exact field,
      and "ID" is the look-alike it mentions. */
  lemma StructHintReading()
    ensures KeyTypeCheck(TStruct(["ID", "Value", "Time"]), "id") == Some(FieldMissing("id", Some("ID")))
  {
    var names := ["ID", "Value", "Time"];
    assert Lower("id") == "id" == Lower("ID");
    assert Lower("Value")[0] == 'v' && Lower("Time")[0] == 't';
    assert LastSimilar(names[..1], "id") == Some("ID");
    assert names[..2][..1] == names[..1] && names[..3][..2] == names[..2] && names[..3] == names;
  }

  /** The struct type S{ID, Value, Time} of the tests. */
  const StructS: Type := TStruct(["ID", "Value", "Time"])

  /** A value S{ID: id, Value: value}; its zero Time is an empty struct. */
  function ItemS(id: int, value: string): Value {
    VStruct([("ID", VInt(id)), ("Value", VStr(value)), ("Time", VStruct([]))])
  }

  lemma ByKeyStructHint()
    ensures ByKeyVerdict("id", VSlice(StructS, [ItemS(1, ""), ItemS(2, "")]),
                         [VSlice(StructS, [ItemS(1, ""), ItemS(0, "foo")])], Same)
            == BadElemType(FieldMissing("id", Some("ID")))
  {
    StructHintReading();
  }

  /** Plain rows with distinct ids index cleanly. */
  lemma RowsIndexCleanly(side: Side, ids: seq<int>)
    requires Distinct(ids)
    ensures Collect(side, Rows(ids), "id").Success?
  {
    RowsKeyedBy(ids);
    IndexedByIds(side, Rows(ids), ids);
  }

  /** After the checks on the slices, a failure to index expected decides
      the outcome. */
  lemma ExpectedFailureDecides(key: string, a: seq<Value>, e: seq<Value>, deepEqual: (Value, Value) -> bool)
    requires Validate(key, VSlice(TMap, a), [VSlice(TMap, e)]) == None
    requires Collect(Expected, e, key).Failure?
    ensures ByKeyVerdict(key, VSlice(TMap, a), [VSlice(TMap, e)], deepEqual) == Collect(Expected, e, key).error
  {
  }

  /** Once expected indexes cleanly, a failure to index actual decides the
      outcome. */
  lemma ActualFailureDecides(key: string, a: seq<Value>, e: seq<Value>, deepEqual: (Value, Value) -> bool)
    requires Validate(key, VSlice(TMap, a), [VSlice(TMap, e)]) == None
    requires Collect(Expected, e, key).Success? && Collect(Actual, a, key).Failure?
    ensures ByKeyVerdict(key, VSlice(TMap, a), [VSlice(TMap, e)], deepEqual) == Collect(Actual, a, key).error
  {
  }

  lemma ByKeyNilItem()
    ensures ByKeyVerdict("id", VSlice(TMap, [Row(1), VMap(None)]), [VSlice(TMap, Rows([1, 2]))], Same)
            == NilItem(Actual, 1)
  {
    var a := [Row(1), VMap(None)];
    MapsPassValidation("id", a, Rows([1, 2]));
    RowsIndexCleanly(Expected, [1, 2]);
    assert a[..1] == Rows([1]);
    RowsIndexCleanly(Actual, [1]);
    CollectFaultAt(Actual, a, "id", 1);
    ActualFailureDecides("id", a, Rows([1, 2]), Same);
  }

  lemma ByKeyMissingKey()
    ensures ByKeyVerdict("id", VSlice(TMap, Rows([1, 2])),
                         [VSlice(TMap, [Row(1), VMap(Some(map["no_key" := VIface(Some(VInt(1)))]))])], Same)
            == NoKey(Expected, 1)
  {
    var e := [Row(1), VMap(Some(map["no_key" := VIface(Some(VInt(1)))]))];
    MapsPassValidation("id", Rows([1, 2]), e);
    assert e[..1] == Rows([1]);
    RowsIndexCleanly(Expected, [1]);
    CollectFaultAt(Expected, e, "id", 1);
    ExpectedFailureDecides("id", Rows([1, 2]), e, Same);
  }

  lemma ByKeyNilKey()
    ensures ByKeyVerdict("id", VSlice(TMap, [Row(1), VMap(Some(map["id" := VIface(None)]))]),
                         [VSlice(TMap, Rows([1, 2]))], Same)
            == NilKey(Actual, 1, "id")
  {
    var a := [Row(1), VMap(Some(map["id" := VIface(None)]))];
    MapsPassValidation("id", a, Rows([1, 2]));
    RowsIndexCleanly(Expected, [1, 2]);
    assert a[..1] == Rows([1]);
    RowsIndexCleanly(Actual, [1]);
    CollectFaultAt(Actual, a, "id", 1);
    ActualFailureDecides("id", a, Rows([1, 2]), Same);
  }

  lemma ByKeyLengthNotEqual()
    ensures ByKeyVerdict("id", VSlice(TMap, Rows([1, 2])), [VSlice(TMap, Rows([1]))], Same) == LengthNotEqual
  {
  }

  lemma ByKeyNotComparable()
    ensures ByKeyVerdict("id", VSlice(TMap, [Row(1), VMap(Some(map["id" := VIface(Some(VMap(Some(map[]))))]))]),
                         [VSlice(TMap, Rows([1, 2]))], Same)
            == NotComparable(Actual, 1, "id", VMap(Some(map[])))
  {
    var a := [Row(1), VMap(Some(map["id" := VIface(Some(VMap(Some(map[]))))]))];
    MapsPassValidation("id", a, Rows([1, 2]));
    RowsIndexCleanly(Expected, [1, 2]);
    assert a[..1] == Rows([1]);
    RowsIndexCleanly(Actual, [1]);
    CollectFaultAt(Actual, a, "id", 1);
    ActualFailureDecides("id", a, Rows([1, 2]), Same);
  }

  lemma ByKeyDuplicate()
    ensures ByKeyVerdict("id", VSlice(TMap, Rows([10, 20])), [VSlice(TMap, Rows([10, 10]))], Same)
            == Duplicate(Expected, 0, 1, VInt(10))
  {
    var e := Rows([10, 10]);
    MapsPassValidation("id", Rows([10, 20]), e);
    assert e[..1] == Rows([10]);
    RowsKeyedBy([10]);
    RowsKeyedBy([10, 10]);
    IndexedByIds(Expected, Rows([10]), [10]);
    CollectDuplicateAt(Expected, e, "id", 1);
    ExpectedFailureDecides("id", Rows([10, 20]), e, Same);
  }

  /** Position of x in xs. */
  function IndexOf(xs: seq<int>, x: int): (r: nat)
    requires x in xs
    ensures r < |xs| && xs[r] == x
  {
    if xs[0] == x then 0 else 1 + IndexOf(xs[1..], x)
  }

  /** A reference reading of the comparison loop for lists whose items carry
      the distinct ids aIds and eIds, compared structurally. */
  function ExpectByIds(a: seq<Value>, aIds: seq<int>, e: seq<Value>, eIds: seq<int>,
                       deepEqual: (Value, Value) -> bool, i: nat): Message
    requires |a| == |aIds| && |e| == |eIds| && i <= |e|
    decreases |e| - i
  {
    if i == |e| then Ok
    else if eIds[i] !in aIds then NotFound("id", VInt(eIds[i]))
    else if !deepEqual(a[IndexOf(aIds, eIds[i])], e[i]) then Different("id", VInt(eIds[i]))
    else ExpectByIds(a, aIds, e, eIds, deepEqual, i + 1)
  }

  predicate Distinct(ids: seq<int>) {
    forall i, j :: 0 <= i < j < |ids| ==> ids[i] != ids[j]
  }

  /** index sends each id of ids, as a key, to its position, and holds no
      other key. */
  predicate IdIndex(index: map<Value, nat>, ids: seq<int>) {
    && (forall m :: 0 <= m < |ids| ==> VInt(ids[m]) in index && index[VInt(ids[m])] == m)
    && (forall k :: k in index ==> k.VInt? && k.n in ids)
  }

  lemma IdLookup(index: map<Value, nat>, ids: seq<int>, x: int)
    requires IdIndex(index, ids)
    ensures VInt(x) in index <==> x in ids
    ensures x in ids ==> index[VInt(x)] == IndexOf(ids, x)
  {
    if x in ids {
      var m := IndexOf(ids, x);
      assert VInt(ids[m]) in index && index[VInt(ids[m])] == m;
    }
  }

  /** One position of the comparison loop agrees with the reference
      reading, given that the rest does. */
  lemma ByIdsStep(a: seq<Value>, aIds: seq<int>, e: seq<Value>, eIds: seq<int>,
                  deepEqual: (Value, Value) -> bool, eKeys: seq<Value>, index: map<Value, nat>, i: nat)
    requires |a| == |aIds| && |e| == |eIds| && |eKeys| == |e| && i < |e| && IndexWithin(index, |a|)
    requires eKeys[i] == VInt(eIds[i])
    requires eKeys[i] in index <==> eIds[i] in aIds
    requires eIds[i] in aIds ==> index[eKeys[i]] == IndexOf(aIds, eIds[i])
    requires FirstMismatch("id", eKeys, index, a, e, deepEqual, i + 1) == ExpectByIds(a, aIds, e, eIds, deepEqual, i + 1)
    ensures FirstMismatch("id", eKeys, index, a, e, deepEqual, i) == ExpectByIds(a, aIds, e, eIds, deepEqual, i)
  {
  }

  /** Position m of expected finds, under its key, the actual item that
      carries its id. */
  predicate LooksUp(aIds: seq<int>, eIds: seq<int>, eKeys: seq<Value>, index: map<Value, nat>, m: int)
    requires 0 <= m < |eIds| && |eKeys| == |eIds|
  {
    && eKeys[m] == VInt(eIds[m])
    && (eKeys[m] in index <==> eIds[m] in aIds)
    && (eIds[m] in aIds ==> index[eKeys[m]] == IndexOf(aIds, eIds[m]))
  }

  lemma FirstMismatchByIds(a: seq<Value>, aIds: seq<int>, e: seq<Value>, eIds: seq<int>,
                           deepEqual: (Value, Value) -> bool,
                           eKeys: seq<Value>, index: map<Value, nat>, i: nat)
    requires |a| == |aIds| && |e| == |eIds| && |eKeys| == |e| && i <= |e| && IndexWithin(index, |a|)
    requires forall m :: 0 <= m < |e| ==> LooksUp(aIds, eIds, eKeys, index, m)
    ensures FirstMismatch("id", eKeys, index, a, e, deepEqual, i) == ExpectByIds(a, aIds, e, eIds, deepEqual, i)
  {
    var j := |e|;
    while j > i
      invariant i <= j <= |e|
      invariant FirstMismatch("id", eKeys, index, a, e, deepEqual, j) == ExpectByIds(a, aIds, e, eIds, deepEqual, j)
    {
      j := j - 1;
      assert LooksUp(aIds, eIds, eKeys, index, j);
      ByIdsStep(a, aIds, e, eIds, deepEqual, eKeys, index, j);
    }
  }

  /** Two equally long slices of maps pass every check made before the
      items are inspected. */
  lemma MapsPassValidation(key: string, a: seq<Value>, e: seq<Value>)
    requires |a| == |e|
    ensures Validate(key, VSlice(TMap, a), [VSlice(TMap, e)]) == None
  {
  }

  /** Once both sides index cleanly, the comparison loop decides. */
  lemma ReachesComparison(key: string, ta: Type, a: seq<Value>, te: Type, e: seq<Value>,
                          deepEqual: (Value, Value) -> bool)
    requires Validate(key, VSlice(ta, a), [VSlice(te, e)]) == None
    requires Collect(Expected, e, key).Success? && Collect(Actual, a, key).Success?
    ensures IndexWithin(Collect(Actual, a, key).value.index, |a|)
    ensures ByKeyVerdict(key, VSlice(ta, a), [VSlice(te, e)], deepEqual)
            == FirstMismatch(key, Collect(Expected, e, key).value.keys, Collect(Actual, a, key).value.index, a, e, deepEqual, 0)
  {
  }

  /** For map elements keyed by distinct ids, ShouldResembleByKey("id") with
      structural comparison gives the reference reading. */
  lemma ByKeyOnIds(a: seq<Value>, aIds: seq<int>, e: seq<Value>, eIds: seq<int>)
    requires KeyedBy(a, aIds) && KeyedBy(e, eIds) && Distinct(aIds) && Distinct(eIds) && |a| == |e|
    ensures ByKeyVerdict("id", VSlice(TMap, a), [VSlice(TMap, e)], Same) == ExpectByIds(a, aIds, e, eIds, Same, 0)
  {
    IndexedByIds(Expected, e, eIds);
    IndexedByIds(Actual, a, aIds);
    MapsPassValidation("id", a, e);
    ReachesComparison("id", TMap, a, TMap, e, Same);
    var ei, ai := Collect(Expected, e, "id").value, Collect(Actual, a, "id").value;
    forall m | 0 <= m < |e| ensures LooksUp(aIds, eIds, ei.keys, ai.index, m) {
      IdLookup(ai.index, aIds, eIds[m]);
    }
    FirstMismatchByIds(a, aIds, e, eIds, Same, ei.keys, ai.index, 0);
  }

  /** For plain rows the reference reading only looks at the ids: the first
      expected id that actual lacks, or Ok. */
  function FirstMissingId(aIds: seq<int>, eIds: seq<int>, i: nat): Message
    requires i <= |eIds|
    decreases |eIds| - i
  {
    if i == |eIds| then Ok
    else if eIds[i] !in aIds then NotFound("id", VInt(eIds[i]))
    else FirstMissingId(aIds, eIds, i + 1)
  }

  lemma {:induction false} RowsReading(aIds: seq<int>, eIds: seq<int>, i: nat)
    requires i <= |eIds|
    ensures ExpectByIds(Rows(aIds), aIds, Rows(eIds), eIds, Same, i) == FirstMissingId(aIds, eIds, i)
    decreases |eIds| - i
  {
    if i < |eIds| && eIds[i] in aIds {
      assert Rows(aIds)[IndexOf(aIds, eIds[i])] == Row(eIds[i]) == Rows(eIds)[i];
      RowsReading(aIds, eIds, i + 1);
    }
  }

  /** FirstMissingId on the ids of the test inputs below. */
  lemma MissingIdReadings()
    ensures FirstMissingId([30, 50, 20, 40, 60], [10, 20, 30, 40, 50], 0) == NotFound("id", VInt(10))
    ensures FirstMissingId([30, 60, 20, 40, 10], [10, 20, 30, 40, 50], 0) == NotFound("id", VInt(50))
    ensures FirstMissingId([30, 10, 20], [10, 20, 30], 0) == Ok
    ensures FirstMissingId([10, 30], [10, 20], 0) == NotFound("id", VInt(20))
  {
  }

  /** ByKeyOnIds for lists of plain rows. */
  lemma ByKeyOnRows(aIds: seq<int>, eIds: seq<int>)
    requires Distinct(aIds) && Distinct(eIds) && |aIds| == |eIds|
    ensures ByKeyVerdict("id", VSlice(TMap, Rows(aIds)), [VSlice(TMap, Rows(eIds))], Same) == FirstMissingId(aIds, eIds, 0)
  {
    RowsKeyedBy(aIds);
    RowsKeyedBy(eIds);
    ByKeyOnIds(Rows(aIds), aIds, Rows(eIds), eIds);
    RowsReading(aIds, eIds, 0);
  }

  /** The element {"id": 30, "x": nil}. */
  const RowWithExtra: Value := VMap(Some(map["id" := VIface(Some(VInt(30))), "x" := VIface(None)]))

  /** The reference reading of the "item is different" input: the extra
      entry "x" makes the third row differ. */
  lemma DifferentReading()
    ensures ExpectByIds(Rows([10, 20]) + [RowWithExtra], [10, 20, 30], Rows([10, 20, 30]), [10, 20, 30], Same, 0)
            == Different("id", VInt(30))
  {
    var a, e := Rows([10, 20]) + [RowWithExtra], Rows([10, 20, 30]);
    assert a[0] == e[0] && a[1] == e[1];
    assert "x" in a[2].entries.value && "x" !in e[2].entries.value;
  }

  lemma ByKeySecondNotFound()
    ensures ByKeyVerdict("id", VSlice(TMap, Rows([10, 30])), [VSlice(TMap, Rows([10, 20]))], Same)
            == NotFound("id", VInt(20))
  {
    ByKeyOnRows([10, 30], [10, 20]);
    MissingIdReadings();
  }

  lemma ByKeyFirstNotFound()
    ensures ByKeyVerdict("id", VSlice(TMap, Rows([30, 50, 20, 40, 60])), [VSlice(TMap, Rows([10, 20, 30, 40, 50]))], Same)
            == NotFound("id", VInt(10))
  {
    ByKeyOnRows([30, 50, 20, 40, 60], [10, 20, 30, 40, 50]);
    MissingIdReadings();
  }

  lemma ByKeyLastNotFound()
    ensures ByKeyVerdict("id", VSlice(TMap, Rows([30, 60, 20, 40, 10])), [VSlice(TMap, Rows([10, 20, 30, 40, 50]))], Same)
            == NotFound("id", VInt(50))
  {
    ByKeyOnRows([30, 60, 20, 40, 10], [10, 20, 30, 40, 50]);
    MissingIdReadings();
  }

  lemma ByKeyItemDifferent()
    ensures ByKeyVerdict("id", VSlice(TMap, Rows([10, 20]) + [RowWithExtra]), [VSlice(TMap, Rows([10, 20, 30]))], Same)
            == Different("id", VInt(30))
  {
    RowsKeyedBy([10, 20]);
    RowsKeyedBy([10, 20, 30]);
    assert KeyedBy(Rows([10, 20]) + [RowWithExtra], [10, 20, 30]);
    ByKeyOnIds(Rows([10, 20]) + [RowWithExtra], [10, 20, 30], Rows([10, 20, 30]), [10, 20, 30]);
    DifferentReading();
  }

  lemma ByKeyDifferentOrder()
    ensures ByKeyVerdict("id", VSlice(TMap, Rows([30, 10, 20])), [VSlice(TMap, Rows([10, 20, 30]))], Same) == Ok
  {
    ByKeyOnRows([30, 10, 20], [10, 20, 30]);
    MissingIdReadings();
  }
}
