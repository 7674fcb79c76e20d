/** ShouldResembleByKey(key): two slices are equal when, indexed by the value
    each element holds under key, every expected element has a deep-equal
    actual element with the same key. deep.Equal is the parameter deepEqual,
    true when the differ reports no difference; the source calls it with the
    actual element first. */
module ResembleByKey {
  import opened Wrappers
  import opened Reflect
  import opened Messages
  import opened Permutations
  import opened KeyAccess

  /** What the indexing pass builds: the key of each item in order, and the
      index of each key. */
  datatype KeyedItems = KeyedItems(keys: seq<Value>, index: map<Value, nat>)

  /** An item that passes the four per-item checks: not nil, has the key,
      the key is not nil, and the key is comparable. */
  predicate Usable(item: Value, key: string) {
    && !IsNilItem(item)
    && ItemKey(item, key).Some?
    && Comparable(ItemKey(item, key).value)
  }

  /** The first of the four per-item checks that item i fails, in the order
      nil item, key missing, nil key, key not comparable. */
  function ItemFault(side: Side, i: nat, item: Value, key: string): (r: Option<Message>)
    ensures r.None? <==> Usable(item, key)
    ensures r.Some? ==> r.value.IsItemError() && !r.value.Duplicate? && r.value.side == side && r.value.index == i
    ensures r.Some? && !IsNilItem(item) ==> !r.value.NilItem?
    ensures IsNilItem(item) ==> r == Some(NilItem(side, i))
    ensures !IsNilItem(item) && GetKey(item, key).None? ==> r == Some(NoKey(side, i))
    ensures !IsNilItem(item) && GetKey(item, key).Some? && ItemKey(item, key).None? ==> r == Some(NilKey(side, i, key))
    ensures !IsNilItem(item) && ItemKey(item, key).Some? && !Comparable(ItemKey(item, key).value) ==>
              r == Some(NotComparable(side, i, key, ItemKey(item, key).value))
  {
    if IsNilItem(item) then Some(NilItem(side, i))
    else match GetKey(item, key)
      case None => Some(NoKey(side, i))
      case Some(k) =>
        match Dynamic(k)
        case None => Some(NilKey(side, i, key))
        case Some(kv) => if Comparable(kv) then None else Some(NotComparable(side, i, key, kv))
  }

  /** ki is what indexing list yields: keys[i] is item i's key value, and
      index maps each key back to its position (so keys are distinct). */
  predicate Describes(ki: KeyedItems, list: seq<Value>, key: string) {
    && |ki.keys| == |list|
    && (forall i :: 0 <= i < |list| ==> ItemKey(list[i], key) == Some(ki.keys[i]))
    && (forall i :: 0 <= i < |list| ==> ki.keys[i] in ki.index && ki.index[ki.keys[i]] == i)
    && (forall k :: k in ki.index ==> ki.index[k] < |list| && ki.keys[ki.index[k]] == k)
  }

  /** The collectIndexes closure over the whole list: the keys and their
      indices, or the error of the first item that fails a check. */
  function Collect(side: Side, list: seq<Value>, key: string): (r: Result<KeyedItems, Message>)
    ensures r.Success? ==> Describes(r.value, list, key)
    ensures r.Success? ==> forall i :: 0 <= i < |list| ==> Usable(list[i], key)
    ensures r.Failure? ==> r.error.IsItemError() && r.error.side == side
    decreases |list|
  {
    if list == [] then Success(KeyedItems([], map[]))
    else
      var n := |list| - 1;
      match Collect(side, list[..n], key)
      case Failure(m) => Failure(m)
      case Success(prefix) =>
        assert forall i :: 0 <= i < n ==> list[..n][i] == list[i];
        match ItemFault(side, n, list[n], key)
        case Some(m) => Failure(m)
        case None =>
          var kv := ItemKey(list[n], key).value;
          if kv in prefix.index then Failure(Duplicate(side, prefix.index[kv], n, kv))
          else
            DescribesExtend(prefix, list, key, kv);
            Success(KeyedItems(prefix.keys + [kv], prefix.index[kv := n]))
  }

  /** Indexing one more item with a fresh key extends the description. */
  lemma DescribesExtend(prefix: KeyedItems, list: seq<Value>, key: string, kv: Value)
    requires list != [] && Describes(prefix, list[..|list| - 1], key)
    requires ItemKey(list[|list| - 1], key) == Some(kv) && kv !in prefix.index
    ensures Describes(KeyedItems(prefix.keys + [kv], prefix.index[kv := |list| - 1]), list, key)
  {
    var n := |list| - 1;
    assert forall i :: 0 <= i < n ==> list[..n][i] == list[i];
    var ki := KeyedItems(prefix.keys + [kv], prefix.index[kv := n]);
    forall i | 0 <= i < |list| ensures ItemKey(list[i], key) == Some(ki.keys[i]) {
      if i < n {
        assert list[..n][i] == list[i] && ki.keys[i] == prefix.keys[i];
      }
    }
    forall i | 0 <= i < |list| ensures ki.keys[i] in ki.index && ki.index[ki.keys[i]] == i {
      if i < n {
        assert ki.keys[i] == prefix.keys[i] && prefix.keys[i] in prefix.index && prefix.keys[i] != kv;
      }
    }
  }

  /** A failure of all but the last item is the failure of the whole list. */
  lemma CollectFailureExtends(side: Side, list: seq<Value>, key: string)
    requires list != [] && Collect(side, list[..|list| - 1], key).Failure?
    ensures Collect(side, list, key) == Collect(side, list[..|list| - 1], key)
  {
  }

  lemma {:induction false} CollectFailureSticks(side: Side, list: seq<Value>, key: string, j: nat)
    requires j <= |list|
    requires Collect(side, list[..j], key).Failure?
    ensures Collect(side, list, key) == Collect(side, list[..j], key)
    decreases |list|
  {
    if j < |list| {
      var n := |list| - 1;
      assert list[..n][..j] == list[..j];
      CollectFailureSticks(side, list[..n], key, j);
      CollectFailureExtends(side, list, key);
    } else {
      assert list[..j] == list;
    }
  }

  /** One step of the indexing pass, on the item after a successful prefix. */
  lemma CollectNext(side: Side, list: seq<Value>, key: string, i: nat)
    requires i < |list| && Collect(side, list[..i], key).Success?
    ensures var prefix := Collect(side, list[..i], key).value;
      Collect(side, list[..i + 1], key) ==
        match ItemFault(side, i, list[i], key)
        case Some(m) => Failure(m)
        case None =>
          var kv := ItemKey(list[i], key).value;
          if kv in prefix.index then Failure(Duplicate(side, prefix.index[kv], i, kv))
          else Success(KeyedItems(prefix.keys + [kv], prefix.index[kv := i]))
  {
    assert list[..i + 1][..i] == list[..i];
  }

  /** After a successful prefix, an item that fails a per-item check ends
      the indexing pass with that check's error. */
  lemma CollectFaultAt(side: Side, list: seq<Value>, key: string, i: nat)
    requires i < |list| && Collect(side, list[..i], key).Success?
    requires ItemFault(side, i, list[i], key).Some?
    ensures Collect(side, list, key) == Failure(ItemFault(side, i, list[i], key).value)
  {
    CollectNext(side, list, key, i);
    CollectFailureSticks(side, list, key, i + 1);
  }

  /** After a successful prefix, an item whose key is already indexed ends
      the indexing pass with a duplicate error. */
  lemma CollectDuplicateAt(side: Side, list: seq<Value>, key: string, i: nat)
    requires i < |list| && Collect(side, list[..i], key).Success?
    requires ItemFault(side, i, list[i], key).None?
    requires ItemKey(list[i], key).value in Collect(side, list[..i], key).value.index
    ensures var kv := ItemKey(list[i], key).value;
      Collect(side, list, key) == Failure(Duplicate(side, Collect(side, list[..i], key).value.index[kv], i, kv))
  {
    CollectNext(side, list, key, i);
    CollectFailureSticks(side, list, key, i + 1);
  }

  /** collectIndexes: fills the keys array and the key-to-index map, and
      returns at the first item that fails a check. */
  method CollectIndexes(side: Side, list: seq<Value>, key: string) returns (r: Result<KeyedItems, Message>)
    ensures r == Collect(side, list, key)
  {
    var keys := new Value[|list|];
    var mapIndexes: map<Value, nat> := map[];
    for i := 0 to |list|
      invariant Collect(side, list[..i], key) == Success(KeyedItems(keys[..i], mapIndexes))
    {
      var item := list[i];
      if IsNilItem(item) {
        CollectFaultAt(side, list, key, i);
        return Failure(NilItem(side, i));
      }
      var itemKey := GetKey(item, key);
      if itemKey.None? {
        CollectFaultAt(side, list, key, i);
        return Failure(NoKey(side, i));
      }
      var keyValue := Dynamic(itemKey.value);
      if keyValue.None? {
        CollectFaultAt(side, list, key, i);
        return Failure(NilKey(side, i, key));
      }
      if !Comparable(keyValue.value) {
        CollectFaultAt(side, list, key, i);
        return Failure(NotComparable(side, i, key, keyValue.value));
      }
      if keyValue.value in mapIndexes {
        CollectDuplicateAt(side, list, key, i);
        return Failure(Duplicate(side, mapIndexes[keyValue.value], i, keyValue.value));
      }
      CollectNext(side, list, key, i);
      keys[i] := keyValue.value;
      mapIndexes := mapIndexes[keyValue.value := i];
      assert keys[..i + 1] == keys[..i] + [keyValue.value];
    }
    assert list[..|list|] == list;
    assert keys[..] == keys[..|list|];
    return Success(KeyedItems(keys[..], mapIndexes));
  }

  /** Every index the map holds is a position of a. */
  predicate IndexWithin(index: map<Value, nat>, n: nat) {
    forall k :: k in index ==> index[k] < n
  }

  /** Expected item j has an actual item with its key, and the two are
      deep-equal. */
  predicate Paired(eKeys: seq<Value>, aIndex: map<Value, nat>, a: seq<Value>, e: seq<Value>,
                   deepEqual: (Value, Value) -> bool, j: nat)
    requires |eKeys| == |e| && j < |e| && IndexWithin(aIndex, |a|)
  {
    eKeys[j] in aIndex && deepEqual(a[aIndex[eKeys[j]]], e[j])
  }

  /** The comparison loop from expected position i on: the first expected key
      that actual lacks, or the first pair that differs, or Ok. */
  function FirstMismatch(key: string, eKeys: seq<Value>, aIndex: map<Value, nat>, a: seq<Value>,
                         e: seq<Value>, deepEqual: (Value, Value) -> bool, i: nat): (r: Message)
    requires |eKeys| == |e| && i <= |e| && IndexWithin(aIndex, |a|)
    ensures r == Ok <==> forall j :: i <= j < |e| ==> Paired(eKeys, aIndex, a, e, deepEqual, j)
    ensures r != Ok ==>
      exists j :: i <= j < |e| && (forall k :: i <= k < j ==> Paired(eKeys, aIndex, a, e, deepEqual, k))
                  && !Paired(eKeys, aIndex, a, e, deepEqual, j)
                  && r == (if eKeys[j] in aIndex then Different(key, eKeys[j]) else NotFound(key, eKeys[j]))
    decreases |e| - i
  {
    if i == |e| then Ok
    else if eKeys[i] !in aIndex then
      assert !Paired(eKeys, aIndex, a, e, deepEqual, i);
      NotFound(key, eKeys[i])
    else if !deepEqual(a[aIndex[eKeys[i]]], e[i]) then
      assert !Paired(eKeys, aIndex, a, e, deepEqual, i);
      Different(key, eKeys[i])
    else FirstMismatch(key, eKeys, aIndex, a, e, deepEqual, i + 1)
  }

  /** The comparison loop: walks the expected keys in expected order. */
  method CompareInOrder(key: string, eKeys: seq<Value>, aIndex: map<Value, nat>, a: seq<Value>,
                        e: seq<Value>, deepEqual: (Value, Value) -> bool) returns (r: Message)
    requires |eKeys| == |e| && IndexWithin(aIndex, |a|)
    ensures r == FirstMismatch(key, eKeys, aIndex, a, e, deepEqual, 0)
  {
    for i := 0 to |eKeys|
      invariant FirstMismatch(key, eKeys, aIndex, a, e, deepEqual, 0)
                == FirstMismatch(key, eKeys, aIndex, a, e, deepEqual, i)
    {
      var ekey := eKeys[i];
      if ekey !in aIndex {
        return NotFound(key, ekey);
      }
      var expectedItem := e[i];
      var actualItem := a[aIndex[ekey]];
      if !deepEqual(actualItem, expectedItem) {
        return Different(key, ekey);
      }
    }
    return Ok;
  }

  /** The checks made before any element is inspected, in order. */
  function Validate(key: string, actual: Value, expected: seq<Value>): (r: Option<Message>)
    ensures r.None? <==> && |expected| == 1 && actual.VSlice? && expected[0].VSlice?
                         && KeyTypeCheck(actual.elem, key).None? && KeyTypeCheck(expected[0].elem, key).None?
                         && |actual.items| == |expected[0].items|
  {
    if |expected| != 1 then Some(ArgCount(|expected|))
    else if !actual.VSlice? || !expected[0].VSlice? then Some(NotSlice)
    else if KeyTypeCheck(actual.elem, key).Some? then Some(BadElemType(KeyTypeCheck(actual.elem, key).value))
    else if KeyTypeCheck(expected[0].elem, key).Some? then Some(BadElemType(KeyTypeCheck(expected[0].elem, key).value))
    else if |actual.items| != |expected[0].items| then Some(LengthNotEqual)
    else None
  }

  /** The outcome of ShouldResembleByKey(key)(actual, expected...). */
  function ByKeyVerdict(key: string, actual: Value, expected: seq<Value>, deepEqual: (Value, Value) -> bool)
    : Message
  {
    match Validate(key, actual, expected)
    case Some(m) => m
    case None =>
      var a, e := actual.items, expected[0].items;
      match Collect(Expected, e, key)
      case Failure(m) => m
      case Success(expectedItems) =>
        match Collect(Actual, a, key)
        case Failure(m) => m
        case Success(actualItems) =>
          FirstMismatch(key, expectedItems.keys, actualItems.index, a, e, deepEqual, 0)
  }

  /** ShouldResembleByKey(key) applied to (actual, expected...). */
  method ShouldResembleByKey(key: string, actual: Value, expected: seq<Value>, deepEqual: (Value, Value) -> bool)
    returns (r: Message)
    ensures r == ByKeyVerdict(key, actual, expected, deepEqual)
  {
    if |expected| != 1 {
      return ArgCount(|expected|);
    }
    if !actual.VSlice? || !expected[0].VSlice? {
      return NotSlice;
    }
    var errMsg := CanGetKey(actual.elem, key);
    if errMsg.Some? {
      return BadElemType(errMsg.value);
    }
    errMsg := CanGetKey(expected[0].elem, key);
    if errMsg.Some? {
      return BadElemType(errMsg.value);
    }
    var a, e := actual.items, expected[0].items;
    if |a| != |e| {
      return LengthNotEqual;
    }
    var expectedIndexes := CollectIndexes(Expected, e, key);
    if expectedIndexes.Failure? {
      return expectedIndexes.error;
    }
    var actualIndexes := CollectIndexes(Actual, a, key);
    if actualIndexes.Failure? {
      return actualIndexes.error;
    }
    r := CompareInOrder(key, expectedIndexes.value.keys, actualIndexes.value.index, a, e, deepEqual);
  }

  /** Every item passes the per-item checks and no two items share a key. */
  predicate Indexable(list: seq<Value>, key: string) {
    && (forall i :: 0 <= i < |list| ==> Usable(list[i], key))
    && (forall i, j :: 0 <= i < j < |list| ==> ItemKey(list[i], key) != ItemKey(list[j], key))
  }

  /** The indexing pass succeeds exactly on lists of usable items with
      pairwise distinct keys. */
  lemma {:induction false} CollectSucceedsIff(side: Side, list: seq<Value>, key: string)
    ensures Collect(side, list, key).Success? <==> Indexable(list, key)
    decreases |list|
  {
    if Collect(side, list, key).Success? {
      var ki := Collect(side, list, key).value;
      forall i, j | 0 <= i < j < |list| ensures ItemKey(list[i], key) != ItemKey(list[j], key) {
        assert ki.index[ki.keys[i]] == i && ki.index[ki.keys[j]] == j;
      }
    }
    if list != [] && Indexable(list, key) {
      var n := |list| - 1;
      assert forall i :: 0 <= i < n ==> list[..n][i] == list[i];
      assert Indexable(list[..n], key);
      CollectSucceedsIff(side, list[..n], key);
      var prefix := Collect(side, list[..n], key).value;
      var kv := ItemKey(list[n], key).value;
      assert kv !in prefix.index;
    }
  }

  /** Item n is the first culprit of the indexing pass and m is its error:
      the items before n index cleanly, and item n fails one of the four
      per-item checks, or repeats the key of the earlier item m.prev. */
  predicate FailsAt(side: Side, list: seq<Value>, key: string, n: nat, m: Message)
    requires n < |list|
  {
    && Indexable(list[..n], key)
    && (|| ItemFault(side, n, list[n], key) == Some(m)
        || (&& Usable(list[n], key)
            && m.Duplicate?
            && m == Duplicate(side, m.prev, n, ItemKey(list[n], key).value)
            && m.prev < n
            && ItemKey(list[m.prev], key) == ItemKey(list[n], key)))
  }

  /** First failure wins: an error of the indexing pass is the error of its
      first failing item, and a duplicate names the earlier index. */
  lemma {:induction false} CollectFirstFailure(side: Side, list: seq<Value>, key: string)
    requires Collect(side, list, key).Failure?
    ensures exists n :: 0 <= n < |list| && FailsAt(side, list, key, n, Collect(side, list, key).error)
    decreases |list|
  {
    var m := Collect(side, list, key).error;
    var n := |list| - 1;
    assert forall i :: 0 <= i < n ==> list[..n][i] == list[i];
    if Collect(side, list[..n], key).Failure? {
      CollectFirstFailure(side, list[..n], key);
      var k :| 0 <= k < n && FailsAt(side, list[..n], key, k, m);
      assert list[..n][..k] == list[..k];
      assert FailsAt(side, list, key, k, m);
    } else {
      CollectSucceedsIff(side, list[..n], key);
      assert FailsAt(side, list, key, n, m);
    }
  }

  /** Validation faults are reported before any element is inspected: they
      do not depend on the elements or on deepEqual. */
  lemma ValidationBeforeItems(key: string, ta: Type, a: seq<Value>, a': seq<Value>,
                              te: Type, e: seq<Value>, e': seq<Value>,
                              deepEqual: (Value, Value) -> bool, other: (Value, Value) -> bool)
    requires |a| == |a'| && |e| == |e'|
    requires Validate(key, VSlice(ta, a), [VSlice(te, e)]).Some?
    ensures ByKeyVerdict(key, VSlice(ta, a), [VSlice(te, e)], deepEqual)
            == ByKeyVerdict(key, VSlice(ta, a'), [VSlice(te, e')], other)
  {
  }

  /** The order of the validation checks. */
  lemma ValidationOrder(key: string, actual: Value, expected: seq<Value>)
    ensures |expected| != 1 ==> Validate(key, actual, expected) == Some(ArgCount(|expected|))
    ensures |expected| == 1 && (!actual.VSlice? || !expected[0].VSlice?) ==>
              Validate(key, actual, expected) == Some(NotSlice)
    ensures |expected| == 1 && actual.VSlice? && expected[0].VSlice? && KeyTypeCheck(actual.elem, key).Some? ==>
              Validate(key, actual, expected) == Some(BadElemType(KeyTypeCheck(actual.elem, key).value))
    ensures |expected| == 1 && actual.VSlice? && expected[0].VSlice? && KeyTypeCheck(actual.elem, key).None?
            && KeyTypeCheck(expected[0].elem, key).Some? ==>
              Validate(key, actual, expected) == Some(BadElemType(KeyTypeCheck(expected[0].elem, key).value))
    ensures |expected| == 1 && actual.VSlice? && expected[0].VSlice? && KeyTypeCheck(actual.elem, key).None?
            && KeyTypeCheck(expected[0].elem, key).None? && |actual.items| != |expected[0].items| ==>
              Validate(key, actual, expected) == Some(LengthNotEqual)
    ensures Validate(key, actual, expected) == Some(LengthNotEqual) ==>
              KeyTypeCheck(actual.elem, key).None? && KeyTypeCheck(expected[0].elem, key).None?
  {
  }

  /** Errors in expected are reported before any check of actual. */
  lemma ExpectedBeforeActual(key: string, actual: Value, expected: seq<Value>, deepEqual: (Value, Value) -> bool)
    requires Validate(key, actual, expected).None?
    ensures Collect(Expected, expected[0].items, key).Failure? ==>
              ByKeyVerdict(key, actual, expected, deepEqual) == Collect(Expected, expected[0].items, key).error
    ensures ByKeyVerdict(key, actual, expected, deepEqual).IsItemError() &&
            ByKeyVerdict(key, actual, expected, deepEqual).side == Actual ==>
              Collect(Expected, expected[0].items, key).Success?
  {
  }

  /** The pairing the comparison loop follows: expected item i goes to the
      actual item indexed under its key. */
  lemma PairingOfIndexes(a: seq<Value>, e: seq<Value>, key: string, ei: KeyedItems, ai: KeyedItems,
                         deepEqual: (Value, Value) -> bool)
    requires |a| == |e|
    requires Describes(ei, e, key) && Describes(ai, a, key)
    requires forall j :: 0 <= j < |e| ==> Paired(ei.keys, ai.index, a, e, deepEqual, j)
    ensures exists p :: && IsPermutation(p, |a|)
                        && forall i :: 0 <= i < |e| ==>
                             && ItemKey(e[i], key).Some?
                             && ItemKey(a[p[i]], key) == ItemKey(e[i], key)
                             && deepEqual(a[p[i]], e[i])
  {
    forall i | 0 <= i < |e| ensures ei.keys[i] in ai.index {
      assert Paired(ei.keys, ai.index, a, e, deepEqual, i);
    }
    var p: seq<nat> := seq(|e|, i requires 0 <= i < |e| => ai.index[ei.keys[i]]);
    forall i | 0 <= i < |e|
      ensures p[i] < |a| && ai.keys[p[i]] == ei.keys[i]
      ensures ItemKey(e[i], key).Some? && ItemKey(a[p[i]], key) == ItemKey(e[i], key) && deepEqual(a[p[i]], e[i])
    {
      assert Paired(ei.keys, ai.index, a, e, deepEqual, i);
      var k := ei.keys[i];
      assert k in ai.index;
      var j := ai.index[k];
      assert j < |a| && ai.keys[j] == k;
      assert ItemKey(a[j], key) == Some(k);
      assert ItemKey(e[i], key) == Some(k);
    }
    forall i, j | 0 <= i < j < |e| ensures p[i] != p[j] {
      assert ei.index[ei.keys[i]] == i && ei.index[ei.keys[j]] == j;
    }
    assert IsPermutation(p, |a|);
  }

  /** On "" the two slices are in a key-preserving bijection whose pairs are
      deep-equal, and both index cleanly. */
  lemma ByKeyOkPairsByKey(key: string, ta: Type, a: seq<Value>, te: Type, e: seq<Value>,
                          deepEqual: (Value, Value) -> bool)
    requires ByKeyVerdict(key, VSlice(ta, a), [VSlice(te, e)], deepEqual) == Ok
    ensures |a| == |e| && Indexable(a, key) && Indexable(e, key)
    ensures exists p :: && IsPermutation(p, |a|)
                        && forall i :: 0 <= i < |e| ==>
                             && ItemKey(e[i], key).Some?
                             && ItemKey(a[p[i]], key) == ItemKey(e[i], key)
                             && deepEqual(a[p[i]], e[i])
  {
    assert Validate(key, VSlice(ta, a), [VSlice(te, e)]).None?;
    assert Collect(Expected, e, key).Success? && Collect(Actual, a, key).Success?;
    var ei, ai := Collect(Expected, e, key).value, Collect(Actual, a, key).value;
    assert FirstMismatch(key, ei.keys, ai.index, a, e, deepEqual, 0) == Ok;
    CollectSucceedsIff(Expected, e, key);
    CollectSucceedsIff(Actual, a, key);
    PairingOfIndexes(a, e, key, ei, ai, deepEqual);
  }

  /** Conversely, cleanly indexed slices in a key-preserving, deep-equal
      bijection pass. */
  lemma ByKeyPairingPasses(key: string, ta: Type, a: seq<Value>, te: Type, e: seq<Value>,
                           deepEqual: (Value, Value) -> bool, p: seq<nat>)
    requires Validate(key, VSlice(ta, a), [VSlice(te, e)]).None?
    requires Indexable(a, key) && Indexable(e, key)
    requires IsPermutation(p, |a|)
    requires forall i :: 0 <= i < |e| ==> ItemKey(a[p[i]], key) == ItemKey(e[i], key) && deepEqual(a[p[i]], e[i])
    ensures ByKeyVerdict(key, VSlice(ta, a), [VSlice(te, e)], deepEqual) == Ok
  {
    CollectSucceedsIff(Expected, e, key);
    CollectSucceedsIff(Actual, a, key);
    var ei, ai := Collect(Expected, e, key).value, Collect(Actual, a, key).value;
    forall j | 0 <= j < |e| ensures Paired(ei.keys, ai.index, a, e, deepEqual, j) {
      assert ItemKey(a[p[j]], key) == Some(ei.keys[j]);
      assert ai.keys[p[j]] == ei.keys[j];
    }
  }

  /** Reordering a list neither creates nor removes indexing faults. */
  lemma IndexablePermute(list: seq<Value>, key: string, p: seq<nat>)
    requires IsPermutation(p, |list|)
    ensures Indexable(Permute(list, p), key) <==> Indexable(list, key)
  {
    var q := Permute(list, p);
    if Indexable(list, key) {
      forall i, j | 0 <= i < j < |q| ensures ItemKey(q[i], key) != ItemKey(q[j], key) {
        assert p[i] != p[j];
      }
    }
    if Indexable(q, key) {
      forall m | 0 <= m < |list| ensures Usable(list[m], key) {
        PermutationIsOnto(p, |list|, m);
        var j :| 0 <= j < |list| && p[j] == m;
        assert q[j] == list[m];
      }
      forall m, n | 0 <= m < n < |list| ensures ItemKey(list[m], key) != ItemKey(list[n], key) {
        PermutationIsOnto(p, |list|, m);
        var i :| 0 <= i < |list| && p[i] == m;
        PermutationIsOnto(p, |list|, n);
        var j :| 0 <= j < |list| && p[j] == n;
        assert q[i] == list[m] && q[j] == list[n] && i != j;
      }
    }
  }

  /** Indexing a reordered list finds the same keys, each at the same item. */
  lemma IndexFollowsItems(a: seq<Value>, p: seq<nat>, key: string, ai: KeyedItems, bi: KeyedItems)
    requires IsPermutation(p, |a|)
    requires Describes(ai, a, key) && Describes(bi, Permute(a, p), key)
    ensures IndexWithin(ai.index, |a|) && IndexWithin(bi.index, |a|)
    ensures forall k :: k in ai.index <==> k in bi.index
    ensures forall k :: k in ai.index && k in bi.index ==> a[ai.index[k]] == Permute(a, p)[bi.index[k]]
  {
    var b := Permute(a, p);
    forall k | k in ai.index ensures k in bi.index && a[ai.index[k]] == b[bi.index[k]] {
      var m := ai.index[k];
      PermutationIsOnto(p, |a|, m);
      var j :| 0 <= j < |a| && p[j] == m;
      assert ItemKey(b[j], key) == ItemKey(a[m], key) == Some(k);
      assert bi.keys[j] == k;
    }
    forall k | k in bi.index ensures k in ai.index {
      var j := bi.index[k];
      assert ItemKey(a[p[j]], key) == ItemKey(b[j], key) == Some(k);
      assert ai.keys[p[j]] == k;
    }
  }

  /** The comparison only looks at which keys actual has and at the item
      under each key. */
  lemma FirstMismatchCongruent(key: string, eKeys: seq<Value>, e: seq<Value>, deepEqual: (Value, Value) -> bool,
                               index1: map<Value, nat>, a1: seq<Value>,
                               index2: map<Value, nat>, a2: seq<Value>, i: nat)
    requires |eKeys| == |e| && i <= |e| && IndexWithin(index1, |a1|) && IndexWithin(index2, |a2|)
    requires forall k :: k in index1 <==> k in index2
    requires forall k :: k in index1 && k in index2 ==> a1[index1[k]] == a2[index2[k]]
    ensures FirstMismatch(key, eKeys, index1, a1, e, deepEqual, i) == FirstMismatch(key, eKeys, index2, a2, e, deepEqual, i)
  {
    var r1, r2 := FirstMismatch(key, eKeys, index1, a1, e, deepEqual, i), FirstMismatch(key, eKeys, index2, a2, e, deepEqual, i);
    forall j | i <= j < |e|
      ensures Paired(eKeys, index1, a1, e, deepEqual, j) <==> Paired(eKeys, index2, a2, e, deepEqual, j)
    {
      assert eKeys[j] in index1 <==> eKeys[j] in index2;
    }
    if r1 != Ok || r2 != Ok {
      var j1 :| i <= j1 < |e| && (forall k :: i <= k < j1 ==> Paired(eKeys, index1, a1, e, deepEqual, k))
                && !Paired(eKeys, index1, a1, e, deepEqual, j1)
                && r1 == (if eKeys[j1] in index1 then Different(key, eKeys[j1]) else NotFound(key, eKeys[j1]));
      var j2 :| i <= j2 < |e| && (forall k :: i <= k < j2 ==> Paired(eKeys, index2, a2, e, deepEqual, k))
                && !Paired(eKeys, index2, a2, e, deepEqual, j2)
                && r2 == (if eKeys[j2] in index2 then Different(key, eKeys[j2]) else NotFound(key, eKeys[j2]));
      assert j1 == j2;
    }
  }

  /** Once actual indexes cleanly, permuting actual never changes the result. */
  lemma ByKeyPermutationInvariant(key: string, ta: Type, a: seq<Value>, te: Type, e: seq<Value>,
                                  deepEqual: (Value, Value) -> bool, p: seq<nat>)
    requires IsPermutation(p, |a|)
    requires Indexable(a, key)
    ensures ByKeyVerdict(key, VSlice(ta, Permute(a, p)), [VSlice(te, e)], deepEqual)
            == ByKeyVerdict(key, VSlice(ta, a), [VSlice(te, e)], deepEqual)
  {
    var b := Permute(a, p);
    if Validate(key, VSlice(ta, a), [VSlice(te, e)]).None? && Collect(Expected, e, key).Success? {
      IndexablePermute(a, key, p);
      CollectSucceedsIff(Actual, a, key);
      CollectSucceedsIff(Actual, b, key);
      var ei, ai, bi := Collect(Expected, e, key).value, Collect(Actual, a, key).value, Collect(Actual, b, key).value;
      IndexFollowsItems(a, p, key, ai, bi);
      FirstMismatchCongruent(key, ei.keys, e, deepEqual, ai.index, a, bi.index, b, 0);
    }
  }

  /** For every input, permuting actual keeps a pass a pass and a failure a
      failure. */
  lemma ByKeyPermutationKeepsOk(key: string, ta: Type, a: seq<Value>, te: Type, e: seq<Value>,
                                deepEqual: (Value, Value) -> bool, p: seq<nat>)
    requires IsPermutation(p, |a|)
    ensures ByKeyVerdict(key, VSlice(ta, Permute(a, p)), [VSlice(te, e)], deepEqual) == Ok
            <==> ByKeyVerdict(key, VSlice(ta, a), [VSlice(te, e)], deepEqual) == Ok
  {
    if Indexable(a, key) {
      ByKeyPermutationInvariant(key, ta, a, te, e, deepEqual, p);
    } else {
      IndexablePermute(a, key, p);
      CollectSucceedsIff(Actual, a, key);
      CollectSucceedsIff(Actual, Permute(a, p), key);
    }
  }
}
