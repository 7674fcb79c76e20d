/** ShouldResembleSlice: two slices are equal when every actual element can
    be paired with a distinct, deep-equal expected element. deep.Equal is the
    parameter deepEqual, true when the differ reports no difference; the
    source calls it with the expected element first. */
module ResembleSlice {
  import opened Wrappers
  import opened Reflect
  import opened Messages
  import opened Permutations

  /** The lowest index at or after `from` whose expected element is not yet
      used and is deep-equal to x. */
  function FirstFree(e: seq<Value>, used: seq<bool>, x: Value, deepEqual: (Value, Value) -> bool, from: nat)
    : (r: Option<nat>)
    requires |used| == |e| && from <= |e|
    ensures r.Some? ==> from <= r.value < |e| && !used[r.value] && deepEqual(e[r.value], x)
    ensures forall k :: from <= k < (if r.Some? then r.value else |e|) ==> used[k] || !deepEqual(e[k], x)
    decreases |e| - from
  {
    if from == |e| then None
    else if !used[from] && deepEqual(e[from], x) then Some(from)
    else FirstFree(e, used, x, deepEqual, from + 1)
  }

  /** The greedy matching: each actual element in turn consumes the first
      free deep-equal expected element. The result lists the consumed index
      for each actual element, or is None when some element finds none. */
  function Match(a: seq<Value>, e: seq<Value>, used: seq<bool>, deepEqual: (Value, Value) -> bool)
    : (r: Option<seq<nat>>)
    requires |used| == |e|
    ensures r.Some? ==> |r.value| == |a|
    decreases |a|
  {
    if a == [] then Some([])
    else match FirstFree(e, used, a[0], deepEqual, 0)
      case None => None
      case Some(j) =>
        match Match(a[1..], e, used[j := true], deepEqual)
        case None => None
        case Some(rest) => Some([j] + rest)
  }

  function Unused(n: nat): (r: seq<bool>)
    ensures |r| == n && forall i :: 0 <= i < n ==> !r[i]
  {
    seq(n, _ => false)
  }

  /** The outcome of ShouldResembleSlice(actual, expected...). */
  function SliceVerdict(actual: Value, expected: seq<Value>, deepEqual: (Value, Value) -> bool): Message {
    if |expected| != 1 then ArgCount(|expected|)
    else if !actual.VSlice? || !expected[0].VSlice? then NotSlice
    else if |actual.items| != |expected[0].items| then LengthNotEqual
    else if Match(actual.items, expected[0].items, Unused(|expected[0].items|), deepEqual).Some? then Ok
    else NotMatch
  }

  /** ShouldResembleSlice, with the `indexes` array of consumed expected
      elements and the `count` of matches. */
  method ShouldResembleSlice(actual: Value, expected: seq<Value>, deepEqual: (Value, Value) -> bool)
    returns (r: Message)
    ensures r == SliceVerdict(actual, expected, deepEqual)
    ensures r != SlicesNotEqual
  {
    if |expected| != 1 {
      return ArgCount(|expected|);
    }
    if !actual.VSlice? || !expected[0].VSlice? {
      return NotSlice;
    }
    var a, e := actual.items, expected[0].items;
    if |a| != |e| {
      return LengthNotEqual;
    }
    var count := 0;
    var indexes := new bool[|a|](_ => false);
    assert indexes[..] == Unused(|e|);
    for i := 0 to |a|
      invariant count == i
      invariant multiset(indexes[..])[true] == count
      invariant Match(a, e, Unused(|e|), deepEqual).Some? == Match(a[i..], e, indexes[..], deepEqual).Some?
    {
      var ai := a[i];
      var matched := false;
      ghost var before := indexes[..];
      for j := 0 to |e|
        invariant indexes[..] == before
        invariant FirstFree(e, before, ai, deepEqual, 0) == FirstFree(e, before, ai, deepEqual, j)
      {
        if indexes[j] {
          // already compared
          continue;
        }
        if deepEqual(e[j], ai) {
          indexes[j] := true;
          count := count + 1;
          matched := true;
          assert FirstFree(e, before, ai, deepEqual, 0) == Some(j);
          assert indexes[..] == before[j := true];
          break;
        }
      }
      assert a[i..][0] == ai && a[i..][1..] == a[i + 1..];
      MatchStep(a[i..], e, before, deepEqual);
      if !matched {
        return NotMatch;
      }
    }
    if count != |a| {
      // the loop keeps count == i, so this cannot happen
      assert false;
      return SlicesNotEqual;
    }
    return Ok;
  }

  /** One step of the greedy matching: the first element either finds no
      free partner, and matching fails, or consumes the first one. */
  lemma MatchStep(s: seq<Value>, e: seq<Value>, used: seq<bool>, deepEqual: (Value, Value) -> bool)
    requires |used| == |e| && s != []
    ensures FirstFree(e, used, s[0], deepEqual, 0).None? ==> Match(s, e, used, deepEqual).None?
    ensures FirstFree(e, used, s[0], deepEqual, 0).Some? ==>
      Match(s, e, used, deepEqual).Some? == Match(s[1..], e, used[FirstFree(e, used, s[0], deepEqual, 0).value := true], deepEqual).Some?
  {
  }

  /** The greedy matching consumes each expected index at most once, only
      indices that were free, and only for deep-equal pairs. */
  lemma {:induction false} MatchSound(a: seq<Value>, e: seq<Value>, used: seq<bool>,
                                      deepEqual: (Value, Value) -> bool)
    requires |used| == |e|
    requires Match(a, e, used, deepEqual).Some?
    ensures var js := Match(a, e, used, deepEqual).value;
      && |js| == |a|
      && (forall i :: 0 <= i < |a| ==> js[i] < |e| && !used[js[i]] && deepEqual(e[js[i]], a[i]))
      && (forall i, k :: 0 <= i < k < |a| ==> js[i] != js[k])
  {
    if a != [] {
      var j := FirstFree(e, used, a[0], deepEqual, 0).value;
      MatchSound(a[1..], e, used[j := true], deepEqual);
    }
  }

  /** On success the matching is a permutation of the expected indices that
      pairs every actual element with a deep-equal expected one. No property
      of deepEqual is needed. */
  lemma SliceOkPairsElements(ta: Type, a: seq<Value>, te: Type, e: seq<Value>,
                             deepEqual: (Value, Value) -> bool)
    requires SliceVerdict(VSlice(ta, a), [VSlice(te, e)], deepEqual) == Ok
    ensures |a| == |e|
    ensures exists p :: IsPermutation(p, |e|) && forall i :: 0 <= i < |a| ==> deepEqual(e[p[i]], a[i])
  {
    MatchSound(a, e, Unused(|e|), deepEqual);
    var p := Match(a, e, Unused(|e|), deepEqual).value;
    assert IsPermutation(p, |e|);
  }

  /** Argument count, then kinds, then lengths are decided before any
      element is compared: those outcomes do not depend on deepEqual. */
  lemma SliceChecksBeforeMatching(actual: Value, expected: seq<Value>,
                                  deepEqual: (Value, Value) -> bool, other: (Value, Value) -> bool)
    ensures |expected| != 1 ==> SliceVerdict(actual, expected, deepEqual) == ArgCount(|expected|)
    ensures |expected| == 1 && (!actual.VSlice? || !expected[0].VSlice?) ==>
              SliceVerdict(actual, expected, deepEqual) == NotSlice
    ensures |expected| == 1 && actual.VSlice? && expected[0].VSlice? &&
            |actual.items| != |expected[0].items| ==>
              SliceVerdict(actual, expected, deepEqual) == LengthNotEqual
    ensures SliceVerdict(actual, expected, deepEqual) in {Ok, NotMatch}
            || SliceVerdict(actual, expected, deepEqual) == SliceVerdict(actual, expected, other)
  {
  }

  /** The classes of the elements of s under canon. */
  ghost function Canonical<C>(s: seq<Value>, canon: Value -> C): (r: seq<C>)
    ensures |r| == |s| && forall i :: 0 <= i < |s| ==> r[i] == canon(s[i])
  {
    seq(|s|, i requires 0 <= i < |s| => canon(s[i]))
  }

  /** The classes of the expected elements not yet consumed. */
  ghost function FreeClasses<C>(e: seq<Value>, used: seq<bool>, canon: Value -> C): multiset<C>
    requires |used| == |e|
    decreases |e|
  {
    if e == [] then multiset{}
    else (if used[0] then multiset{} else multiset{canon(e[0])}) + FreeClasses(e[1..], used[1..], canon)
  }

  lemma {:induction false} FreeClassesUse<C>(e: seq<Value>, used: seq<bool>, canon: Value -> C, j: nat)
    requires |used| == |e| && j < |e| && !used[j]
    ensures FreeClasses(e, used[j := true], canon) == FreeClasses(e, used, canon) - multiset{canon(e[j])}
    ensures canon(e[j]) in FreeClasses(e, used, canon)
    decreases j
  {
    var c := canon(e[j]);
    var rest := FreeClasses(e[1..], used[1..], canon);
    if j == 0 {
      assert used[j := true][1..] == used[1..];
      assert FreeClasses(e, used, canon) == multiset{c} + rest;
      assert (multiset{c} + rest) - multiset{c} == rest;
    } else {
      var head := if used[0] then multiset{} else multiset{canon(e[0])};
      assert used[j := true][1..] == used[1..][j - 1 := true];
      FreeClassesUse(e[1..], used[1..], canon, j - 1);
      assert e[1..][j - 1] == e[j];
      assert FreeClasses(e, used[j := true], canon) == head + (rest - multiset{c});
      assert FreeClasses(e, used, canon) == head + rest;
      assert head + (rest - multiset{c}) == (head + rest) - multiset{c};
    }
  }

  lemma {:induction false} FreeClassesMember<C>(e: seq<Value>, used: seq<bool>, canon: Value -> C, c: C)
    requires |used| == |e|
    requires c in FreeClasses(e, used, canon)
    ensures exists j :: 0 <= j < |e| && !used[j] && canon(e[j]) == c
    decreases |e|
  {
    if !(!used[0] && canon(e[0]) == c) {
      FreeClassesMember(e[1..], used[1..], canon, c);
      var j :| 0 <= j < |e| - 1 && !used[1..][j] && canon(e[1..][j]) == c;
      assert !used[j + 1] && canon(e[j + 1]) == c;
    }
  }

  lemma {:induction false} FreeClassesUnused<C>(e: seq<Value>, canon: Value -> C)
    ensures FreeClasses(e, Unused(|e|), canon) == multiset(Canonical(e, canon))
    decreases |e|
  {
    if e != [] {
      assert Unused(|e|)[1..] == Unused(|e| - 1);
      FreeClassesUnused(e[1..], canon);
      assert Canonical(e, canon) == [canon(e[0])] + Canonical(e[1..], canon);
    }
  }

  /** deepEqual(x, y) exactly when x and y have the same class: deepEqual is
      an equivalence relation. */
  ghost predicate KernelOf<C>(deepEqual: (Value, Value) -> bool, canon: Value -> C) {
    forall x, y :: deepEqual(x, y) <==> canon(x) == canon(y)
  }

  /** When deepEqual is an equivalence, the greedy choice never blocks a
      later element: matching succeeds exactly when the classes of the actual
      elements fit into the classes of the free expected elements. */
  lemma {:induction false} MatchComplete<C>(a: seq<Value>, e: seq<Value>, used: seq<bool>,
                                                deepEqual: (Value, Value) -> bool, canon: Value -> C)
    requires |used| == |e|
    requires KernelOf(deepEqual, canon)
    ensures Match(a, e, used, deepEqual).Some? <==> multiset(Canonical(a, canon)) <= FreeClasses(e, used, canon)
    decreases |a|
  {
    if a != [] {
      var c := canon(a[0]);
      assert Canonical(a, canon) == [c] + Canonical(a[1..], canon);
      var rest := multiset(Canonical(a[1..], canon));
      assert multiset(Canonical(a, canon)) == rest + multiset{c};
      match FirstFree(e, used, a[0], deepEqual, 0)
      case None =>
        if c in FreeClasses(e, used, canon) {
          FreeClassesMember(e, used, canon, c);
          assert false;
        }
      case Some(j) =>
        assert canon(e[j]) == c;
        FreeClassesUse(e, used, canon, j);
        MatchComplete(a[1..], e, used[j := true], deepEqual, canon);
        var free := FreeClasses(e, used, canon);
        assert c in free;
        MultisetFit(rest, free, c);
    }
  }

  lemma MultisetFit<C>(m: multiset<C>, f: multiset<C>, c: C)
    requires c in f
    ensures m + multiset{c} <= f <==> m <= f - multiset{c}
  {
    if m + multiset{c} <= f {
      forall x ensures m[x] <= (f - multiset{c})[x] {
        assert (m + multiset{c})[x] <= f[x];
      }
    }
    if m <= f - multiset{c} {
      forall x ensures (m + multiset{c})[x] <= f[x] {
        assert m[x] <= (f - multiset{c})[x];
      }
    }
  }

  lemma MultisetSameSize<C>(m: multiset<C>, f: multiset<C>)
    requires m <= f && |m| == |f|
    ensures m == f
  {
    var d := f - m;
    assert f == m + d;
    assert |d| == 0;
  }

  /** If deepEqual is an equivalence, ShouldResembleSlice returns "" exactly
      when the two slices are equal as multisets of classes. */
  lemma SliceOkIffSameClasses<C>(ta: Type, a: seq<Value>, te: Type, e: seq<Value>,
                                     deepEqual: (Value, Value) -> bool, canon: Value -> C)
    requires KernelOf(deepEqual, canon)
    ensures SliceVerdict(VSlice(ta, a), [VSlice(te, e)], deepEqual) == Ok
            <==> multiset(Canonical(a, canon)) == multiset(Canonical(e, canon))
    ensures SliceVerdict(VSlice(ta, a), [VSlice(te, e)], deepEqual) in {Ok, LengthNotEqual, NotMatch}
  {
    var ma, me := multiset(Canonical(a, canon)), multiset(Canonical(e, canon));
    assert |ma| == |a| && |me| == |e|;
    if |a| == |e| {
      MatchComplete(a, e, Unused(|e|), deepEqual, canon);
      FreeClassesUnused(e, canon);
      if ma <= me {
        MultisetSameSize(ma, me);
      }
    }
  }

  lemma CanonicalAppend<C>(s: seq<Value>, t: seq<Value>, canon: Value -> C)
    ensures Canonical(s + t, canon) == Canonical(s, canon) + Canonical(t, canon)
  {
  }

  lemma RemoveAt<T>(e: seq<T>, k: nat)
    requires k < |e|
    ensures multiset(e) == multiset(e[..k] + e[k + 1..]) + multiset{e[k]}
  {
    assert e == e[..k] + [e[k]] + e[k + 1..];
  }

  lemma MultisetCancel<T>(m: multiset<T>, n: multiset<T>, x: T)
    requires m + multiset{x} == n + multiset{x}
    ensures m == n
  {
    forall y ensures m[y] == n[y] {
      assert (m + multiset{x})[y] == (n + multiset{x})[y];
    }
  }

  lemma CanonicalRemoveAt<C>(e: seq<Value>, k: nat, canon: Value -> C)
    requires k < |e|
    ensures multiset(Canonical(e, canon))
            == multiset(Canonical(e[..k] + e[k + 1..], canon)) + multiset{canon(e[k])}
  {
    var ce := Canonical(e, canon);
    RemoveAt(ce, k);
    CanonicalAppend(e[..k], e[k + 1..], canon);
    assert ce[..k] == Canonical(e[..k], canon);
    assert ce[k + 1..] == Canonical(e[k + 1..], canon);
  }

  lemma CanonicalCons<C>(a: seq<Value>, canon: Value -> C)
    requires a != []
    ensures multiset(Canonical(a, canon)) == multiset(Canonical(a[1..], canon)) + multiset{canon(a[0])}
  {
    assert Canonical(a, canon) == [canon(a[0])] + Canonical(a[1..], canon);
  }

  lemma RemoveMatching<T>(a: seq<T>, e: seq<T>, k: nat)
    requires multiset(a) == multiset(e)
    requires a != [] && k < |e| && e[k] == a[0]
    ensures multiset(a[1..]) == multiset(e[..k] + e[k + 1..])
  {
    RemoveAt(e, k);
    assert a == [a[0]] + a[1..];
    MultisetCancel(multiset(a[1..]), multiset(e[..k] + e[k + 1..]), a[0]);
  }

  lemma {:induction false} CanonicalRespectsMultiset<C>(a: seq<Value>, e: seq<Value>, canon: Value -> C)
    requires multiset(a) == multiset(e)
    ensures multiset(Canonical(a, canon)) == multiset(Canonical(e, canon))
    decreases |a|
  {
    assert |a| == |multiset(a)| == |e|;
    if a != [] {
      assert a[0] in multiset(e);
      var k :| 0 <= k < |e| && e[k] == a[0];
      var e' := e[..k] + e[k + 1..];
      RemoveMatching(a, e, k);
      CanonicalRespectsMultiset(a[1..], e', canon);
      CanonicalRemoveAt(e, k, canon);
      CanonicalCons(a, canon);
      var rest, c := multiset(Canonical(a[1..], canon)), canon(a[0]);
      calc {
        multiset(Canonical(a, canon));
        rest + multiset{c};
        multiset(Canonical(e', canon)) + multiset{canon(e[k])};
        multiset(Canonical(e, canon));
      }
    }
  }

  /** Every reordering of expected passes, when deepEqual is an equivalence. */
  lemma SlicePermutationPasses<C>(ta: Type, a: seq<Value>, te: Type, e: seq<Value>,
                                      deepEqual: (Value, Value) -> bool, canon: Value -> C)
    requires KernelOf(deepEqual, canon)
    requires multiset(a) == multiset(e)
    ensures SliceVerdict(VSlice(ta, a), [VSlice(te, e)], deepEqual) == Ok
  {
    CanonicalRespectsMultiset(a, e, canon);
    SliceOkIffSameClasses(ta, a, te, e, deepEqual, canon);
  }
}
