/** Key extraction for the by-key comparison: canGetKey checks an element
    type, getKey reads the key out of one element. */
module KeyAccess {
  import opened Wrappers
  import opened Reflect
  import opened Messages

  /** strings.ToLower(name) == strings.ToLower(key). */
  predicate Similar(name: string, key: string) {
    Lower(name) == Lower(key)
  }

  /** No name at a position in [from, to) is similar to key. */
  predicate NoneSimilar(names: seq<string>, key: string, from: int, to: int)
    requires 0 <= from && to <= |names|
  {
    forall k :: from <= k < to ==> !Similar(names[k], key)
  }

  /** The last name similar to key (the value the field scan of canGetKey
      leaves in `similar`), or None. */
  function LastSimilar(names: seq<string>, key: string): (r: Option<string>)
    ensures r.None? <==> NoneSimilar(names, key, 0, |names|)
    ensures r.Some? ==> exists i :: 0 <= i < |names| && names[i] == r.value && Similar(r.value, key)
                                    && NoneSimilar(names, key, i + 1, |names|)
    decreases |names|
  {
    if names == [] then None
    else
      var n := |names| - 1;
      if Similar(names[n], key) then Some(names[n])
      else
        var r := LastSimilar(names[..n], key);
        assert forall i :: 0 <= i < n ==> names[..n][i] == names[i];
        r
  }

  /** What canGetKey reports for element type t: None for "" (usable). */
  function KeyTypeCheck(t: Type, key: string): (r: Option<KeyTypeError>)
    ensures r.Some? && r.value.FieldMissing? ==>
      var u := if t.TPtr? then t.elem else t;
      r.value.key == key && u.TStruct? && key !in u.fieldNames
  {
    var u := if t.TPtr? then t.elem else t;
    match u
    case TMap => None
    case TIface => None
    case TStruct(names) =>
      if key in names then None else Some(FieldMissing(key, LastSimilar(names, key)))
    case _ => Some(Unsupported)
  }

  /** canGetKey: strips one pointer level, accepts maps and interfaces, and
      accepts a struct only with a field named exactly key; otherwise it scans
      the fields for a case-insensitive look-alike to mention. */
  method CanGetKey(t: Type, key: string) returns (r: Option<KeyTypeError>)
    ensures r == KeyTypeCheck(t, key)
  {
    var u := t;
    if u.TPtr? {
      u := u.elem;
    }
    match u {
      case TMap =>
        return None;
      case TIface =>
        return None;
      case TStruct(names) =>
        if key !in names {
          var similar: Option<string> := None;
          var i := 0;
          while i < |names|
            invariant 0 <= i <= |names|
            invariant similar == LastSimilar(names[..i], key)
          {
            assert names[..i + 1][..i] == names[..i];
            if Lower(names[i]) == Lower(key) {
              similar := Some(names[i]);
            }
            i := i + 1;
          }
          assert names[..i] == names;
          return Some(FieldMissing(key, similar));
        }
        return None;
      case _ =>
        return Some(Unsupported);
    }
  }

  /** Exactly one pointer level is stripped before the kind is inspected. */
  lemma KeyTypeCheckStripsOnePointer(t: Type, key: string)
    ensures !t.TPtr? ==> KeyTypeCheck(TPtr(t), key) == KeyTypeCheck(t, key)
    ensures KeyTypeCheck(TPtr(TPtr(t)), key) == Some(Unsupported)
  {
  }

  /** The element types canGetKey accepts, in both directions. */
  lemma KeyTypeCheckAccepts(t: Type, key: string)
    ensures KeyTypeCheck(t, key).None? <==>
      var u := if t.TPtr? then t.elem else t;
      u.TMap? || u.TIface? || (u.TStruct? && key in u.fieldNames)
    ensures KeyTypeCheck(t, key) == Some(Unsupported) <==>
      var u := if t.TPtr? then t.elem else t;
      !(u.TMap? || u.TIface? || u.TStruct?)
  {
  }

  /** The hint names a field that matches key case-insensitively, the last
      one in declaration order, and is absent exactly when none does. */
  lemma KeyTypeCheckHint(names: seq<string>, key: string)
    requires key !in names
    ensures KeyTypeCheck(TStruct(names), key).Some?
    ensures var h := KeyTypeCheck(TStruct(names), key).value.similar;
      && (h.None? <==> forall i :: 0 <= i < |names| ==> !Similar(names[i], key))
      && (h.Some? ==> h.value in names && h.value != key && Similar(h.value, key))
      && h == LastSimilar(names, key)
  {
  }

  /** getKey: unwraps at most one interface level and one pointer level, then
      reads a map entry or a struct field; None stands for the invalid
      reflect.Value it returns otherwise. */
  function GetKey(v: Value, key: string): (r: Option<Value>)
    ensures IsNilItem(v) ==> r.None?
    ensures v.VIface? && v.dynamic.Some? && v.dynamic.value.VIface? ==> r.None?
    ensures v.VPtr? && v.target.Some? && (v.target.value.VPtr? || v.target.value.VIface?) ==> r.None?
    ensures (v.VIface? && v.dynamic.Some? && v.dynamic.value.VPtr? && v.dynamic.value.target.Some? &&
             v.dynamic.value.target.value.VPtr?) ==> r.None?
    ensures v.VInt? || v.VStr? || v.VSlice? ==> r.None?
    ensures v.VMap? && v.entries.Some? ==> (r.Some? <==> key in v.entries.value)
    ensures v.VMap? && v.entries.Some? && key in v.entries.value ==> r == Some(v.entries.value[key])
    ensures v.VStruct? ==> r == FieldByName(v.fields, key)
    ensures v.VIface? && v.dynamic.Some? && v.dynamic.value.VPtr? && v.dynamic.value.target.None? ==> r.None?
    ensures r.Some? ==> exists w: Value ::
              && (w.VMap? || w.VStruct?)
              && (v == w || v == VPtr(Some(w)) || v == VIface(Some(w)) || v == VIface(Some(VPtr(Some(w)))))
  {
    var u := if v.VIface? then v.dynamic else Some(v);
    match u
    case None => None
    case Some(w) =>
      var x := if w.VPtr? then w.target else Some(w);
      match x
      case None => None
      case Some(y) =>
        match y
        case VMap(entries) =>
          if entries.Some? && key in entries.value then Some(entries.value[key]) else None
        case VStruct(fields) => FieldByName(fields, key)
        case _ => None
  }

  /** One interface wrapper and one pointer are transparent to getKey. */
  lemma GetKeyThroughWrappers(w: Value, key: string)
    requires w.VMap? || w.VStruct?
    ensures GetKey(VPtr(Some(w)), key) == GetKey(w, key)
    ensures GetKey(VIface(Some(w)), key) == GetKey(w, key)
    ensures GetKey(VIface(Some(VPtr(Some(w)))), key) == GetKey(w, key)
  {
  }

  /** A struct element yields its field named exactly key, if it has one. */
  lemma GetKeyStructField(fields: seq<(string, Value)>, key: string)
    ensures GetKey(VStruct(fields), key).Some? <==> exists i :: 0 <= i < |fields| && fields[i].0 == key
  {
  }

  /** The key value of an item as the indexing pass stores and compares it:
      getKey succeeded and Interface() of the result is not nil. */
  function ItemKey(item: Value, key: string): (r: Option<Value>)
    ensures r.None? <==> GetKey(item, key).None? || GetKey(item, key) == Some(VIface(None))
    ensures GetKey(item, key).Some? && !GetKey(item, key).value.VIface? ==> r == GetKey(item, key)
    ensures GetKey(item, key).Some? && GetKey(item, key).value.VIface? ==> r == GetKey(item, key).value.dynamic
  {
    match GetKey(item, key)
    case None => None
    case Some(k) => Dynamic(k)
  }
}
