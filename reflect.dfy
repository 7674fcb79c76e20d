/** The small part of Go's run-time reflection that the comparators inspect:
    a value carries its own kind, and the nil-able kinds (map, pointer,
    interface) carry an Option that is None exactly when the value is nil. */
module Reflect {
  import opened Wrappers

  /** Static types, as far as the element type of a slice is inspected. */
  datatype Type =
    | TInt
    | TStr
    | TSlice(elem: Type)
    | TMap
    | TStruct(fieldNames: seq<string>)
    | TPtr(elem: Type)
    | TIface

  /** A reflect.Value. */
  datatype Value =
    | VInt(n: int)
    | VStr(s: string)
    | VSlice(elem: Type, items: seq<Value>)
    | VMap(entries: Option<map<string, Value>>)
    | VStruct(fields: seq<(string, Value)>)
    | VPtr(target: Option<Value>)
    | VIface(dynamic: Option<Value>)

  /** item.IsNil() for the kinds on which the by-key check asks it:
      interface, map and pointer. */
  predicate IsNilItem(v: Value): (b: bool)
    ensures b <==> v == VIface(None) || v == VMap(None) || v == VPtr(None)
  {
    match v
    case VIface(d) => d.None?
    case VMap(m) => m.None?
    case VPtr(t) => t.None?
    case _ => false
  }

  /** v.Interface() compared with nil: None when v is a nil interface,
      otherwise the dynamic value (an interface yields what it holds). */
  function Dynamic(v: Value): (r: Option<Value>)
    ensures r.None? <==> v == VIface(None)
    ensures v.VIface? ==> r == v.dynamic
    ensures !v.VIface? ==> r == Some(v)
  {
    if v.VIface? then v.dynamic else Some(v)
  }

  /** reflect.Type.Comparable() of the dynamic type of v: maps and slices are
      not comparable, a struct is comparable when all its fields are, and
      scalars, pointers and interfaces are. */
  predicate Comparable(v: Value): (b: bool)
    ensures b ==> !v.VMap? && !v.VSlice?
    ensures !v.VStruct? ==> (b <==> !v.VMap? && !v.VSlice?)
    ensures v.VStruct? && b ==> forall i :: 0 <= i < |v.fields| ==> !v.fields[i].1.VMap? && !v.fields[i].1.VSlice?
    ensures (&& v.VStruct?
             && forall i :: 0 <= i < |v.fields| ==>
                  v.fields[i].1.VInt? || v.fields[i].1.VStr? || v.fields[i].1.VPtr? || v.fields[i].1.VIface?)
            ==> b
  {
    match v
    case VInt(_) => true
    case VStr(_) => true
    case VPtr(_) => true
    case VIface(_) => true
    case VSlice(_, _) => false
    case VMap(_) => false
    case VStruct(fields) => forall i :: 0 <= i < |fields| ==> Comparable(fields[i].1)
  }

  /** reflect.Value.FieldByName on the fields of a struct: the first field
      with exactly that name. */
  function FieldByName(fields: seq<(string, Value)>, name: string): (r: Option<Value>)
    ensures r.None? <==> forall i :: 0 <= i < |fields| ==> fields[i].0 != name
    ensures r.Some? ==> exists i :: 0 <= i < |fields| && fields[i] == (name, r.value)
                                    && forall k :: 0 <= k < i ==> fields[k].0 != name
    decreases |fields|
  {
    if fields == [] then None
    else if fields[0].0 == name then Some(fields[0].1)
    else
      var r := FieldByName(fields[1..], name);
      assert forall k :: 1 <= k < |fields| ==> fields[k] == fields[1..][k - 1];
      r
  }

  /** strings.ToLower, on ASCII letters. */
  function LowerChar(c: char): (d: char)
    ensures 'A' <= c <= 'Z' ==> d == "abcdefghijklmnopqrstuvwxyz"[c as int - 'A' as int]
    ensures !('A' <= c <= 'Z') ==> d == c
  {
    if 'A' <= c <= 'Z' then (c as int + 32) as char else c
  }

  function Lower(s: string): string {
    if s == [] then [] else [LowerChar(s[0])] + Lower(s[1..])
  }

  /** strings.ToLower lowers each character in place. */
  lemma {:induction false} LowerPointwise(s: string)
    ensures |Lower(s)| == |s| && forall i :: 0 <= i < |s| ==> Lower(s)[i] == LowerChar(s[i])
  {
    if s != [] {
      LowerPointwise(s[1..]);
    }
  }
}
