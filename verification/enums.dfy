/**
 * The enum and flag policy of `EnumParser` (impl/parser/enum.py): which type an enum's values
 * share, whether members are stored by value or by name, and the member lookups of `loads`.
 */
module Enums {
  import opened Wrappers
  import opened PyTypes
  import opened Values

  /** All members' values have exactly the type `t` (`type(value) == t`, no subclasses). */
  predicate AllOfType(members: seq<Member>, t: TypeKey) {
    forall i :: 0 <= i < |members| ==> TypeOf(members[i].value) == t
  }

  /**
   * `_get_enum_type`: `int` for disnake flags, the mixin type when there is one, else the type
   * of the first member's value if every member shares it, else `None`. An enum without
   * members makes `next()` raise `StopIteration`.
   */
  function GetEnumType(e: EnumClass): (r: Result<Option<TypeKey>>)
    ensures e.kind == DisnakeFlags ==> r == Ok(Some(INT))
    ensures e.kind != DisnakeFlags && e.mixin.Some? ==> r == Ok(e.mixin)
    ensures e.kind != DisnakeFlags && e.mixin.None? ==>
      && (r.Err? <==> e.members == [])
      && (r.Err? ==> r.exc == StopIteration)
      && (r.Ok? && r.value.Some? ==> AllOfType(e.members, r.value.value))
      && (r.Ok? && r.value.None? <==> e.members != [] && !AllOfType(e.members, TypeOf(e.members[0].value)))
  {
    if e.kind == DisnakeFlags then Ok(Some(INT))
    else if e.mixin.Some? then Ok(e.mixin)
    else if e.members == [] then Err(StopIteration)
    else
      var first := TypeOf(e.members[0].value);
      if AllOfType(e.members, first) then Ok(Some(first)) else Ok(None)
  }

  /** What `EnumParser.__init__` settles: store by value or by name, and the type the inner parser handles. */
  datatype Policy = Policy(byValue: bool, valueType: TypeKey)

  /**
   * The branches of `EnumParser.__init__` before the inner parser is resolved: disnake flags
   * cannot be stored by name; enums of mixed value types are stored by name as `str` unless by
   * value is demanded, which fails; otherwise the value type is kept and storage by value
   * defaults to "the value type is an `int`".
   */
  function EnumPolicy(h: Hierarchy, e: EnumClass, storeByValue: Option<bool>): (r: Result<Policy>)
    ensures e.kind == DisnakeFlags ==>
      (r.Ok? <==> storeByValue != Some(false)) && (r.Ok? ==> r.value == Policy(true, INT))
    ensures r.Ok? && storeByValue.Some? ==> r.value.byValue == storeByValue.value
    ensures GetEnumType(e) == Ok(None) ==>
      if storeByValue == Some(true) then r == Err(ValueError) else r == Ok(Policy(false, STR))
    ensures GetEnumType(e) == Ok(Some(INT)) && storeByValue.None? ==> r == Ok(Policy(true, INT))
    ensures r.Ok? && r.value.valueType != STR ==> GetEnumType(e) == Ok(Some(r.value.valueType))
    ensures r.Err? ==> r.exc in {ValueError, StopIteration}
  {
    var valueType :- GetEnumType(e);
    if e.kind == DisnakeFlags && storeByValue == Some(false) then Err(ValueError)
    else if valueType.None? && storeByValue != Some(true) then Ok(Policy(false, STR))
    else if valueType.Some? then
      Ok(Policy(storeByValue.GetOr(Subclass(h, valueType.value, INT)), valueType.value))
    else Err(ValueError)
  }

  /** `enum_class(value)`: the first member whose value equals `v`, else `ValueError`. */
  function ByValue(e: EnumClass, v: Value): (r: Result<Value>)
    ensures r.Ok? <==> exists i :: 0 <= i < |e.members| && PyEq(e.members[i].value, v)
    ensures r.Ok? ==> exists i :: 0 <= i < |e.members| && PyEq(e.members[i].value, v)
                         && r.value == VMember(e, e.members[i].name, e.members[i].value)
    ensures r.Err? ==> r.exc == ValueError
  {
    match FirstMember(e.members, (m: Member) => PyEq(m.value, v))
    case None => Err(ValueError)
    case Some(i) => Ok(VMember(e, e.members[i].name, e.members[i].value))
  }

  /** `enum_class[key]`: the member named `key`, else `KeyError` (non-string keys never match). */
  function ByName(e: EnumClass, key: Value): (r: Result<Value>)
    ensures r.Ok? <==> key.VStr? && exists i :: 0 <= i < |e.members| && e.members[i].name == key.s
    ensures r.Ok? ==> exists i :: 0 <= i < |e.members| && e.members[i].name == key.s
                         && r.value == VMember(e, e.members[i].name, e.members[i].value)
    ensures r.Err? ==> r.exc == KeyError
  {
    if !key.VStr? then Err(KeyError)
    else match FirstMember(e.members, (m: Member) => m.name == key.s)
      case None => Err(KeyError)
      case Some(i) => Ok(VMember(e, e.members[i].name, e.members[i].value))
  }

  /** The position of the first member satisfying `p`. */
  function FirstMember(ms: seq<Member>, p: Member -> bool): (r: Option<nat>)
    ensures r.Some? ==> r.value < |ms| && p(ms[r.value]) && forall j :: 0 <= j < r.value ==> !p(ms[j])
    ensures r.None? ==> forall j :: 0 <= j < |ms| ==> !p(ms[j])
  {
    if ms == [] then None
    else if p(ms[0]) then Some(0)
    else match FirstMember(ms[1..], p)
      case None => None
      case Some(i) => Some(i + 1)
  }

  lemma {:induction false} PyEqReflexive(v: Value)
    ensures PyEq(v, v)
  {
    match v
    case VTuple(xs) =>
      forall i | 0 <= i < |xs| ensures PyEq(xs[i], xs[i]) { PyEqReflexive(xs[i]); }
    case VColl(_, xs) =>
      forall i | 0 <= i < |xs| ensures PyEq(xs[i], xs[i]) { PyEqReflexive(xs[i]); }
    case _ =>
  }

  /** Values no two members share, in the sense of `==`. */
  predicate DistinctValues(e: EnumClass) {
    forall i, j :: 0 <= i < j < |e.members| ==> !PyEq(e.members[i].value, e.members[j].value)
  }

  predicate DistinctNames(e: EnumClass) {
    forall i, j :: 0 <= i < j < |e.members| ==> e.members[i].name != e.members[j].name
  }

  /** Looking a member up by its own value or its own name gives that member back. */
  lemma LookupOwnMember(e: EnumClass, k: nat)
    requires k < |e.members|
    ensures DistinctValues(e) ==>
      ByValue(e, e.members[k].value) == Ok(VMember(e, e.members[k].name, e.members[k].value))
    ensures DistinctNames(e) ==>
      ByName(e, VStr(e.members[k].name)) == Ok(VMember(e, e.members[k].name, e.members[k].value))
  {
    var m := e.members[k];
    PyEqReflexive(m.value);
    if DistinctValues(e) {
      var r := FirstMember(e.members, (x: Member) => PyEq(x.value, m.value));
      assert forall j :: 0 <= j < k ==> !PyEq(e.members[j].value, m.value);
      assert r.Some? && r.value <= k;
    }
    if DistinctNames(e) {
      var r := FirstMember(e.members, (x: Member) => x.name == m.name);
      assert forall j :: 0 <= j < k ==> e.members[j].name != m.name;
      assert r.Some? && r.value <= k;
    }
  }
}
