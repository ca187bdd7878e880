/**
 * Python values that custom-id fields hold, and the type annotations that pick their parsers.
 */
module Values {
  import opened Wrappers
  import opened PyTypes
  import IntCodec

  /** Plain `enum.Enum` (possibly with a mixin type), `enum.Flag`, or disnake's `BaseFlags`. */
  datatype EnumKind = PlainEnum | StdFlag | DisnakeFlags

  datatype Member = Member(name: string, value: Value)

  /**
   * An enum or flag class: its class name, its kind, the `_member_type_` mixin when it is
   * not `object`, and its canonical members in definition order (aliases are not modelled).
   */
  datatype EnumClass = EnumClass(key: TypeKey, kind: EnumKind, mixin: Option<TypeKey>, members: seq<Member>)

  datatype Value =
    | VNone
    | VBool(b: bool)
    | VInt(i: int)
    | VStr(s: string)
    | VTuple(items: seq<Value>)
    | VColl(kind: TypeKey, items: seq<Value>)       // list, set, frozenset, ... in iteration order
    | VMember(enum: EnumClass, name: string, value: Value)
    | VObject(oclass: TypeKey, id: Option<int>)       // any other object; `id` is its `.id` attribute

  /** `type(v)`. */
  function TypeOf(v: Value): TypeKey
  {
    match v
    case VNone => NONE_TYPE
    case VBool(_) => BOOL
    case VInt(_) => INT
    case VStr(_) => STR
    case VTuple(_) => TUPLE
    case VColl(k, _) => k
    case VMember(c, _, _) => c.key
    case VObject(c, _) => c
  }

  /**
   * `bool(v)`. Enum members are always true unless a mixin type or `Flag` makes their truth
   * that of their value.
   */
  function Truthy(v: Value): bool
  {
    match v
    case VNone => false
    case VBool(b) => b
    case VInt(i) => i != 0
    case VStr(s) => |s| > 0
    case VTuple(items) => |items| > 0
    case VColl(_, items) => |items| > 0
    case VMember(c, _, value) => if c.kind == StdFlag || c.mixin.Some? then Truthy(value) else true
    case VObject(_, _) => true
  }

  /** The number a `bool` or `int` stands for in arithmetic and comparisons. */
  function Numeric(v: Value): Option<int>
  {
    match v
    case VBool(b) => Some(if b then 1 else 0)
    case VInt(i) => Some(i)
    case _ => None
  }

  /** `a == b` (collections compare item by item, as lists do). */
  predicate PyEq(a: Value, b: Value)
  {
    if Numeric(a).Some? || Numeric(b).Some? then Numeric(a) == Numeric(b)
    else match a
      case VNone => b.VNone?
      case VStr(s) => b.VStr? && b.s == s
      case VTuple(xs) => b.VTuple? && |xs| == |b.items| && forall i :: 0 <= i < |xs| ==> PyEq(xs[i], b.items[i])
      case VColl(k, xs) =>
        b.VColl? && b.kind == k && |xs| == |b.items| && forall i :: 0 <= i < |xs| ==> PyEq(xs[i], b.items[i])
      case VMember(c, n, _) => b.VMember? && b.enum == c && b.name == n
      case VObject(_, _) => a == b
      case _ => false
  }

  /** The items `for x in v` visits, or `None` when `v` is not iterable (strings yield characters). */
  function Items(v: Value): (r: Option<seq<Value>>)
    ensures v.VTuple? || v.VColl? ==> r == Some(v.items)
  {
    match v
    case VTuple(items) => Some(items)
    case VColl(_, items) => Some(items)
    case VStr(s) => Some(seq(|s|, i requires 0 <= i < |s| => VStr([s[i]])))
    case _ => None
  }

  /** `str(v)` for the scalar values; `None` for the values whose `str` this model leaves out. */
  function StrOf(v: Value): Option<string>
  {
    match v
    case VNone => Some("None")
    case VBool(b) => Some(if b then "True" else "False")
    case VInt(i) => Some(IntCodec.Decimal(i))
    case VStr(s) => Some(s)
    case _ => None
  }

  /**
   * A type annotation: a bare class or special form (no `typing.get_origin`), a subscripted
   * generic such as `Union[int, str]`, `Tuple[int, ...]` or `List[int]` (by its origin), or a
   * `Literal[...]` of values.
   */
  datatype Ty =
    | Plain(cls: TypeKey)
    | Generic(origin: TypeKey, args: seq<Ty>)
    | Lit(values: seq<Value>)

  /** `typing.get_origin(t)`. */
  function Origin(t: Ty): Option<TypeKey>
  {
    match t
    case Plain(_) => None
    case Generic(o, _) => Some(o)
    case Lit(_) => Some(LITERAL)
  }

  function Optional(t: Ty): Ty
  {
    Generic(UNION, [t, Plain(NONE_TYPE)])
  }
}
