/**
 * Component fields: attrs attributes carrying the library's metadata. A field may name its
 * own parser (`fields.field(parser=...)`) or be marked internal (`fields.internal(...)`), and
 * the component metaclass later tags every field with its kind.
 */
module Fields {
  import opened Wrappers
  import opened Values
  import Parsers

  /** `FieldType`: whether a field is stored in the custom id or is internal state. */
  datatype FieldType = CustomIdField | InternalField

  /** The metadata keys the library uses, and any other key a user adds. */
  datatype MetaKey = ParserKey | InternalKey | FieldTypeKey | OtherKey(key: string)

  datatype MetaValue =
    | MParser(parser: Option<Parsers.Parser>)   // a parser, or None
    | MBool(b: bool)
    | MFieldType(kind: FieldType)
    | MOther(v: Value)

  /**
   * An attrs attribute: its name, annotation (`field.type`), default, whether `__init__`
   * takes it and only by keyword, whether setting it is refused, and its metadata.
   */
  datatype Field = Field(
    name: string,
    ty: Option<Ty>,
    default: Option<Value>,
    init: bool,
    kwOnly: bool,
    frozen: bool,
    metadata: map<MetaKey, MetaValue>)

  /** An attrs class: its name and its fields in declaration order. */
  datatype ComponentClass = ComponentClass(name: string, fields: seq<Field>)

  /** `bool(x)` for a metadata value; parsers and enum members are always true. */
  function MetaTruthy(v: MetaValue): bool
  {
    match v
    case MParser(p) => p.Some?
    case MBool(b) => b
    case MFieldType(_) => true
    case MOther(x) => Truthy(x)
  }

  /** `is_internal(field)`: `bool(field.metadata.get(INTERNAL))`. */
  predicate IsInternal(f: Field)
  {
    InternalKey in f.metadata && MetaTruthy(f.metadata[InternalKey])
  }

  /** The fields that are not internal, in declaration order. */
  function NonInternal(fs: seq<Field>): (r: seq<Field>)
    ensures |r| <= |fs|
    ensures forall i :: 0 <= i < |r| ==> r[i] in fs && !IsInternal(r[i])
    ensures forall i :: 0 <= i < |fs| && !IsInternal(fs[i]) ==> fs[i] in r
  {
    if fs == [] then []
    else if IsInternal(fs[0]) then NonInternal(fs[1..])
    else [fs[0]] + NonInternal(fs[1..])
  }

  /** `get_fields(cls, internal=...)`. */
  function GetFields(cls: ComponentClass, internal: bool): (r: seq<Field>)
    ensures internal ==> r == cls.fields
    ensures !internal ==> forall i :: 0 <= i < |r| ==> r[i] in cls.fields && !IsInternal(r[i])
    ensures !internal ==> forall i :: 0 <= i < |cls.fields| && !IsInternal(cls.fields[i]) ==> cls.fields[i] in r
  {
    if internal then cls.fields else NonInternal(cls.fields)
  }

  /** Filtering keeps declaration order: it distributes over concatenation. */
  lemma {:induction false} NonInternalAppend(a: seq<Field>, b: seq<Field>)
    ensures NonInternal(a + b) == NonInternal(a) + NonInternal(b)
  {
    if a != [] {
      assert (a + b)[0] == a[0] && (a + b)[1..] == a[1..] + b;
      NonInternalAppend(a[1..], b);
      if !IsInternal(a[0]) {
        assert [a[0]] + NonInternal(a[1..]) + NonInternal(b) == [a[0]] + (NonInternal(a[1..]) + NonInternal(b));
      }
    } else {
      assert a + b == b;
    }
  }

  /** Filtering twice is filtering once. */
  lemma {:induction false} NonInternalIdempotent(fs: seq<Field>)
    ensures NonInternal(NonInternal(fs)) == NonInternal(fs)
  {
    if fs != [] {
      NonInternalIdempotent(fs[1..]);
      if !IsInternal(fs[0]) {
        var rest := NonInternal(fs[1..]);
        assert ([fs[0]] + rest)[0] == fs[0] && ([fs[0]] + rest)[1..] == rest;
      }
    }
  }

  function Names(fs: seq<Field>): (r: seq<string>)
    ensures |r| == |fs| && forall i :: 0 <= i < |fs| ==> r[i] == fs[i].name
  {
    if fs == [] then [] else [fs[0].name] + Names(fs[1..])
  }

  /** `get_parser(field)`: the parser stored under `PARSER`, if any. */
  function ExplicitParser(f: Field): Option<Parsers.Parser>
  {
    if ParserKey in f.metadata && f.metadata[ParserKey].MParser? then f.metadata[ParserKey].parser else None
  }

  /** The fields whose `FIELDTYPE` metadata is `kind` (`get_fields(cls, kind=kind)`), in declaration order. */
  function OfKind(fs: seq<Field>, kind: FieldType): (r: seq<Field>)
    ensures |r| <= |fs|
    ensures forall i :: 0 <= i < |r| ==> r[i] in fs && MapGet(r[i].metadata, FieldTypeKey) == Some(MFieldType(kind))
    ensures forall i :: 0 <= i < |fs| && MapGet(fs[i].metadata, FieldTypeKey) == Some(MFieldType(kind)) ==> fs[i] in r
  {
    if fs == [] then []
    else if FieldTypeKey in fs[0].metadata && fs[0].metadata[FieldTypeKey] == MFieldType(kind) then [fs[0]] + OfKind(fs[1..], kind)
    else OfKind(fs[1..], kind)
  }

  /** `field(default, parser=parser)` bound to `name`: keyword-only, with the parser under `PARSER`. */
  function MakeField(name: string, ty: Option<Ty>, default: Value, parser: Option<Parsers.Parser>): (f: Field)
    ensures f.name == name && f.default == Some(default) && f.init && f.kwOnly && !f.frozen
    ensures ExplicitParser(f) == parser && !IsInternal(f)
  {
    Field(name, ty, Some(default), true, true, false, map[ParserKey := MParser(parser)])
  }

  /** `internal(default, frozen=frozen)` bound to `name`: never in `__init__`, frozen iff asked. */
  function MakeInternal(name: string, ty: Option<Ty>, default: Value, frozen: bool): (f: Field)
    ensures f.name == name && f.default == Some(default) && !f.init && f.frozen == frozen
    ensures IsInternal(f) && ExplicitParser(f) == None
  {
    Field(name, ty, Some(default), false, false, frozen, map[InternalKey := MBool(true)])
  }

  /**
   * `cls(**kwargs)` on an attrs class whose fields are keyword-only: every `__init__` field
   * takes its keyword argument or else its default; a missing required argument or an unknown
   * keyword is a `TypeError`. A non-`__init__` field gets its default, if it has one.
   */
  function Instantiate(cls: ComponentClass, kwargs: map<string, Value>): (r: Result<map<string, Value>>)
    ensures r.Ok? <==> ((forall k :: k in kwargs ==> exists i :: 0 <= i < |cls.fields| && cls.fields[i].name == k && cls.fields[i].init)
                        && forall i :: 0 <= i < |cls.fields| && cls.fields[i].init ==> cls.fields[i].name in kwargs || cls.fields[i].default.Some?)
    ensures r.Err? ==> r.exc == TypeError
  {
    if !(forall k :: k in kwargs ==> exists i :: 0 <= i < |cls.fields| && cls.fields[i].name == k && cls.fields[i].init) then Err(TypeError)
    else if !(forall i :: 0 <= i < |cls.fields| && cls.fields[i].init ==> cls.fields[i].name in kwargs || cls.fields[i].default.Some?) then Err(TypeError)
    else Ok(Attributes(cls.fields, kwargs))
  }

  /** The attribute values `__init__` leaves on the instance. */
  function Attributes(fs: seq<Field>, kwargs: map<string, Value>): (attrs: map<string, Value>)
  {
    if fs == [] then map[]
    else
      var rest := Attributes(fs[1..], kwargs);
      var f := fs[0];
      if f.init && f.name in kwargs then rest[f.name := kwargs[f.name]]
      else if f.default.Some? then rest[f.name := f.default.value]
      else rest
  }

  /**
   * With distinct field names, an `__init__` field passed by keyword holds that value, and any
   * other field holds its default.
   */
  lemma {:induction false} AttributesOf(fs: seq<Field>, kwargs: map<string, Value>, i: nat)
    requires i < |fs| && forall a, b :: 0 <= a < b < |fs| ==> fs[a].name != fs[b].name
    ensures fs[i].init && fs[i].name in kwargs ==> MapGet(Attributes(fs, kwargs), fs[i].name) == Some(kwargs[fs[i].name])
    ensures !(fs[i].init && fs[i].name in kwargs) ==> MapGet(Attributes(fs, kwargs), fs[i].name) == fs[i].default
  {
    if i > 0 {
      assert forall a, b :: 0 <= a < b < |fs[1..]| ==> fs[1..][a].name != fs[1..][b].name by {
        forall a, b | 0 <= a < b < |fs[1..]| ensures fs[1..][a].name != fs[1..][b].name {
          assert fs[1..][a] == fs[a + 1] && fs[1..][b] == fs[b + 1];
        }
      }
      AttributesOf(fs[1..], kwargs, i - 1);
      assert fs[1..][i - 1] == fs[i];
      assert fs[0].name != fs[i].name;
    } else {
      if !(fs[0].init && fs[0].name in kwargs) && fs[0].default.None? {
        AttributesMissing(fs[1..], kwargs, fs[0].name);
      }
    }
  }

  lemma {:induction false} AttributesMissing(fs: seq<Field>, kwargs: map<string, Value>, name: string)
    requires forall i :: 0 <= i < |fs| ==> fs[i].name != name
    ensures name !in Attributes(fs, kwargs)
  {
    if fs != [] {
      AttributesMissing(fs[1..], kwargs, name);
    }
  }
}
