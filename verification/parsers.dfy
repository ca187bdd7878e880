/**
 * The parsers of impl/parser/builtins.py and their sibling revision in impl/parser/stdlib.py:
 * `NoneParser`, `IntParser`, `BoolParser`, `StringParser`, `TupleParser`, `CollectionParser`,
 * `UnionParser`, plus `EnumParser.loads`/`dumps` (impl/parser/enum.py). A parser is a value;
 * `Loads` and `Dumps` are its two directions.
 */
module Parsers {
  import opened Wrappers
  import opened PyTypes
  import opened Values
  import Text
  import IntCodec
  import Enums
  import OrderedDicts

  /** The two revisions of the parser module; they differ in `TupleParser`'s default inner parsers. */
  datatype Revision = BuiltinsRevision | StdlibRevision

  /** Parser classes, as keys of the registry. Float, datetime and entity parsers are `OtherParserC`. */
  datatype ParserClass =
    | NoneParserC
    | IntParserC
    | BoolParserC
    | StringParserC
    | TupleParserC
    | CollectionParserC
    | UnionParserC
    | EnumParserC
    | OtherParserC(name: string)

  /** Parser instances with their attributes. */
  datatype Parser =
    | NoneP(strict: bool)
    | IntP(signed: bool, base: nat)
    | BoolP(trues: set<string>, falses: set<string>)
    | StrP
    | TupleP(inner: seq<Parser>, sep: string)
    | CollP(elem: Parser, collectionType: TypeKey, sep: string)
    | UnionP(alts: seq<Parser>, optional: bool)
    | EnumP(enumClass: EnumClass, byValue: bool, valueParser: Parser)
    | ExtP(ext: ParserClass)               // a parser whose behaviour lies outside this model

  function ClassOf(p: Parser): ParserClass
  {
    match p
    case NoneP(_) => NoneParserC
    case IntP(_, _) => IntParserC
    case BoolP(_, _) => BoolParserC
    case StrP => StringParserC
    case TupleP(_, _) => TupleParserC
    case CollP(_, _, _) => CollectionParserC
    case UnionP(_, _) => UnionParserC
    case EnumP(_, _, _) => EnumParserC
    case ExtP(c) => c
  }

  /** The invariant every constructor establishes: an `IntParser`'s base lies in 2..36. */
  predicate WellFormed(p: Parser)
  {
    match p
    case IntP(_, base) => 2 <= base <= 36
    case TupleP(inner, _) => forall i :: 0 <= i < |inner| ==> WellFormed(inner[i])
    case CollP(elem, _, _) => WellFormed(elem)
    case UnionP(alts, _) => forall i :: 0 <= i < |alts| ==> WellFormed(alts[i])
    case EnumP(_, _, vp) => WellFormed(vp)
    case _ => true
  }

  /**
   * What parsing depends on besides the parser itself: the class hierarchy, the reverse index
   * of the registry (`default_types`), and the behaviour of the parsers outside this model.
   */
  datatype Env = Env(
    h: Hierarchy,
    defaults: OrderedDicts.Dict<ParserClass, seq<TypeKey>>,
    extLoads: (ParserClass, string) -> Result<Value>,
    extDumps: (ParserClass, Value) -> Result<string>)

  /** `default_types()`: the registered types of the class, `KeyError` for an unregistered class. */
  function DefaultTypes(env: Env, c: ParserClass): (r: Result<seq<TypeKey>>)
    ensures r.Ok? <==> c in OrderedDicts.Keys(env.defaults)
    ensures r.Ok? ==> OrderedDicts.Get(env.defaults, c) == Some(r.value)
    ensures r.Err? ==> r.exc == KeyError
  {
    match OrderedDicts.Get(env.defaults, c)
    case None => Err(KeyError)
    case Some(ts) => Ok(ts)
  }

  // ---- construction ----

  const DEFAULT_TRUES: set<string> := {"true", "t", "yes", "y", "1"}
  const DEFAULT_FALSES: set<string> := {"false", "f", "no", "n", "0"}

  /** `IntParser(signed=..., base=...)`: a base outside 2..36 raises `ValueError`. */
  function IntNew(signed: bool, base: int): (r: Result<Parser>)
    ensures r.Ok? <==> 2 <= base <= 36
    ensures r.Ok? ==> r.value == IntP(signed, base) && WellFormed(r.value)
    ensures r.Err? ==> r.exc == ValueError
  {
    if 2 <= base <= 36 then Ok(IntP(signed, base)) else Err(ValueError)
  }

  /** `BoolParser(trues, falses)`: an omitted collection means the default one. */
  function BoolNew(trues: Option<set<string>>, falses: Option<set<string>>): (p: Parser)
    ensures p.BoolP? && p.trues == trues.GetOr(DEFAULT_TRUES) && p.falses == falses.GetOr(DEFAULT_FALSES)
  {
    BoolP(trues.GetOr(DEFAULT_TRUES), falses.GetOr(DEFAULT_FALSES))
  }

  /**
   * `TupleParser(*inner_parsers, sep=sep)`: with no inner parsers the builtins revision uses a
   * single `StringParser`, the stdlib revision keeps none.
   */
  function TupleNew(rev: Revision, inner: seq<Parser>, sep: string): (p: Parser)
    ensures p.TupleP? && p.sep == sep
    ensures inner != [] ==> p.inner == inner
    ensures inner == [] ==> p.inner == if rev == BuiltinsRevision then [StrP] else []
  {
    TupleP(if inner == [] && rev == BuiltinsRevision then [StrP] else inner, sep)
  }

  /**
   * `_resolve_collection`: tuples are refused, a concrete class is kept, an abstract sequence
   * becomes `list` and an abstract set `set`, any other abstract class is refused.
   */
  function ResolveCollection(h: Hierarchy, t: TypeKey): (r: Result<TypeKey>)
    ensures r.Err? ==> r.exc == TypeError
    ensures r.Ok? <==> IsClass(h, t) && !Subclass(h, t, TUPLE)
                       && (h.classes[t].isAbstract ==> Subclass(h, t, SEQUENCE) || Subclass(h, t, ABSTRACT_SET))
    ensures r.Ok? && !h.classes[t].isAbstract ==> r.value == t
    ensures r.Ok? && h.classes[t].isAbstract ==> r.value == if Subclass(h, t, SEQUENCE) then LIST else SET
  {
    if !IsClass(h, t) || Subclass(h, t, TUPLE) then Err(TypeError)
    else if !h.classes[t].isAbstract then Ok(t)
    else if Subclass(h, t, SEQUENCE) then Ok(LIST)
    else if Subclass(h, t, ABSTRACT_SET) then Ok(SET)
    else Err(TypeError)
  }

  /**
   * `CollectionParser(inner_parser, collection_type=..., sep=...)`: the collection type
   * defaults to `list` and is otherwise resolved; the inner parser defaults to `StringParser`.
   */
  function CollNew(h: Hierarchy, elem: Option<Parser>, collectionType: Option<TypeKey>, sep: string): (r: Result<Parser>)
    ensures collectionType.None? ==> r == Ok(CollP(elem.GetOr(StrP), LIST, sep))
    ensures collectionType.Some? ==>
      match ResolveCollection(h, collectionType.value)
      case Ok(t) => r == Ok(CollP(elem.GetOr(StrP), t, sep))
      case Err(e) => r == Err(e)
  {
    var t :- if collectionType.None? then Ok(LIST) else ResolveCollection(h, collectionType.value);
    Ok(CollP(elem.GetOr(StrP), t, sep))
  }

  /** An argument of `UnionParser(...)`: a parser, or `None`/`NoneType` marking the union optional. */
  datatype UnionArg = NoneArg | ParserArg(parser: Parser)

  /** The alternative an argument contributes: `None` becomes a default `NoneParser`. */
  function AltOf(a: UnionArg): Parser
  {
    if a.NoneArg? then NoneP(true) else a.parser
  }

  /**
   * `UnionParser(*inner_parsers)`: fewer than two arguments raise `TypeError`; each `None` becomes
   * a strict `NoneParser` and makes the union optional; parsers are kept in order.
   */
  function UnionOf(args: seq<UnionArg>): (r: Result<Parser>)
    ensures r.Err? <==> |args| < 2
    ensures r.Err? ==> r.exc == TypeError
    ensures r.Ok? ==> r.value.UnionP? && |r.value.alts| == |args|
    ensures r.Ok? ==> forall i :: 0 <= i < |args| ==>
      r.value.alts[i] == if args[i].NoneArg? then NoneP(true) else args[i].parser
    ensures r.Ok? ==> (r.value.optional <==> NoneArg in args)
  {
    if |args| < 2 then Err(TypeError)
    else Ok(UnionP(seq(|args|, i requires 0 <= i < |args| => AltOf(args[i])), NoneArg in args))
  }

  /** The constructor loop of `UnionParser`, appending one alternative per argument. */
  method UnionNew(args: seq<UnionArg>) returns (r: Result<Parser>)
    ensures r == UnionOf(args)
  {
    if |args| < 2 {
      return Err(TypeError);
    }
    var optional := false;
    var alts: seq<Parser> := [];
    for i := 0 to |args|
      invariant |alts| == i
      invariant forall j :: 0 <= j < i ==> alts[j] == AltOf(args[j])
      invariant optional <==> NoneArg in args[..i]
    {
      if args[i].NoneArg? {
        alts := alts + [NoneP(true)];
        optional := true;
      } else {
        alts := alts + [args[i].parser];
      }
      assert args[..i + 1] == args[..i] + [args[i]];
    }
    assert args[..|args|] == args;
    assert alts == seq(|args|, i requires 0 <= i < |args| => AltOf(args[i]));
    r := Ok(UnionP(alts, optional));
  }

  /**
   * `cls.default()`: a no-argument instance. `UnionParser()` needs two arguments and
   * `EnumParser()` an enum class, so both raise `TypeError`.
   */
  function Default(rev: Revision, c: ParserClass): (r: Result<Parser>)
    ensures r.Err? <==> c == UnionParserC || c == EnumParserC
    ensures r.Err? ==> r.exc == TypeError
    ensures r.Ok? ==> ClassOf(r.value) == c && WellFormed(r.value)
    ensures c == TupleParserC ==> r == Ok(TupleNew(rev, [], ","))
    ensures c == CollectionParserC ==> r == Ok(CollP(StrP, LIST, ","))
    ensures c == IntParserC ==> r == Ok(IntP(true, 36))
  {
    match c
    case NoneParserC => Ok(NoneP(true))
    case IntParserC => Ok(IntP(true, 36))
    case BoolParserC => Ok(BoolNew(None, None))
    case StringParserC => Ok(StrP)
    case TupleParserC => Ok(TupleNew(rev, [], ","))
    case CollectionParserC => Ok(CollP(StrP, LIST, ","))
    case UnionParserC => Err(TypeError)
    case EnumParserC => Err(TypeError)
    case OtherParserC(_) => Ok(ExtP(c))
  }

  // ---- loads ----

  /** The parts a collection keeps: the whitespace-only ones are dropped, empty ones stay. */
  function NonSpace(parts: seq<string>): (r: seq<string>)
    ensures |r| <= |parts|
    ensures forall x :: x in r <==> x in parts && !Text.IsSpace(x)
    ensures (forall i :: 0 <= i < |parts| ==> !Text.IsSpace(parts[i])) ==> r == parts
  {
    if parts == [] then []
    else if Text.IsSpace(parts[0]) then NonSpace(parts[1..])
    else [parts[0]] + NonSpace(parts[1..])
  }

  /** The first alternative's success; `RuntimeError` when every alternative raises. */
  function FirstOk(rs: seq<Result<Value>>): (r: Result<Value>)
    ensures r.Err? <==> forall i :: 0 <= i < |rs| ==> rs[i].Err?
    ensures r.Err? ==> r.exc == RuntimeError
    ensures r.Ok? ==> exists k :: 0 <= k < |rs| && rs[k] == r && forall j :: 0 <= j < k ==> rs[j].Err?
  {
    if rs == [] then Err(RuntimeError)
    else if rs[0].Ok? then rs[0]
    else
      var r := FirstOk(rs[1..]);
      assert r.Ok? ==> forall j :: 1 <= j < |rs| ==> rs[j] == rs[1..][j - 1];
      r
  }

  /** `parser.loads(argument)`. */
  function Loads(env: Env, p: Parser, s: string): (r: Result<Value>)
    requires WellFormed(p)
    decreases p
  {
    match p
    case NoneP(strict) => if s == "" || !strict then Ok(VNone) else Err(ValueError)
    case IntP(signed, base) =>
      var n :- IntCodec.ParseInt(s, base);
      if !signed && n < 0 then Err(ValueError) else Ok(VInt(n))
    case BoolP(trues, falses) =>
      if s in trues then Ok(VBool(true))
      else if s in falses then Ok(VBool(false))
      else Err(ValueError)
    case StrP => Ok(VStr(s))
    case TupleP(inner, sep) =>
      if sep == "" then Err(ValueError)
      else
        var parts := Text.Split(s, sep);
        if |parts| != |inner| then Err(RuntimeError)
        else
          var vs :- AllOk(seq(|inner|, i requires 0 <= i < |inner| => Loads(env, inner[i], parts[i])));
          Ok(VTuple(vs))
    case CollP(elem, collectionType, sep) =>
      if sep == "" then Err(ValueError)
      else
        var parts := NonSpace(Text.Split(s, sep));
        var vs :- AllOk(seq(|parts|, i requires 0 <= i < |parts| => Loads(env, elem, parts[i])));
        Ok(VColl(collectionType, vs))
    case UnionP(alts, optional) =>
      if s == "" && optional then Ok(VNone)
      else FirstOk(seq(|alts|, i requires 0 <= i < |alts| => Loads(env, alts[i], s)))
    case EnumP(e, byValue, vp) =>
      var v :- Loads(env, vp, s);
      if byValue then Enums.ByValue(e, v) else Enums.ByName(e, v)
    case ExtP(c) => env.extLoads(c, s)
  }

  // ---- dumps ----

  /**
   * The alternative a union dumps with: the first whose `default_types()` the value is an
   * instance of. Unregistered classes raise `KeyError`, special forms `TypeError`.
   */
  function ChooseAlt(env: Env, alts: seq<Parser>, v: Value, i: nat): (r: Result<Option<nat>>)
    requires i <= |alts|
    decreases |alts| - i
    ensures r.Ok? && r.value.Some? ==> i <= r.value.value < |alts|
    ensures r.Ok? && r.value.Some? ==>
      exists ts :: DefaultTypes(env, ClassOf(alts[r.value.value])) == Ok(ts)
                   && IsInstanceOfAny(env.h, TypeOf(v), ts) == Ok(true)
    ensures r.Ok? ==> forall j :: i <= j < (if r.value.Some? then r.value.value else |alts|) ==>
      exists ts :: DefaultTypes(env, ClassOf(alts[j])) == Ok(ts)
                   && IsInstanceOfAny(env.h, TypeOf(v), ts) == Ok(false)
  {
    if i == |alts| then Ok(None)
    else
      var ts :- DefaultTypes(env, ClassOf(alts[i]));
      var hit :- IsInstanceOfAny(env.h, TypeOf(v), ts);
      if hit then Ok(Some(i)) else ChooseAlt(env, alts, v, i + 1)
  }

  /** `parser.dumps(argument)`. */
  function Dumps(env: Env, p: Parser, v: Value): (r: Result<string>)
    requires WellFormed(p)
    decreases p
  {
    match p
    case NoneP(strict) => if v == VNone || !strict then Ok("") else Err(ValueError)
    case IntP(_, base) =>
      (match v
       case VInt(n) => Ok(IntCodec.IntDumps(n, base))
       case VBool(b) => Ok(if b then "True" else "False")
       case VMember(e, _, _) => if e.mixin.Some? then Err(Unmodelled) else Err(TypeError)
       case _ => Err(TypeError))
    case BoolP(_, _) => Ok(if Truthy(v) then "1" else "0")
    case StrP => if v.VStr? then Ok(v.s) else Err(Unmodelled)
    case TupleP(inner, sep) =>
      (match Items(v)
       case None => Err(TypeError)
       case Some(items) =>
         if |items| != |inner| then Err(RuntimeError)
         else
           var ds :- AllOk(seq(|inner|, i requires 0 <= i < |inner| => Dumps(env, inner[i], items[i])));
           Ok(Text.Join(ds, sep)))
    case CollP(elem, _, _) =>
      (match Items(v)
       case None => Err(TypeError)
       case Some(items) =>
         var ds :- AllOk(seq(|items|, i requires 0 <= i < |items| => Dumps(env, elem, items[i])));
         Ok(Text.Join(ds, ",")))
    case UnionP(alts, optional) =>
      if !Truthy(v) && optional then Ok("")
      else
        var k :- ChooseAlt(env, alts, v, 0);
        if k.None? then Err(RuntimeError) else Dumps(env, alts[k.value], v)
    case EnumP(e, byValue, vp) =>
      if !v.VMember? then Err(AttributeError)
      else if byValue then Dumps(env, vp, v.value)
      else if v.enum.kind == DisnakeFlags then Err(AssertionError)
      else Dumps(env, vp, VStr(v.name))
    case ExtP(c) => env.extDumps(c, v)
  }
}
