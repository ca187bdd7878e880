/**
 * The parser registry of impl/parser/base.py: the process-wide map `_PARSERS` from type to parser
 * class, the insertion-ordered reverse index `_REV_PARSERS` from parser class to its types,
 * `register_parser`, the two-phase lookup `_get_parser_type`, the recursive resolver
 * `get_parser`, and the enum parser's constructor, which resolves its inner parser through it.
 */
module Registry {
  import opened Wrappers
  import opened PyTypes
  import opened Values
  import opened OrderedDicts
  import opened Parsers
  import Enums

  /** A snapshot of `_PARSERS` and `_REV_PARSERS`. */
  datatype RegState = RegState(parsers: map<TypeKey, ParserClass>, rev: Dict<ParserClass, seq<TypeKey>>)

  /** The key `register_parser` stores for an annotation: its origin, or the annotation itself. */
  function KeyOf(t: Ty): TypeKey
  {
    match Origin(t)
    case Some(o) => o
    case None => t.cls
  }

  function KeysOf(types: seq<Ty>): seq<TypeKey>
  {
    seq(|types|, i requires 0 <= i < |types| => KeyOf(types[i]))
  }

  /** `_PARSERS[type] = parser` for each key in turn. */
  function BindAll(m: map<TypeKey, ParserClass>, ks: seq<TypeKey>, p: ParserClass): (r: map<TypeKey, ParserClass>)
    ensures forall k :: k in ks ==> k in r && r[k] == p
    ensures forall k :: k !in ks ==> (k in r <==> k in m) && (k in m ==> r[k] == m[k])
  {
    if ks == [] then m
    else
      var r := BindAll(m, ks[..|ks| - 1], p);
      assert forall k :: k in ks ==> k in ks[..|ks| - 1] || k == ks[|ks| - 1];
      r[ks[|ks| - 1] := p]
  }

  /** `_PARSERS.setdefault(type, parser)` for each key in turn. */
  function BindMissing(m: map<TypeKey, ParserClass>, ks: seq<TypeKey>, p: ParserClass): (r: map<TypeKey, ParserClass>)
    ensures forall k :: k in m ==> k in r && r[k] == m[k]
    ensures forall k :: k !in m ==> (k in r <==> k in ks) && (k in ks ==> r[k] == p)
  {
    if ks == [] then m
    else
      var r := BindMissing(m, ks[..|ks| - 1], p);
      assert forall k :: k in ks ==> k in ks[..|ks| - 1] || k == ks[|ks| - 1];
      if ks[|ks| - 1] in r then r else r[ks[|ks| - 1] := p]
  }

  lemma BindAllStep(m: map<TypeKey, ParserClass>, ks: seq<TypeKey>, i: nat, p: ParserClass)
    requires i < |ks|
    ensures BindAll(m, ks[..i + 1], p) == BindAll(m, ks[..i], p)[ks[i] := p]
  {
    assert ks[..i + 1][..i] == ks[..i];
  }

  lemma BindMissingStep(m: map<TypeKey, ParserClass>, ks: seq<TypeKey>, i: nat, p: ParserClass)
    requires i < |ks|
    ensures var r := BindMissing(m, ks[..i], p);
      BindMissing(m, ks[..i + 1], p) == if ks[i] in r then r else r[ks[i] := p]
  {
    assert ks[..i + 1][..i] == ks[..i];
  }

  /** The registry after `register_parser(p, *types, force=force)`. */
  function Registered(st: RegState, p: ParserClass, types: seq<Ty>, force: bool): RegState
  {
    var ks := KeysOf(types);
    if force then RegState(BindAll(st.parsers, ks, p), Put(st.rev, p, ks))
    else RegState(BindMissing(st.parsers, ks, p), SetDefault(st.rev, p, ks))
  }

  /** Entry `i` of the reverse index is the first whose types `t` is a subclass of (or one of). */
  predicate FirstHit(h: Hierarchy, rev: Dict<ParserClass, seq<TypeKey>>, t: TypeKey, i: int)
  {
    && 0 <= i < |rev| && SubclassOrSame(h, t, rev[i].1)
    && forall j :: 0 <= j < i ==> !SubclassOrSame(h, t, rev[j].1)
  }

  /** The slow phase of `_get_parser_type`: scan the reverse index in insertion order. */
  function ScanRev(h: Hierarchy, rev: Dict<ParserClass, seq<TypeKey>>, t: TypeKey): (r: Result<ParserClass>)
    ensures r.Ok? <==> exists i :: 0 <= i < |rev| && SubclassOrSame(h, t, rev[i].1)
    ensures r.Ok? ==> exists i :: FirstHit(h, rev, t, i) && r.value == rev[i].0
    ensures r.Err? ==> r.exc == TypeError
  {
    if rev == [] then Err(TypeError)
    else if SubclassOrSame(h, t, rev[0].1) then
      assert FirstHit(h, rev, t, 0);
      Ok(rev[0].0)
    else
      var r := ScanRev(h, rev[1..], t);
      ScanShift(h, rev, t);
      r
  }

  lemma ScanShift(h: Hierarchy, rev: Dict<ParserClass, seq<TypeKey>>, t: TypeKey)
    requires rev != [] && !SubclassOrSame(h, t, rev[0].1)
    ensures (exists i :: 0 <= i < |rev| && SubclassOrSame(h, t, rev[i].1)) <==>
            (exists i :: 0 <= i < |rev[1..]| && SubclassOrSame(h, t, rev[1..][i].1))
    ensures forall i :: FirstHit(h, rev[1..], t, i) ==> FirstHit(h, rev, t, i + 1) && rev[1..][i] == rev[i + 1]
  {
    assert forall j :: 1 <= j < |rev| ==> rev[j] == rev[1..][j - 1];
  }

  /** `_get_parser_type`: the exact binding if there is one, else the first supertype hit. */
  function ParserTypeOf(h: Hierarchy, st: RegState, t: TypeKey): (r: Result<ParserClass>)
    ensures t in st.parsers ==> r == Ok(st.parsers[t])
    ensures t !in st.parsers ==> r == ScanRev(h, st.rev, t)
  {
    if t in st.parsers then Ok(st.parsers[t]) else ScanRev(h, st.rev, t)
  }

  /** `_get_parser_type(cls).default()`. */
  function DefaultFor(rv: Revision, h: Hierarchy, st: RegState, cls: TypeKey): (r: Result<Parser>)
    ensures r.Ok? ==> Parsers.WellFormed(r.value)
    ensures r.Err? ==> r.exc == TypeError
  {
    var c :- ParserTypeOf(h, st, cls);
    Default(rv, c)
  }

  /** `parser_type(*inner_parsers)` for the union and tuple branches of `get_parser`. */
  function Construct(rv: Revision, c: ParserClass, inner: seq<Parser>): (r: Result<Parser>)
    requires forall i :: 0 <= i < |inner| ==> Parsers.WellFormed(inner[i])
    ensures r.Ok? ==> Parsers.WellFormed(r.value)
    ensures r.Err? ==> r.exc in {TypeError, Unmodelled}
  {
    if c == UnionParserC then UnionOf(seq(|inner|, i requires 0 <= i < |inner| => ParserArg(inner[i])))
    else if c == TupleParserC then Ok(TupleNew(rv, inner, ","))
    else Err(Unmodelled)
  }

  /**
   * `get_parser(type_)`: a type without origin gets its parser class's `default()`; otherwise
   * the origin's parser class is looked up first, then a `Union` becomes a union of the
   * arguments' parsers, a tuple subclass a tuple of them, and a collection subclass a collection
   * of the first argument's parser (`str` when there is none). Anything else is a `TypeError`.
   */
  function GetParser(rv: Revision, h: Hierarchy, st: RegState, t: Ty): (r: Result<Parser>)
    decreases t
    ensures r.Ok? ==> Parsers.WellFormed(r.value)
    ensures r.Err? ==> r.exc in {TypeError, Unmodelled}
    ensures t.Lit? ==> r.Err?
  {
    match t
    case Plain(cls) => DefaultFor(rv, h, st, cls)
    case Lit(_) =>
      var _ :- ParserTypeOf(h, st, LITERAL);
      Err(TypeError)
    case Generic(o, args) =>
      var c :- ParserTypeOf(h, st, o);
      if o == UNION || (IsClass(h, o) && Subclass(h, o, TUPLE)) then
        var inner :- AllOk(seq(|args|, i requires 0 <= i < |args| => GetParser(rv, h, st, args[i])));
        Construct(rv, c, inner)
      else if IsClass(h, o) && Subclass(h, o, COLLECTION) then
        var elem :- if args == [] then DefaultFor(rv, h, st, STR) else GetParser(rv, h, st, args[0]);
        if c == CollectionParserC then CollNew(h, Some(elem), Some(o), ",") else Err(Unmodelled)
      else Err(TypeError)
  }

  /**
   * `EnumParser(enum_class, store_by_value=...)`: the policy is settled first, then the inner
   * parser is `get_parser(value_type)`.
   */
  function EnumNew(rv: Revision, h: Hierarchy, st: RegState, e: EnumClass, storeByValue: Option<bool>): (r: Result<Parser>)
    ensures Enums.EnumPolicy(h, e, storeByValue).Err? ==> r == Err(Enums.EnumPolicy(h, e, storeByValue).exc)
    ensures r.Ok? ==> Enums.EnumPolicy(h, e, storeByValue).Ok? && Parsers.WellFormed(r.value)
    ensures r.Ok? ==> var pol := Enums.EnumPolicy(h, e, storeByValue).value;
      && r.value.EnumP? && r.value.enumClass == e && r.value.byValue == pol.byValue
      && GetParser(rv, h, st, Plain(pol.valueType)) == Ok(r.value.valueParser)
  {
    var pol :- Enums.EnumPolicy(h, e, storeByValue);
    var vp :- GetParser(rv, h, st, Plain(pol.valueType));
    Ok(EnumP(e, pol.byValue, vp))
  }

  /** The registry as mutable state: `_PARSERS` and `_REV_PARSERS`. */
  class Registry {
    var parsers: map<TypeKey, ParserClass>
    var rev: Dict<ParserClass, seq<TypeKey>>

    function State(): RegState
      reads this
    {
      RegState(parsers, rev)
    }

    constructor ()
      ensures State() == RegState(map[], [])
    {
      parsers := map[];
      rev := [];
    }

    /** `register_parser(p, *types, force=force)`. */
    method Register(p: ParserClass, types: seq<Ty>, force: bool)
      modifies this
      ensures State() == Registered(old(State()), p, types, force)
    {
      var ks := KeysOf(types);
      if force {
        rev := Put(rev, p, ks);
        for i := 0 to |ks|
          invariant parsers == BindAll(old(parsers), ks[..i], p)
          invariant rev == Put(old(rev), p, ks)
        {
          BindAllStep(old(parsers), ks, i, p);
          parsers := parsers[ks[i] := p];
        }
      } else {
        rev := SetDefault(rev, p, ks);
        for i := 0 to |ks|
          invariant parsers == BindMissing(old(parsers), ks[..i], p)
          invariant rev == SetDefault(old(rev), p, ks)
        {
          BindMissingStep(old(parsers), ks, i, p);
          if ks[i] !in parsers {
            parsers := parsers[ks[i] := p];
          }
        }
      }
      assert ks[..|ks|] == ks;
    }

    /** `Parser.__init_subclass__(is_default_for=...)`: registers only for a non-empty sequence. */
    method InitSubclass(p: ParserClass, isDefaultFor: seq<Ty>)
      modifies this
      ensures State() == if isDefaultFor != [] then Registered(old(State()), p, isDefaultFor, true) else old(State())
    {
      if isDefaultFor != [] {
        Register(p, isDefaultFor, true);
      }
    }

    /** `_get_parser_type`: the exact lookup, then the scan of the reverse index. */
    method GetParserType(h: Hierarchy, t: TypeKey) returns (r: Result<ParserClass>)
      ensures r == ParserTypeOf(h, State(), t)
    {
      if t in parsers {
        return Ok(parsers[t]);
      }
      var i := 0;
      while i < |rev|
        invariant i <= |rev|
        invariant forall j :: 0 <= j < i ==> !SubclassOrSame(h, t, rev[j].1)
      {
        if SubclassOrSame(h, t, rev[i].1) {
          assert FirstHit(h, rev, t, i);
          return Ok(rev[i].0);
        }
        i := i + 1;
      }
      return Err(TypeError);
    }
  }

  // ---- registration ----

  /**
   * After a forced registration every given type looks up to the parser exactly, and the
   * parser's `default_types()` are the given types (origins taken).
   */
  lemma ForcedRegistrationBinds(h: Hierarchy, st: RegState, p: ParserClass, types: seq<Ty>)
    ensures var st' := Registered(st, p, types, true);
      && (forall i :: 0 <= i < |types| ==> ParserTypeOf(h, st', KeyOf(types[i])) == Ok(p))
      && Get(st'.rev, p) == Some(KeysOf(types))
  {
    var ks := KeysOf(types);
    assert forall i :: 0 <= i < |types| ==> KeyOf(types[i]) == ks[i] && ks[i] in ks;
  }

  /** The last forced registration of a type wins. */
  lemma LastForcedWins(h: Hierarchy, st: RegState, p1: ParserClass, ts1: seq<Ty>, p2: ParserClass, ts2: seq<Ty>, t: Ty)
    requires t in ts1 && t in ts2
    ensures ParserTypeOf(h, Registered(Registered(st, p1, ts1, true), p2, ts2, true), KeyOf(t)) == Ok(p2)
  {
    var i :| 0 <= i < |ts2| && ts2[i] == t;
    ForcedRegistrationBinds(h, Registered(st, p1, ts1, true), p2, ts2);
  }

  /**
   * A registration with `force=False` never changes an existing type binding or an existing
   * reverse-index entry; it only adds what was missing.
   */
  lemma UnforcedKeepsExisting(st: RegState, p: ParserClass, types: seq<Ty>)
    ensures var st' := Registered(st, p, types, false);
      && (forall t :: t in st.parsers ==> t in st'.parsers && st'.parsers[t] == st.parsers[t])
      && (forall t :: t !in st.parsers && t in st'.parsers ==> t in KeysOf(types) && st'.parsers[t] == p)
      && (p in Keys(st.rev) ==> st'.rev == st.rev)
      && (p !in Keys(st.rev) ==> st'.rev == st.rev + [(p, KeysOf(types))])
  {
    var ks := KeysOf(types);
    if p !in Keys(st.rev) {
      var r := Put(st.rev, p, ks);
      assert IndexOf(st.rev, p) == None;
    }
  }

  /**
   * A forced re-registration of a known parser replaces its types but keeps its place in the
   * scan order, and bindings to it from types no longer listed remain.
   */
  lemma ForcedReRegistration(st: RegState, p: ParserClass, types: seq<Ty>)
    requires p in Keys(st.rev)
    ensures var st' := Registered(st, p, types, true);
      && Keys(st'.rev) == Keys(st.rev)
      && Get(st'.rev, p) == Some(KeysOf(types))
      && (forall q :: q != p ==> Get(st'.rev, q) == Get(st.rev, q))
      && (forall t :: t in st.parsers && t !in KeysOf(types) ==> t in st'.parsers && st'.parsers[t] == st.parsers[t])
  {
  }

  /** Registration keeps the reverse index free of duplicate parser classes. */
  lemma RegistrationKeepsUniqueKeys(st: RegState, p: ParserClass, types: seq<Ty>, force: bool)
    requires UniqueKeys(st.rev)
    ensures UniqueKeys(Registered(st, p, types, force).rev)
  {
  }

  // ---- lookup ----

  /**
   * The lookup of an unbound type returns the parser of the first reverse-index entry that
   * lists one of its supertypes (or, where `issubclass` raises, the type itself); with no
   * such entry it raises `TypeError`.
   */
  lemma LookupUnbound(h: Hierarchy, st: RegState, t: TypeKey)
    requires t !in st.parsers
    ensures ParserTypeOf(h, st, t).Ok? ==>
      exists i :: FirstHit(h, st.rev, t, i) && ParserTypeOf(h, st, t) == Ok(st.rev[i].0)
    ensures (forall i :: 0 <= i < |st.rev| ==> !SubclassOrSame(h, t, st.rev[i].1)) ==>
      ParserTypeOf(h, st, t) == Err(TypeError)
  {
  }

  /** A subclass of a class registered in a well-formed hierarchy is found by the scan. */
  lemma LookupSubclass(h: Hierarchy, st: RegState, t: TypeKey, i: nat, d: TypeKey)
    requires t !in st.parsers && IsClass(h, t) && i < |st.rev| && d in st.rev[i].1
    requires forall k :: 0 <= k < |st.rev[i].1| ==> IsClass(h, st.rev[i].1[k])
    requires Subclass(h, t, d)
    ensures ParserTypeOf(h, st, t).Ok?
  {
    var k :| 0 <= k < |st.rev[i].1| && st.rev[i].1[k] == d;
    SubclassOrSameOfClasses(h, t, st.rev[i].1);
  }

  // ---- resolution ----

  /** A type without origin gets the `default()` of its parser class. */
  lemma ResolvePlain(rv: Revision, h: Hierarchy, st: RegState, cls: TypeKey, c: ParserClass)
    requires ParserTypeOf(h, st, cls) == Ok(c)
    ensures GetParser(rv, h, st, Plain(cls)) == Default(rv, c)
    ensures c == UnionParserC || c == EnumParserC ==> GetParser(rv, h, st, Plain(cls)) == Err(TypeError)
    ensures c == IntParserC ==> GetParser(rv, h, st, Plain(cls)) == Ok(IntP(true, 36))
  {
  }

  /** The origin is looked up before anything else: an unresolvable origin fails the whole type. */
  lemma ResolveOriginFirst(rv: Revision, h: Hierarchy, st: RegState, o: TypeKey, args: seq<Ty>)
    requires ParserTypeOf(h, st, o).Err?
    ensures GetParser(rv, h, st, Generic(o, args)) == Err(TypeError)
  {
  }

  /** `Union[...]` resolves each argument in order and builds a union of the results. */
  lemma ResolveUnion(rv: Revision, h: Hierarchy, st: RegState, args: seq<Ty>, ps: seq<Parser>)
    requires ParserTypeOf(h, st, UNION) == Ok(UnionParserC)
    requires |args| == |ps| >= 2
    requires forall i :: 0 <= i < |args| ==> GetParser(rv, h, st, args[i]) == Ok(ps[i])
    ensures GetParser(rv, h, st, Generic(UNION, args)) == Ok(UnionP(ps, false))
  {
    var rs := seq(|args|, i requires 0 <= i < |args| => GetParser(rv, h, st, args[i]));
    assert AllOk(rs).Ok? && AllOk(rs).value == ps;
    var uargs := seq(|ps|, i requires 0 <= i < |ps| => ParserArg(ps[i]));
    assert NoneArg !in uargs;
    assert UnionOf(uargs).value.alts == ps;
  }

  /**
   * `Optional[T]` resolves to a union of `T`'s parser and a strict `NoneParser`, passed as
   * parser instances, so the union is not marked optional.
   */
  lemma ResolveOptional(rv: Revision, h: Hierarchy, st: RegState, t: Ty, p: Parser)
    requires ParserTypeOf(h, st, UNION) == Ok(UnionParserC)
    requires ParserTypeOf(h, st, NONE_TYPE) == Ok(NoneParserC)
    requires GetParser(rv, h, st, t) == Ok(p)
    ensures GetParser(rv, h, st, Optional(t)) == Ok(UnionP([p, NoneP(true)], false))
  {
    var args := [t, Plain(NONE_TYPE)];
    assert GetParser(rv, h, st, args[1]) == Ok(NoneP(true));
    ResolveUnion(rv, h, st, args, [p, NoneP(true)]);
  }

  /** A generic tuple resolves each argument in order, as positional inner parsers. */
  lemma ResolveTuple(rv: Revision, h: Hierarchy, st: RegState, o: TypeKey, args: seq<Ty>, ps: seq<Parser>)
    requires o != UNION && IsClass(h, o) && Subclass(h, o, TUPLE)
    requires ParserTypeOf(h, st, o) == Ok(TupleParserC)
    requires |args| == |ps| && forall i :: 0 <= i < |args| ==> GetParser(rv, h, st, args[i]) == Ok(ps[i])
    ensures GetParser(rv, h, st, Generic(o, args)) == Ok(TupleNew(rv, ps, ","))
  {
    var rs := seq(|args|, i requires 0 <= i < |args| => GetParser(rv, h, st, args[i]));
    assert AllOk(rs).Ok? && AllOk(rs).value == ps;
  }

  /**
   * A generic collection resolves its first argument (or `str`) as the element parser and
   * passes the origin as the collection type.
   */
  lemma ResolveCollectionType(rv: Revision, h: Hierarchy, st: RegState, o: TypeKey, args: seq<Ty>, elem: Parser)
    requires o != UNION && IsClass(h, o) && !Subclass(h, o, TUPLE) && Subclass(h, o, COLLECTION)
    requires ParserTypeOf(h, st, o) == Ok(CollectionParserC)
    requires GetParser(rv, h, st, if args == [] then Plain(STR) else args[0]) == Ok(elem)
    ensures GetParser(rv, h, st, Generic(o, args)) == CollNew(h, Some(elem), Some(o), ",")
  {
  }

  /** Any other origin is refused with `TypeError`. */
  lemma ResolveOtherOrigin(rv: Revision, h: Hierarchy, st: RegState, o: TypeKey, args: seq<Ty>)
    requires o != UNION && ParserTypeOf(h, st, o).Ok?
    requires !IsClass(h, o) || (!Subclass(h, o, TUPLE) && !Subclass(h, o, COLLECTION))
    ensures GetParser(rv, h, st, Generic(o, args)) == Err(TypeError)
  {
  }

  /**
   * An enum whose members all hold integers, with no mixin type, is stored by value with the
   * registered `int` parser.
   */
  lemma EnumOfInts(rv: Revision, h: Hierarchy, st: RegState, e: EnumClass)
    requires e.kind == PlainEnum && e.mixin.None? && e.members != []
    requires Enums.AllOfType(e.members, INT)
    requires INT in st.parsers && st.parsers[INT] == IntParserC
    ensures EnumNew(rv, h, st, e, None) == Ok(EnumP(e, true, IntP(true, 36)))
  {
    assert TypeOf(e.members[0].value) == INT;
    assert Enums.GetEnumType(e) == Ok(Some(INT));
  }

  /** An enum whose members hold values of different types is stored by name as strings. */
  lemma EnumOfMixedValues(rv: Revision, h: Hierarchy, st: RegState, e: EnumClass, i: nat, j: nat)
    requires e.kind == PlainEnum && e.mixin.None?
    requires i < |e.members| && j < |e.members| && TypeOf(e.members[i].value) != TypeOf(e.members[j].value)
    requires STR in st.parsers && st.parsers[STR] == StringParserC
    ensures EnumNew(rv, h, st, e, None) == Ok(EnumP(e, false, StrP))
    ensures EnumNew(rv, h, st, e, Some(true)) == Err(ValueError)
  {
    assert Enums.GetEnumType(e) == Ok(None);
  }

  /** Disnake flags cannot be stored by name. */
  lemma FlagsByNameRefused(rv: Revision, h: Hierarchy, st: RegState, e: EnumClass)
    requires e.kind == DisnakeFlags
    ensures EnumNew(rv, h, st, e, Some(false)) == Err(ValueError)
  {
  }
}
