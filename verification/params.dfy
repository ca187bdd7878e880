/**
 * Listener parameters of the legacy listener layer: how a parameter's annotation becomes a
 * mapping from regular expressions to converters, and how an argument is converted by trying
 * that mapping's entries in order.
 */
module Params {
  import opened Wrappers
  import opened OrderedDicts
  import opened Values

  /** The disnake entity classes that share the snowflake-id pattern. */
  datatype Entity =
    | User | Member | Role | Thread | TextChannel | VoiceChannel | CategoryChannel
    | GuildChannel | Guild | Message | Emoji

  /** A type that may appear in a listener parameter's annotation. */
  datatype LType = StrT | IntT | FloatT | BoolT | EntityT(entity: Entity) | NoneT | OtherT(id: nat)

  /** A parameter annotation: none, a bare type, `Union`/`Optional`, `Literal`, or another generic. */
  datatype Annotation =
    | NoAnnotation
    | Bare(t: LType)
    | UnionOf(types: seq<LType>)
    | LiteralOf(values: seq<Value>)
    | OtherGeneric(args: seq<LType>)

  /** An `inspect.Parameter`: its name, annotation and default (`None` when it has none). */
  datatype Param = Param(name: string, annotation: Annotation, default: Option<Value>)

  /**
   * A compiled regular expression, compared as Python compares patterns: by source and flags.
   * `EscapedLiteral(t)` is `re.compile(re.escape(t))`; `re.escape` escapes every metacharacter
   * of the other patterns' sources, so an escaped literal never equals one of them.
   */
  datatype Pattern = Compiled(src: string, ignoreCase: bool) | EscapedLiteral(text: string)

  const STR_PATTERN := Compiled(".*", false)
  const INT_PATTERN := Compiled("-?\\d+", false)
  const FLOAT_PATTERN := Compiled("[-+]?(?:\\d*\\.\\d+|\\d+)", false)
  const BOOL_PATTERN := Compiled("true|false|t|f|yes|no|y|n|1|0|enable|disable|on|off", true)
  /** The one pattern object every entity class shares. */
  const ID_PATTERN := Compiled("\\d{15,20}", false)

  /** The converter registered for a type, by the type it converts to. */
  datatype Converter = Converter(target: LType)

  /** `REGEX_MAP[t]`: a `KeyError` for a type with no entry. */
  function RegexFor(t: LType): (r: Result<Pattern>)
    ensures r.Err? <==> t.NoneT? || t.OtherT?
    ensures r.Err? ==> r.exc == KeyError
    ensures t.EntityT? ==> r == Ok(ID_PATTERN)
  {
    match t
    case StrT => Ok(STR_PATTERN)
    case IntT => Ok(INT_PATTERN)
    case FloatT => Ok(FLOAT_PATTERN)
    case BoolT => Ok(BOOL_PATTERN)
    case EntityT(_) => Ok(ID_PATTERN)
    case _ => Err(KeyError)
  }

  /** `CONVERTER_MAP[t]`: defined for the same types as `REGEX_MAP`. */
  function ConverterFor(t: LType): (r: Result<Converter>)
    ensures r.Ok? <==> RegexFor(t).Ok?
    ensures r.Ok? ==> r.value.target == t
    ensures r.Err? ==> r.exc == KeyError
  {
    if t.NoneT? || t.OtherT? then Err(KeyError) else Ok(Converter(t))
  }

  /** The entry `REGEX_MAP[t]: CONVERTER_MAP[t]`. */
  function TypeEntry(t: LType): Result<(Pattern, Converter)>
  {
    var p :- RegexFor(t);
    var c :- ConverterFor(t);
    Ok((p, c))
  }

  /** `type(v)` for a literal value. */
  function LiteralType(v: Value): LType
  {
    match v
    case VStr(_) => StrT
    case VInt(_) => IntT
    case VBool(_) => BoolT
    case VNone => NoneT
    case _ => OtherT(0)
  }

  /** The entry `re.compile(re.escape(str(v))): CONVERTER_MAP[type(v)]`. */
  function LiteralEntry(v: Value): Result<(Pattern, Converter)>
  {
    match StrOf(v)
    case None => Err(Unmodelled)
    case Some(text) =>
      var c :- ConverterFor(LiteralType(v));
      Ok((EscapedLiteral(text), c))
  }

  /**
   * A dict comprehension over computed entries: each stored in turn into `acc`, so a repeated
   * pattern keeps its first position and takes its last converter; the first failing entry raises.
   */
  function CollectInto(acc: Dict<Pattern, Converter>, es: seq<Result<(Pattern, Converter)>>): (r: Result<Dict<Pattern, Converter>>)
    ensures r.Ok? <==> forall i :: 0 <= i < |es| ==> es[i].Ok?
    decreases |es|
  {
    if es == [] then Ok(acc)
    else
      assert forall i :: 0 <= i < |es| - 1 ==> es[1..][i] == es[i + 1];
      if es[0].Err? then Err(es[0].exc)
      else CollectInto(Put(acc, es[0].value.0, es[0].value.1), es[1..])
  }

  /** Each pattern stays once in the mapping: a repeated pattern is overwritten in place. */
  lemma {:induction false} CollectIntoUnique(acc: Dict<Pattern, Converter>, es: seq<Result<(Pattern, Converter)>>)
    requires UniqueKeys(acc) && CollectInto(acc, es).Ok?
    ensures UniqueKeys(CollectInto(acc, es).value)
    decreases |es|
  {
    if es != [] {
      CollectIntoUnique(Put(acc, es[0].value.0, es[0].value.1), es[1..]);
    }
  }

  function Collect(es: seq<Result<(Pattern, Converter)>>): (r: Result<Dict<Pattern, Converter>>)
    ensures r.Ok? <==> forall i :: 0 <= i < |es| ==> es[i].Ok?
    ensures r.Ok? ==> UniqueKeys(r.value)
  {
    if CollectInto([], es).Ok? then CollectIntoUnique([], es); CollectInto([], es)
    else CollectInto([], es)
  }

  /** The annotated types of a union that are not `None`, in order. */
  function NonNone(ts: seq<LType>): (r: seq<LType>)
    ensures forall i :: 0 <= i < |r| ==> r[i] in ts && !r[i].NoneT?
    ensures forall i :: 0 <= i < |ts| && !ts[i].NoneT? ==> ts[i] in r
  {
    if ts == [] then [] else (if ts[0].NoneT? then [] else [ts[0]]) + NonNone(ts[1..])
  }

  /**
   * `parse_param(param)`: an unannotated parameter converts as `str`, a bare type by its own
   * entry, a union by the entries of its non-`None` types in order, a `Literal` by one escaped
   * pattern per value; any other generic is a `TypeError`.
   */
  function ParseParam(p: Param): (r: Result<Dict<Pattern, Converter>>)
    ensures p.annotation.NoAnnotation? ==> r == Ok([(STR_PATTERN, Converter(StrT))])
    ensures p.annotation.OtherGeneric? ==> r == Err(TypeError)
    ensures r.Ok? ==> UniqueKeys(r.value)
  {
    match p.annotation
    case NoAnnotation => Ok([(STR_PATTERN, Converter(StrT))])
    case Bare(t) => Collect([TypeEntry(t)])
    case UnionOf(ts) =>
      var args := NonNone(ts);
      Collect(seq(|args|, i requires 0 <= i < |args| => TypeEntry(args[i])))
    case LiteralOf(vs) => Collect(seq(|vs|, i requires 0 <= i < |vs| => LiteralEntry(vs[i])))
    case OtherGeneric(_) => Err(TypeError)
  }

  /**
   * `is_optional(param)`: a parameter with a default, or one whose annotation's arguments
   * include `None`.
   */
  function IsOptional(p: Param): (r: bool)
    ensures p.default.Some? ==> r
    ensures p.default.None? && p.annotation.UnionOf? ==> (r <==> NoneT in p.annotation.types)
    ensures p.default.None? && p.annotation.LiteralOf? ==> (r <==> VNone in p.annotation.values)
    ensures p.default.None? && p.annotation.OtherGeneric? ==> (r <==> NoneT in p.annotation.args)
    ensures p.default.None? && (p.annotation.NoAnnotation? || p.annotation.Bare?) ==> !r
  {
    if p.default.Some? then true
    else match p.annotation
      case UnionOf(ts) => NoneT in ts
      case LiteralOf(vs) => VNone in vs
      case OtherGeneric(args) => NoneT in args
      case _ => false
  }

  /** `ParamInfo.from_param(param)`: the parameter, its conversion mapping, default and optionality. */
  datatype ParamInfo = ParamInfo(param: Param, mapping: Dict<Pattern, Converter>, default: Option<Value>, optional: bool)

  function FromParam(p: Param): (r: Result<ParamInfo>)
    ensures r.Ok? <==> ParseParam(p).Ok?
    ensures r.Ok? ==> r.value == ParamInfo(p, ParseParam(p).value, p.default, IsOptional(p))
  {
    var m :- ParseParam(p);
    Ok(ParamInfo(p, m, p.default, IsOptional(p)))
  }

  // ---------------------------------------------------------------------------------------
  // Parse properties.

  /** Entries whose patterns are new and distinct are appended as they are, in order. */
  lemma {:induction false} CollectIntoDistinct(acc: Dict<Pattern, Converter>, es: seq<Result<(Pattern, Converter)>>,
                                               kvs: seq<(Pattern, Converter)>)
    requires |es| == |kvs| && forall i :: 0 <= i < |es| ==> es[i] == Ok(kvs[i])
    requires UniqueKeys(acc + kvs)
    ensures CollectInto(acc, es) == Ok(acc + kvs)
    decreases |es|
  {
    if es != [] {
      var k := kvs[0];
      assert k.0 !in Keys(acc) by {
        assert forall i :: 0 <= i < |acc| ==> Keys(acc)[i] == (acc + kvs)[i].0;
        assert (acc + kvs)[|acc|] == k;
      }
      PutAppends(acc, k.0, k.1);
      assert acc + [k] + kvs[1..] == acc + kvs;
      assert forall i :: 0 <= i < |es| - 1 ==> es[1..][i] == es[i + 1] && kvs[1..][i] == kvs[i + 1];
      CollectIntoDistinct(acc + [k], es[1..], kvs[1..]);
    } else {
      assert acc + kvs == acc;
    }
  }

  /** Entries with distinct patterns are kept as they are, in order. */
  lemma CollectDistinct(es: seq<Result<(Pattern, Converter)>>, kvs: seq<(Pattern, Converter)>)
    requires |es| == |kvs| && forall i :: 0 <= i < |es| ==> es[i] == Ok(kvs[i])
    requires UniqueKeys(kvs)
    ensures Collect(es) == Ok(kvs)
  {
    assert [] + kvs == kvs;
    CollectIntoDistinct([], es, kvs);
  }

  /** `Optional[int]` converts as an `int`, and the parameter is optional. */
  lemma OptionalInt(name: string)
    ensures ParseParam(Param(name, UnionOf([IntT, NoneT]), None)) == Ok([(INT_PATTERN, Converter(IntT))])
    ensures IsOptional(Param(name, UnionOf([IntT, NoneT]), None))
  {
    var args := [IntT, NoneT];
    assert args[1..] == [NoneT] && NonNone([NoneT]) == [];
    assert NonNone(args) == [IntT];
    var es := seq(1, i requires 0 <= i < 1 => TypeEntry([IntT][i]));
    assert es[0] == Ok((INT_PATTERN, Converter(IntT)));
    CollectDistinct(es, [(INT_PATTERN, Converter(IntT))]);
  }

  /** `Union[int, bool]` tries `int` first, then `bool`. */
  lemma UnionKeepsOrder(name: string)
    ensures ParseParam(Param(name, UnionOf([IntT, BoolT]), None)) ==
      Ok([(INT_PATTERN, Converter(IntT)), (BOOL_PATTERN, Converter(BoolT))])
  {
    var args := [IntT, BoolT];
    assert args[1..] == [BoolT] && NonNone([BoolT]) == [BoolT];
    assert NonNone(args) == args;
    var es := seq(|args|, i requires 0 <= i < |args| => TypeEntry(args[i]));
    var kvs := [(INT_PATTERN, Converter(IntT)), (BOOL_PATTERN, Converter(BoolT))];
    assert es[0] == Ok(kvs[0]) && es[1] == Ok(kvs[1]);
    CollectDistinct(es, kvs);
  }

  /**
   * A union of two entity types collapses to one entry: they share the id pattern, which keeps
   * the first position and takes the second type's converter.
   */
  lemma EntityUnionCollapses(name: string, a: Entity, b: Entity)
    ensures ParseParam(Param(name, UnionOf([EntityT(a), EntityT(b)]), None)) == Ok([(ID_PATTERN, Converter(EntityT(b)))])
  {
    var args := [EntityT(a), EntityT(b)];
    assert NonNone(args) == args by {
      assert args[1..] == [EntityT(b)] && NonNone([EntityT(b)]) == [EntityT(b)];
    }
    var es := seq(|args|, i requires 0 <= i < |args| => TypeEntry(args[i]));
    assert es == [Ok((ID_PATTERN, Converter(EntityT(a)))), Ok((ID_PATTERN, Converter(EntityT(b))))];
    CollectSamePattern(ID_PATTERN, Converter(EntityT(a)), Converter(EntityT(b)));
  }

  /** Two entries under one pattern keep one position, holding the second converter. */
  lemma CollectSamePattern(p: Pattern, c1: Converter, c2: Converter)
    ensures Collect([Ok((p, c1)), Ok((p, c2))]) == Ok([(p, c2)])
  {
    var es := [Ok((p, c1)), Ok((p, c2))];
    var first: Dict<Pattern, Converter> := [(p, c1)];
    assert Put([], p, c1) == first;
    assert IndexOf(first, p) == Some(0);
    assert Put(first, p, c2) == [(p, c2)];
    assert es[1..][1..] == [];
    assert CollectInto(first, es[1..]) == Ok([(p, c2)]);
  }

  // ---------------------------------------------------------------------------------------
  // Conversion.

  /** How trying the entries ended: a value, an exception that escapes, or every entry failing. */
  datatype Tried = Converted(value: Value) | Raised(exc: Exc) | AllFailed(errors: seq<Exc>)

  /** Earlier recorded errors in front of the outcome of the remaining entries. */
  function Prefix(errors: seq<Exc>, t: Tried): (r: Tried)
    ensures t.AllFailed? ==> r == AllFailed(errors + t.errors)
    ensures !t.AllFailed? ==> r == t
  {
    if t.AllFailed? then AllFailed(errors + t.errors) else t
  }

  /** Whether an exception is one `convert` records and moves past. */
  predicate Recorded(e: Exc) {
    e == BadArgument || e == ValueError
  }

  /**
   * Trying the entries in order, as `convert`'s loop does: unless validation is skipped, a
   * pattern not yet matched must fullmatch the argument (else a `MatchFailure` is recorded and
   * the entry skipped); then the converter runs, and its first success is the result. A
   * `BadArgument` or `ValueError` is recorded and the next entry tried; any other exception
   * escapes.
   */
  function TryFrom(m: Dict<Pattern, Converter>, arg: string, skip: bool, fullmatch: (Pattern, string) -> bool,
                   run: (Converter, string) -> Result<Value>, cache: set<Pattern>): Tried
    decreases |m|
  {
    if m == [] then AllFailed([])
    else
      var (p, c) := m[0];
      if !skip && p !in cache && !fullmatch(p, arg) then Prefix([MatchFailure], TryFrom(m[1..], arg, skip, fullmatch, run, cache))
      else
        var cache' := if !skip && p !in cache then cache + {p} else cache;
        match run(c, arg)
        case Ok(v) => Converted(v)
        case Err(e) => if Recorded(e) then Prefix([e], TryFrom(m[1..], arg, skip, fullmatch, run, cache')) else Raised(e)
  }

  /** What `convert` returns or raises once the entries have been tried. */
  function Finish(info: ParamInfo, t: Tried): (r: Result<Value>)
    ensures t.Converted? ==> r == Ok(t.value)
    ensures t.Raised? ==> r == Err(t.exc)
    ensures t.AllFailed? && info.optional ==> r == Ok(info.default.GetOr(VNone))
    ensures t.AllFailed? && !info.optional ==> r == Err(ConversionError(t.errors))
  {
    match t
    case Converted(v) => Ok(v)
    case Raised(e) => Err(e)
    case AllFailed(errors) => if info.optional then Ok(info.default.GetOr(VNone)) else Err(ConversionError(errors))
  }

  lemma PrefixPrefix(a: seq<Exc>, b: seq<Exc>, t: Tried)
    ensures Prefix(a, Prefix(b, t)) == Prefix(a + b, t)
  {
    if t.AllFailed? {
      assert a + (b + t.errors) == (a + b) + t.errors;
    }
  }

  /**
   * `ParamInfo.convert(argument, skip_validation=skip)`, with the regular-expression engine
   * and the converters as parameters.
   */
  method Convert(info: ParamInfo, argument: string, skip: bool, fullmatch: (Pattern, string) -> bool,
                 run: (Converter, string) -> Result<Value>) returns (r: Result<Value>)
    ensures r == Finish(info, TryFrom(info.mapping, argument, skip, fullmatch, run, {}))
  {
    var m := info.mapping;
    var matchCache: set<Pattern> := {};
    var errors: seq<Exc> := [];
    var i := 0;
    while i < |m|
      invariant 0 <= i <= |m|
      invariant TryFrom(m, argument, skip, fullmatch, run, {}) == Prefix(errors, TryFrom(m[i..], argument, skip, fullmatch, run, matchCache))
    {
      var (regex, converter) := m[i];
      assert m[i..][0] == m[i] && m[i..][1..] == m[i + 1..];
      if !skip {
        if regex in matchCache {
        } else if fullmatch(regex, argument) {
          matchCache := matchCache + {regex};
        } else {
          PrefixPrefix(errors, [MatchFailure], TryFrom(m[i + 1..], argument, skip, fullmatch, run, matchCache));
          errors := errors + [MatchFailure];
          i := i + 1;
          continue;
        }
      }
      var result := run(converter, argument);
      if result.Ok? {
        return Ok(result.value);
      }
      if !Recorded(result.exc) {
        return Err(result.exc);
      }
      PrefixPrefix(errors, [result.exc], TryFrom(m[i + 1..], argument, skip, fullmatch, run, matchCache));
      errors := errors + [result.exc];
      i := i + 1;
    }
    assert m[i..] == [] && errors + [] == errors;
    if info.optional {
      return Ok(info.default.GetOr(VNone));
    }
    return Err(ConversionError(errors));
  }

  // ---------------------------------------------------------------------------------------
  // Conversion properties.

  /** Whether an entry's pattern admits the argument. */
  predicate Admits(p: Pattern, arg: string, skip: bool, fullmatch: (Pattern, string) -> bool) {
    skip || fullmatch(p, arg)
  }

  /** The entry fails in a way `convert` records and moves past. */
  predicate FailsRecorded(e: (Pattern, Converter), arg: string, skip: bool, fullmatch: (Pattern, string) -> bool,
                          run: (Converter, string) -> Result<Value>) {
    Admits(e.0, arg, skip, fullmatch) ==> run(e.1, arg).Err? && Recorded(run(e.1, arg).exc)
  }

  /** One entry tried, for a pattern not in the cache. */
  lemma TryFromStep(m: Dict<Pattern, Converter>, arg: string, skip: bool, fullmatch: (Pattern, string) -> bool,
                    run: (Converter, string) -> Result<Value>, cache: set<Pattern>)
    requires m != [] && m[0].0 !in cache
    ensures TryFrom(m, arg, skip, fullmatch, run, cache) ==
      if !Admits(m[0].0, arg, skip, fullmatch) then Prefix([MatchFailure], TryFrom(m[1..], arg, skip, fullmatch, run, cache))
      else if run(m[0].1, arg).Ok? then Converted(run(m[0].1, arg).value)
      else if Recorded(run(m[0].1, arg).exc) then Prefix([run(m[0].1, arg).exc], TryFrom(m[1..], arg, skip, fullmatch, run, if skip then cache else cache + {m[0].0}))
      else Raised(run(m[0].1, arg).exc)
  {
  }

  /** The errors entries that all fail record, in order: a `MatchFailure` or the converter's exception. */
  function Failures(m: Dict<Pattern, Converter>, arg: string, skip: bool, fullmatch: (Pattern, string) -> bool,
                    run: (Converter, string) -> Result<Value>): (r: seq<Exc>)
    ensures |r| == |m|
    ensures forall i :: 0 <= i < |m| ==>
      r[i] == if Admits(m[i].0, arg, skip, fullmatch) && run(m[i].1, arg).Err? then run(m[i].1, arg).exc else MatchFailure
    decreases |m|
  {
    if m == [] then []
    else
      assert forall i :: 0 <= i < |m| - 1 ==> m[1..][i] == m[i + 1];
      [if Admits(m[0].0, arg, skip, fullmatch) && run(m[0].1, arg).Err? then run(m[0].1, arg).exc else MatchFailure]
        + Failures(m[1..], arg, skip, fullmatch, run)
  }

  /**
   * With distinct patterns and none of them cached, the match cache changes nothing: a
   * pattern is never met twice.
   */
  lemma {:induction false} CacheNeverHits(m: Dict<Pattern, Converter>, arg: string, skip: bool, fullmatch: (Pattern, string) -> bool,
                                          run: (Converter, string) -> Result<Value>, cache: set<Pattern>)
    requires UniqueKeys(m) && forall i :: 0 <= i < |m| ==> m[i].0 !in cache
    ensures TryFrom(m, arg, skip, fullmatch, run, cache) == TryFrom(m, arg, skip, fullmatch, run, {})
    decreases |m|
  {
    if m != [] {
      var p := m[0].0;
      var rest := m[1..];
      assert UniqueKeys(rest) && forall i :: 0 <= i < |rest| ==> rest[i] == m[i + 1];
      TryFromStep(m, arg, skip, fullmatch, run, cache);
      TryFromStep(m, arg, skip, fullmatch, run, {});
      assert {} + {p} == {p};
      CacheNeverHits(rest, arg, skip, fullmatch, run, cache);
      CacheNeverHits(rest, arg, skip, fullmatch, run, cache + {p});
      CacheNeverHits(rest, arg, skip, fullmatch, run, {p});
    }
  }

  /**
   * The entries are tried in order: when every entry before `j` fails in a recorded way and
   * entry `j` admits the argument and converts it, the result is entry `j`'s value.
   */
  lemma {:induction false} FirstSuccessWins(m: Dict<Pattern, Converter>, arg: string, skip: bool, fullmatch: (Pattern, string) -> bool,
                                            run: (Converter, string) -> Result<Value>, j: nat)
    requires UniqueKeys(m) && j < |m|
    requires forall i :: 0 <= i < j ==> FailsRecorded(m[i], arg, skip, fullmatch, run)
    requires Admits(m[j].0, arg, skip, fullmatch) && run(m[j].1, arg).Ok?
    ensures TryFrom(m, arg, skip, fullmatch, run, {}) == Converted(run(m[j].1, arg).value)
    decreases j
  {
    var rest := m[1..];
    assert UniqueKeys(rest) && forall i :: 0 <= i < |rest| ==> rest[i] == m[i + 1];
    TryFromStep(m, arg, skip, fullmatch, run, {});
    assert {} + {m[0].0} == {m[0].0};
    if j > 0 {
      assert FailsRecorded(m[0], arg, skip, fullmatch, run);
      FirstSuccessWins(rest, arg, skip, fullmatch, run, j - 1);
      CacheNeverHits(rest, arg, skip, fullmatch, run, {m[0].0});
    }
  }

  /**
   * When every entry fails in a recorded way, all their errors are kept in attempt order: an
   * optional parameter then gets its default (or `None`), any other raises `ConversionError`
   * carrying them.
   */
  lemma {:induction false} AllFailRecorded(m: Dict<Pattern, Converter>, arg: string, skip: bool, fullmatch: (Pattern, string) -> bool,
                                           run: (Converter, string) -> Result<Value>)
    requires UniqueKeys(m)
    requires forall i :: 0 <= i < |m| ==> FailsRecorded(m[i], arg, skip, fullmatch, run)
    ensures TryFrom(m, arg, skip, fullmatch, run, {}) == AllFailed(Failures(m, arg, skip, fullmatch, run))
    decreases |m|
  {
    if m != [] {
      var rest := m[1..];
      assert UniqueKeys(rest) && forall i :: 0 <= i < |rest| ==> rest[i] == m[i + 1];
      TryFromStep(m, arg, skip, fullmatch, run, {});
      assert {} + {m[0].0} == {m[0].0};
      assert FailsRecorded(m[0], arg, skip, fullmatch, run);
      AllFailRecorded(rest, arg, skip, fullmatch, run);
      CacheNeverHits(rest, arg, skip, fullmatch, run, {m[0].0});
      var fs := Failures(m, arg, skip, fullmatch, run);
      assert fs == [fs[0]] + Failures(rest, arg, skip, fullmatch, run);
    }
  }

  /**
   * An exception other than `BadArgument` or `ValueError` escapes from the first entry that
   * raises it, once the earlier entries failed in a recorded way.
   */
  lemma {:induction false} OtherErrorEscapes(m: Dict<Pattern, Converter>, arg: string, skip: bool, fullmatch: (Pattern, string) -> bool,
                                             run: (Converter, string) -> Result<Value>, j: nat)
    requires UniqueKeys(m) && j < |m|
    requires forall i :: 0 <= i < j ==> FailsRecorded(m[i], arg, skip, fullmatch, run)
    requires Admits(m[j].0, arg, skip, fullmatch) && run(m[j].1, arg).Err? && !Recorded(run(m[j].1, arg).exc)
    ensures TryFrom(m, arg, skip, fullmatch, run, {}) == Raised(run(m[j].1, arg).exc)
    decreases j
  {
    var rest := m[1..];
    assert UniqueKeys(rest) && forall i :: 0 <= i < |rest| ==> rest[i] == m[i + 1];
    TryFromStep(m, arg, skip, fullmatch, run, {});
    assert {} + {m[0].0} == {m[0].0};
    if j > 0 {
      assert FailsRecorded(m[0], arg, skip, fullmatch, run);
      OtherErrorEscapes(rest, arg, skip, fullmatch, run, j - 1);
      CacheNeverHits(rest, arg, skip, fullmatch, run, {m[0].0});
    }
  }
}
