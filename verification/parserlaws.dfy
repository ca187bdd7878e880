/**
 * What the parsers of impl/parser/builtins.py and impl/parser/stdlib.py promise: the strict and
 * lax `None` codec, the identity string codec, where the integer and boolean codecs round-trip,
 * the arity and separator behaviour of tuples and collections, the order in which unions try
 * their alternatives, and the enum round trip.
 */
module ParserLaws {
  import opened Wrappers
  import opened PyTypes
  import opened Values
  import Text
  import IntCodec
  import Enums
  import OrderedDicts
  import opened Parsers

  /** A strict `NoneParser` accepts only `""` and dumps only `None`; a lax one accepts anything. */
  lemma NoneParserLaws(env: Env, s: string, v: Value)
    ensures Loads(env, NoneP(true), s).Ok? <==> s == ""
    ensures Dumps(env, NoneP(true), v).Ok? <==> v == VNone
    ensures Loads(env, NoneP(true), s).Err? ==> Loads(env, NoneP(true), s).exc == ValueError
    ensures Dumps(env, NoneP(true), v).Err? ==> Dumps(env, NoneP(true), v).exc == ValueError
    ensures Loads(env, NoneP(false), s) == Ok(VNone) && Dumps(env, NoneP(false), v) == Ok("")
    ensures forall strict :: Loads(env, NoneP(strict), s).Ok? ==> Loads(env, NoneP(strict), s).value == VNone
  {
  }

  /** `StringParser` is the identity both ways. */
  lemma StringParserIdentity(env: Env, s: string)
    ensures Loads(env, StrP, s) == Ok(VStr(s))
    ensures Dumps(env, StrP, VStr(s)) == Ok(s)
  {
  }

  /** A signed `IntParser` loads what `int(s, base)` gives; an unsigned one refuses negative results. */
  lemma IntParserLoads(env: Env, base: nat, s: string)
    requires 2 <= base <= 36
    ensures IntCodec.ParseInt(s, base).Ok? ==> Loads(env, IntP(true, base), s) == Ok(VInt(IntCodec.ParseInt(s, base).value))
    ensures Loads(env, IntP(false, base), s).Ok? <==> IntCodec.ParseInt(s, base).Ok? && IntCodec.ParseInt(s, base).value >= 0
    ensures Loads(env, IntP(false, base), s).Ok? ==> Loads(env, IntP(false, base), s) == Loads(env, IntP(true, base), s)
    ensures Loads(env, IntP(false, base), s).Err? ==> Loads(env, IntP(false, base), s).exc == ValueError
  {
  }

  /**
   * `loads(dumps(n)) == n` for an `IntParser` wherever the decimal short-circuit is harmless:
   * in base 10, from the base upwards, and for single digits common to base 10 and the base.
   */
  lemma IntParserRoundTrip(env: Env, signed: bool, base: nat, n: int)
    requires 2 <= base <= 36 && (signed || n >= 0)
    requires base == 10 || n >= base || (-10 < n < 10 && -(base as int) < n < base)
    ensures Dumps(env, IntP(signed, base), VInt(n)) == Ok(IntCodec.IntDumps(n, base))
    ensures Loads(env, IntP(signed, base), IntCodec.IntDumps(n, base)) == Ok(VInt(n))
  {
    IntCodec.IntRoundTrip(n, base);
  }

  /** The default `IntParser` (base 36) dumps 10 as `"10"` and loads `"10"` as 36. */
  lemma IntParserDecimalGap(env: Env)
    ensures Default(BuiltinsRevision, IntParserC) == Ok(IntP(true, 36))
    ensures Dumps(env, IntP(true, 36), VInt(10)) == Ok("10")
    ensures Loads(env, IntP(true, 36), "10") == Ok(VInt(36))
  {
    IntCodec.IntRoundTripBase36Counterexample();
  }

  /**
   * `BoolParser.loads` checks the trues first, then the falses, by exact (case-sensitive)
   * membership, and otherwise raises `ValueError`.
   */
  lemma BoolParserLoads(env: Env, trues: set<string>, falses: set<string>, s: string)
    ensures Loads(env, BoolP(trues, falses), s) == Ok(VBool(true)) <==> s in trues
    ensures Loads(env, BoolP(trues, falses), s) == Ok(VBool(false)) <==> s !in trues && s in falses
    ensures Loads(env, BoolP(trues, falses), s).Err? <==> s !in trues && s !in falses
    ensures Loads(env, BoolP(trues, falses), s).Err? ==> Loads(env, BoolP(trues, falses), s).exc == ValueError
  {
  }

  /** With the default word sets, loading what `dumps` wrote gives back the value's truth. */
  lemma BoolParserRoundTrip(env: Env, v: Value)
    ensures Dumps(env, BoolNew(None, None), v) == Ok(if Truthy(v) then "1" else "0")
    ensures Loads(env, BoolNew(None, None), if Truthy(v) then "1" else "0") == Ok(VBool(Truthy(v)))
    ensures Loads(env, BoolNew(None, None), "TRUE").Err?
  {
  }

  predicate AllWellFormed(ps: seq<Parser>) {
    forall i :: 0 <= i < |ps| ==> Parsers.WellFormed(ps[i])
  }

  /** `TupleParser.loads` raises `RuntimeError` unless `sep` splits the text into one part per parser. */
  lemma TupleArity(env: Env, inner: seq<Parser>, sep: string, s: string, v: Value)
    requires AllWellFormed(inner) && sep != ""
    ensures |Text.Split(s, sep)| != |inner| ==> Loads(env, TupleP(inner, sep), s) == Err(RuntimeError)
    ensures Items(v).Some? && |Items(v).value| != |inner| ==> Dumps(env, TupleP(inner, sep), v) == Err(RuntimeError)
    ensures Items(v).None? ==> Dumps(env, TupleP(inner, sep), v) == Err(TypeError)
  {
  }

  /** Element `i` of a loaded tuple comes from parser `i` applied to part `i`. */
  lemma TupleLoadsPositional(env: Env, inner: seq<Parser>, sep: string, s: string)
    requires AllWellFormed(inner) && sep != ""
    requires Loads(env, TupleP(inner, sep), s).Ok?
    ensures var items := Loads(env, TupleP(inner, sep), s).value;
      && items.VTuple? && |items.items| == |inner| == |Text.Split(s, sep)|
      && forall i :: 0 <= i < |inner| ==> Loads(env, inner[i], Text.Split(s, sep)[i]) == Ok(items.items[i])
  {
  }

  /**
   * A tuple round-trips when each inner parser round-trips its element and no dumped element
   * but the last contains `sep` (the last may not contain it either, or the split would see
   * more parts).
   */
  lemma TupleRoundTrip(env: Env, inner: seq<Parser>, sep: string, items: seq<Value>, ds: seq<string>)
    requires AllWellFormed(inner) && sep != ""
    requires |inner| == |items| == |ds| >= 1
    requires forall i :: 0 <= i < |inner| ==> Dumps(env, inner[i], items[i]) == Ok(ds[i])
    requires forall i :: 0 <= i < |inner| ==> Loads(env, inner[i], ds[i]) == Ok(items[i])
    requires Text.Separable(ds, sep)
    ensures Dumps(env, TupleP(inner, sep), VTuple(items)) == Ok(Text.Join(ds, sep))
    ensures Loads(env, TupleP(inner, sep), Text.Join(ds, sep)) == Ok(VTuple(items))
  {
    var dumped := seq(|inner|, i requires 0 <= i < |inner| => Dumps(env, inner[i], items[i]));
    AllOkOf(dumped, ds);
    Text.SplitJoin(ds, sep);
    var parts := Text.Split(Text.Join(ds, sep), sep);
    var loaded := seq(|inner|, i requires 0 <= i < |inner| => Loads(env, inner[i], parts[i]));
    AllOkOf(loaded, items);
  }

  lemma AllOkOf<T>(rs: seq<Result<T>>, vs: seq<T>)
    requires |rs| == |vs| && forall i :: 0 <= i < |rs| ==> rs[i] == Ok(vs[i])
    ensures AllOk(rs) == Ok(vs)
  {
    assert AllOk(rs).Ok?;
    assert AllOk(rs).value == vs;
  }

  /**
   * The stdlib revision's default tuple has no inner parsers: every `loads` fails, since a split
   * has at least one part, and `dumps` accepts only an empty sequence, writing `""`.
   */
  lemma StdlibEmptyTuple(env: Env, s: string, v: Value)
    ensures Default(StdlibRevision, TupleParserC) == Ok(TupleP([], ","))
    ensures Loads(env, TupleP([], ","), s) == Err(RuntimeError)
    ensures Dumps(env, TupleP([], ","), v).Ok? <==> Items(v) == Some([])
    ensures Items(v) == Some([]) ==> Dumps(env, TupleP([], ","), v) == Ok("")
  {
    var parts := Text.Split(s, ",");
    assert |parts| >= 1;
  }

  /** The builtins revision's default tuple holds one string. */
  lemma BuiltinsDefaultTuple(env: Env, s: string)
    requires Text.Free(s, ",")
    ensures Default(BuiltinsRevision, TupleParserC) == Ok(TupleP([StrP], ","))
    ensures Loads(env, TupleP([StrP], ","), s) == Ok(VTuple([VStr(s)]))
  {
    Text.SplitFree(s, ",");
    AllOkOf(seq(1, i requires 0 <= i < 1 => Loads(env, [StrP][i], [s][i])), [VStr(s)]);
  }

  /** `CollectionParser.dumps` joins with `","` whatever its own `sep` is. */
  lemma CollectionDumpsIgnoresSep(env: Env, elem: Parser, t: TypeKey, sep: string, v: Value)
    requires Parsers.WellFormed(elem)
    ensures Dumps(env, CollP(elem, t, sep), v) == Dumps(env, CollP(elem, t, ","), v)
    ensures Dumps(env, CollP(elem, t, sep), v).Ok? ==>
      exists ds :: Dumps(env, CollP(elem, t, sep), v) == Ok(Text.Join(ds, ",")) && |ds| == |Items(v).value|
  {
  }

  /** `CollectionParser.loads` drops whitespace-only parts but keeps empty ones. */
  lemma CollectionLoadsParts(env: Env, t: TypeKey, sep: string, s: string)
    requires sep != ""
    ensures var parts := NonSpace(Text.Split(s, sep));
      Loads(env, CollP(StrP, t, sep), s) == Ok(VColl(t, seq(|parts|, i requires 0 <= i < |parts| => VStr(parts[i]))))
  {
    var parts := NonSpace(Text.Split(s, sep));
    AllOkOf(seq(|parts|, i requires 0 <= i < |parts| => Loads(env, StrP, parts[i])),
            seq(|parts|, i requires 0 <= i < |parts| => VStr(parts[i])));
  }

  /** An empty collection dumps to `""`, which the default string collection loads as `[""]`. */
  lemma EmptyCollection(env: Env, sep: string)
    requires sep != ""
    ensures Dumps(env, CollP(StrP, LIST, sep), VColl(LIST, [])) == Ok("")
    ensures Loads(env, CollP(StrP, LIST, sep), "") == Ok(VColl(LIST, [VStr("")]))
  {
    Text.SplitFree("", sep);
    assert NonSpace([""]) == [""];
    CollectionLoadsParts(env, LIST, sep, "");
    assert seq(1, i requires 0 <= i < 1 => VStr([""][i])) == [VStr("")];
  }

  /**
   * A non-empty collection of strings round-trips through the `","` separator when no element
   * contains a comma or is whitespace only.
   */
  lemma CollectionRoundTrip(env: Env, t: TypeKey, strs: seq<string>)
    requires |strs| >= 1
    requires forall i :: 0 <= i < |strs| ==> ',' !in strs[i] && !Text.IsSpace(strs[i])
    ensures var v := VColl(t, seq(|strs|, i requires 0 <= i < |strs| => VStr(strs[i])));
      && Dumps(env, CollP(StrP, t, ","), v) == Ok(Text.Join(strs, ","))
      && Loads(env, CollP(StrP, t, ","), Text.Join(strs, ",")) == Ok(v)
  {
    StringCollectionDumps(env, t, strs);
    CommaFreeSeparable(strs);
    Text.SplitJoin(strs, ",");
    assert NonSpace(strs) == strs;
    CollectionLoadsParts(env, t, ",", Text.Join(strs, ","));
  }

  lemma StringCollectionDumps(env: Env, t: TypeKey, strs: seq<string>)
    ensures var v := VColl(t, seq(|strs|, i requires 0 <= i < |strs| => VStr(strs[i])));
      Dumps(env, CollP(StrP, t, ","), v) == Ok(Text.Join(strs, ","))
  {
    var items := seq(|strs|, i requires 0 <= i < |strs| => VStr(strs[i]));
    AllOkOf(seq(|items|, i requires 0 <= i < |items| => Dumps(env, StrP, items[i])), strs);
  }

  lemma CommaFreeSeparable(strs: seq<string>)
    requires forall i :: 0 <= i < |strs| ==> ',' !in strs[i]
    ensures Text.Separable(strs, ",")
  {
    forall i | 0 <= i < |strs| ensures Text.NoSepIn(strs[i], ",") && Text.Free(strs[i], ",") {
      Text.SingleCharSep(strs[i], ",");
    }
  }

  /** `r` is what the first alternative to load `s` gives, or `RuntimeError` when none does. */
  predicate UnionLoadsFirst(env: Env, alts: seq<Parser>, s: string, r: Result<Value>)
    requires AllWellFormed(alts)
  {
    && (r.Err? <==> forall i :: 0 <= i < |alts| ==> Loads(env, alts[i], s).Err?)
    && (r.Err? ==> r.exc == RuntimeError)
    && (r.Ok? ==> exists k :: 0 <= k < |alts| && Loads(env, alts[k], s) == r
                   && forall j :: 0 <= j < k ==> Loads(env, alts[j], s).Err?)
  }

  /**
   * `UnionParser.loads`: an optional union reads `""` as `None` without trying anything;
   * otherwise the first alternative to succeed wins, and `RuntimeError` follows when all fail.
   */
  lemma UnionLoads(env: Env, alts: seq<Parser>, optional: bool, s: string)
    requires AllWellFormed(alts)
    ensures s == "" && optional ==> Loads(env, UnionP(alts, optional), s) == Ok(VNone)
    ensures !(s == "" && optional) ==> UnionLoadsFirst(env, alts, s, Loads(env, UnionP(alts, optional), s))
  {
    var rs := seq(|alts|, i requires 0 <= i < |alts| => Loads(env, alts[i], s));
    assert forall i :: 0 <= i < |alts| ==> rs[i] == Loads(env, alts[i], s);
  }

  /**
   * `UnionParser.dumps`: an optional union writes a falsy value as `""`; otherwise the value
   * goes to the first alternative whose default types it is an instance of, and
   * `RuntimeError` follows when there is none.
   */
  lemma UnionDumps(env: Env, alts: seq<Parser>, optional: bool, v: Value)
    requires AllWellFormed(alts)
    ensures !Truthy(v) && optional ==> Dumps(env, UnionP(alts, optional), v) == Ok("")
    ensures !(!Truthy(v) && optional) && ChooseAlt(env, alts, v, 0).Err? ==>
      Dumps(env, UnionP(alts, optional), v) == Err(ChooseAlt(env, alts, v, 0).exc)
    ensures !(!Truthy(v) && optional) && ChooseAlt(env, alts, v, 0) == Ok(None) ==>
      Dumps(env, UnionP(alts, optional), v) == Err(RuntimeError)
    ensures !(!Truthy(v) && optional) && ChooseAlt(env, alts, v, 0).Ok? && ChooseAlt(env, alts, v, 0).value.Some? ==>
      && ChooseAlt(env, alts, v, 0).value.value < |alts|
      && Dumps(env, UnionP(alts, optional), v) == Dumps(env, alts[ChooseAlt(env, alts, v, 0).value.value], v)
  {
  }

  /** A registry in which `int` and `bool` are registered for their own parsers. */
  predicate IntBoolRegistered(env: Env) {
    && env.h == StdHierarchy()
    && OrderedDicts.Get(env.defaults, IntParserC) == Some([INT])
    && OrderedDicts.Get(env.defaults, BoolParserC) == Some([BOOL])
  }

  /**
   * `bool` is a subclass of `int`, so a union of an int parser before a bool parser dumps
   * `True` with the int parser, as `"True"`, which then loads back as a base-36 integer.
   */
  lemma UnionIntBeforeBool(env: Env)
    requires IntBoolRegistered(env)
    ensures var u := UnionP([IntP(true, 36), BoolNew(None, None)], false);
      && Dumps(env, u, VBool(true)) == Ok("True")
      && Loads(env, u, "True").Ok? && Loads(env, u, "True").value.VInt?
  {
    var alts := [IntP(true, 36), BoolNew(None, None)];
    UnionIntFirst(env, alts);
    UnionDumpsWith(env, alts, VBool(true), 0);
    TrueIsBase36();
    UnionLoadsWithFirst(env, alts, "True");
  }

  lemma UnionDumpsWith(env: Env, alts: seq<Parser>, v: Value, k: nat)
    requires AllWellFormed(alts) && k < |alts| && Truthy(v)
    requires ChooseAlt(env, alts, v, 0) == Ok(Some(k))
    ensures Dumps(env, UnionP(alts, false), v) == Dumps(env, alts[k], v)
  {
  }

  lemma UnionLoadsWithFirst(env: Env, alts: seq<Parser>, s: string)
    requires AllWellFormed(alts) && |alts| >= 1 && Loads(env, alts[0], s).Ok?
    ensures Loads(env, UnionP(alts, false), s) == Loads(env, alts[0], s)
  {
    var rs := seq(|alts|, i requires 0 <= i < |alts| => Loads(env, alts[i], s));
    assert rs[0] == Loads(env, alts[0], s);
  }

  lemma UnionIntFirst(env: Env, alts: seq<Parser>)
    requires IntBoolRegistered(env) && |alts| >= 1 && alts[0] == IntP(true, 36) && AllWellFormed(alts)
    ensures ChooseAlt(env, alts, VBool(true), 0) == Ok(Some(0))
  {
    BoolIsInt();
    assert DefaultTypes(env, IntParserC) == Ok([INT]);
  }

  lemma BoolIsInt()
    ensures IsInstanceOfAny(StdHierarchy(), BOOL, [INT]) == Ok(true)
  {
    assert INT in StdHierarchy().classes[BOOL].supers;
  }

  lemma TrueIsBase36()
    ensures IntCodec.ParseInt("True", 36).Ok?
  {
    assert IntCodec.StripLeft("True") == "True";
    assert IntCodec.StripRight("True") == "True";
    assert IntCodec.IsDigitIn("True"[0], 36) && IntCodec.IsDigitIn("True"[1], 36);
    assert IntCodec.IsDigitIn("True"[2], 36) && IntCodec.IsDigitIn("True"[3], 36);
    assert IntCodec.WellFormedDigits("True", 36);
  }

  /**
   * By value, an enum member round-trips when the value parser round-trips the member's value
   * and no two members have equal values.
   */
  lemma EnumByValueRoundTrip(env: Env, e: EnumClass, vp: Parser, k: nat, d: string)
    requires Parsers.WellFormed(vp) && k < |e.members| && Enums.DistinctValues(e)
    requires Dumps(env, vp, e.members[k].value) == Ok(d)
    requires Loads(env, vp, d) == Ok(e.members[k].value)
    ensures var m := VMember(e, e.members[k].name, e.members[k].value);
      && Dumps(env, EnumP(e, true, vp), m) == Ok(d)
      && Loads(env, EnumP(e, true, vp), d) == Ok(m)
  {
    var m := e.members[k];
    Enums.LookupOwnMember(e, k);
    assert Loads(env, EnumP(e, true, vp), d) == Enums.ByValue(e, m.value);
  }

  /** By name, with the string parser, a member is written as its name and read back by it. */
  lemma EnumByNameRoundTrip(env: Env, e: EnumClass, k: nat)
    requires k < |e.members| && Enums.DistinctNames(e) && e.kind != DisnakeFlags
    ensures var m := VMember(e, e.members[k].name, e.members[k].value);
      && Dumps(env, EnumP(e, false, StrP), m) == Ok(e.members[k].name)
      && Loads(env, EnumP(e, false, StrP), e.members[k].name) == Ok(m)
  {
    Enums.LookupOwnMember(e, k);
  }

  /** A value that is not an enum member has no `.value` or `.name`. */
  lemma EnumDumpsNonMember(env: Env, e: EnumClass, byValue: bool, vp: Parser, v: Value)
    requires Parsers.WellFormed(vp) && !v.VMember?
    ensures Dumps(env, EnumP(e, byValue, vp), v) == Err(AttributeError)
  {
  }
}
