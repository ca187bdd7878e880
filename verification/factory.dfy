/**
 * Component factories: the per-field parsers of a component, and the conversion of a whole
 * component to and from the fields of its custom id.
 */
module Factory {
  import opened Wrappers
  import opened PyTypes
  import opened Values
  import opened OrderedDicts
  import Parsers
  import Registry
  import Fields
  import CustomId
  import Text

  /** Where default parsers come from: the parser revision, the class hierarchy and the registry. */
  datatype Ctx = Ctx(rv: Parsers.Revision, h: Hierarchy, st: Registry.RegState)

  /** `field.type or str`. */
  function AnnotationOf(f: Fields.Field): Ty
  {
    f.ty.GetOr(Plain(STR))
  }

  /**
   * The parser a field gets: its explicit parser if it has one, otherwise
   * `get_parser(field.type or str).default()`, a fresh no-argument parser of the class the
   * annotation resolves to.
   */
  function ParserFor(c: Ctx, f: Fields.Field): (r: Result<Parsers.Parser>)
    ensures Fields.ExplicitParser(f).Some? ==> r == Ok(Fields.ExplicitParser(f).value)
    ensures Fields.ExplicitParser(f).None? && Registry.GetParser(c.rv, c.h, c.st, AnnotationOf(f)).Err? ==>
      r == Err(Registry.GetParser(c.rv, c.h, c.st, AnnotationOf(f)).exc)
    ensures Fields.ExplicitParser(f).None? && Registry.GetParser(c.rv, c.h, c.st, AnnotationOf(f)).Ok? ==>
      r == Parsers.Default(c.rv, Parsers.ClassOf(Registry.GetParser(c.rv, c.h, c.st, AnnotationOf(f)).value))
    ensures r.Ok? && Fields.ExplicitParser(f).None? ==> Parsers.WellFormed(r.value)
  {
    match Fields.ExplicitParser(f)
    case Some(p) => Ok(p)
    case None =>
      var p :- Registry.GetParser(c.rv, c.h, c.st, AnnotationOf(f));
      Parsers.Default(c.rv, Parsers.ClassOf(p))
  }

  /** Every parser in the mapping keeps the parser invariant. */
  predicate AllWellFormed(parsers: Dict<string, Parsers.Parser>) {
    forall i :: 0 <= i < |parsers| ==> Parsers.WellFormed(parsers[i].1)
  }

  /** A field whose explicit parser, if any, keeps the parser invariant. */
  predicate ExplicitWellFormed(f: Fields.Field) {
    Fields.ExplicitParser(f).Some? ==> Parsers.WellFormed(Fields.ExplicitParser(f).value)
  }

  /**
   * The mapping a loop over named parser results fills in, starting from `acc`: each parser
   * stored under its name, in order; the first result that is an exception stops the loop with it.
   */
  function AssembleInto(acc: Dict<string, Parsers.Parser>, es: Dict<string, Result<Parsers.Parser>>): Result<Dict<string, Parsers.Parser>>
    decreases |es|
  {
    if es == [] then Ok(acc)
    else if es[0].1.Err? then Err(es[0].1.exc)
    else AssembleInto(Put(acc, es[0].0, es[0].1.value), es[1..])
  }

  /** The loop finishes exactly when no result is an exception. */
  lemma {:induction false} AssembleIntoOk(acc: Dict<string, Parsers.Parser>, es: Dict<string, Result<Parsers.Parser>>)
    ensures AssembleInto(acc, es).Ok? <==> forall i :: 0 <= i < |es| ==> es[i].1.Ok?
    decreases |es|
  {
    if es != [] && es[0].1.Ok? {
      assert forall i :: 0 <= i < |es| - 1 ==> es[1..][i] == es[i + 1];
      AssembleIntoOk(Put(acc, es[0].0, es[0].1.value), es[1..]);
    }
  }

  /** Each field's name paired with the parser it gets. */
  function Entries(c: Ctx, fs: seq<Fields.Field>): (es: Dict<string, Result<Parsers.Parser>>)
    ensures |es| == |fs| && forall i :: 0 <= i < |fs| ==> es[i] == (fs[i].name, ParserFor(c, fs[i]))
  {
    seq(|fs|, i requires 0 <= i < |fs| => (fs[i].name, ParserFor(c, fs[i])))
  }

  /** The loop over the fields of a component, into a fresh mapping. */
  function ParsersOf(c: Ctx, fs: seq<Fields.Field>): (r: Result<Dict<string, Parsers.Parser>>)
    ensures r.Ok? <==> forall i :: 0 <= i < |fs| ==> ParserFor(c, fs[i]).Ok?
  {
    AssembleIntoOk([], Entries(c, fs));
    AssembleInto([], Entries(c, fs))
  }

  /** Field names used once each, as attrs guarantees. */
  predicate DistinctFieldNames(fs: seq<Fields.Field>) {
    forall i, j :: 0 <= i < j < |fs| ==> fs[i].name != fs[j].name
  }

  /** One iteration of the loop, at position `i`. */
  lemma AssembleAt(acc: Dict<string, Parsers.Parser>, es: Dict<string, Result<Parsers.Parser>>, i: nat)
    requires i < |es|
    ensures AssembleInto(acc, es[i..]) ==
      if es[i].1.Err? then Err(es[i].1.exc) else AssembleInto(Put(acc, es[i].0, es[i].1.value), es[i + 1..])
  {
    assert es[i..][0] == es[i] && es[i..][1..] == es[i + 1..];
  }

  /** Results that are all parsers, under names new to `acc` and distinct, are appended as they are. */
  lemma {:induction false} AssembleIntoDistinct(acc: Dict<string, Parsers.Parser>, es: Dict<string, Result<Parsers.Parser>>,
                                                kvs: Dict<string, Parsers.Parser>)
    requires |es| == |kvs| && forall i :: 0 <= i < |es| ==> es[i] == (kvs[i].0, Ok(kvs[i].1))
    requires UniqueKeys(acc + kvs)
    ensures AssembleInto(acc, es) == Ok(acc + kvs)
    decreases |es|
  {
    if es != [] {
      var k := kvs[0];
      assert k.0 !in Keys(acc) by {
        assert forall i :: 0 <= i < |acc| ==> Keys(acc)[i] == (acc + kvs)[i].0;
        assert (acc + kvs)[|acc|] == k;
      }
      PutAppends(acc, k.0, k.1);
      assert acc + [k] + kvs[1..] == acc + kvs;
      assert forall i :: 0 <= i < |es| - 1 ==> es[1..][i] == es[i + 1] && kvs[1..][i] == kvs[i + 1];
      AssembleIntoDistinct(acc + [k], es[1..], kvs[1..]);
    } else {
      assert acc + kvs == acc;
    }
  }

  /** Every parser in the mapping is in `acc` or one of the results. */
  lemma {:induction false} AssembleIntoWellFormed(acc: Dict<string, Parsers.Parser>, es: Dict<string, Result<Parsers.Parser>>)
    requires AllWellFormed(acc) && AssembleInto(acc, es).Ok?
    requires forall i :: 0 <= i < |es| && es[i].1.Ok? ==> Parsers.WellFormed(es[i].1.value)
    ensures AllWellFormed(AssembleInto(acc, es).value)
    decreases |es|
  {
    if es != [] {
      assert forall j :: 0 <= j < |es| - 1 ==> es[1..][j] == es[j + 1];
      PutWellFormed(acc, es[0].0, es[0].1.value);
      AssembleIntoWellFormed(Put(acc, es[0].0, es[0].1.value), es[1..]);
    }
  }

  /** Each field's name bound to the parser it gets, in declaration order. */
  function Bindings(c: Ctx, fs: seq<Fields.Field>): (kvs: Dict<string, Parsers.Parser>)
    requires forall i :: 0 <= i < |fs| ==> ParserFor(c, fs[i]).Ok?
    ensures |kvs| == |fs| && forall i :: 0 <= i < |fs| ==> kvs[i] == (fs[i].name, ParserFor(c, fs[i]).value)
  {
    seq(|fs|, i requires 0 <= i < |fs| => (fs[i].name, ParserFor(c, fs[i]).value))
  }

  /**
   * With distinct names, the mapping is exactly each field's name bound to its parser, in
   * declaration order.
   */
  lemma ParsersOfDistinct(c: Ctx, fs: seq<Fields.Field>)
    requires DistinctFieldNames(fs) && ParsersOf(c, fs).Ok?
    ensures ParsersOf(c, fs) == Ok(Bindings(c, fs))
    ensures UniqueKeys(ParsersOf(c, fs).value)
  {
    var kvs := Bindings(c, fs);
    assert [] + kvs == kvs;
    AssembleIntoDistinct([], Entries(c, fs), kvs);
  }

  /** With distinct names, the mapping has exactly the fields' names, in declaration order. */
  lemma ParsersOfKeys(c: Ctx, fs: seq<Fields.Field>)
    requires DistinctFieldNames(fs) && ParsersOf(c, fs).Ok?
    ensures Keys(ParsersOf(c, fs).value) == Fields.Names(fs)
    ensures UniqueKeys(ParsersOf(c, fs).value)
  {
    ParsersOfDistinct(c, fs);
    assert Keys(Bindings(c, fs)) == Fields.Names(fs);
  }

  /** With distinct names, each field's name is bound to that field's parser. */
  lemma ParsersOfGet(c: Ctx, fs: seq<Fields.Field>, i: nat)
    requires DistinctFieldNames(fs) && ParsersOf(c, fs).Ok? && i < |fs|
    ensures Get(ParsersOf(c, fs).value, fs[i].name) == Some(ParserFor(c, fs[i]).value)
  {
    ParsersOfDistinct(c, fs);
    GetAt(Bindings(c, fs), i);
  }

  /** With well-formed explicit parsers, every parser in the mapping is well formed. */
  lemma ParsersOfWellFormed(c: Ctx, fs: seq<Fields.Field>)
    requires ParsersOf(c, fs).Ok? && forall i :: 0 <= i < |fs| ==> ExplicitWellFormed(fs[i])
    ensures AllWellFormed(ParsersOf(c, fs).value)
  {
    AssembleIntoWellFormed([], Entries(c, fs));
  }

  lemma PutWellFormed(d: Dict<string, Parsers.Parser>, k: string, p: Parsers.Parser)
    requires AllWellFormed(d) && Parsers.WellFormed(p)
    ensures AllWellFormed(Put(d, k, p))
  {
    match IndexOf(d, k)
    case Some(i) =>
    case None =>
  }

  lemma GetWellFormed(d: Dict<string, Parsers.Parser>, k: string)
    requires AllWellFormed(d) && Get(d, k).Some?
    ensures Parsers.WellFormed(Get(d, k).value)
  {
    var i := IndexOf(d, k).value;
    assert Get(d, k).value == d[i].1;
  }

  // ---------------------------------------------------------------------------------------
  // The parser mapping, builder and factory as objects.

  /** A `dict` of parsers, updated in place. */
  class ParserMap {
    var entries: Dict<string, Parsers.Parser>

    constructor ()
      ensures entries == []
    {
      entries := [];
    }
  }

  /** `ComponentFactoryBuilder`: collects the parsers of a component's fields one by one. */
  class Builder {
    const parsers: ParserMap
    const component: Fields.ComponentClass

    constructor (component: Fields.ComponentClass)
      ensures this.component == component && fresh(parsers) && parsers.entries == []
    {
      this.component := component;
      parsers := new ParserMap();
    }

    /**
     * `add_field(field)`: the field's parser, stored under its name; an existing entry for the
     * name is replaced in place, the other entries are kept.
     */
    method AddField(c: Ctx, f: Fields.Field) returns (r: Result<Parsers.Parser>)
      modifies parsers
      ensures r == ParserFor(c, f)
      ensures r.Ok? ==> parsers.entries == Put(old(parsers.entries), f.name, r.value)
      ensures r.Err? ==> parsers.entries == old(parsers.entries)
    {
      r := ParserFor(c, f);
      if r.Ok? {
        parsers.entries := Put(parsers.entries, f.name, r.value);
      }
    }

    /** `build()`: a factory reading the builder's own mapping through a read-only view. */
    method Build() returns (factory: ComponentFactory)
      ensures fresh(factory) && factory.parsers == parsers && factory.component == component
    {
      factory := new ComponentFactory(parsers, component);
    }
  }

  /** `ComponentFactory`: the parsers of a component's custom-id fields, and the component class. */
  class ComponentFactory {
    const parsers: ParserMap
    const component: Fields.ComponentClass

    constructor (parsers: ParserMap, component: Fields.ComponentClass)
      ensures this.parsers == parsers && this.component == component
    {
      this.parsers := parsers;
      this.component := component;
    }
  }

  /** The fields a factory converts: those tagged as custom-id fields, in declaration order. */
  function IdFields(cls: Fields.ComponentClass): seq<Fields.Field>
  {
    Fields.OfKind(cls.fields, Fields.CustomIdField)
  }

  /**
   * `ComponentFactory.from_component(cls)`: one parser per custom-id field, chosen as
   * `add_field` chooses it, in a fresh mapping.
   */
  method FromComponent(c: Ctx, cls: Fields.ComponentClass) returns (r: Result<ComponentFactory>)
    ensures r.Ok? <==> ParsersOf(c, IdFields(cls)).Ok?
    ensures r.Err? ==> r == Err(ParsersOf(c, IdFields(cls)).exc)
    ensures r.Ok? ==> fresh(r.value) && fresh(r.value.parsers) && r.value.component == cls
    ensures r.Ok? ==> r.value.parsers.entries == ParsersOf(c, IdFields(cls)).value
  {
    var fs := IdFields(cls);
    var es := Entries(c, fs);
    var parsers: Dict<string, Parsers.Parser> := [];
    assert es[0..] == es;
    for i := 0 to |fs|
      invariant AssembleInto(parsers, es[i..]) == ParsersOf(c, fs)
    {
      AssembleAt(parsers, es, i);
      var p := ParserFor(c, fs[i]);
      if p.Err? {
        return Err(p.exc);
      }
      parsers := Put(parsers, fs[i].name, p.value);
    }
    assert es[|fs|..] == [];
    var m := new ParserMap();
    m.entries := parsers;
    var factory := new ComponentFactory(m, cls);
    return Ok(factory);
  }

  // ---------------------------------------------------------------------------------------
  // Converting single parameters.

  /** `parsers[name]`: a `KeyError` for a name with no parser. */
  function Lookup(parsers: Dict<string, Parsers.Parser>, name: string): (r: Result<Parsers.Parser>)
    ensures r.Ok? <==> name in Keys(parsers)
    ensures r.Ok? ==> Get(parsers, name) == Some(r.value)
    ensures r.Err? ==> r.exc == KeyError
  {
    match Get(parsers, name)
    case None => Err(KeyError)
    case Some(p) => Ok(p)
  }

  /** `loads_param(interaction, param, value)`: the named parser's `loads`. */
  function LoadsParam(env: Parsers.Env, parsers: Dict<string, Parsers.Parser>, param: string, value: string): (r: Result<Value>)
    requires AllWellFormed(parsers)
    ensures param !in Keys(parsers) ==> r == Err(KeyError)
    ensures param in Keys(parsers) ==> r == Parsers.Loads(env, Get(parsers, param).value, value)
  {
    var p :- Lookup(parsers, param);
    GetWellFormed(parsers, param);
    Parsers.Loads(env, p, value)
  }

  /** `dumps_param(param, value)`: the named parser's `dumps`. */
  function DumpsParam(env: Parsers.Env, parsers: Dict<string, Parsers.Parser>, param: string, value: Value): (r: Result<string>)
    requires AllWellFormed(parsers)
    ensures param !in Keys(parsers) ==> r == Err(KeyError)
    ensures param in Keys(parsers) ==> r == Parsers.Dumps(env, Get(parsers, param).value, value)
  {
    var p :- Lookup(parsers, param);
    GetWellFormed(parsers, param);
    Parsers.Dumps(env, p, value)
  }

  // ---------------------------------------------------------------------------------------
  // Whole components.

  /**
   * A dict comprehension over computed entries: each entry is a key with the value it computes,
   * or `None` when its `if` filters it out. Entries are computed in order, the first exception
   * propagating, and a later value for a key replaces an earlier one.
   */
  function Gather<V>(steps: Dict<string, Option<Result<V>>>): Result<map<string, V>>
    decreases |steps|
  {
    if steps == [] then Ok(map[])
    else
      var kw :- Gather(steps[..|steps| - 1]);
      var last := steps[|steps| - 1];
      match last.1
      case None => Ok(kw)
      case Some(x) =>
        var v :- x;
        Ok(kw[last.0 := v])
  }

  /** The entries `loads` computes: each non-empty value parsed by its parameter's parser. */
  function LoadSteps(env: Parsers.Env, parsers: Dict<string, Parsers.Parser>, params: Dict<string, string>): (steps: Dict<string, Option<Result<Value>>>)
    requires AllWellFormed(parsers)
    ensures |steps| == |params| && forall i :: 0 <= i < |params| ==>
      steps[i] == (params[i].0, if params[i].1 == "" then None else Some(LoadsParam(env, parsers, params[i].0, params[i].1)))
  {
    seq(|params|, i requires 0 <= i < |params| =>
      (params[i].0, if params[i].1 == "" then None else Some(LoadsParam(env, parsers, params[i].0, params[i].1))))
  }

  /** The keyword arguments `loads` builds. */
  function LoadAll(env: Parsers.Env, parsers: Dict<string, Parsers.Parser>, params: Dict<string, string>): Result<map<string, Value>>
    requires AllWellFormed(parsers)
  {
    Gather(LoadSteps(env, parsers, params))
  }

  /** `loads(interaction, params)`: the parsed arguments passed to the component class. */
  function Loads(env: Parsers.Env, parsers: Dict<string, Parsers.Parser>, cls: Fields.ComponentClass, params: Dict<string, string>): (r: Result<map<string, Value>>)
    requires AllWellFormed(parsers)
    ensures LoadAll(env, parsers, params).Err? ==> r == Err(LoadAll(env, parsers, params).exc)
    ensures LoadAll(env, parsers, params).Ok? ==> r == Fields.Instantiate(cls, LoadAll(env, parsers, params).value)
  {
    var kw :- LoadAll(env, parsers, params);
    Fields.Instantiate(cls, kw)
  }

  /** `getattr(component, name)` dumped by the named parser: an `AttributeError` for a missing attribute. */
  function DumpAttr(env: Parsers.Env, parsers: Dict<string, Parsers.Parser>, name: string, attrs: map<string, Value>): Result<Value>
    requires AllWellFormed(parsers)
  {
    if name !in attrs then Err(AttributeError)
    else
      var d :- DumpsParam(env, parsers, name, attrs[name]);
      Ok(VStr(d))
  }

  /** The entries `dumps` computes: one per custom-id field, in order. */
  function DumpSteps(env: Parsers.Env, parsers: Dict<string, Parsers.Parser>, fs: seq<Fields.Field>, attrs: map<string, Value>): (steps: Dict<string, Option<Result<Value>>>)
    requires AllWellFormed(parsers)
    ensures |steps| == |fs| && forall i :: 0 <= i < |fs| ==> steps[i] == (fs[i].name, Some(DumpAttr(env, parsers, fs[i].name, attrs)))
  {
    seq(|fs|, i requires 0 <= i < |fs| => (fs[i].name, Some(DumpAttr(env, parsers, fs[i].name, attrs))))
  }

  /** The keyword arguments `dumps` builds. */
  function DumpAll(env: Parsers.Env, parsers: Dict<string, Parsers.Parser>, fs: seq<Fields.Field>, attrs: map<string, Value>): Result<map<string, Value>>
    requires AllWellFormed(parsers)
  {
    Gather(DumpSteps(env, parsers, fs, attrs))
  }

  /** `dumps(component)`: the dumped fields filled into the class's custom id. */
  function Dumps(env: Parsers.Env, parsers: Dict<string, Parsers.Parser>, cls: Fields.ComponentClass, cid: CustomId.CustomID, attrs: map<string, Value>): (r: Result<string>)
    requires AllWellFormed(parsers)
    ensures DumpAll(env, parsers, IdFields(cls), attrs).Err? ==> r == Err(DumpAll(env, parsers, IdFields(cls), attrs).exc)
    ensures DumpAll(env, parsers, IdFields(cls), attrs).Ok? ==> r == CustomId.FormatMap(cid.spec, DumpAll(env, parsers, IdFields(cls), attrs).value)
  {
    var kw :- DumpAll(env, parsers, IdFields(cls), attrs);
    CustomId.FormatMap(cid.spec, kw)
  }

  // ---------------------------------------------------------------------------------------
  // Which parser a field gets.

  /** A plain annotation gets its registered class's default parser, as `get_parser` gives it. */
  lemma PlainFieldParser(c: Ctx, f: Fields.Field, cls: TypeKey)
    requires Fields.ExplicitParser(f).None? && AnnotationOf(f) == Plain(cls)
    ensures ParserFor(c, f) == Registry.GetParser(c.rv, c.h, c.st, Plain(cls))
  {
  }

  /** An unannotated field is a string field whenever `str` is bound to the string parser. */
  lemma UnannotatedFieldIsString(c: Ctx, f: Fields.Field)
    requires Fields.ExplicitParser(f).None? && f.ty.None?
    requires STR in c.st.parsers && c.st.parsers[STR] == Parsers.StringParserC
    ensures ParserFor(c, f) == Ok(Parsers.StrP)
  {
  }

  /**
   * A tuple annotation's resolved inner parsers are discarded: the field gets the tuple
   * parser's no-argument default.
   */
  lemma TupleFieldLosesInner(c: Ctx, f: Fields.Field, o: TypeKey, args: seq<Ty>, ps: seq<Parsers.Parser>)
    requires Fields.ExplicitParser(f).None? && AnnotationOf(f) == Generic(o, args)
    requires o != UNION && IsClass(c.h, o) && Subclass(c.h, o, TUPLE)
    requires Registry.ParserTypeOf(c.h, c.st, o) == Ok(Parsers.TupleParserC)
    requires |args| == |ps| && forall i :: 0 <= i < |args| ==> Registry.GetParser(c.rv, c.h, c.st, args[i]) == Ok(ps[i])
    ensures ParserFor(c, f) == Ok(Parsers.TupleNew(c.rv, [], ","))
  {
    Registry.ResolveTuple(c.rv, c.h, c.st, o, args, ps);
  }

  /**
   * An `Optional[T]` annotation resolves to a union, whose class has no no-argument default:
   * the field's parser cannot be made.
   */
  lemma OptionalFieldRefused(c: Ctx, f: Fields.Field, t: Ty, p: Parsers.Parser)
    requires Fields.ExplicitParser(f).None? && AnnotationOf(f) == Optional(t)
    requires Registry.ParserTypeOf(c.h, c.st, UNION) == Ok(Parsers.UnionParserC)
    requires Registry.ParserTypeOf(c.h, c.st, NONE_TYPE) == Ok(Parsers.NoneParserC)
    requires Registry.GetParser(c.rv, c.h, c.st, t) == Ok(p)
    ensures ParserFor(c, f) == Err(TypeError)
  {
    Registry.ResolveOptional(c.rv, c.h, c.st, t, p);
  }

  /**
   * A collection annotation's element parser and collection type are discarded: the field gets
   * a list-of-strings collection parser.
   */
  lemma CollectionFieldLosesElement(c: Ctx, f: Fields.Field, o: TypeKey, args: seq<Ty>, elem: Parsers.Parser)
    requires Fields.ExplicitParser(f).None? && AnnotationOf(f) == Generic(o, args)
    requires o != UNION && IsClass(c.h, o) && !Subclass(c.h, o, TUPLE) && Subclass(c.h, o, COLLECTION)
    requires Registry.ParserTypeOf(c.h, c.st, o) == Ok(Parsers.CollectionParserC)
    requires Registry.GetParser(c.rv, c.h, c.st, if args == [] then Plain(STR) else args[0]) == Ok(elem)
    requires Parsers.ResolveCollection(c.h, o).Ok?
    ensures ParserFor(c, f) == Ok(Parsers.CollP(Parsers.StrP, LIST, ","))
  {
    Registry.ResolveCollectionType(c.rv, c.h, c.st, o, args, elem);
  }

  // ---------------------------------------------------------------------------------------
  // Loading.

  lemma GatherStep<V>(steps: Dict<string, Option<Result<V>>>)
    requires steps != []
    ensures var pre := Gather(steps[..|steps| - 1]); var last := steps[|steps| - 1];
      Gather(steps) ==
        if pre.Err? then pre
        else if last.1.None? then pre
        else if last.1.value.Err? then Err(last.1.value.exc)
        else Ok(pre.value[last.0 := last.1.value.value])
  {
  }

  /** The comprehension's keys are exactly the keys of the entries its `if` keeps. */
  lemma {:induction false} GatherKeys<V>(steps: Dict<string, Option<Result<V>>>)
    requires Gather(steps).Ok?
    ensures forall k :: k in Gather(steps).value <==> exists i :: 0 <= i < |steps| && steps[i].0 == k && steps[i].1.Some?
    decreases |steps|
  {
    if steps != [] {
      var n := |steps| - 1;
      var pre := steps[..n];
      GatherStep(steps);
      GatherKeys(pre);
      var kw := Gather(pre).value;
      forall k ensures k in Gather(steps).value <==> exists i :: 0 <= i < |steps| && steps[i].0 == k && steps[i].1.Some? {
        if k in kw {
          var i :| 0 <= i < n && pre[i].0 == k && pre[i].1.Some?;
          assert steps[i] == pre[i];
        }
        if exists i :: 0 <= i < |steps| && steps[i].0 == k && steps[i].1.Some? {
          var i :| 0 <= i < |steps| && steps[i].0 == k && steps[i].1.Some?;
          if i < n {
            assert pre[i] == steps[i];
          }
        }
      }
    }
  }

  /** Every value in the comprehension is one its entries computed. */
  lemma {:induction false} GatherKeeps<V>(steps: Dict<string, Option<Result<V>>>, p: V -> bool)
    requires Gather(steps).Ok?
    requires forall i :: 0 <= i < |steps| && steps[i].1.Some? && steps[i].1.value.Ok? ==> p(steps[i].1.value.value)
    ensures forall k :: k in Gather(steps).value ==> p(Gather(steps).value[k])
    decreases |steps|
  {
    if steps != [] {
      var pre := steps[..|steps| - 1];
      assert forall i :: 0 <= i < |pre| ==> pre[i] == steps[i];
      GatherStep(steps);
      GatherKeeps(pre, p);
    }
  }

  /** With distinct keys and no exception, each kept key is bound to the value its entry computed. */
  lemma {:induction false} GatherOf<V>(steps: Dict<string, Option<Result<V>>>)
    requires UniqueKeys(steps)
    requires forall i :: 0 <= i < |steps| && steps[i].1.Some? ==> steps[i].1.value.Ok?
    ensures Gather(steps).Ok?
    ensures forall i :: 0 <= i < |steps| && steps[i].1.Some? ==>
      steps[i].0 in Gather(steps).value && Gather(steps).value[steps[i].0] == steps[i].1.value.value
    decreases |steps|
  {
    if steps != [] {
      var n := |steps| - 1;
      var pre := steps[..n];
      assert forall i :: 0 <= i < n ==> pre[i] == steps[i];
      GatherOf(pre);
      GatherStep(steps);
      forall i | 0 <= i < |steps| && steps[i].1.Some?
        ensures steps[i].0 in Gather(steps).value && Gather(steps).value[steps[i].0] == steps[i].1.value.value
      {
        if i < n {
          assert steps[i].0 != steps[n].0 && pre[i] == steps[i];
        }
      }
    }
  }

  lemma {:induction false} GatherPrefixOk<V>(steps: Dict<string, Option<Result<V>>>, j: nat)
    requires j <= |steps|
    requires forall i :: 0 <= i < j && steps[i].1.Some? ==> steps[i].1.value.Ok?
    ensures Gather(steps[..j]).Ok?
    decreases j
  {
    if j > 0 {
      var pre := steps[..j];
      assert pre[..j - 1] == steps[..j - 1];
      GatherPrefixOk(steps, j - 1);
      GatherStep(pre);
    }
  }

  lemma {:induction false} GatherPrefixErr<V>(steps: Dict<string, Option<Result<V>>>, j: nat)
    requires j <= |steps| && Gather(steps[..j]).Err?
    ensures Gather(steps) == Gather(steps[..j])
    decreases |steps| - j
  {
    if j < |steps| {
      var pre := steps[..j + 1];
      assert pre[..j] == steps[..j];
      GatherStep(pre);
      GatherPrefixErr(steps, j + 1);
    } else {
      assert steps[..j] == steps;
    }
  }

  /** The first entry whose value raises stops the comprehension with that exception. */
  lemma GatherFirstError<V>(steps: Dict<string, Option<Result<V>>>, j: nat)
    requires j < |steps| && steps[j].1.Some? && steps[j].1.value.Err?
    requires forall i :: 0 <= i < j && steps[i].1.Some? ==> steps[i].1.value.Ok?
    ensures Gather(steps) == Err(steps[j].1.value.exc)
  {
    GatherPrefixOk(steps, j);
    var pre := steps[..j + 1];
    assert pre[..j] == steps[..j] && pre[j] == steps[j];
    GatherStep(pre);
    GatherPrefixErr(steps, j + 1);
  }

  // ---------------------------------------------------------------------------------------
  // Loading.

  /** The loaded keyword arguments are exactly the parameters with a non-empty value. */
  lemma LoadAllKeys(env: Parsers.Env, parsers: Dict<string, Parsers.Parser>, params: Dict<string, string>)
    requires AllWellFormed(parsers) && LoadAll(env, parsers, params).Ok?
    ensures forall k :: k in LoadAll(env, parsers, params).value <==>
      exists i :: 0 <= i < |params| && params[i].0 == k && params[i].1 != ""
  {
    var steps := LoadSteps(env, parsers, params);
    GatherKeys(steps);
    forall k ensures k in Gather(steps).value <==> exists i :: 0 <= i < |params| && params[i].0 == k && params[i].1 != "" {
      if k in Gather(steps).value {
        var i :| 0 <= i < |steps| && steps[i].0 == k && steps[i].1.Some?;
        assert params[i].0 == k && params[i].1 != "";
      }
      if exists i :: 0 <= i < |params| && params[i].0 == k && params[i].1 != "" {
        var i :| 0 <= i < |params| && params[i].0 == k && params[i].1 != "";
        assert steps[i].0 == k && steps[i].1.Some?;
      }
    }
  }

  /** Every non-empty value loads: each is bound to its parsed value. */
  lemma LoadAllOf(env: Parsers.Env, parsers: Dict<string, Parsers.Parser>, params: Dict<string, string>)
    requires AllWellFormed(parsers) && UniqueKeys(params)
    requires forall i :: 0 <= i < |params| && params[i].1 != "" ==> LoadsParam(env, parsers, params[i].0, params[i].1).Ok?
    ensures LoadAll(env, parsers, params).Ok?
    ensures forall i :: 0 <= i < |params| && params[i].1 != "" ==>
      params[i].0 in LoadAll(env, parsers, params).value &&
      LoadAll(env, parsers, params).value[params[i].0] == LoadsParam(env, parsers, params[i].0, params[i].1).value
  {
    var steps := LoadSteps(env, parsers, params);
    GatherOf(steps);
  }

  /**
   * The first non-empty value that fails to load stops loading with its exception (a
   * `KeyError` for a name with no parser); no instance is built.
   */
  lemma LoadsFirstError(env: Parsers.Env, parsers: Dict<string, Parsers.Parser>, cls: Fields.ComponentClass, params: Dict<string, string>, j: nat)
    requires AllWellFormed(parsers) && j < |params| && params[j].1 != ""
    requires forall i :: 0 <= i < j && params[i].1 != "" ==> LoadsParam(env, parsers, params[i].0, params[i].1).Ok?
    requires LoadsParam(env, parsers, params[j].0, params[j].1).Err?
    ensures Loads(env, parsers, cls, params) == Err(LoadsParam(env, parsers, params[j].0, params[j].1).exc)
  {
    GatherFirstError(LoadSteps(env, parsers, params), j);
  }

  /**
   * An empty value is never parsed: a field whose custom-id value is empty takes the class
   * default, whatever its parser would make of `""`.
   */
  lemma EmptyValueTakesDefault(env: Parsers.Env, parsers: Dict<string, Parsers.Parser>, cls: Fields.ComponentClass, params: Dict<string, string>, i: nat, k: nat)
    requires AllWellFormed(parsers) && UniqueKeys(params) && DistinctFieldNames(cls.fields)
    requires i < |params| && params[i].1 == "" && k < |cls.fields| && cls.fields[k].name == params[i].0
    requires Loads(env, parsers, cls, params).Ok?
    ensures MapGet(Loads(env, parsers, cls, params).value, params[i].0) == cls.fields[k].default
  {
    var kw := LoadAll(env, parsers, params).value;
    LoadAllKeys(env, parsers, params);
    assert params[i].0 !in kw;
    Fields.AttributesOf(cls.fields, kw, k);
  }

  /** Fields passed to `__init__` keep the values given for them. */
  lemma InstantiateKeeps(cls: Fields.ComponentClass, kw: map<string, Value>, k: nat)
    requires DistinctFieldNames(cls.fields) && k < |cls.fields| && cls.fields[k].init && cls.fields[k].name in kw
    requires Fields.Instantiate(cls, kw).Ok?
    ensures MapGet(Fields.Instantiate(cls, kw).value, cls.fields[k].name) == Some(kw[cls.fields[k].name])
  {
    Fields.AttributesOf(cls.fields, kw, k);
  }

  // ---------------------------------------------------------------------------------------
  // Dumping.

  /** Each field's attribute dumps to `ds[i]`. */
  predicate DumpsTo(env: Parsers.Env, parsers: Dict<string, Parsers.Parser>, fs: seq<Fields.Field>, attrs: map<string, Value>, ds: seq<string>)
    requires AllWellFormed(parsers)
  {
    |ds| == |fs| && forall i :: 0 <= i < |fs| ==> fs[i].name in attrs && DumpsParam(env, parsers, fs[i].name, attrs[fs[i].name]) == Ok(ds[i])
  }

  /** The dumped keyword arguments are exactly the custom-id fields, each bound to a string. */
  lemma DumpAllKeys(env: Parsers.Env, parsers: Dict<string, Parsers.Parser>, fs: seq<Fields.Field>, attrs: map<string, Value>)
    requires AllWellFormed(parsers) && DumpAll(env, parsers, fs, attrs).Ok?
    ensures forall k :: k in DumpAll(env, parsers, fs, attrs).value <==> k in Fields.Names(fs)
    ensures forall k :: k in DumpAll(env, parsers, fs, attrs).value ==> DumpAll(env, parsers, fs, attrs).value[k].VStr?
  {
    var steps := DumpSteps(env, parsers, fs, attrs);
    GatherKeys(steps);
    GatherKeeps(steps, (v: Value) => v.VStr?);
    var names := Fields.Names(fs);
    forall k ensures k in Gather(steps).value <==> k in names {
      if k in names {
        var i :| 0 <= i < |names| && names[i] == k;
        assert steps[i].0 == k && steps[i].1.Some?;
      }
    }
  }

  lemma DumpAllOf(env: Parsers.Env, parsers: Dict<string, Parsers.Parser>, fs: seq<Fields.Field>, attrs: map<string, Value>, ds: seq<string>)
    requires AllWellFormed(parsers) && DistinctFieldNames(fs) && DumpsTo(env, parsers, fs, attrs, ds)
    ensures DumpAll(env, parsers, fs, attrs).Ok?
    ensures forall i :: 0 <= i < |fs| ==>
      fs[i].name in DumpAll(env, parsers, fs, attrs).value && DumpAll(env, parsers, fs, attrs).value[fs[i].name] == VStr(ds[i])
  {
    var steps := DumpSteps(env, parsers, fs, attrs);
    GatherOf(steps);
  }

  /** The custom id is well formed and its fields are the class's custom-id fields, in order. */
  predicate IdMatchesClass(cls: Fields.ComponentClass, cid: CustomId.CustomID) {
    CustomId.WellFormed(cid) && cid.fields == Fields.Names(IdFields(cls))
  }

  lemma IdFieldsDistinct(cls: Fields.ComponentClass, cid: CustomId.CustomID)
    requires IdMatchesClass(cls, cid)
    ensures DistinctFieldNames(IdFields(cls))
  {
    var fs := IdFields(cls);
    forall i, j | 0 <= i < j < |fs| ensures fs[i].name != fs[j].name {
      assert cid.fields[i] == fs[i].name && cid.fields[j] == fs[j].name;
    }
  }

  /** The dumped keyword arguments render as the dumps themselves. */
  lemma DumpedRender(kw: map<string, Value>, names: seq<string>, ds: seq<string>)
    requires |names| == |ds| && forall i :: 0 <= i < |names| ==> names[i] in kw && kw[names[i]] == VStr(ds[i])
    ensures CustomId.Renderable(names, kw) && CustomId.Rendered(names, kw) == ds
  {
  }

  /** `dumps` gives the custom id filled with each field's dumped value, in order. */
  lemma DumpsFills(env: Parsers.Env, parsers: Dict<string, Parsers.Parser>, cls: Fields.ComponentClass, cid: CustomId.CustomID, attrs: map<string, Value>, ds: seq<string>)
    requires AllWellFormed(parsers) && IdMatchesClass(cls, cid) && DumpsTo(env, parsers, IdFields(cls), attrs, ds)
    ensures Dumps(env, parsers, cls, cid, attrs) == Ok(CustomId.Filled(ds, cid.name, cid.sep))
  {
    var fs := IdFields(cls);
    IdFieldsDistinct(cls, cid);
    DumpAllOf(env, parsers, fs, attrs, ds);
    var kw := DumpAll(env, parsers, fs, attrs).value;
    DumpAllKeys(env, parsers, fs, attrs);
    DumpedRender(kw, cid.fields, ds);
    CustomId.SpecFills(cid, kw);
  }

  lemma DumpedMissingAt(kw: map<string, Value>, names: seq<string>, fields: seq<string>, j: nat)
    requires forall k :: k in kw <==> k in names
    requires forall k :: k in kw ==> kw[k].VStr?
    requires j < |fields| && fields[j] !in names && forall i :: 0 <= i < j ==> fields[i] in names
    ensures CustomId.MissingAt(fields, kw, j)
  {
  }

  /**
   * A placeholder of the custom id that no custom-id field of the class provides makes
   * `dumps` raise `KeyError`, once the fields have dumped and the placeholders before it are
   * provided.
   */
  lemma DumpsUnknownPlaceholder(env: Parsers.Env, parsers: Dict<string, Parsers.Parser>, cls: Fields.ComponentClass, cid: CustomId.CustomID, attrs: map<string, Value>, j: nat)
    requires AllWellFormed(parsers) && CustomId.WellFormed(cid) && DumpAll(env, parsers, IdFields(cls), attrs).Ok?
    requires j < |cid.fields| && cid.fields[j] !in Fields.Names(IdFields(cls))
    requires forall i :: 0 <= i < j ==> cid.fields[i] in Fields.Names(IdFields(cls))
    ensures Dumps(env, parsers, cls, cid, attrs) == Err(KeyError)
  {
    var kw := DumpAll(env, parsers, IdFields(cls), attrs).value;
    DumpAllKeys(env, parsers, IdFields(cls), attrs);
    DumpedMissingAt(kw, Fields.Names(IdFields(cls)), cid.fields, j);
    CustomId.SpecMissing(cid, kw, j);
  }

  // ---------------------------------------------------------------------------------------
  // The round trip.

  /** Each dumped value is non-empty and loads back to the attribute it was dumped from. */
  predicate LoadsBack(env: Parsers.Env, parsers: Dict<string, Parsers.Parser>, names: seq<string>, ds: seq<string>, attrs: map<string, Value>)
    requires AllWellFormed(parsers)
  {
    |names| == |ds| && forall i :: 0 <= i < |names| ==>
      ds[i] != "" && names[i] in attrs && LoadsParam(env, parsers, names[i], ds[i]) == Ok(attrs[names[i]])
  }

  lemma MapOfNames<V>(kw: map<string, V>, names: seq<string>, attrs: map<string, V>)
    requires forall k :: k in kw ==> k in names
    requires forall i :: 0 <= i < |names| ==> names[i] in attrs && names[i] in kw && kw[names[i]] == attrs[names[i]]
    ensures kw == map f | f in names :: attrs[f]
  {
  }

  /** Entries that bind distinct names to their attributes gather into exactly those attributes. */
  lemma GatherNamed<V>(steps: Dict<string, Option<Result<V>>>, names: seq<string>, attrs: map<string, V>)
    requires |steps| == |names| && forall i :: 0 <= i < |names| ==> names[i] in attrs && steps[i] == (names[i], Some(Ok(attrs[names[i]])))
    requires forall i, j :: 0 <= i < j < |names| ==> names[i] != names[j]
    ensures Gather(steps) == Ok(map f | f in names :: attrs[f])
  {
    GatherOf(steps);
    GatherKeys(steps);
    var kw := Gather(steps).value;
    MapOfNames(kw, names, attrs);
  }

  lemma LoadAllZipped(env: Parsers.Env, parsers: Dict<string, Parsers.Parser>, names: seq<string>, ds: seq<string>, attrs: map<string, Value>)
    requires AllWellFormed(parsers) && LoadsBack(env, parsers, names, ds, attrs)
    requires forall i, j :: 0 <= i < j < |names| ==> names[i] != names[j]
    ensures LoadAll(env, parsers, CustomId.Zip(names, ds)) == Ok(map f | f in names :: attrs[f])
  {
    var params := CustomId.Zip(names, ds);
    var steps := LoadSteps(env, parsers, params);
    assert forall i :: 0 <= i < |steps| ==> steps[i] == (names[i], Some(Ok(attrs[names[i]])));
    GatherNamed(steps, names, attrs);
  }

  /** Loading the matched values of distinct names passes exactly the attributes they came from. */
  lemma LoadsZipped(env: Parsers.Env, parsers: Dict<string, Parsers.Parser>, cls: Fields.ComponentClass, names: seq<string>, ds: seq<string>, attrs: map<string, Value>)
    requires AllWellFormed(parsers) && LoadsBack(env, parsers, names, ds, attrs)
    requires forall i, j :: 0 <= i < j < |names| ==> names[i] != names[j]
    ensures Loads(env, parsers, cls, CustomId.Zip(names, ds)) == Fields.Instantiate(cls, map f | f in names :: attrs[f])
  {
    LoadAllZipped(env, parsers, names, ds, attrs);
  }

  /**
   * `loads(match(dumps(c)))` rebuilds `c`'s custom-id fields: when every field dumps to a
   * non-empty value that loads back to the attribute, no dump but the last holds the separator
   * and none holds a newline, dumping gives the filled custom id, strict matching gives the
   * dumps back under the field names, and loading passes exactly the original attributes.
   */
  lemma LosslessRoundTrip(env: Parsers.Env, parsers: Dict<string, Parsers.Parser>, cls: Fields.ComponentClass, cid: CustomId.CustomID, attrs: map<string, Value>, ds: seq<string>)
    requires AllWellFormed(parsers) && IdMatchesClass(cls, cid) && DumpsTo(env, parsers, IdFields(cls), attrs, ds)
    requires |cid.sep| > 0 && '\n' !in cid.sep && CustomId.Recoverable(ds, cid.sep)
    requires LoadsBack(env, parsers, cid.fields, ds, attrs)
    ensures Dumps(env, parsers, cls, cid, attrs) == Ok(CustomId.Filled(ds, cid.name, cid.sep))
    ensures CustomId.MatchId(cid, CustomId.Filled(ds, cid.name, cid.sep), true) == Ok(Some(CustomId.Zip(cid.fields, ds)))
    ensures Loads(env, parsers, cls, CustomId.Zip(cid.fields, ds)) == Fields.Instantiate(cls, map f | f in cid.fields :: attrs[f])
  {
    DumpsFills(env, parsers, cls, cid, attrs, ds);
    CustomId.MatchFilled(cid, ds);
    LoadsZipped(env, parsers, cls, cid.fields, ds, attrs);
  }
}
