/**
 * The legacy listeners (`ButtonListener`, `SelectListener`): a listener owns an id spec such as
 * `name:{a}:{b}`, splits an incoming custom id back into raw parameter values, converts them
 * through its parameters, and builds new custom ids from argument values.
 */
module Listener {
  import opened Wrappers
  import opened Values
  import Text
  import CustomId
  import Regex
  import Params

  /**
   * A regular expression the user gave a listener: its source as given (`compiled` when given
   * as a compiled pattern), the id spec derived from it, and its `fullmatch`, reduced to the
   * values of the match's `groupdict()` in group order (`None` when it does not match).
   */
  datatype UserRegex = UserRegex(source: string, compiled: bool, spec: string, fullmatch: string -> Option<seq<string>>)

  /** `if regex:` — a compiled pattern is always true, a string only when non-empty. */
  predicate Given(rx: UserRegex) {
    rx.compiled || rx.source != ""
  }

  /** How a listener reads custom ids: split on a separator, or fullmatch a user regex. */
  datatype Mode = Auto(sep: string) | Custom(rx: UserRegex)

  /** A listener: its function's name, its id spec, its mode and its listener parameters. */
  datatype Listener = Listener(name: string, idSpec: string, mode: Mode, params: seq<Params.ParamInfo>)

  function ParamNames(ps: seq<Params.ParamInfo>): (names: seq<string>)
    ensures |names| == |ps| && forall i :: 0 <= i < |ps| ==> names[i] == ps[i].param.name
  {
    seq(|ps|, i requires 0 <= i < |ps| => ps[i].param.name)
  }

  function SignatureNames(ps: seq<Params.Param>): (names: seq<string>)
    ensures |names| == |ps| && forall i :: 0 <= i < |ps| ==> names[i] == ps[i].name
  {
    seq(|ps|, i requires 0 <= i < |ps| => ps[i].name)
  }

  /**
   * `ButtonListener.__init__`: a given regex sets the custom mode and its id spec; otherwise the
   * id spec is `name`, then `sep` and each parameter's `{field}`, joined by `sep`. Every listener
   * parameter is then parsed, and the first that fails to parse raises.
   */
  function NewListener(name: string, regex: Option<UserRegex>, sep: string, ps: seq<Params.Param>): (r: Result<Listener>)
    ensures r.Ok? <==> forall i :: 0 <= i < |ps| ==> Params.FromParam(ps[i]).Ok?
    ensures r.Ok? ==> r.value.name == name && |r.value.params| == |ps|
    ensures r.Ok? ==> forall i :: 0 <= i < |ps| ==> Params.FromParam(ps[i]) == Ok(r.value.params[i])
    ensures r.Ok? && regex.Some? && Given(regex.value) ==> r.value.mode == Custom(regex.value) && r.value.idSpec == regex.value.spec
    ensures r.Ok? && !(regex.Some? && Given(regex.value)) ==>
      r.value.mode == Auto(sep) && r.value.idSpec == CustomId.MakeSpec(SignatureNames(ps), name, sep)
  {
    var rs := seq(|ps|, i requires 0 <= i < |ps| => Params.FromParam(ps[i]));
    assert forall i :: 0 <= i < |ps| ==> rs[i] == Params.FromParam(ps[i]);
    var infos :- AllOk(rs);
    if regex.Some? && Given(regex.value) then Ok(Listener(name, regex.value.spec, Custom(regex.value), infos))
    else Ok(Listener(name, CustomId.MakeSpec(SignatureNames(ps), name, sep), Auto(sep), infos))
  }

  // ---------------------------------------------------------------------------------------
  // parse_custom_id.

  /**
   * `parse_custom_id(custom_id)`: with a regex, a fullmatch whose group count is the parameter
   * count; otherwise `custom_id.split(sep)` must give the listener's name followed by exactly
   * one part per parameter. Anything else is a `ValueError` (as is an empty separator).
   */
  function ParseCustomId(l: Listener, customId: string): (r: Result<seq<string>>)
    ensures r.Err? ==> r.exc == ValueError
    ensures r.Ok? ==> |r.value| == |l.params|
    ensures l.mode.Custom? ==>
      (r.Ok? <==> l.mode.rx.fullmatch(customId).Some? && |l.mode.rx.fullmatch(customId).value| == |l.params|)
    ensures l.mode.Custom? && r.Ok? ==> r.value == l.mode.rx.fullmatch(customId).value
    ensures l.mode.Auto? && l.mode.sep == "" ==> r == Err(ValueError)
    ensures l.mode.Auto? && l.mode.sep != "" ==>
      (r.Ok? <==> Text.Split(customId, l.mode.sep)[0] == l.name && |Text.Split(customId, l.mode.sep)| == |l.params| + 1)
    ensures l.mode.Auto? && r.Ok? ==> [l.name] + r.value == Text.Split(customId, l.mode.sep)
  {
    match l.mode
    case Custom(rx) =>
      (match rx.fullmatch(customId)
       case None => Err(ValueError)
       case Some(groups) => if |groups| != |l.params| then Err(ValueError) else Ok(groups))
    case Auto(sep) =>
      if sep == "" then Err(ValueError)
      else
        var parts := Text.Split(customId, sep);
        if parts[0] != l.name || |parts| - 1 != |l.params| then Err(ValueError)
        else
          assert [parts[0]] + parts[1..] == parts;
          Ok(parts[1..])
  }

  // ---------------------------------------------------------------------------------------
  // build_custom_id.

  /** `dict(zip(names, args))`: pairs up to the shorter of the two, a later pair winning. */
  function ArgsAsKwargs(names: seq<string>, args: seq<Value>): (d: map<string, Value>)
    ensures d.Keys == set i | 0 <= i < |names| && i < |args| :: names[i]
  {
    if names == [] || args == [] then map[]
    else
      var rest := ArgsAsKwargs(names[1..], args[1..]);
      assert rest.Keys == set i | 0 <= i < |names| - 1 && i < |args| - 1 :: names[1..][i];
      assert forall i :: 1 <= i < |names| && i < |args| ==> names[i] == names[1..][i - 1];
      map[names[0] := args[0]] + rest
  }

  /** `getattr(v, "id", v)`: an object with an `id` attribute stands for that id. */
  function IdOf(v: Value): (r: Value)
    ensures v.VObject? && v.id.Some? ==> r == VInt(v.id.value)
    ensures !(v.VObject? && v.id.Some?) ==> r == v
  {
    if v.VObject? && v.id.Some? then VInt(v.id.value) else v
  }

  /** The keyword arguments after the positional ones are merged in and objects replaced by their ids. */
  function Keywords(names: seq<string>, args: seq<Value>, kwargs: map<string, Value>): (kw: map<string, Value>)
    ensures kw.Keys == kwargs.Keys + ArgsAsKwargs(names, args).Keys
  {
    var merged := kwargs + ArgsAsKwargs(names, args);
    map k | k in merged :: IdOf(merged[k])
  }

  /**
   * `build_custom_id(*args, **kwargs)`: positional arguments name the parameters in order; a
   * name given both ways is a `TypeError`. The merged keywords, with objects replaced by their
   * ids, fill the id spec; a listener without a regex also passes `sep=`, so a keyword named
   * `sep` is a second value for it and a `TypeError`.
   */
  function BuildCustomId(l: Listener, args: seq<Value>, kwargs: map<string, Value>): (r: Result<string>)
    ensures |args| > 0 && kwargs.Keys * ArgsAsKwargs(ParamNames(l.params), args).Keys != {} ==> r == Err(TypeError)
    ensures (kwargs.Keys * ArgsAsKwargs(ParamNames(l.params), args).Keys == {} && l.mode.Auto? &&
             "sep" in Keywords(ParamNames(l.params), args, kwargs)) ==> r == Err(TypeError)
    ensures kwargs.Keys * ArgsAsKwargs(ParamNames(l.params), args).Keys == {} && l.mode.Custom? ==>
      r == CustomId.FormatMap(l.idSpec, Keywords(ParamNames(l.params), args, kwargs))
  {
    var byPosition := ArgsAsKwargs(ParamNames(l.params), args);
    if |args| > 0 && kwargs.Keys * byPosition.Keys != {} then Err(TypeError)
    else
      var kw := Keywords(ParamNames(l.params), args, kwargs);
      match l.mode
      case Custom(_) => CustomId.FormatMap(l.idSpec, kw)
      case Auto(sep) => if "sep" in kw then Err(TypeError) else CustomId.FormatMap(l.idSpec, kw["sep" := VStr(sep)])
  }

  /** With distinct names, the parameter at position `i` receives argument `i`. */
  lemma {:induction false} ArgsAsKwargsAt(names: seq<string>, args: seq<Value>, i: nat)
    requires i < |names| && i < |args| && Regex.DistinctNames(names)
    ensures names[i] in ArgsAsKwargs(names, args) && ArgsAsKwargs(names, args)[names[i]] == args[i]
  {
    if i > 0 {
      Regex.DistinctTail(names);
      ArgsAsKwargsAt(names[1..], args[1..], i - 1);
      assert names[1..][i - 1] == names[i];
    }
  }

  /** Without keyword arguments, each parameter's keyword is its argument or that argument's id. */
  lemma PositionalKeywords(names: seq<string>, args: seq<Value>)
    requires |names| == |args| && Regex.DistinctNames(names)
    ensures Keywords(names, args, map[]).Keys == set i | 0 <= i < |names| :: names[i]
    ensures forall i :: 0 <= i < |names| ==> names[i] in Keywords(names, args, map[]) && Keywords(names, args, map[])[names[i]] == IdOf(args[i])
  {
    var byPosition := ArgsAsKwargs(names, args);
    assert map[] + byPosition == byPosition;
    forall i | 0 <= i < |names| ensures names[i] in byPosition && byPosition[names[i]] == args[i] {
      ArgsAsKwargsAt(names, args, i);
    }
  }

  /** A listener in its automatic mode, with the id spec `__init__` gives it. */
  predicate AutoShaped(l: Listener)
  {
    && l.mode.Auto? && |l.mode.sep| > 0
    && l.idSpec == CustomId.MakeSpec(ParamNames(l.params), l.name, l.mode.sep)
    && CustomId.ValidFields(ParamNames(l.params)) && "sep" !in ParamNames(l.params)
    && CustomId.NoBraces(l.name) && CustomId.NoBraces(l.mode.sep)
  }

  /** The text each argument fills its field with: `str` of the argument or of its id. */
  predicate RendersAs(args: seq<Value>, ds: seq<string>)
  {
    |args| == |ds| && forall i :: 0 <= i < |args| ==> CustomId.Render(IdOf(args[i])) == Some(ds[i])
  }

  /** `name + sep + sep.join(values)` is the join of the name and the values. */
  lemma FilledJoin(ds: seq<string>, name: string, sep: string)
    ensures CustomId.Filled(ds, name, sep) == Text.Join([name] + ds, sep)
  {
    if ds != [] {
      Text.JoinCons(name, ds, sep);
    } else {
      assert [name] + ds == [name];
    }
  }

  /** A custom id filled in from separable texts parses back into those texts. */
  lemma ParseFilled(l: Listener, ds: seq<string>)
    requires AutoShaped(l) && |ds| == |l.params| && Text.Separable([l.name] + ds, l.mode.sep)
    ensures ParseCustomId(l, CustomId.Filled(ds, l.name, l.mode.sep)) == Ok(ds)
  {
    FilledJoin(ds, l.name, l.mode.sep);
    Text.SplitJoin([l.name] + ds, l.mode.sep);
    assert ([l.name] + ds)[1..] == ds;
  }

  /** Building from one positional argument per parameter fills the id spec with their texts. */
  lemma BuildFills(l: Listener, args: seq<Value>, ds: seq<string>)
    requires AutoShaped(l) && RendersAs(args, ds) && |args| == |l.params|
    ensures BuildCustomId(l, args, map[]) == Ok(CustomId.Filled(ds, l.name, l.mode.sep))
  {
    var names := ParamNames(l.params);
    var sep := l.mode.sep;
    var kw := Keywords(names, args, map[]);
    PositionalKeywords(names, args);
    var kv := kw["sep" := VStr(sep)];
    assert CustomId.Renderable(names, kv);
    CustomId.FormatSpec(names, l.name, sep, kv);
    assert CustomId.Rendered(names, kv) == ds;
  }

  /**
   * Building, then parsing, gives back the texts of the arguments, provided the separator
   * cannot be confused with text inside the name or the values.
   */
  lemma BuildThenParse(l: Listener, args: seq<Value>, ds: seq<string>)
    requires AutoShaped(l) && RendersAs(args, ds) && |args| == |l.params|
    requires Text.Separable([l.name] + ds, l.mode.sep)
    ensures BuildCustomId(l, args, map[]).Ok?
    ensures ParseCustomId(l, BuildCustomId(l, args, map[]).value) == Ok(ds)
  {
    BuildFills(l, args, ds);
    ParseFilled(l, ds);
  }

  /**
   * Every custom id the listener parses is the one its parts build again: parsing loses
   * nothing, whatever the separator occurs in.
   */
  lemma ParseThenBuild(l: Listener, customId: string, args: seq<Value>)
    requires AutoShaped(l) && ParseCustomId(l, customId).Ok?
    requires RendersAs(args, ParseCustomId(l, customId).value)
    ensures BuildCustomId(l, args, map[]) == Ok(customId)
  {
    var ds := ParseCustomId(l, customId).value;
    BuildFills(l, args, ds);
    FilledJoin(ds, l.name, l.mode.sep);
    Text.JoinSplit(customId, l.mode.sep);
  }

  // ---------------------------------------------------------------------------------------
  // __call__.

  /** `param.convert(arg, skip_validation=skip)` for one listener parameter. */
  function ConvertOne(info: Params.ParamInfo, arg: string, skip: bool, fullmatch: (Params.Pattern, string) -> bool,
                      run: (Params.Converter, string) -> Result<Value>): Result<Value>
  {
    Params.Finish(info, Params.TryFrom(info.mapping, arg, skip, fullmatch, run, {}))
  }

  /** The parameters converted in order, `zip` stopping at the shorter; the first failure raises. */
  function ConvertAll(infos: seq<Params.ParamInfo>, raw: seq<string>, skip: bool, fullmatch: (Params.Pattern, string) -> bool,
                      run: (Params.Converter, string) -> Result<Value>): (r: Result<seq<Value>>)
    ensures r.Ok? <==> forall i :: 0 <= i < |infos| && i < |raw| ==> ConvertOne(infos[i], raw[i], skip, fullmatch, run).Ok?
    ensures r.Ok? ==> |r.value| == if |infos| < |raw| then |infos| else |raw|
    ensures r.Ok? ==> forall i :: 0 <= i < |r.value| ==> ConvertOne(infos[i], raw[i], skip, fullmatch, run) == Ok(r.value[i])
  {
    var n := if |infos| < |raw| then |infos| else |raw|;
    var rs := seq(n, i requires 0 <= i < n => ConvertOne(infos[i], raw[i], skip, fullmatch, run));
    assert forall i :: 0 <= i < n ==> rs[i] == ConvertOne(infos[i], raw[i], skip, fullmatch, run);
    AllOk(rs)
  }

  /** How a call ended: the callback not run, run with converted values, or run as called. */
  datatype Invocation = NotInvoked | Invoked(args: seq<Value>) | InvokedAsCalled

  /** The loop of `__call__` that converts the raw values one parameter at a time. */
  method ConvertParams(infos: seq<Params.ParamInfo>, raw: seq<string>, skip: bool, fullmatch: (Params.Pattern, string) -> bool,
                       run: (Params.Converter, string) -> Result<Value>) returns (r: Result<seq<Value>>)
    ensures r == ConvertAll(infos, raw, skip, fullmatch, run)
  {
    var n := if |infos| < |raw| then |infos| else |raw|;
    ghost var rs := seq(n, i requires 0 <= i < n => ConvertOne(infos[i], raw[i], skip, fullmatch, run));
    var converted: seq<Value> := [];
    var i := 0;
    while i < n
      invariant 0 <= i <= n && |converted| == i
      invariant forall k :: 0 <= k < i ==> rs[k] == Ok(converted[k])
    {
      var v := Params.Convert(infos[i], raw[i], skip, fullmatch, run);
      if v.Err? {
        assert rs[i] == v;
        assert !AllOk(rs).Ok?;
        return Err(v.exc);
      }
      converted := converted + [v.value];
      i := i + 1;
    }
    assert AllOk(rs).value == converted;
    return Ok(converted);
  }

  /**
   * `ButtonListener.__call__(inter, *args, **kwargs)`: a manual call runs the callback as
   * called; a component without a custom id, or one this listener does not parse, is ignored;
   * otherwise the parsed values are converted (without regex validation for a regex listener)
   * and the callback runs with them.
   */
  method Call(l: Listener, customId: Option<string>, manual: bool, fullmatch: (Params.Pattern, string) -> bool,
              run: (Params.Converter, string) -> Result<Value>) returns (r: Result<Invocation>)
    ensures manual ==> r == Ok(InvokedAsCalled)
    ensures !manual && (customId.None? || ParseCustomId(l, customId.value).Err?) ==> r == Ok(NotInvoked)
    ensures !manual && customId.Some? && ParseCustomId(l, customId.value).Ok? ==>
      var c := ConvertAll(l.params, ParseCustomId(l, customId.value).value, l.mode.Custom?, fullmatch, run);
      r == if c.Ok? then Ok(Invoked(c.value)) else Err(c.exc)
  {
    if manual {
      return Ok(InvokedAsCalled);
    }
    if customId.None? {
      return Ok(NotInvoked);
    }
    var parsed := ParseCustomId(l, customId.value);
    if parsed.Err? {
      return Ok(NotInvoked);
    }
    var converted := ConvertParams(l.params, parsed.value, l.mode.Custom?, fullmatch, run);
    if converted.Err? {
      return Err(converted.exc);
    }
    return Ok(Invoked(converted.value));
  }

  // ---------------------------------------------------------------------------------------
  // SelectListener.

  /**
   * The class `typing.get_origin` gives for the select parameter's annotation: none, or a
   * class, whether it is a `Collection`, whether it is `str` or `bytes`, and calling it on a
   * list of values.
   */
  datatype ReturnType = NoOrigin | Origin(isCollection: bool, isStrOrBytes: bool, construct: seq<Value> -> Result<Value>)

  /** A select listener: a listener plus its one `SelectValue` parameter and that parameter's type. */
  datatype SelectListener = SelectListener(base: Listener, selectParam: Params.ParamInfo, returnType: ReturnType)

  /**
   * `SelectListener.__init__`: as a button listener, after which there must be exactly one
   * special (`SelectValue`) parameter, else a `TypeError`; that parameter is parsed too.
   */
  function NewSelectListener(name: string, regex: Option<UserRegex>, sep: string, special: seq<Params.Param>,
                             ps: seq<Params.Param>, returnType: ReturnType): (r: Result<SelectListener>)
    ensures NewListener(name, regex, sep, ps).Err? ==> r == Err(NewListener(name, regex, sep, ps).exc)
    ensures NewListener(name, regex, sep, ps).Ok? && |special| != 1 ==> r == Err(TypeError)
    ensures r.Ok? ==> |special| == 1 && r.value.base == NewListener(name, regex, sep, ps).value
                      && Params.FromParam(special[0]) == Ok(r.value.selectParam)
  {
    var base :- NewListener(name, regex, sep, ps);
    if |special| != 1 then Err(TypeError)
    else
      var sp :- Params.FromParam(special[0]);
      Ok(SelectListener(base, sp, returnType))
  }

  /**
   * `_cast_to_return_type(values)`: `issubclass` on a missing origin is a `TypeError`; a
   * non-collection type (or `str`/`bytes`) takes the single value, refusing several with a
   * `TypeError`; a collection type is called on the values, a failure becoming a `TypeError`.
   */
  function CastToReturnType(rt: ReturnType, values: seq<Value>): (r: Result<Value>)
    ensures rt.NoOrigin? ==> r == Err(TypeError)
    ensures rt.Origin? && (!rt.isCollection || rt.isStrOrBytes) ==>
      (|values| > 1 ==> r == Err(TypeError)) && (|values| == 1 ==> r == Ok(values[0])) && (values == [] ==> r == Err(IndexError))
    ensures rt.Origin? && rt.isCollection && !rt.isStrOrBytes ==>
      (r.Ok? <==> rt.construct(values).Ok?) && (r.Ok? ==> r.value == rt.construct(values).value) && (r.Err? ==> r.exc == TypeError)
  {
    match rt
    case NoOrigin => Err(TypeError)
    case Origin(isCollection, isStrOrBytes, construct) =>
      if !isCollection || isStrOrBytes then
        if |values| > 1 then Err(TypeError)
        else if values == [] then Err(IndexError)
        else Ok(values[0])
      else
        match construct(values)
        case Ok(v) => Ok(v)
        case Err(_) => Err(TypeError)
  }

  /**
   * `SelectListener.__call__`: as a button listener's, but an interaction without selected
   * values is ignored too, and once the custom id parameters are converted the selected values
   * are converted by the select parameter and cast to its type, which the callback receives
   * first.
   */
  method SelectCall(sl: SelectListener, values: seq<string>, customId: Option<string>, manual: bool,
                    fullmatch: (Params.Pattern, string) -> bool, run: (Params.Converter, string) -> Result<Value>,
                    convertSelected: seq<string> -> Result<seq<Value>>) returns (r: Result<Invocation>)
    ensures manual ==> r == Ok(InvokedAsCalled)
    ensures !manual && (values == [] || customId.None?) ==> r == Ok(NotInvoked)
    ensures !manual && values != [] && customId.Some? && ParseCustomId(sl.base, customId.value).Err? ==> r == Ok(NotInvoked)
    ensures r.Ok? && r.value.Invoked? ==>
      && values != [] && customId.Some? && ParseCustomId(sl.base, customId.value).Ok?
      && convertSelected(values).Ok?
      && |r.value.args| >= 1
      && Ok(r.value.args[0]) == CastToReturnType(sl.returnType, convertSelected(values).value)
      && Ok(r.value.args[1..]) == ConvertAll(sl.base.params, ParseCustomId(sl.base, customId.value).value, sl.base.mode.Custom?, fullmatch, run)
    ensures !manual && values != [] && customId.Some? && ParseCustomId(sl.base, customId.value).Ok? ==>
      var c := ConvertAll(sl.base.params, ParseCustomId(sl.base, customId.value).value, sl.base.mode.Custom?, fullmatch, run);
      var sel := convertSelected(values);
      r == if c.Err? then Err(c.exc)
           else if sel.Err? then Err(sel.exc)
           else if CastToReturnType(sl.returnType, sel.value).Err? then Err(CastToReturnType(sl.returnType, sel.value).exc)
           else Ok(Invoked([CastToReturnType(sl.returnType, sel.value).value] + c.value))
  {
    if manual {
      return Ok(InvokedAsCalled);
    }
    if values == [] || customId.None? {
      return Ok(NotInvoked);
    }
    var parsed := ParseCustomId(sl.base, customId.value);
    if parsed.Err? {
      return Ok(NotInvoked);
    }
    var converted := ConvertParams(sl.base.params, parsed.value, sl.base.mode.Custom?, fullmatch, run);
    if converted.Err? {
      return Err(converted.exc);
    }
    var selected := convertSelected(values);
    if selected.Err? {
      return Err(selected.exc);
    }
    var cast := CastToReturnType(sl.returnType, selected.value);
    if cast.Err? {
      return Err(cast.exc);
    }
    assert ([cast.value] + converted.value)[1..] == converted.value;
    return Ok(Invoked([cast.value] + converted.value));
  }
}
