/**
 * The later legacy base listener (`BaseListener`): it reads custom ids exactly as the listeners
 * above do, but builds them by serialising every listener parameter with its own `to_str`.
 */
module ListenerAbc {
  import opened Wrappers
  import opened Values
  import Text
  import CustomId
  import Regex
  import Params
  import Listener

  /**
   * `{param.name: param.to_str(kwargs[param.name]) for param in params}`: in parameter order, a
   * parameter without a value is a `KeyError` and a failing `to_str` raises its exception.
   */
  function Serialize(ps: seq<Params.ParamInfo>, kwargs: map<string, Value>,
                     toStr: (Params.ParamInfo, Value) -> Result<string>): (r: Result<map<string, Value>>)
    ensures r.Ok? <==> forall i :: 0 <= i < |ps| ==> ps[i].param.name in kwargs && toStr(ps[i], kwargs[ps[i].param.name]).Ok?
    ensures r.Ok? ==> r.value.Keys == set i | 0 <= i < |ps| :: ps[i].param.name
  {
    if ps == [] then Ok(map[])
    else
      var name := ps[0].param.name;
      assert forall i :: 0 <= i < |ps| - 1 ==> ps[1..][i] == ps[i + 1];
      if name !in kwargs then Err(KeyError)
      else match toStr(ps[0], kwargs[name])
        case Err(e) => Err(e)
        case Ok(text) =>
          match Serialize(ps[1..], kwargs, toStr)
          case Err(e) => Err(e)
          case Ok(rest) =>
            assert rest.Keys == set i | 0 <= i < |ps| - 1 :: ps[1..][i].param.name;
            Ok(map[name := VStr(text)] + rest)
  }

  /** `kwargs.update(args_as_kwargs)`: the keyword arguments with the positional ones merged in. */
  function Merged(l: Listener.Listener, args: seq<Value>, kwargs: map<string, Value>): (m: map<string, Value>)
    ensures m.Keys == kwargs.Keys + Listener.ArgsAsKwargs(Listener.ParamNames(l.params), args).Keys
  {
    kwargs + Listener.ArgsAsKwargs(Listener.ParamNames(l.params), args)
  }

  /**
   * `BaseListener.build_custom_id(*args, **kwargs)`: positional arguments name the parameters in
   * order and any name given both ways is a `TypeError`; every parameter is then serialised and
   * the results fill the id spec, with `sep=` passed too unless the listener has a regex.
   */
  function BuildCustomId(l: Listener.Listener, args: seq<Value>, kwargs: map<string, Value>,
                         toStr: (Params.ParamInfo, Value) -> Result<string>): (r: Result<string>)
    ensures |args| > 0 && kwargs.Keys * Listener.ArgsAsKwargs(Listener.ParamNames(l.params), args).Keys != {} ==> r == Err(TypeError)
    ensures (kwargs.Keys * Listener.ArgsAsKwargs(Listener.ParamNames(l.params), args).Keys == {} &&
             l.mode.Auto? && "sep" in Listener.ParamNames(l.params) &&
             Serialize(l.params, Merged(l, args, kwargs), toStr).Ok?) ==> r == Err(TypeError)
    ensures (|args| == 0 || kwargs.Keys * Listener.ArgsAsKwargs(Listener.ParamNames(l.params), args).Keys == {}) &&
            Serialize(l.params, Merged(l, args, kwargs), toStr).Err? ==>
      r == Err(Serialize(l.params, Merged(l, args, kwargs), toStr).exc)
    ensures (|args| == 0 || kwargs.Keys * Listener.ArgsAsKwargs(Listener.ParamNames(l.params), args).Keys == {}) &&
            l.mode.Custom? && Serialize(l.params, Merged(l, args, kwargs), toStr).Ok? ==>
      r == CustomId.FormatMap(l.idSpec, Serialize(l.params, Merged(l, args, kwargs), toStr).value)
    ensures (|args| == 0 || kwargs.Keys * Listener.ArgsAsKwargs(Listener.ParamNames(l.params), args).Keys == {}) &&
            l.mode.Auto? && Serialize(l.params, Merged(l, args, kwargs), toStr).Ok? &&
            "sep" !in Serialize(l.params, Merged(l, args, kwargs), toStr).value ==>
      r == CustomId.FormatMap(l.idSpec, Serialize(l.params, Merged(l, args, kwargs), toStr).value["sep" := VStr(l.mode.sep)])
  {
    var byPosition := Listener.ArgsAsKwargs(Listener.ParamNames(l.params), args);
    if |args| > 0 && kwargs.Keys * byPosition.Keys != {} then Err(TypeError)
    else
      var serialized :- Serialize(l.params, Merged(l, args, kwargs), toStr);
      match l.mode
      case Custom(_) => CustomId.FormatMap(l.idSpec, serialized)
      case Auto(sep) =>
        if "sep" in serialized then
          Err(TypeError)
        else
          CustomId.FormatMap(l.idSpec, serialized["sep" := VStr(sep)])
  }

  /** Serialisation stops at the first parameter without a value, with a `KeyError`. */
  lemma {:induction false} SerializeMissing(ps: seq<Params.ParamInfo>, kwargs: map<string, Value>,
                                            toStr: (Params.ParamInfo, Value) -> Result<string>, j: nat)
    requires j < |ps| && ps[j].param.name !in kwargs
    requires forall i :: 0 <= i < j ==> ps[i].param.name in kwargs && toStr(ps[i], kwargs[ps[i].param.name]).Ok?
    ensures Serialize(ps, kwargs, toStr) == Err(KeyError)
  {
    if j > 0 {
      assert forall i :: 0 <= i < |ps| - 1 ==> ps[1..][i] == ps[i + 1];
      SerializeMissing(ps[1..], kwargs, toStr, j - 1);
    }
  }

  /** With distinct names, parameter `i` is serialised as its `to_str` text. */
  lemma {:induction false} SerializeAt(ps: seq<Params.ParamInfo>, kwargs: map<string, Value>,
                                       toStr: (Params.ParamInfo, Value) -> Result<string>, i: nat)
    requires i < |ps| && Regex.DistinctNames(Listener.ParamNames(ps)) && Serialize(ps, kwargs, toStr).Ok?
    ensures ps[i].param.name in Serialize(ps, kwargs, toStr).value
    ensures Serialize(ps, kwargs, toStr).value[ps[i].param.name] == VStr(toStr(ps[i], kwargs[ps[i].param.name]).value)
  {
    if i > 0 {
      var rest := ps[1..];
      assert Listener.ParamNames(rest) == Listener.ParamNames(ps)[1..];
      Regex.DistinctTail(Listener.ParamNames(ps));
      SerializeAt(rest, kwargs, toStr, i - 1);
      assert rest[i - 1] == ps[i];
      assert Listener.ParamNames(ps)[0] != Listener.ParamNames(ps)[i];
    }
  }

  /**
   * A parameter missing from both the positional and the keyword arguments is a `KeyError`,
   * once the parameters before it serialise.
   */
  lemma MissingParamRefused(l: Listener.Listener, args: seq<Value>, kwargs: map<string, Value>,
                            toStr: (Params.ParamInfo, Value) -> Result<string>, j: nat)
    requires kwargs.Keys * Listener.ArgsAsKwargs(Listener.ParamNames(l.params), args).Keys == {}
    requires j < |l.params| && l.params[j].param.name !in Merged(l, args, kwargs)
    requires forall i :: 0 <= i < j ==>
      (l.params[i].param.name in Merged(l, args, kwargs) && toStr(l.params[i], Merged(l, args, kwargs)[l.params[i].param.name]).Ok?)
    ensures BuildCustomId(l, args, kwargs, toStr) == Err(KeyError)
  {
    SerializeMissing(l.params, Merged(l, args, kwargs), toStr, j);
  }

  /** Each argument, given positionally, serialises as the matching text. */
  predicate SerializesAs(ps: seq<Params.ParamInfo>, args: seq<Value>, toStr: (Params.ParamInfo, Value) -> Result<string>, ds: seq<string>)
  {
    |ps| == |args| == |ds| && forall i :: 0 <= i < |ps| ==> toStr(ps[i], args[i]) == Ok(ds[i])
  }

  /** When every parameter's value serialises, the result maps each parameter to its text. */
  lemma SerializedEach(ps: seq<Params.ParamInfo>, kwargs: map<string, Value>,
                       toStr: (Params.ParamInfo, Value) -> Result<string>, ds: seq<string>)
    requires |ds| == |ps| && Regex.DistinctNames(Listener.ParamNames(ps))
    requires forall i :: 0 <= i < |ps| ==> ps[i].param.name in kwargs && toStr(ps[i], kwargs[ps[i].param.name]) == Ok(ds[i])
    ensures Serialize(ps, kwargs, toStr).Ok?
    ensures forall i :: 0 <= i < |ps| ==>
      ps[i].param.name in Serialize(ps, kwargs, toStr).value && Serialize(ps, kwargs, toStr).value[ps[i].param.name] == VStr(ds[i])
  {
    forall i | 0 <= i < |ps|
      ensures ps[i].param.name in Serialize(ps, kwargs, toStr).value && Serialize(ps, kwargs, toStr).value[ps[i].param.name] == VStr(ds[i])
    {
      SerializeAt(ps, kwargs, toStr, i);
    }
  }

  /**
   * With distinct names, the keyword arguments read off one positional argument per parameter
   * serialise to each parameter's text, and name nothing but the parameters.
   */
  lemma PositionalSerialized(ps: seq<Params.ParamInfo>, args: seq<Value>,
                             toStr: (Params.ParamInfo, Value) -> Result<string>, ds: seq<string>)
    requires SerializesAs(ps, args, toStr, ds) && Regex.DistinctNames(Listener.ParamNames(ps))
    ensures Serialize(ps, Listener.ArgsAsKwargs(Listener.ParamNames(ps), args), toStr).Ok?
    ensures forall k :: k in Serialize(ps, Listener.ArgsAsKwargs(Listener.ParamNames(ps), args), toStr).value ==>
      k in Listener.ParamNames(ps)
    ensures forall i :: 0 <= i < |ps| ==>
      ps[i].param.name in Serialize(ps, Listener.ArgsAsKwargs(Listener.ParamNames(ps), args), toStr).value &&
      Serialize(ps, Listener.ArgsAsKwargs(Listener.ParamNames(ps), args), toStr).value[ps[i].param.name] == VStr(ds[i])
  {
    var names := Listener.ParamNames(ps);
    var kw := Listener.ArgsAsKwargs(names, args);
    forall i | 0 <= i < |ps| ensures ps[i].param.name in kw && toStr(ps[i], kw[ps[i].param.name]) == Ok(ds[i]) {
      Listener.ArgsAsKwargsAt(names, args, i);
    }
    SerializedEach(ps, kw, toStr, ds);
    var sr := Serialize(ps, kw, toStr).value;
    forall k | k in sr ensures k in names {
      var i :| 0 <= i < |ps| && ps[i].param.name == k;
      assert names[i] == k;
    }
  }

  /** Positional arguments alone serialise to one text per parameter name, and to nothing else. */
  lemma SerializedPositional(l: Listener.Listener, args: seq<Value>, toStr: (Params.ParamInfo, Value) -> Result<string>, ds: seq<string>)
    requires Listener.AutoShaped(l) && SerializesAs(l.params, args, toStr, ds)
    ensures Serialize(l.params, Merged(l, args, map[]), toStr).Ok?
    ensures "sep" !in Serialize(l.params, Merged(l, args, map[]), toStr).value
    ensures forall i :: 0 <= i < |l.params| ==>
      l.params[i].param.name in Serialize(l.params, Merged(l, args, map[]), toStr).value &&
      Serialize(l.params, Merged(l, args, map[]), toStr).value[l.params[i].param.name] == VStr(ds[i])
  {
    assert Merged(l, args, map[]) == Listener.ArgsAsKwargs(Listener.ParamNames(l.params), args);
    PositionalSerialized(l.params, args, toStr, ds);
  }

  /** In the automatic mode, once the arguments serialise without a `sep`, the spec is filled in. */
  lemma BuildAuto(l: Listener.Listener, args: seq<Value>, toStr: (Params.ParamInfo, Value) -> Result<string>)
    requires l.mode.Auto? && Serialize(l.params, Merged(l, args, map[]), toStr).Ok?
    requires "sep" !in Serialize(l.params, Merged(l, args, map[]), toStr).value
    ensures BuildCustomId(l, args, map[], toStr) ==
      CustomId.FormatMap(l.idSpec, Serialize(l.params, Merged(l, args, map[]), toStr).value["sep" := VStr(l.mode.sep)])
  {
  }

  /** Building from one positional argument per parameter fills the id spec with their texts. */
  lemma BuildFills(l: Listener.Listener, args: seq<Value>, toStr: (Params.ParamInfo, Value) -> Result<string>, ds: seq<string>)
    requires Listener.AutoShaped(l) && SerializesAs(l.params, args, toStr, ds)
    ensures BuildCustomId(l, args, map[], toStr) == Ok(CustomId.Filled(ds, l.name, l.mode.sep))
  {
    var names := Listener.ParamNames(l.params);
    SerializedPositional(l, args, toStr, ds);
    var serialized := Serialize(l.params, Merged(l, args, map[]), toStr).value;
    var kv := serialized["sep" := VStr(l.mode.sep)];
    BuildAuto(l, args, toStr);
    forall i | 0 <= i < |names| ensures names[i] in kv && CustomId.Render(kv[names[i]]) == Some(ds[i]) {
      assert names[i] != "sep";
    }
    CustomId.FormatSpecWith(names, l.name, l.mode.sep, kv, ds);
  }

  /** Building, then parsing, gives back the serialised texts when the separator keeps them apart. */
  lemma BuildThenParse(l: Listener.Listener, args: seq<Value>, toStr: (Params.ParamInfo, Value) -> Result<string>, ds: seq<string>)
    requires Listener.AutoShaped(l) && SerializesAs(l.params, args, toStr, ds)
    requires Text.Separable([l.name] + ds, l.mode.sep)
    ensures BuildCustomId(l, args, map[], toStr).Ok?
    ensures Listener.ParseCustomId(l, BuildCustomId(l, args, map[], toStr).value) == Ok(ds)
  {
    BuildFills(l, args, toStr, ds);
    Listener.ParseFilled(l, ds);
  }
}
