/**
 * Interaction wrapping: finding the one interaction among a callback's arguments and replacing
 * it by a wrapper that can send this library's components, and turning the components given to
 * a send or edit call into disnake's native UI components while keeping their row layout.
 */
module Interaction {
  import opened Wrappers
  import opened OrderedDicts

  /** The disnake interaction classes `wrap_interaction` tells apart. */
  datatype Kind = MessageKind | CommandKind | ModalKind | OtherKind

  /**
   * The objects a callback receives. Both wrapper classes subclass `disnake.Interaction`, and the
   * message wrapper also subclasses `disnake.MessageInteraction`.
   */
  datatype Obj =
    | Native(kind: Kind)              // an interaction object created by disnake
    | Wrapped(inner: Obj)             // `WrappedInteraction(inner)`
    | WrappedMessage(inner: Obj)      // the library's `MessageInteraction(inner)`
    | Plain(tag: int)                 // any object that is not an interaction

  /** `isinstance(o, disnake.Interaction)`. */
  predicate IsInteraction(o: Obj) {
    !o.Plain?
  }

  /** `isinstance(o, disnake.MessageInteraction)`. */
  predicate IsMessage(o: Obj) {
    (o.Native? && o.kind == MessageKind) || o.WrappedMessage?
  }

  /** How many wrappers lie around a native interaction or plain object. */
  function Depth(o: Obj): nat {
    match o
    case Wrapped(inner) => 1 + Depth(inner)
    case WrappedMessage(inner) => 1 + Depth(inner)
    case _ => 0
  }

  /**
   * `wrap_interaction`: a message interaction gets the message wrapper, every other interaction
   * (commands and modals included) the plain `WrappedInteraction`.
   */
  function WrapInteraction(o: Obj): (w: Obj)
    ensures IsInteraction(w) && (w.Wrapped? || w.WrappedMessage?) && w.inner == o
    ensures IsMessage(w) <==> IsMessage(o)
    ensures Depth(w) == Depth(o) + 1
  {
    if IsMessage(o) then WrappedMessage(o) else Wrapped(o)
  }

  /** The position of the first interaction in `s`, if any. */
  function FirstInteraction(s: seq<Obj>): (r: Option<nat>)
    ensures r.Some? ==> r.value < |s| && IsInteraction(s[r.value]) && forall j :: 0 <= j < r.value ==> !IsInteraction(s[j])
    ensures r.None? ==> forall j :: 0 <= j < |s| ==> !IsInteraction(s[j])
  {
    if s == [] then None
    else if IsInteraction(s[0]) then Some(0)
    else match FirstInteraction(s[1..])
      case None => None
      case Some(i) => Some(i + 1)
  }

  /** The values of a dict, in iteration order. */
  function Values(d: Dict<string, Obj>): (vs: seq<Obj>)
    ensures |vs| == |d| && forall i :: 0 <= i < |d| ==> vs[i] == d[i].1
  {
    seq(|d|, i requires 0 <= i < |d| => d[i].1)
  }

  /** `d[k] = wrap_interaction(d[k])` for the key at position `j`: the key keeps its place. */
  function WrapEntry(d: Dict<string, Obj>, j: nat): (r: Dict<string, Obj>)
    requires j < |d|
    ensures |r| == |d| && Keys(r) == Keys(d)
    ensures r[j].1 == WrapInteraction(d[j].1) && forall i :: 0 <= i < |d| && i != j ==> r[i] == d[i]
  {
    var r := d[j := (d[j].0, WrapInteraction(d[j].1))];
    assert forall i :: 0 <= i < |d| ==> Keys(r)[i] == Keys(d)[i];
    r
  }

  function Min(a: nat, b: nat): nat {
    if a < b then a else b
  }

  /**
   * What `wrap_args_kwargs` returns, as written: the first interaction among the first two
   * positional arguments is wrapped in place; failing that, the first interaction among the
   * keyword values is, and then `zip` has already drawn a third positional argument from the
   * shared iterator, which is lost; with no interaction anywhere, a `TypeError`.
   */
  function Wrapping(args: seq<Obj>, kwargs: Dict<string, Obj>): (r: Result<(seq<Obj>, Dict<string, Obj>)>)
  {
    var scanned := args[..Min(|args|, 2)];
    match FirstInteraction(scanned)
    case Some(i) => Ok((args[..i] + [WrapInteraction(args[i])] + args[i + 1..], kwargs))
    case None =>
      match FirstInteraction(Values(kwargs))
      case Some(j) => Ok((scanned + args[Min(|args|, 3)..], WrapEntry(kwargs, j)))
      case None => Err(TypeError)
  }

  /**
   * The evident intent: the same search, but every positional argument the scan did not wrap is
   * handed on.
   */
  function WrappingKeepingArgs(args: seq<Obj>, kwargs: Dict<string, Obj>): (r: Result<(seq<Obj>, Dict<string, Obj>)>)
  {
    match FirstInteraction(args[..Min(|args|, 2)])
    case Some(i) => Ok((args[..i] + [WrapInteraction(args[i])] + args[i + 1..], kwargs))
    case None =>
      match FirstInteraction(Values(kwargs))
      case Some(j) => Ok((args, WrapEntry(kwargs, j)))
      case None => Err(TypeError)
  }

  /**
   * `wrap_args_kwargs(args, kwargs)`, step by step: `zip(args_iter, range(2))` draws from the
   * argument iterator before the range, appends each argument (wrapping and stopping at the first
   * interaction), falls back to the keyword values when the loop ends without a `break`, and
   * finally extends the new arguments with whatever the iterator still holds.
   */
  method WrapArgsKwargs(args: seq<Obj>, kwargs: Dict<string, Obj>) returns (r: Result<(seq<Obj>, Dict<string, Obj>)>)
    ensures r == Wrapping(args, kwargs)
  {
    var pos := 0;          // the argument iterator's position
    var taken := 0;        // values drawn from range(2)
    var newArgs: seq<Obj> := [];
    var broke := false;
    var exhausted := false;
    while !broke && !exhausted
      invariant taken <= 2 && taken <= pos <= |args|
      invariant !exhausted ==> pos == taken
      invariant exhausted ==> !broke && taken == Min(|args|, 2) && pos == Min(|args|, 3)
      invariant !broke ==> newArgs == args[..taken] && forall j :: 0 <= j < taken ==> !IsInteraction(args[j])
      invariant broke ==> (0 < taken && FirstInteraction(args[..Min(|args|, 2)]) == Some(taken - 1) &&
                           newArgs == args[..taken - 1] + [WrapInteraction(args[taken - 1])])
      decreases |args| - pos, if broke || exhausted then 0 else 1
    {
      if pos == |args| {
        exhausted := true;
      } else {
        var arg := args[pos];
        pos := pos + 1;
        if taken == 2 {
          exhausted := true;
        } else {
          taken := taken + 1;
          if IsInteraction(arg) {
            newArgs := newArgs + [WrapInteraction(arg)];
            broke := true;
            FirstInteractionAt(args[..Min(|args|, 2)], taken - 1);
          } else {
            newArgs := newArgs + [arg];
          }
        }
      }
    }
    var newKwargs := kwargs;
    if !broke {
      assert args[..Min(|args|, 2)] == newArgs;
      var k := 0;
      while k < |kwargs| && !IsInteraction(kwargs[k].1)
        invariant k <= |kwargs| && forall j :: 0 <= j < k ==> !IsInteraction(kwargs[j].1)
      {
        k := k + 1;
      }
      if k == |kwargs| {
        return Err(TypeError);
      }
      FirstInteractionAt(Values(kwargs), k);
      newKwargs := WrapEntry(kwargs, k);
    }
    r := Ok((newArgs + args[pos..], newKwargs));
  }

  /**
   * The same scan with `itertools.islice(args_iter, 2)` in place of the `zip`: the iterator is
   * never drawn from once two arguments have been looked at.
   */
  method WrapArgsKwargsKeepingArgs(args: seq<Obj>, kwargs: Dict<string, Obj>) returns (r: Result<(seq<Obj>, Dict<string, Obj>)>)
    ensures r == WrappingKeepingArgs(args, kwargs)
  {
    var pos := 0;
    var newArgs: seq<Obj> := [];
    var broke := false;
    while !broke && pos < Min(|args|, 2)
      invariant pos <= Min(|args|, 2)
      invariant !broke ==> newArgs == args[..pos] && forall j :: 0 <= j < pos ==> !IsInteraction(args[j])
      invariant broke ==> (0 < pos && FirstInteraction(args[..Min(|args|, 2)]) == Some(pos - 1) &&
                           newArgs == args[..pos - 1] + [WrapInteraction(args[pos - 1])])
    {
      var arg := args[pos];
      pos := pos + 1;
      if IsInteraction(arg) {
        newArgs := newArgs + [WrapInteraction(arg)];
        broke := true;
        FirstInteractionAt(args[..Min(|args|, 2)], pos - 1);
      } else {
        newArgs := newArgs + [arg];
      }
    }
    var newKwargs := kwargs;
    if !broke {
      assert args[..Min(|args|, 2)] == newArgs;
      var k := 0;
      while k < |kwargs| && !IsInteraction(kwargs[k].1)
        invariant k <= |kwargs| && forall j :: 0 <= j < k ==> !IsInteraction(kwargs[j].1)
      {
        k := k + 1;
      }
      if k == |kwargs| {
        return Err(TypeError);
      }
      FirstInteractionAt(Values(kwargs), k);
      newKwargs := WrapEntry(kwargs, k);
    }
    assert newArgs + args[pos..] == if broke then args[..pos - 1] + [WrapInteraction(args[pos - 1])] + args[pos..] else args;
    r := Ok((newArgs + args[pos..], newKwargs));
  }

  /** An interaction with none before it is the first one. */
  lemma {:induction false} FirstInteractionAt(s: seq<Obj>, i: nat)
    requires i < |s| && IsInteraction(s[i]) && forall j :: 0 <= j < i ==> !IsInteraction(s[j])
    ensures FirstInteraction(s) == Some(i)
  {
    if i > 0 {
      assert forall j :: 0 <= j < i - 1 ==> s[1..][j] == s[j + 1];
      FirstInteractionAt(s[1..], i - 1);
    }
  }

  /**
   * The search fails with a `TypeError` exactly when neither of the first two positional
   * arguments nor any keyword value is an interaction; otherwise the keyword names and their
   * order are unchanged.
   */
  lemma Refused(args: seq<Obj>, kwargs: Dict<string, Obj>)
    ensures Wrapping(args, kwargs).Err? <==>
      (forall j :: 0 <= j < |args| && j < 2 ==> !IsInteraction(args[j])) &&
      (forall j :: 0 <= j < |kwargs| ==> !IsInteraction(kwargs[j].1))
    ensures Wrapping(args, kwargs).Err? ==> Wrapping(args, kwargs).exc == TypeError
    ensures Wrapping(args, kwargs).Ok? ==> Keys(Wrapping(args, kwargs).value.1) == Keys(kwargs)
  {
    var scanned := args[..Min(|args|, 2)];
    match FirstInteraction(scanned)
    case Some(i) =>
      assert scanned[i] == args[i];
    case None =>
      assert forall j :: 0 <= j < |args| && j < 2 ==> scanned[j] == args[j];
      match FirstInteraction(Values(kwargs))
      case Some(j) =>
        assert Values(kwargs)[j] == kwargs[j].1;
      case None =>
  }

  /**
   * An interaction among the first two positional arguments is the one wrapped: the first of
   * them is replaced by its wrapper, every other argument and the keyword arguments stay as
   * they are.
   */
  lemma WrapsFirstArg(args: seq<Obj>, kwargs: Dict<string, Obj>, i: nat)
    requires i < |args| && i < 2 && IsInteraction(args[i]) && forall j :: 0 <= j < i ==> !IsInteraction(args[j])
    ensures Wrapping(args, kwargs).Ok?
    ensures Wrapping(args, kwargs).value.1 == kwargs
    ensures |Wrapping(args, kwargs).value.0| == |args|
    ensures Wrapping(args, kwargs).value.0[i] == WrapInteraction(args[i])
    ensures forall j :: 0 <= j < |args| && j != i ==> Wrapping(args, kwargs).value.0[j] == args[j]
  {
    FirstInteractionAt(args[..Min(|args|, 2)], i);
  }

  /**
   * As written, when the interaction comes from the keyword values and there are three or more
   * positional arguments, the third one is missing from the result.
   */
  lemma ThirdArgDropped(args: seq<Obj>, kwargs: Dict<string, Obj>)
    requires |args| >= 3 && !IsInteraction(args[0]) && !IsInteraction(args[1])
    requires exists j :: 0 <= j < |kwargs| && IsInteraction(kwargs[j].1)
    ensures Wrapping(args, kwargs).Ok?
    ensures Wrapping(args, kwargs).value.0 == args[..2] + args[3..]
    ensures |Wrapping(args, kwargs).value.0| == |args| - 1
  {
    var scanned := args[..2];
    assert FirstInteraction(scanned).None?;
    var j :| 0 <= j < |kwargs| && IsInteraction(kwargs[j].1);
    assert Values(kwargs)[j] == kwargs[j].1;
  }

  /** The concrete case: three plain arguments and an interaction passed by keyword. */
  lemma ThirdArgDroppedExample()
    ensures Wrapping([Plain(0), Plain(1), Plain(2)], [("inter", Native(CommandKind))]) ==
      Ok(([Plain(0), Plain(1)], [("inter", Wrapped(Native(CommandKind)))]))
  {
    var kwargs := [("inter", Native(CommandKind))];
    var args := [Plain(0), Plain(1), Plain(2)];
    assert IsInteraction(kwargs[0].1);
    ThirdArgDropped(args, kwargs);
    assert args[..2] + args[3..] == [Plain(0), Plain(1)];
    assert Values(kwargs) == [Native(CommandKind)];
    assert WrapEntry(kwargs, 0) == [("inter", Wrapped(Native(CommandKind)))];
  }

  /**
   * With the intended scan every positional argument is handed on, at most one of them replaced
   * by its wrapper, and exactly one object (an argument or a keyword value) is wrapped.
   */
  lemma KeepsEveryArg(args: seq<Obj>, kwargs: Dict<string, Obj>)
    requires WrappingKeepingArgs(args, kwargs).Ok?
    ensures |WrappingKeepingArgs(args, kwargs).value.0| == |args|
    ensures |WrappingKeepingArgs(args, kwargs).value.1| == |kwargs|
    ensures Keys(WrappingKeepingArgs(args, kwargs).value.1) == Keys(kwargs)
    ensures WrappingKeepingArgs(args, kwargs).value.0 == args <==> WrappingKeepingArgs(args, kwargs).value.1 != kwargs
    ensures forall j :: 0 <= j < |args| ==>
      WrappingKeepingArgs(args, kwargs).value.0[j] == args[j] ||
      (IsInteraction(args[j]) && WrappingKeepingArgs(args, kwargs).value.0[j] == WrapInteraction(args[j]))
  {
    var r := WrappingKeepingArgs(args, kwargs).value;
    match FirstInteraction(args[..Min(|args|, 2)])
    case Some(i) =>
      assert r.0[i] == WrapInteraction(args[i]) != args[i];
    case None =>
      var j := FirstInteraction(Values(kwargs)).value;
      assert r.1[j].1 == WrapInteraction(kwargs[j].1) != kwargs[j].1;
  }

  /** On everything the as-written scan does not lose, it agrees with the intended one. */
  lemma AgreesUpToThirdArg(args: seq<Obj>, kwargs: Dict<string, Obj>)
    ensures Wrapping(args, kwargs).Ok? <==> WrappingKeepingArgs(args, kwargs).Ok?
    ensures |args| < 3 ==> Wrapping(args, kwargs) == WrappingKeepingArgs(args, kwargs)
    ensures Wrapping(args, kwargs).Ok? ==> Wrapping(args, kwargs).value.1 == WrappingKeepingArgs(args, kwargs).value.1
  {
    if |args| < 3 {
      assert args[..Min(|args|, 2)] + args[Min(|args|, 3)..] == args;
    }
  }

  /** Components as the caller gives them: rich components of this library, or disnake's own. */
  datatype Component = Rich(id: int) | NativeUi(id: int)

  /** A top-level entry: a single component, or a sequence of components forming one row. */
  datatype Entry = Single(c: Component) | Row(cs: seq<Component>)

  /** The `components` argument: `None`, `MISSING`, a single component, or a sequence of entries. */
  datatype Components = NoneGiven | Missing | One(c: Component) | Many(entries: seq<Entry>)

  /**
   * `_prepare`: a rich component becomes the native component its `as_ui_component` builds
   * (a parameter here); any other component is returned unchanged.
   */
  function Prepare(c: Component, asUi: int -> int): (u: Component)
    ensures u.NativeUi?
    ensures c.NativeUi? ==> u == c
  {
    match c
    case Rich(id) => NativeUi(asUi(id))
    case NativeUi(_) => c
  }

  /** One entry prepared: a row is prepared component by component. */
  function PrepareEntry(e: Entry, asUi: int -> int): (p: Entry)
    ensures p.Single? <==> e.Single?
    ensures p.Row? ==> |p.cs| == |e.cs| && forall k :: 0 <= k < |e.cs| ==> p.cs[k] == Prepare(e.cs[k], asUi)
  {
    match e
    case Single(c) => Single(Prepare(c, asUi))
    case Row(cs) => Row(seq(|cs|, k requires 0 <= k < |cs| => Prepare(cs[k], asUi)))
  }

  /** Every component of the entries is a native UI component. */
  predicate AllNative(es: seq<Entry>) {
    forall i :: 0 <= i < |es| ==>
      match es[i]
      case Single(c) => c.NativeUi?
      case Row(cs) => forall k :: 0 <= k < |cs| ==> cs[k].NativeUi?
  }

  /** The entries with every component prepared, in the same layout. */
  function PreparedEntries(es: seq<Entry>, asUi: int -> int): (ps: seq<Entry>)
    ensures |ps| == |es| && forall i :: 0 <= i < |es| ==> ps[i] == PrepareEntry(es[i], asUi)
    ensures AllNative(ps)
  {
    seq(|es|, i requires 0 <= i < |es| => PrepareEntry(es[i], asUi))
  }

  /**
   * `_to_ui_components(components, allow_none=...)`: `None` is refused with a `TypeError` unless
   * allowed, `MISSING` passes through, a single component is prepared, and a sequence is prepared
   * entry by entry into a new list.
   */
  method ToUiComponents(components: Components, allowNone: bool, asUi: int -> int) returns (r: Result<Components>)
    ensures components.NoneGiven? ==> r == if allowNone then Ok(NoneGiven) else Err(TypeError)
    ensures components.Missing? ==> r == Ok(Missing)
    ensures components.One? ==> r == Ok(One(Prepare(components.c, asUi)))
    ensures components.Many? ==> r == Ok(Many(PreparedEntries(components.entries, asUi)))
  {
    match components
    case NoneGiven =>
      if !allowNone {
        return Err(TypeError);
      }
      return Ok(NoneGiven);
    case Missing =>
      return Ok(Missing);
    case One(c) =>
      return Ok(One(Prepare(c, asUi)));
    case Many(entries) =>
      var finalised: seq<Entry> := [];
      for i := 0 to |entries|
        invariant |finalised| == i && forall k :: 0 <= k < i ==> finalised[k] == PrepareEntry(entries[k], asUi)
      {
        match entries[i]
        case Single(c) =>
          finalised := finalised + [Single(Prepare(c, asUi))];
        case Row(cs) =>
          finalised := finalised + [Row(seq(|cs|, k requires 0 <= k < |cs| => Prepare(cs[k], asUi)))];
      }
      assert finalised == PreparedEntries(entries, asUi);
      return Ok(Many(finalised));
  }

  /** Native components are left alone, so preparing twice is preparing once. */
  lemma PrepareIdempotent(es: seq<Entry>, asUi: int -> int)
    ensures PreparedEntries(PreparedEntries(es, asUi), asUi) == PreparedEntries(es, asUi)
  {
    var ps := PreparedEntries(es, asUi);
    forall i | 0 <= i < |es| ensures PrepareEntry(ps[i], asUi) == ps[i] {
      match ps[i]
      case Single(c) =>
      case Row(cs) =>
        assert PrepareEntry(ps[i], asUi).cs == cs;
    }
  }
}
