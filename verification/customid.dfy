/**
 * Custom ids: the format string `name|{f1}|{f2}` a component's instances fill in, the pattern
 * compiled from it, and the operations on both (`complete`, `match`, `check_name`, `validate`).
 */
module CustomId {
  import opened Wrappers
  import opened Regex
  import Values
  import Text
  import OrderedDicts
  import Fields

  /** `AutoID.default_sep`. */
  const DEFAULT_SEP: string := "|"

  /** The format field `{f}`. */
  function Braced(f: string): string
  {
    "{" + f + "}"
  }

  function BracedAll(fields: seq<string>): (r: seq<string>)
    ensures |r| == |fields| && forall i :: 0 <= i < |fields| ==> r[i] == Braced(fields[i])
  {
    if fields == [] then [] else [Braced(fields[0])] + BracedAll(fields[1..])
  }

  /** `CustomID.make_spec(*fields, name=name, sep=sep)`. */
  function MakeSpec(fields: seq<string>, name: string, sep: string): string
  {
    if fields == [] then name else name + sep + Text.Join(BracedAll(fields), sep)
  }

  /** A `CustomID`: a `str` (its spec) carrying its name, fields, separator and compiled pattern. */
  datatype CustomID = CustomID(name: string, fields: seq<string>, sep: string, spec: string, pattern: seq<Token>)

  /** `CustomID(*fields, name=name, sep=sep)`: compiling the spec's pattern may raise. */
  function New(fields: seq<string>, name: string, sep: string): (r: Result<CustomID>)
    ensures r.Ok? ==> r.value.name == name && r.value.fields == fields && r.value.sep == sep
    ensures r.Ok? ==> r.value.spec == MakeSpec(fields, name, sep)
    ensures r.Ok? ==> r.value.pattern == FormatToPattern(r.value.spec)
    ensures r.Err? ==> r.exc == RegexError || r.exc == Unmodelled
  {
    var spec := MakeSpec(fields, name, sep);
    var pattern :- Compile(FormatToPattern(spec));
    Ok(CustomID(name, fields, sep, spec, pattern))
  }

  /** Field names that are Python identifiers, as attrs requires of attribute names. */
  predicate Identifiers(fields: seq<string>) {
    forall i :: 0 <= i < |fields| ==> ValidGroupName(fields[i])
  }

  /** Identifier field names, each used once. */
  predicate ValidFields(fields: seq<string>) {
    DistinctNames(fields) && Identifiers(fields)
  }

  /** A name or separator that puts no format field or stray brace into the spec. */
  predicate NoBraces(s: string) {
    '{' !in s && '}' !in s
  }

  // ---------------------------------------------------------------------------------------
  // The pattern of a spec.

  lemma EscapeBraced(f: string)
    requires IsWord(f)
    ensures Escape(Braced(f)) == Braced(f)
  {
    EscapeIdentity(Braced(f));
    var b := Braced(f);
    assert forall i :: 1 <= i < |b| - 1 ==> b[i] == f[i - 1];
  }

  /** One field and the separator after it, escaped and scanned. */
  lemma ScanFieldSep(f: string, sep: string, j: string)
    requires ValidGroupName(f) && '{' !in sep
    ensures Scan(Escape(Braced(f) + sep + j)) == [Group(f)] + (Lits(sep) + Scan(Escape(j)))
  {
    EscapeBraced(f);
    EscapeAppend(Braced(f) + sep, j);
    EscapeAppend(Braced(f), sep);
    Text.AppendAssoc(Braced(f), Escape(sep), Escape(j));
    ScanField(f, Escape(sep) + Escape(j));
    ScanEscaped(sep, Escape(j));
  }

  /** A lone field `{f}` becomes the single group `f`. */
  lemma SingleField(f: string)
    requires ValidGroupName(f)
    ensures Scan(Escape(Braced(f))) == [Group(f)]
  {
    EscapeBraced(f);
    ScanField(f, []);
    assert Braced(f) == "{" + f + "}" + [];
  }

  lemma IdentifiersTail(fields: seq<string>)
    requires |fields| >= 1 && Identifiers(fields)
    ensures Identifiers(fields[1..]) && ValidGroupName(fields[0])
  {
    assert forall i :: 0 <= i < |fields[1..]| ==> fields[1..][i] == fields[i + 1];
  }

  /** The fields part of a spec compiles to groups separated by the literal separator. */
  lemma {:induction false} FieldsPattern(fields: seq<string>, sep: string)
    requires |fields| >= 1 && Identifiers(fields) && '{' !in sep
    ensures Scan(Escape(Text.Join(BracedAll(fields), sep))) == GroupsTokens(fields, sep)
  {
    var f := fields[0];
    var bs := BracedAll(fields);
    IdentifiersTail(fields);
    if |fields| == 1 {
      assert Text.Join(bs, sep) == Braced(f);
      SingleField(f);
    } else {
      var rest := fields[1..];
      assert bs[1..] == BracedAll(rest);
      var j := Text.Join(BracedAll(rest), sep);
      assert Text.Join(bs, sep) == Braced(f) + sep + j;
      ScanFieldSep(f, sep, j);
      FieldsPattern(rest, sep);
      GroupsTail(fields, sep);
    }
  }

  /** The pattern of a custom id: its name and separator as literals, then one group per field. */
  function IdPattern(fields: seq<string>, name: string, sep: string): seq<Token>
  {
    if fields == [] then Lits(name) else Lits(name) + Lits(sep) + GroupsTokens(fields, sep)
  }

  lemma SpecPattern(fields: seq<string>, name: string, sep: string)
    requires Identifiers(fields) && '{' !in name && '{' !in sep
    ensures FormatToPattern(MakeSpec(fields, name, sep)) == IdPattern(fields, name, sep)
  {
    if fields == [] {
      NoFieldsPattern(name);
    } else {
      var j := Text.Join(BracedAll(fields), sep);
      EscapeAppend(name + sep, j);
      EscapeAppend(name, sep);
      Text.AppendAssoc(Escape(name), Escape(sep), Escape(j));
      ScanEscaped(name, Escape(sep) + Escape(j));
      ScanEscaped(sep, Escape(j));
      FieldsPattern(fields, sep);
      Text.AppendAssoc(Lits(name), Lits(sep), GroupsTokens(fields, sep));
    }
  }

  lemma {:induction false} GroupNamesAppend(a: seq<Token>, b: seq<Token>)
    ensures GroupNames(a + b) == GroupNames(a) + GroupNames(b)
  {
    if a != [] {
      assert (a + b)[0] == a[0] && (a + b)[1..] == a[1..] + b;
      GroupNamesAppend(a[1..], b);
      if a[0].Group? {
        Text.AppendAssoc([a[0].name], GroupNames(a[1..]), GroupNames(b));
      }
    } else {
      assert a + b == b;
    }
  }

  lemma {:induction false} LitsHaveNoGroups(x: string)
    ensures GroupNames(Lits(x)) == []
    ensures Lit('{') in Lits(x) <==> '{' in x
  {
    if x != [] {
      LitsHaveNoGroups(x[1..]);
      assert Lits(x) == [Lit(x[0])] + Lits(x[1..]);
      assert x == [x[0]] + x[1..];
    }
  }

  lemma {:induction false} GroupsNames(fields: seq<string>, sep: string)
    requires |fields| >= 1
    ensures GroupNames(GroupsTokens(fields, sep)) == fields
  {
    var t := GroupsTokens(fields, sep);
    assert GroupNames(t) == [fields[0]] + GroupNames(t[1..]);
    if |fields| > 1 {
      var rest := GroupsTokens(fields[1..], sep);
      GroupsTail(fields, sep);
      GroupsNames(fields[1..], sep);
      LitsHaveNoGroups(sep);
      GroupNamesAppend(Lits(sep), rest);
      assert GroupNames(t[1..]) == fields[1..];
      assert fields == [fields[0]] + fields[1..];
    } else {
      assert t[1..] == [];
      assert [fields[0]] + [] == fields;
    }
  }

  lemma {:induction false} GroupsNoBrace(fields: seq<string>, sep: string)
    requires |fields| >= 1 && '{' !in sep
    ensures Lit('{') !in GroupsTokens(fields, sep)
  {
    if |fields| > 1 {
      GroupsNoBrace(fields[1..], sep);
      LitsHaveNoGroups(sep);
      GroupsTail(fields, sep);
      var t := GroupsTokens(fields, sep);
      assert t == [t[0]] + t[1..];
    }
  }

  /** The pattern's groups are exactly the fields, in order, and no brace is left in it. */
  lemma IdPatternNames(fields: seq<string>, name: string, sep: string)
    requires '{' !in name && '{' !in sep
    ensures GroupNames(IdPattern(fields, name, sep)) == fields
    ensures Lit('{') !in IdPattern(fields, name, sep)
  {
    LitsHaveNoGroups(name);
    if fields != [] {
      LitsHaveNoGroups(sep);
      GroupsNames(fields, sep);
      GroupsNoBrace(fields, sep);
      GroupNamesAppend(Lits(name), Lits(sep));
      GroupNamesAppend(Lits(name) + Lits(sep), GroupsTokens(fields, sep));
    }
  }

  /**
   * A custom id built from identifier field names and a brace-free name and separator always
   * compiles, and its pattern is the name, the separator and one group per field.
   */
  lemma NewSucceeds(fields: seq<string>, name: string, sep: string)
    requires ValidFields(fields) && '{' !in name && '{' !in sep
    ensures New(fields, name, sep).Ok?
    ensures New(fields, name, sep).value.pattern == IdPattern(fields, name, sep)
    ensures GroupNames(New(fields, name, sep).value.pattern) == fields
  {
    SpecPattern(fields, name, sep);
    IdPatternNames(fields, name, sep);
  }

  /** Two fields of the same name cannot be compiled into one pattern. */
  lemma DuplicateFieldRefused(f: string, name: string, sep: string)
    requires ValidGroupName(f) && '{' !in name && '{' !in sep
    ensures New([f, f], name, sep) == Err(RegexError)
  {
    assert Identifiers([f, f]);
    SpecPattern([f, f], name, sep);
    IdPatternNames([f, f], name, sep);
  }

  // ---------------------------------------------------------------------------------------
  // str.format_map.

  function Prepend(x: string, r: Result<string>): (q: Result<string>)
    ensures q.Ok? == r.Ok? && (r.Ok? ==> q.value == x + r.value) && (r.Err? ==> q == r)
  {
    if r.Ok? then Ok(x + r.value) else r
  }

  /** The first `}` in `s`, if any. */
  function FirstClose(s: string): (r: Option<nat>)
    ensures r.Some? ==> r.value < |s| && s[r.value] == '}' && '}' !in s[..r.value]
    ensures r.None? ==> '}' !in s
  {
    if s == [] then None
    else if s[0] == '}' then Some(0)
    else match FirstClose(s[1..])
      case None => None
      case Some(k) =>
        assert s[..k + 1] == [s[0]] + s[1..][..k];
        Some(k + 1)
  }

  predicate AllDigits(s: string) {
    forall i :: 0 <= i < |s| ==> '0' <= s[i] <= '9'
  }

  /** The text a replacement field is rendered as: `format(value, "")`, which is `str(value)`. */
  function Render(v: Values.Value): Option<string>
  {
    Values.StrOf(v)
  }

  /**
   * `fmt.format_map(kv)` with the fields read left to right: `{{` and `}}` are literal braces,
   * a lone `}` or an unclosed `{` is a `ValueError`, an empty or numeric field name is a
   * positional field (a `ValueError` for `format_map`), and a missing key is a `KeyError`.
   * Conversions, format specs, attribute and index access and nested fields are not modelled.
   */
  function FormatMap(fmt: string, kv: map<string, Values.Value>): (r: Result<string>)
    decreases |fmt|
    ensures r.Err? ==> r.exc in {ValueError, KeyError, Unmodelled}
  {
    if fmt == [] then Ok("")
    else if fmt[0] == '{' then
      if |fmt| >= 2 && fmt[1] == '{' then Prepend("{", FormatMap(fmt[2..], kv))
      else match FirstClose(fmt[1..])
        case None => Err(ValueError)
        case Some(k) =>
          var field := fmt[1..k + 1];
          if exists i :: 0 <= i < |field| && field[i] in {'{', ':', '!', '.', '['} then Err(Unmodelled)
          else if field == [] || AllDigits(field) then Err(ValueError)
          else if field !in kv then Err(KeyError)
          else match Render(kv[field])
            case None => Err(Unmodelled)
            case Some(t) => Prepend(t, FormatMap(fmt[k + 2..], kv))
    else if fmt[0] == '}' then
      if |fmt| >= 2 && fmt[1] == '}' then Prepend("}", FormatMap(fmt[2..], kv))
      else Err(ValueError)
    else Prepend([fmt[0]], FormatMap(fmt[1..], kv))
  }

  /** Brace-free text is copied through. */
  lemma {:induction false} FormatLiteral(x: string, rest: string, kv: map<string, Values.Value>)
    requires NoBraces(x)
    ensures FormatMap(x + rest, kv) == Prepend(x, FormatMap(rest, kv))
  {
    if x != [] {
      var e := x + rest;
      assert e[0] == x[0] && e[1..] == x[1..] + rest;
      assert NoBraces(x[1..]) by { assert forall i :: 0 <= i < |x[1..]| ==> x[1..][i] == x[i + 1]; }
      FormatLiteral(x[1..], rest, kv);
      if FormatMap(rest, kv).Ok? {
        Text.AppendAssoc([x[0]], x[1..], FormatMap(rest, kv).value);
      }
      assert [x[0]] + x[1..] == x;
    } else {
      assert x + rest == rest;
      if FormatMap(rest, kv).Ok? {
        assert [] + FormatMap(rest, kv).value == FormatMap(rest, kv).value;
      }
    }
  }

  /** A field `{f}` is replaced by the rendering of `kv[f]`, or fails. */
  lemma FormatField(f: string, rest: string, kv: map<string, Values.Value>)
    requires ValidGroupName(f)
    ensures FormatMap(Braced(f) + rest, kv) ==
      if f !in kv then Err(KeyError)
      else if Render(kv[f]).None? then Err(Unmodelled)
      else Prepend(Render(kv[f]).value, FormatMap(rest, kv))
  {
    var e := Braced(f) + rest;
    assert e[0] == '{' && e[1] == f[0];
    assert e[1..] == f + ("}" + rest);
    assert '}' !in f by { assert IsWordChar(f[0]) && IsWord(f); }
    assert FirstClose(e[1..]) == Some(|f|) by {
      FirstCloseAfter(f, "}" + rest);
    }
    assert e[1..|f| + 1] == f;
    assert !AllDigits(f);
    assert e[|f| + 2..] == rest;
    assert forall i :: 0 <= i < |f| ==> f[i] !in {'{', ':', '!', '.', '['} by {
      forall i | 0 <= i < |f| ensures f[i] !in {'{', ':', '!', '.', '['} { assert IsWordChar(f[i]); }
    }
  }

  lemma {:induction false} FirstCloseAfter(x: string, rest: string)
    requires '}' !in x && rest != [] && rest[0] == '}'
    ensures FirstClose(x + rest) == Some(|x|)
  {
    if x != [] {
      assert (x + rest)[1..] == x[1..] + rest;
      assert '}' !in x[1..] by { assert forall i :: 0 <= i < |x[1..]| ==> x[1..][i] == x[i + 1]; }
      FirstCloseAfter(x[1..], rest);
    } else {
      assert x + rest == rest;
    }
  }

  /** Every field has a key whose value has a string form. */
  predicate Renderable(fields: seq<string>, kv: map<string, Values.Value>) {
    forall i :: 0 <= i < |fields| ==> fields[i] in kv && Render(kv[fields[i]]).Some?
  }

  function Rendered(fields: seq<string>, kv: map<string, Values.Value>): (r: seq<string>)
    requires Renderable(fields, kv)
    ensures |r| == |fields| && forall i :: 0 <= i < |fields| ==> r[i] == Render(kv[fields[i]]).value
  {
    if fields == [] then [] else [Render(kv[fields[0]]).value] + Rendered(fields[1..], kv)
  }

  /** The fields part of a spec fills in as the rendered values joined with the separator. */
  lemma {:induction false} FormatFields(fields: seq<string>, sep: string, kv: map<string, Values.Value>)
    requires |fields| >= 1 && ValidFields(fields) && NoBraces(sep) && Renderable(fields, kv)
    ensures FormatMap(Text.Join(BracedAll(fields), sep), kv) == Ok(Text.Join(Rendered(fields, kv), sep))
  {
    var f := fields[0];
    var t := Render(kv[f]).value;
    if |fields| == 1 {
      FormatField(f, [], kv);
      assert Braced(f) + [] == Braced(f) && t + "" == t;
    } else {
      var rest := fields[1..];
      assert ValidFields(rest) by {
        assert forall i :: 0 <= i < |rest| ==> rest[i] == fields[i + 1];
      }
      assert Renderable(rest, kv) by {
        assert forall i :: 0 <= i < |rest| ==> rest[i] == fields[i + 1];
      }
      assert BracedAll(fields)[1..] == BracedAll(rest);
      var j := Text.Join(BracedAll(rest), sep);
      assert Text.Join(BracedAll(fields), sep) == Braced(f) + (sep + j);
      FormatField(f, sep + j, kv);
      FormatLiteral(sep, j, kv);
      FormatFields(rest, sep, kv);
      assert Rendered(fields, kv)[1..] == Rendered(rest, kv);
      Text.AppendAssoc(t, sep, Text.Join(Rendered(rest, kv), sep));
    }
  }

  /** The spec fills in as `name`, then the separator and the rendered values joined by it. */
  lemma FormatSpec(fields: seq<string>, name: string, sep: string, kv: map<string, Values.Value>)
    requires ValidFields(fields) && NoBraces(name) && NoBraces(sep) && Renderable(fields, kv)
    ensures FormatMap(MakeSpec(fields, name, sep), kv) == Ok(Filled(Rendered(fields, kv), name, sep))
  {
    if fields == [] {
      FormatLiteral(name, [], kv);
      assert name + [] == name && name + "" == name;
    } else {
      var j := Text.Join(BracedAll(fields), sep);
      Text.AppendAssoc(name, sep, j);
      FormatLiteral(name, sep + j, kv);
      FormatLiteral(sep, j, kv);
      FormatFields(fields, sep, kv);
      Text.AppendAssoc(name, sep, Text.Join(Rendered(fields, kv), sep));
    }
  }

  /** The spec fills in as `name`, then the separator and the given texts joined by it. */
  lemma FormatSpecWith(fields: seq<string>, name: string, sep: string, kv: map<string, Values.Value>, ds: seq<string>)
    requires ValidFields(fields) && NoBraces(name) && NoBraces(sep) && |ds| == |fields|
    requires forall i :: 0 <= i < |fields| ==> fields[i] in kv && Render(kv[fields[i]]) == Some(ds[i])
    ensures FormatMap(MakeSpec(fields, name, sep), kv) == Ok(Filled(ds, name, sep))
  {
    FormatSpec(fields, name, sep, kv);
    assert Rendered(fields, kv) == ds;
  }

  /** The custom id of given field values: `name`, or `name + sep + sep.join(values)`. */
  function Filled(values: seq<string>, name: string, sep: string): string
  {
    if values == [] then name else name + sep + Text.Join(values, sep)
  }

  /** The fields before `j` render and field `j` has no key. */
  predicate MissingAt(fields: seq<string>, kv: map<string, Values.Value>, j: nat) {
    && j < |fields| && fields[j] !in kv
    && forall i :: 0 <= i < j ==> fields[i] in kv && Render(kv[fields[i]]).Some?
  }

  lemma {:induction false} FormatFieldsMissing(fields: seq<string>, sep: string, kv: map<string, Values.Value>, j: nat)
    requires Identifiers(fields) && NoBraces(sep) && MissingAt(fields, kv, j)
    ensures FormatMap(Text.Join(BracedAll(fields), sep), kv) == Err(KeyError)
  {
    var f := fields[0];
    IdentifiersTail(fields);
    if |fields| == 1 {
      FormatField(f, [], kv);
      assert Text.Join(BracedAll(fields), sep) == Braced(f) + [];
    } else {
      var rest := fields[1..];
      assert BracedAll(fields)[1..] == BracedAll(rest);
      var j' := Text.Join(BracedAll(rest), sep);
      assert Text.Join(BracedAll(fields), sep) == Braced(f) + (sep + j');
      FormatField(f, sep + j', kv);
      if j > 0 {
        FormatLiteral(sep, j', kv);
        assert MissingAt(rest, kv, j - 1) by {
          assert forall i :: 0 <= i < |rest| ==> rest[i] == fields[i + 1];
        }
        FormatFieldsMissing(rest, sep, kv, j - 1);
      }
    }
  }

  /**
   * Filling stops at the first field with no key, with a `KeyError`, provided the fields
   * before it render.
   */
  lemma FormatMissingAt(fields: seq<string>, name: string, sep: string, kv: map<string, Values.Value>, j: nat)
    requires Identifiers(fields) && NoBraces(name) && NoBraces(sep) && MissingAt(fields, kv, j)
    ensures FormatMap(MakeSpec(fields, name, sep), kv) == Err(KeyError)
  {
    var js := Text.Join(BracedAll(fields), sep);
    Text.AppendAssoc(name, sep, js);
    FormatLiteral(name, sep + js, kv);
    FormatLiteral(sep, js, kv);
    FormatFieldsMissing(fields, sep, kv, j);
  }

  // ---------------------------------------------------------------------------------------
  // The operations of a custom id.

  /**
   * `custom_id.complete(component)`: the attribute of each field (an `AttributeError` if it is
   * missing), then `format_map` of the spec.
   */
  function Complete(cid: CustomID, attrs: map<string, Values.Value>): (r: Result<string>)
  {
    if exists i :: 0 <= i < |cid.fields| && cid.fields[i] !in attrs then Err(AttributeError)
    else FormatMap(cid.spec, map f | f in cid.fields :: attrs[f])
  }

  /** `custom_id.check_name(s)`: `s.startswith(name)`. */
  function CheckName(cid: CustomID, s: string): bool
  {
    Text.StartsWith(s, cid.name)
  }

  /** The group names paired with their captures: `match.groupdict()`. */
  function Zip(names: seq<string>, caps: seq<string>): (d: OrderedDicts.Dict<string, string>)
    requires |names| == |caps|
    ensures |d| == |names| && forall i :: 0 <= i < |d| ==> d[i] == (names[i], caps[i])
  {
    if names == [] then [] else [(names[0], caps[0])] + Zip(names[1..], caps[1..])
  }

  /**
   * `custom_id.match(s, strict=strict)`, reduced to the match's `groupdict()`: no fullmatch is
   * a `RuntimeError` when strict and `None` otherwise.
   */
  function MatchId(cid: CustomID, s: string, strict: bool): (r: Result<Option<OrderedDicts.Dict<string, string>>>)
    ensures r.Err? <==> strict && Match(cid.pattern, s).None?
    ensures r.Err? ==> r.exc == RuntimeError
    ensures r == Ok(None) <==> !strict && Match(cid.pattern, s).None?
  {
    match Match(cid.pattern, s)
    case None => if strict then Err(RuntimeError) else Ok(None)
    case Some(caps) => Ok(Some(Zip(GroupNames(cid.pattern), caps)))
  }

  /**
   * `validate(component)`: a `ValueError` iff some non-internal field of the component is not
   * one of the custom id's fields; fields of the custom id the class lacks are accepted.
   */
  function Validate(cid: CustomID, cls: Fields.ComponentClass): (r: Outcome)
    ensures r.Fail? <==> exists i :: 0 <= i < |Fields.GetFields(cls, false)| && Fields.GetFields(cls, false)[i].name !in cid.fields
    ensures r.Fail? ==> r.exc == ValueError
  {
    var names := Fields.Names(Fields.GetFields(cls, false));
    if exists i :: 0 <= i < |names| && names[i] !in cid.fields then Fail(ValueError) else Pass
  }

  /** `CustomID.from_component(cls, name=name, sep=sep)`: the non-internal fields, and `name or cls.__name__`. */
  function FromComponent(cls: Fields.ComponentClass, name: Option<string>, sep: string): (r: Result<CustomID>)
    ensures r.Ok? ==> r.value.fields == Fields.Names(Fields.GetFields(cls, false)) && r.value.sep == sep
    ensures r.Ok? ==> r.value.name == if name.Some? && name.value != "" then name.value else cls.name
  {
    New(Fields.Names(Fields.GetFields(cls, false)), if name.Some? && name.value != "" then name.value else cls.name, sep)
  }

  /** An `AutoID`: an optional name and an optional separator. */
  datatype AutoID = AutoID(name: Option<string>, sep: Option<string>)

  /** `CustomID.from_auto_id(cls, auto_id)`: `auto_id.name or cls.__name__`, `auto_id.sep or AutoID.default_sep`. */
  function FromAutoId(cls: Fields.ComponentClass, auto: AutoID): (r: Result<CustomID>)
    ensures r.Ok? ==> r.value.name == if auto.name.Some? && auto.name.value != "" then auto.name.value else cls.name
    ensures r.Ok? ==> r.value.sep == if auto.sep.Some? && auto.sep.value != "" then auto.sep.value else DEFAULT_SEP
    ensures r.Ok? ==> r.value.fields == Fields.Names(Fields.GetFields(cls, false))
  {
    var name := if auto.name.Some? && auto.name.value != "" then auto.name.value else cls.name;
    FromComponent(cls, Some(name), if auto.sep.Some? && auto.sep.value != "" then auto.sep.value else DEFAULT_SEP)
  }

  // ---------------------------------------------------------------------------------------
  // Properties.

  /** A custom id built from a class always validates against that class. */
  lemma FromComponentValidates(cls: Fields.ComponentClass, name: Option<string>, sep: string)
    requires FromComponent(cls, name, sep).Ok?
    ensures Validate(FromComponent(cls, name, sep).value, cls) == Pass
  {
  }

  /** `check_name` accepts every id that extends the name, including ids of other components. */
  lemma CheckNameAcceptsExtensions(cid: CustomID, suffix: string)
    ensures CheckName(cid, cid.name + suffix)
  {
    assert (cid.name + suffix)[..|cid.name|] == cid.name;
  }

  /** A well-formed custom id: compiled from identifier fields and a brace-free name and separator. */
  predicate WellFormed(cid: CustomID) {
    && ValidFields(cid.fields) && NoBraces(cid.name) && NoBraces(cid.sep)
    && New(cid.fields, cid.name, cid.sep) == Ok(cid)
  }

  /** A custom id with no fields fullmatches its name and nothing else. */
  lemma NoFieldsMatchesOnlyName(cid: CustomID, s: string)
    requires WellFormed(cid) && cid.fields == []
    ensures Match(cid.pattern, s) == if s == cid.name then Some([]) else None
  {
    NewSucceeds(cid.fields, cid.name, cid.sep);
    LiteralFullMatch(cid.name, s);
  }

  /**
   * Matching a custom id with fields: the literal `name + sep` must lead, then the groups cut
   * the rest at the leftmost separators, the last group taking the remainder.
   */
  lemma MatchCutsAtSeparators(cid: CustomID, s: string)
    requires WellFormed(cid) && |cid.fields| >= 1 && |cid.sep| > 0
    requires Text.StartsWith(s, cid.name + cid.sep) ==> '\n' !in s[|cid.name + cid.sep|..]
    ensures Match(cid.pattern, s) ==
      if Text.StartsWith(s, cid.name + cid.sep)
      then Text.SplitN(s[|cid.name + cid.sep|..], cid.sep, |cid.fields|)
      else None
  {
    NewSucceeds(cid.fields, cid.name, cid.sep);
    var g := GroupsTokens(cid.fields, cid.sep);
    Text.AppendAssoc(Lits(cid.name), Lits(cid.sep), g);
    MatchLits(cid.name, Lits(cid.sep) + g, s);
    if Text.StartsWith(s, cid.name) {
      var t := s[|cid.name|..];
      MatchLits(cid.sep, g, t);
      StartsWithTwo(s, cid.name, cid.sep);
      if Text.StartsWith(t, cid.sep) {
        assert t[|cid.sep|..] == s[|cid.name + cid.sep|..];
        MatchGroups(cid.fields, cid.sep, t[|cid.sep|..]);
      }
    } else {
      StartsWithTwo(s, cid.name, cid.sep);
    }
  }

  lemma StartsWithTwo(s: string, a: string, b: string)
    ensures Text.StartsWith(s, a + b) <==> Text.StartsWith(s, a) && Text.StartsWith(s[|a|..], b)
  {
    if Text.StartsWith(s, a + b) {
      assert s[..|a|] == (a + b)[..|a|] == a;
      assert s[|a|..][..|b|] == s[|a|..|a| + |b|] == (a + b)[|a|..];
    }
    if Text.StartsWith(s, a) && Text.StartsWith(s[|a|..], b) {
      assert s[..|a| + |b|] == s[..|a|] + s[|a|..][..|b|];
    }
  }

  /** Values that can be cut apart again: none but the last holds the separator, none holds a newline. */
  predicate Recoverable(values: seq<string>, sep: string) {
    && (forall i :: 0 <= i < |values| - 1 ==> Text.NoSepIn(values[i], sep))
    && (forall i :: 0 <= i < |values| ==> '\n' !in values[i])
  }

  lemma {:induction false} JoinNoNewline(values: seq<string>, sep: string)
    requires '\n' !in sep && forall i :: 0 <= i < |values| ==> '\n' !in values[i]
    ensures '\n' !in Text.Join(values, sep)
  {
    if |values| > 1 {
      assert forall i :: 0 <= i < |values[1..]| ==> values[1..][i] == values[i + 1];
      JoinNoNewline(values[1..], sep);
    }
  }

  /**
   * Matching the id made from recoverable values gives the values back, paired with the
   * field names in order.
   */
  lemma MatchFilled(cid: CustomID, values: seq<string>)
    requires WellFormed(cid) && |values| == |cid.fields| && |cid.sep| > 0 && '\n' !in cid.sep
    requires Recoverable(values, cid.sep)
    ensures MatchId(cid, Filled(values, cid.name, cid.sep), true) == Ok(Some(Zip(cid.fields, values)))
  {
    NewSucceeds(cid.fields, cid.name, cid.sep);
    var s := Filled(values, cid.name, cid.sep);
    if values == [] {
      NoFieldsMatchesOnlyName(cid, s);
    } else {
      var j := Text.Join(values, cid.sep);
      JoinNoNewline(values, cid.sep);
      assert s[..|cid.name + cid.sep|] == cid.name + cid.sep;
      assert s[|cid.name + cid.sep|..] == j;
      MatchCutsAtSeparators(cid, s);
      Text.SplitNJoin(values, cid.sep);
    }
  }

  /**
   * Conversely, whatever a custom id's pattern matches (on newline-free text) is the id those
   * captures fill in, and the captures can be cut apart again.
   */
  lemma MatchedRefills(cid: CustomID, s: string)
    requires WellFormed(cid) && |cid.sep| > 0 && '\n' !in s && Match(cid.pattern, s).Some?
    ensures |Match(cid.pattern, s).value| == |cid.fields|
    ensures Filled(Match(cid.pattern, s).value, cid.name, cid.sep) == s
    ensures Recoverable(Match(cid.pattern, s).value, cid.sep)
  {
    NewSucceeds(cid.fields, cid.name, cid.sep);
    if cid.fields == [] {
      NoFieldsMatchesOnlyName(cid, s);
    } else {
      var p := |cid.name + cid.sep|;
      MatchCutsAtSeparators(cid, s);
      var caps := Match(cid.pattern, s).value;
      Text.JoinSplitN(s[p..], cid.sep, |cid.fields|);
      assert s == s[..p] + s[p..];
    }
  }

  /** Completing a component whose fields all render fills the spec with the rendered values. */
  lemma CompleteFills(cid: CustomID, attrs: map<string, Values.Value>)
    requires WellFormed(cid) && Renderable(cid.fields, attrs)
    ensures Complete(cid, attrs) == Ok(Filled(Rendered(cid.fields, attrs), cid.name, cid.sep))
  {
    var kv := map f | f in cid.fields :: attrs[f];
    var ds := Rendered(cid.fields, attrs);
    assert Complete(cid, attrs) == FormatMap(cid.spec, kv);
    forall i | 0 <= i < |cid.fields| ensures cid.fields[i] in kv && Render(kv[cid.fields[i]]) == Some(ds[i]) {
      assert kv[cid.fields[i]] == attrs[cid.fields[i]];
    }
    NewSucceeds(cid.fields, cid.name, cid.sep);
    FormatSpecWith(cid.fields, cid.name, cid.sep, kv, ds);
  }

  /** A well-formed custom id's spec fills in as its name, separator and rendered values. */
  lemma SpecFills(cid: CustomID, kv: map<string, Values.Value>)
    requires WellFormed(cid) && Renderable(cid.fields, kv)
    ensures FormatMap(cid.spec, kv) == Ok(Filled(Rendered(cid.fields, kv), cid.name, cid.sep))
  {
    NewSucceeds(cid.fields, cid.name, cid.sep);
    FormatSpec(cid.fields, cid.name, cid.sep, kv);
  }

  /** A well-formed custom id's spec refuses, with a `KeyError`, a placeholder with no key. */
  lemma SpecMissing(cid: CustomID, kv: map<string, Values.Value>, j: nat)
    requires WellFormed(cid) && MissingAt(cid.fields, kv, j)
    ensures FormatMap(cid.spec, kv) == Err(KeyError)
  {
    NewSucceeds(cid.fields, cid.name, cid.sep);
    FormatMissingAt(cid.fields, cid.name, cid.sep, kv, j);
  }

  /**
   * The library's round trip: the custom id a component completes to, matched strictly by the
   * same custom id, gives back each field's rendered value under the field's name, provided
   * no value but the last holds the separator and none holds a newline.
   */
  lemma CompleteThenMatch(cid: CustomID, attrs: map<string, Values.Value>)
    requires WellFormed(cid) && Renderable(cid.fields, attrs) && |cid.sep| > 0 && '\n' !in cid.sep
    requires Recoverable(Rendered(cid.fields, attrs), cid.sep)
    ensures Complete(cid, attrs).Ok?
    ensures MatchId(cid, Complete(cid, attrs).value, true) == Ok(Some(Zip(cid.fields, Rendered(cid.fields, attrs))))
  {
    CompleteFills(cid, attrs);
    MatchFilled(cid, Rendered(cid.fields, attrs));
  }
}
