# disnake-ext-components: custom-id codec, modelled in Dafny

disnake-ext-components lets a Discord bot keep the state of a button, select menu or modal
inside the component's *custom id*, a short string that Discord hands back with every
interaction. A component class is an attrs class. Its fields are either custom-id fields or
internal ones. Each custom-id field has a *parser* that turns the field's value into text
(`dumps`) and back (`loads`). The class's `CustomID` is a `str.format` spec of the shape
`name|{field1}|{field2}`. It is compiled into a regular expression with one lazy named group
per field. Writing a component fills the spec with the dumped fields. Reading one fullmatches
the pattern and loads each captured value with its field's parser.

This project models that codec and proves what it promises. It covers these parts:

- **Parser registry** (`Registry`). A Dafny class holds the two registry maps and the
  registration operations. `get_parser` and the parser-type lookup are functions over a
  snapshot of the registry.
- **Parsers** (`Parsers`, `ParserLaws`, `IntCodec`, `Enums`). The parsers are `None`, `int`
  (with Python's `int(s, base)` and the digit loop of `dumps`), `bool`, `str`, tuple,
  collection, union and enum. Both revisions of the parser module are modelled: `builtins.py`
  and `stdlib.py`.
- **Custom ids** (`Regex`, `CustomId`). This covers `escape` and `format_to_pattern`, a
  backtracking matcher for the lazy groups they produce, and `make_spec`, `complete`, `match`,
  `validate`, `from_component`, `from_auto_id` and `check_name`.
- **Fields and the component factory** (`Fields`, `Factory`, `Converter`, `ComponentBase`).
  This covers field selection, the field-to-parser mapping and `loads`/`dumps` of whole
  components, with the lossless round trip. It also covers the metaclass helpers that tag
  fields, finalise the custom id and pick the manager.
- **The legacy listener layer** (`Params`, `Listener`, `ListenerAbc`). Parameters become
  pattern-to-converter mappings and are converted in order. Custom ids are parsed and built
  by listeners.
- **Argument scanning** (`Interaction`). This covers `wrap_args_kwargs`, `wrap_interaction`
  and `_to_ui_components`.

Python exceptions are an `Exc` value inside `Result<T>`; their messages are not modelled.
Coroutines are modelled as the value they return. Python `dict`s whose insertion order
matters are `OrderedDicts.Dict`, a sequence of key/value pairs. Module `Text` holds
`str.split`, `str.join`, `startswith` and `find`. Module `Values` holds the Python values a
field can take.

## Model

| member | source | states |
|---|---|---|
| Regex.EscapeIdentity | src/disnake/ext/components/internal/regex.py:10-15 | `escape(s) == s` exactly when `s` holds none of the characters the translation table prefixes with a backslash |
| Regex.EscapeKeeps | src/disnake/ext/components/internal/regex.py:10-15 | escaping only inserts backslashes: any character other than a backslash occurs in `escape(s)` iff it occurs in `s` (so `{` and `}` survive) |
| Regex.EscapeRoundTrip | src/disnake/ext/components/internal/regex.py:13-15 | a regex engine reading `escape(s)` sees exactly the characters of `s` |
| Regex.EscapeAppend | src/disnake/ext/components/internal/regex.py:13-15 | escaping works character by character: it distributes over concatenation |
| Regex.Placeholder | src/disnake/ext/components/internal/regex.py:42 | a recognised placeholder starts with `{`, names a non-empty `\w` run and ends at the first `}` with no newline in between |
| Regex.WordRun | src/disnake/ext/components/internal/regex.py:42 | the greedy `\w+` takes the longest prefix of word characters and stops at the first other character |
| Regex.CloseBrace | src/disnake/ext/components/internal/regex.py:42 | the lazy `.*?\}` ends at the first `}` reached without crossing a newline; none is found only if every later `}` lies past a newline |
| Regex.ScanField | src/disnake/ext/components/internal/regex.py:42-44 | a placeholder `{f}` with a word `f` is replaced by the single lazy named group `f` |
| Regex.ScanEscaped | src/disnake/ext/components/internal/regex.py:40-47 | escaped text without `{` stays literal characters, whatever follows it |
| Regex.NoFieldsPattern | src/disnake/ext/components/internal/regex.py:40-47 | a format string without `{` becomes the pattern of its own characters |
| Regex.Compile | src/disnake/ext/components/internal/regex.py:49 | compilation succeeds iff no literal `{` is left and the group names are distinct `\w` names not starting with a digit; on success the pattern is unchanged; failures are `re.error` or unmodelled |
| Regex.Match | src/disnake/ext/components/internal/regex.py:49 | a fullmatch returns one capture per group, the captures filled back into the pattern give the input, and no capture holds a newline (`.` without DOTALL) |
| Regex.LiteralFullMatch | src/disnake/ext/components/internal/regex.py:40-49 | a pattern of literals fullmatches exactly its own text and nothing else |
| Regex.MatchLits | src/disnake/ext/components/internal/regex.py:40-49 | leading literals consume exactly that prefix of the input, or the match fails |
| Regex.LastGroupTakesRest | src/disnake/ext/components/internal/regex.py:44 | a lazy group at the end of a pattern, tried from any length, ends up taking all of the newline-free text |
| Regex.MatchGroups | src/disnake/ext/components/internal/regex.py:44-49 | on newline-free text, `n` groups separated by a literal separator match exactly as `s.split(sep, n - 1)` when that gives `n` parts, and fail otherwise |
| CustomId.New | src/disnake/ext/components/impl/custom_id.py:73-84 | a constructed custom id keeps its fields, name and separator, its text is `make_spec` of them and its pattern is `format_to_pattern` of that text; failures are regex errors |
| CustomId.SpecPattern | src/disnake/ext/components/impl/custom_id.py:68-82 | the pattern of `make_spec(fields, name, sep)` is the name and separator as literals followed by one group per field, separated by the literal separator |
| CustomId.FieldsPattern | src/disnake/ext/components/impl/custom_id.py:70-71 | the fields part `sep.join("{f}")` compiles to the groups separated by the literal separator |
| CustomId.IdPatternNames | src/disnake/ext/components/impl/custom_id.py:68-82 | the groups of a custom id's pattern are exactly its fields, in order, and no brace is left over |
| CustomId.NewSucceeds | src/disnake/ext/components/impl/custom_id.py:73-84 | identifier fields used once each, with a brace-free name and separator, always compile |
| CustomId.DuplicateFieldRefused | src/disnake/ext/components/impl/custom_id.py:73-84 | a field named twice cannot be compiled: the regex engine refuses a repeated group name |
| CustomId.FormatMap | src/disnake/ext/components/impl/custom_id.py:147-152 | `str.format_map` fails only with `ValueError` (stray brace), `KeyError` (missing key) or an unmodelled format feature |
| CustomId.FormatLiteral | src/disnake/ext/components/impl/custom_id.py:147-152 | brace-free literal text is copied unchanged in front of the rest of the formatting, errors included |
| CustomId.FormatField | src/disnake/ext/components/impl/custom_id.py:147-152 | a replacement field `{f}` is replaced by `str` of `kv[f]`, or raises `KeyError` when `f` has no key |
| CustomId.FormatFields | src/disnake/ext/components/impl/custom_id.py:70-71 | the joined placeholders fill in as the rendered values joined with the separator |
| CustomId.FormatSpec | src/disnake/ext/components/impl/custom_id.py:68-71 | filling `make_spec` gives `name` alone with no fields, else `name + sep + sep.join(str(value))` in field order |
| CustomId.FormatMissingAt | src/disnake/ext/components/impl/custom_id.py:147-152 | filling a spec whose first unfilled field has no value raises `KeyError` |
| CustomId.CompleteFills | src/disnake/ext/components/impl/custom_id.py:147-152 | `complete` substitutes `str(getattr(component, f))` for each field: `name+sep+v1+sep+...+vn` |
| CustomId.SpecFills | src/disnake/ext/components/impl/custom_id.py:68-71 | a well-formed custom id's text fills in as its name, separator and rendered values |
| CustomId.SpecMissing | src/disnake/ext/components/impl/custom_id.py:68-71 | a well-formed custom id's text refuses a missing field with `KeyError` |
| CustomId.CheckNameAcceptsExtensions | src/disnake/ext/components/impl/custom_id.py:154-157 | `check_name` is a plain `startswith`: every id extending the name passes, including ids of other components whose names extend it |
| CustomId.MatchId | src/disnake/ext/components/impl/custom_id.py:171-186 | without a fullmatch, strict mode raises `RuntimeError` and lenient mode returns `None`; with one, the group dict is returned |
| CustomId.Validate | src/disnake/ext/components/impl/custom_id.py:130-145 | validation fails with `ValueError` iff some non-internal field of the class is missing from the custom id's fields; extra custom-id fields are accepted |
| CustomId.FromComponent | src/disnake/ext/components/impl/custom_id.py:86-102 | the fields are the class's non-internal field names in order, the name is the given one or else the class name |
| CustomId.FromAutoId | src/disnake/ext/components/impl/custom_id.py:104-128 | the name is `auto_id.name` or the class name, the separator `auto_id.sep` or the default `"|"` |
| CustomId.FromComponentValidates | src/disnake/ext/components/impl/custom_id.py:130-145 | a custom id built from a class always validates against that class |
| CustomId.NoFieldsMatchesOnlyName | src/disnake/ext/components/impl/custom_id.py:68-69 | with no fields the pattern fullmatches the name and nothing else |
| CustomId.MatchCutsAtSeparators | src/disnake/ext/components/impl/custom_id.py:76-82 | an id matches iff it starts with `name + sep` and the rest splits at leftmost separators into one part per field (the last takes the rest) |
| CustomId.MatchFilled | src/disnake/ext/components/impl/custom_id.py:171-186 | `match` of a filled id gives back each field's value, when no value but the last holds the separator and none holds a newline |
| CustomId.MatchedRefills | src/disnake/ext/components/impl/custom_id.py:176 | the other direction: the captures of a match, filled back in, give the matched id, and they meet the recoverability condition |
| CustomId.CompleteThenMatch | src/disnake/ext/components/impl/custom_id.py:147-186 | `match(complete(c))` yields the rendered field values, under the same condition |
| IntCodec.ParseInt | src/disnake/ext/components/impl/parser/builtins.py:220 | `int(s, base)` fails only with `ValueError` |
| IntCodec.ParseToDigits | src/disnake/ext/components/impl/parser/builtins.py:220 | `int()` reads the base-`base` digits of every natural number back as that number |
| IntCodec.ParseDecimal | src/disnake/ext/components/impl/parser/builtins.py:220 | `int(str(n), 10) == n` for every integer |
| IntCodec.ToDigitsFacts | src/disnake/ext/components/impl/parser/builtins.py:247-254 | the digit string of `n` uses only digits of the base, has no leading zero and denotes `n` |
| IntCodec.DumpDigits | src/disnake/ext/components/impl/parser/builtins.py:247-254 | the digit loop of `dumps` (collect `n % base`, join reversed over `0-9a-z`) produces the most-significant-first digits of `n` |
| IntCodec.ShortcutsAgree | src/disnake/ext/components/impl/parser/builtins.py:235-254 | from the base upwards the `b`/`o`/`x` format specs and `str` give the same text as the digit loop |
| IntCodec.IntRoundTrip | src/disnake/ext/components/impl/parser/builtins.py:220-254 | `loads(dumps(n)) == n` in base 10, for `n >= base`, and for single digits valid in both bases |
| IntCodec.IntRoundTripFailsBelowBase | src/disnake/ext/components/impl/parser/builtins.py:235-236 | for `10 <= n < base` the decimal short-circuit writes two decimal digits that read back as `hi * base + lo`, which is not `n` |
| IntCodec.IntRoundTripBase36Counterexample | src/disnake/ext/components/impl/parser/builtins.py:235-236 | with the default base 36, `10` dumps as `"10"`, which loads as 36 |
| Parsers.DefaultTypes | src/disnake/ext/components/impl/parser/base.py:192-201 | `default_types()` is the class's entry in the reverse index, and `KeyError` for an unregistered class |
| Parsers.IntNew | src/disnake/ext/components/impl/parser/builtins.py:191-202 | construction succeeds iff `2 <= base <= 36`, else `ValueError` |
| Parsers.BoolNew | src/disnake/ext/components/impl/parser/builtins.py:287-293 | an omitted word set means the default one |
| Parsers.TupleNew | src/disnake/ext/components/impl/parser/builtins.py:439-444 | the given inner parsers are kept; none means one string parser in the builtins revision and none in the stdlib revision |
| Parsers.ResolveCollection | src/disnake/ext/components/impl/parser/builtins.py:373-398 | a concrete non-tuple collection is kept, an abstract sequence becomes `list`, an abstract set `set`, and anything else is a `TypeError` |
| Parsers.CollNew | src/disnake/ext/components/impl/parser/builtins.py:541-555 | the collection parser gets the given or the string element parser and the resolved collection type (default `list`) |
| Parsers.UnionOf | src/disnake/ext/components/impl/parser/builtins.py:602-617 | a union needs at least two arguments (else `TypeError`); each argument gives one alternative in order, `None` a strict `NoneParser`, and the union is optional iff `None` was among them |
| Parsers.UnionNew | src/disnake/ext/components/impl/parser/builtins.py:602-617 | the constructor loop gives exactly that union |
| Parsers.Default | src/disnake/ext/components/impl/parser/base.py:177-189 | `default()` is a no-argument instance of the class; union and enum parsers cannot be built without arguments |
| Parsers.NonSpace | src/disnake/ext/components/impl/parser/builtins.py:557-570 | collection parts that are whitespace only are dropped, every other part (the empty one too) is kept |
| Parsers.FirstOk | src/disnake/ext/components/impl/parser/builtins.py:619-634 | the union loads with the first alternative that succeeds and raises `RuntimeError` when all fail |
| Parsers.ChooseAlt | src/disnake/ext/components/impl/parser/builtins.py:636-646 | the union dumps with the first alternative whose `default_types()` the value is an instance of |
| ParserLaws.NoneParserLaws | src/disnake/ext/components/impl/parser/builtins.py:66-114 | a strict `NoneParser` loads only `""` and dumps only `None`, else `ValueError`; a lax one accepts everything |
| ParserLaws.StringParserIdentity | src/disnake/ext/components/impl/parser/builtins.py:344-370 | `StringParser` is the identity both ways |
| ParserLaws.IntParserLoads | src/disnake/ext/components/impl/parser/builtins.py:204-225 | a signed parser loads what `int(s, base)` gives; an unsigned one also refuses negative results with `ValueError` |
| ParserLaws.IntParserRoundTrip | src/disnake/ext/components/impl/parser/builtins.py:204-254 | `loads(dumps(n)) == n` where the decimal short-circuit is harmless |
| ParserLaws.IntParserDecimalGap | src/disnake/ext/components/impl/parser/builtins.py:227-254 | the default `IntParser` dumps 10 as `"10"` and loads `"10"` as 36 |
| ParserLaws.BoolParserLoads | src/disnake/ext/components/impl/parser/builtins.py:295-320 | exact, case-sensitive membership: trues first, then falses, else `ValueError` |
| ParserLaws.BoolParserRoundTrip | src/disnake/ext/components/impl/parser/builtins.py:259-337 | `dumps` writes `"1"`/`"0"` by truth, and the default sets read that back; `"TRUE"` is refused |
| ParserLaws.TupleArity | src/disnake/ext/components/impl/parser/builtins.py:447-511 | a split with a different number of parts than parsers, or a tuple of a different length, raises `RuntimeError`; a non-tuple raises `TypeError` |
| ParserLaws.TupleLoadsPositional | src/disnake/ext/components/impl/parser/builtins.py:447-485 | item `i` of a loaded tuple comes from parser `i` applied to part `i` |
| ParserLaws.TupleRoundTrip | src/disnake/ext/components/impl/parser/builtins.py:447-511 | a tuple round-trips when each item does and no dumped item holds the separator |
| ParserLaws.StdlibEmptyTuple | src/disnake/ext/components/impl/parser/stdlib.py:755-794 | the stdlib default tuple has no inner parser: `loads` always fails arity and `dumps` accepts only `()`, giving `""` |
| ParserLaws.BuiltinsDefaultTuple | src/disnake/ext/components/impl/parser/builtins.py:439-485 | the builtins default tuple holds one string |
| ParserLaws.CollectionDumpsIgnoresSep | src/disnake/ext/components/impl/parser/builtins.py:572-581 | `dumps` joins with `","` whatever the parser's own separator |
| ParserLaws.CollectionLoadsParts | src/disnake/ext/components/impl/parser/builtins.py:557-570 | `loads` splits on the separator and skips whitespace-only parts, in order |
| ParserLaws.EmptyCollection | src/disnake/ext/components/impl/parser/builtins.py:557-581 | an empty collection dumps to `""`, which loads back as `[""]` |
| ParserLaws.CollectionRoundTrip | src/disnake/ext/components/impl/parser/builtins.py:557-581 | a string collection round-trips when no element holds `,` or is whitespace only |
| ParserLaws.UnionLoads | src/disnake/ext/components/impl/parser/builtins.py:619-634 | an optional union loads `""` as `None`; otherwise the first alternative that loads wins, else `RuntimeError` |
| ParserLaws.UnionDumps | src/disnake/ext/components/impl/parser/builtins.py:636-646 | an optional union dumps a falsy value as `""`; otherwise the first alternative whose default types hold the value dumps it, else `RuntimeError` |
| ParserLaws.UnionDumpsWith | src/disnake/ext/components/impl/parser/builtins.py:636-646 | a non-optional union dumps a truthy value exactly as the alternative it selects |
| ParserLaws.UnionLoadsWithFirst | src/disnake/ext/components/impl/parser/builtins.py:619-634 | when the first alternative loads the text, a non-optional union returns that alternative's value |
| ParserLaws.UnionIntBeforeBool | src/disnake/ext/components/impl/parser/builtins.py:619-646 | in `Union[int, bool]` `True` is dumped by the int parser as `"True"` (bool is a subclass of int) and loaded back as an int |
| ParserLaws.EnumByValueRoundTrip | src/disnake/ext/components/impl/parser/enum.py:105-125 | by value, a member round-trips whenever the inner parser round-trips its value |
| ParserLaws.EnumByNameRoundTrip | src/disnake/ext/components/impl/parser/enum.py:105-125 | by name, a member is written as its name and read back by it |
| ParserLaws.EnumDumpsNonMember | src/disnake/ext/components/impl/parser/enum.py:115-125 | a value that is not a member has no `.value` or `.name`: `AttributeError` |
| Enums.GetEnumType | src/disnake/ext/components/impl/parser/enum.py:16-35 | flags give `int`, a mixin gives itself, otherwise the members' common value type or `None`; an empty enum raises `StopIteration` |
| Enums.EnumPolicy | src/disnake/ext/components/impl/parser/enum.py:61-100 | flags are stored by value (by name refused); mixed value types are stored by name as strings (by value refused); a single `int` type defaults to by value; an explicit choice is respected |
| Enums.ByValue | src/disnake/ext/components/impl/parser/enum.py:105-113 | `enum_class(v)` finds a member whose value equals `v`, else `ValueError` |
| Enums.ByName | src/disnake/ext/components/impl/parser/enum.py:105-113 | `enum_class[key]` finds the member named `key`, else `KeyError` |
| Enums.LookupOwnMember | src/disnake/ext/components/impl/parser/enum.py:105-113 | with distinct values (names), looking up a member's own value (name) gives that member |
| Registry.BindAll | src/disnake/ext/components/impl/parser/base.py:65-70 | a forced registration binds every given type to the parser and leaves every other binding alone |
| Registry.BindMissing | src/disnake/ext/components/impl/parser/base.py:72-75 | an unforced registration adds only the types that were unbound |
| Registry.ScanRev | src/disnake/ext/components/impl/parser/base.py:84-92 | the slow lookup finds a parser iff some reverse-index entry lists a supertype, returns the first such entry's parser, and raises `TypeError` otherwise |
| Registry.ParserTypeOf | src/disnake/ext/components/impl/parser/base.py:78-92 | an exactly bound type returns its binding; any other goes through the scan |
| Registry.DefaultFor | src/disnake/ext/components/impl/parser/base.py:123-124 | a type without origin gets a well-formed `default()` of its parser class, or `TypeError` |
| Registry.Construct | src/disnake/ext/components/impl/parser/base.py:129-136 | building a union or tuple parser from inner parsers gives a well-formed parser or an error |
| Registry.GetParser | src/disnake/ext/components/impl/parser/base.py:96-145 | every resolved parser is well formed, failures are `TypeError` (or unmodelled), and a `Literal` is refused |
| Registry.EnumNew | src/disnake/ext/components/impl/parser/enum.py:61-100 | the enum policy is settled first; its error is the constructor's error, and otherwise the inner parser is that of the policy's value type |
| Registry.Registry.constructor | src/disnake/ext/components/impl/parser/base.py:18-19 | both registry maps start empty |
| Registry.Registry.Register | src/disnake/ext/components/impl/parser/base.py:41-75 | the registry after `register_parser` is `Registered` of the one before |
| Registry.Registry.InitSubclass | src/disnake/ext/components/impl/parser/base.py:163-174 | a subclass registers itself (forced) only when `is_default_for` is non-empty |
| Registry.Registry.GetParserType | src/disnake/ext/components/impl/parser/base.py:78-92 | the lookup method returns exactly `ParserTypeOf` of the current registry |
| Registry.ForcedRegistrationBinds | src/disnake/ext/components/impl/parser/base.py:65-70 | after a forced registration every given type looks up to the parser, and its `default_types()` are the given types |
| Registry.LastForcedWins | src/disnake/ext/components/impl/parser/base.py:65-70 | the last forced registration of a type wins |
| Registry.UnforcedKeepsExisting | src/disnake/ext/components/impl/parser/base.py:72-75 | `force=False` never changes an existing binding or reverse-index entry |
| Registry.ForcedReRegistration | src/disnake/ext/components/impl/parser/base.py:67-70 | re-registering a known parser replaces its types but keeps its scan position; old bindings to it remain |
| Registry.RegistrationKeepsUniqueKeys | src/disnake/ext/components/impl/parser/base.py:65-75 | the reverse index never holds a parser class twice |
| Registry.LookupUnbound | src/disnake/ext/components/impl/parser/base.py:28-38 | an unbound type gets the first entry listing a supertype (identity where `issubclass` raises), and `TypeError` when there is none |
| Registry.LookupSubclass | src/disnake/ext/components/impl/parser/base.py:84-92 | a subclass of a registered class is found by the scan |
| Registry.ResolvePlain | src/disnake/ext/components/impl/parser/base.py:121-124 | a plain type gets its parser class's `default()`: `IntParser(base=36)` for `int`, `TypeError` for union and enum parsers |
| Registry.ResolveOriginFirst | src/disnake/ext/components/impl/parser/base.py:126 | the origin is looked up before dispatch; an unknown origin fails the whole type |
| Registry.ResolveUnion | src/disnake/ext/components/impl/parser/base.py:129-132 | `Union[...]` is a union of the arguments' parsers in order |
| Registry.ResolveOptional | src/disnake/ext/components/impl/parser/base.py:129-132 | `Optional[T]` is a union of `T`'s parser and a strict `NoneParser` passed as instances, so not marked optional |
| Registry.ResolveTuple | src/disnake/ext/components/impl/parser/base.py:134-136 | a generic tuple is a tuple of the arguments' parsers |
| Registry.ResolveCollectionType | src/disnake/ext/components/impl/parser/base.py:138-142 | a generic collection gets its first argument's parser (or `str`) and the origin as collection type |
| Registry.ResolveOtherOrigin | src/disnake/ext/components/impl/parser/base.py:144-145 | any other origin is refused with `TypeError` |
| Registry.EnumOfInts | src/disnake/ext/components/impl/parser/enum.py:84-90 | an enum of ints is stored by value with the registered `int` parser |
| Registry.EnumOfMixedValues | src/disnake/ext/components/impl/parser/enum.py:95-100 | mixed value types are stored by name as strings; asking for by-value raises `ValueError` |
| Registry.FlagsByNameRefused | src/disnake/ext/components/impl/parser/enum.py:69-74 | disnake flags cannot be stored by name |
| Fields.NonInternal | src/disnake/ext/components/fields.py:47-51 | exactly the fields that are not internal are kept |
| Fields.GetFields | src/disnake/ext/components/fields.py:29-51 | `internal=True` gives all fields; `internal=False` exactly the non-internal ones |
| Fields.NonInternalAppend | src/disnake/ext/components/fields.py:47-51 | the filter keeps declaration order: it distributes over concatenation |
| Fields.NonInternalIdempotent | src/disnake/ext/components/fields.py:47-51 | filtering twice is filtering once |
| Fields.OfKind | src/disnake/ext/components/impl/factory.py:107 | `get_fields(kind=k)` keeps exactly the fields whose field-type metadata is `k` |
| Fields.MakeField | src/disnake/ext/components/fields.py:54-83 | `field(...)` is keyword-only, not internal, and stores the explicit parser (possibly `None`) |
| Fields.MakeInternal | src/disnake/ext/components/fields.py:86-122 | `internal(...)` is never in `__init__`, is internal, and is frozen iff asked |
| Fields.Instantiate | src/disnake/ext/components/impl/factory.py:181 | the attrs `__init__` accepts exactly keyword arguments for init fields and needs a value or default for each; else `TypeError` |
| Fields.AttributesMissing | src/disnake/ext/components/impl/factory.py:181 | a name that is no field of the class is no attribute of the instance |
| Fields.AttributesOf | src/disnake/ext/components/impl/factory.py:181 | each field of the instance holds its keyword argument, or else its default |
| Factory.ParserFor | src/disnake/ext/components/impl/factory.py:60-64 | an explicit parser is used as is; otherwise `get_parser(field.type or str).default()`, so a composite's inner parsers are discarded |
| Factory.PlainFieldParser | src/disnake/ext/components/impl/factory.py:60-64 | a plain annotation gets its registered class's default parser |
| Factory.UnannotatedFieldIsString | src/disnake/ext/components/impl/factory.py:60-64 | an unannotated field is a string field |
| Factory.TupleFieldLosesInner | src/disnake/ext/components/impl/parser/base.py:177-189 | a `Tuple[...]` field gets a default tuple parser, not the one for its arguments |
| Factory.OptionalFieldRefused | src/disnake/ext/components/impl/parser/base.py:177-189 | an `Optional[T]` field without explicit parser raises `TypeError` (a union parser has no default) |
| Factory.CollectionFieldLosesElement | src/disnake/ext/components/impl/parser/base.py:177-189 | a `List[int]` field gets a string list parser |
| Factory.Builder.constructor | src/disnake/ext/components/impl/factory.py:41-42 | a builder starts with an empty parser mapping |
| Factory.Builder.AddField | src/disnake/ext/components/impl/factory.py:60-67 | the parser is `ParserFor`, stored under the field's name, overwriting any entry and keeping the others |
| Factory.Builder.Build | src/disnake/ext/components/impl/factory.py:69-79 | the new factory shares the builder's mapping object, without copying, and keeps its component class |
| Factory.ComponentFactory.constructor | src/disnake/ext/components/impl/factory.py:94-95 | a factory holds the given parser mapping and component class |
| Factory.AssembleIntoOk | src/disnake/ext/components/impl/factory.py:106-115 | the loop finishes exactly when no field's parser raises |
| Factory.ParsersOf | src/disnake/ext/components/impl/factory.py:106-115 | the mapping exists iff every field gets a parser |
| Factory.ParsersOfKeys | src/disnake/ext/components/impl/factory.py:106-115 | the mapping has exactly the fields' names, in declaration order, each once |
| Factory.ParsersOfGet | src/disnake/ext/components/impl/factory.py:106-115 | each field's name is bound to that field's parser |
| Factory.ParsersOfWellFormed | src/disnake/ext/components/impl/factory.py:106-115 | every parser in the mapping keeps the parser invariant |
| Factory.FromComponent | src/disnake/ext/components/impl/factory.py:98-115 | the factory's mapping is `ParsersOf` the class's custom-id fields, or the first field's error is raised |
| Factory.Lookup | src/disnake/ext/components/impl/factory.py:139 | `parsers[name]` succeeds iff the name is a key, else `KeyError` |
| Factory.LoadsParam | src/disnake/ext/components/impl/factory.py:117-141 | an unknown name raises `KeyError`; a known one is parsed by its parser |
| Factory.DumpsParam | src/disnake/ext/components/impl/factory.py:143-166 | an unknown name raises `KeyError`; a known one is dumped by its parser |
| Factory.LoadSteps | src/disnake/ext/components/impl/factory.py:175-179 | each non-empty value is parsed by its parameter's parser, in order; empty values are skipped |
| Factory.DumpSteps | src/disnake/ext/components/impl/factory.py:188-195 | each custom-id field's attribute is dumped by its parser, in declaration order |
| Factory.Loads | src/disnake/ext/components/impl/factory.py:168-181 | the component is built from the loaded keyword arguments, or the loading error is raised with no instance built |
| Factory.Dumps | src/disnake/ext/components/impl/factory.py:183-199 | the dumped fields are filled into the class's custom id with `format_map` |
| Factory.GatherKeys | src/disnake/ext/components/impl/factory.py:175-179 | a dict comprehension's keys are exactly the keys of the entries its `if` keeps |
| Factory.GatherOf | src/disnake/ext/components/impl/factory.py:175-179 | with distinct keys and no exception, each kept key is bound to its computed value |
| Factory.GatherFirstError | src/disnake/ext/components/impl/factory.py:175-179 | the first entry whose value raises stops the comprehension with that exception |
| Factory.LoadAllKeys | src/disnake/ext/components/impl/factory.py:175-179 | the loaded keyword arguments are exactly the parameters with a non-empty value |
| Factory.LoadAllOf | src/disnake/ext/components/impl/factory.py:175-179 | every non-empty value is bound to its parsed value |
| Factory.LoadsFirstError | src/disnake/ext/components/impl/factory.py:175-181 | the first parser error in mapping order propagates and no instance is built |
| Factory.EmptyValueTakesDefault | src/disnake/ext/components/impl/factory.py:175-181 | a field whose value is `""` comes back as the class default |
| Factory.InstantiateKeeps | src/disnake/ext/components/impl/factory.py:181 | fields passed to `__init__` keep the values given |
| Factory.DumpAllKeys | src/disnake/ext/components/impl/factory.py:188-195 | the dumped keyword arguments are exactly the custom-id fields, each a string |
| Factory.DumpAllOf | src/disnake/ext/components/impl/factory.py:188-195 | each field is bound to its dumped text |
| Factory.DumpsFills | src/disnake/ext/components/impl/factory.py:183-199 | `dumps` gives the custom id filled with each field's dumped text, in order |
| Factory.DumpsUnknownPlaceholder | src/disnake/ext/components/impl/factory.py:186-199 | a placeholder with no matching custom-id field raises `KeyError` |
| Factory.LoadsZipped | src/disnake/ext/components/impl/factory.py:168-181 | loading the matched texts of distinct fields passes exactly the attributes they came from |
| Factory.LosslessRoundTrip | src/disnake/ext/components/impl/factory.py:168-199 | `dumps` fills the custom id, `match` gives back each dumped text, and `loads` rebuilds the component from its own custom-id attributes, when every parser reads its dump back, no dump is empty or holds a newline, and none but the last holds the separator |
| Converter.FromComponent | src/disnake/ext/components/impl/converter.py:35-53 | the converter's mapping is the same `ParsersOf` as the factory's, for the same component |
| ComponentBase.WithFieldDefault | src/disnake/ext/components/impl/component/base.py:127-142 | an attribute with a field type is unchanged; any other gains field type `CUSTOM_ID` and parser `None`, keeping its other metadata |
| ComponentBase.SetFieldDefaults | src/disnake/ext/components/impl/component/base.py:121-144 | the loop returns every attribute tagged, same length and order |
| ComponentBase.FieldDefaultsIdempotent | src/disnake/ext/components/impl/component/base.py:121-144 | tagging twice is tagging once |
| ComponentBase.UntaggedBecomeCustomId | src/disnake/ext/components/impl/component/base.py:121-144 | attributes without a field type all become custom-id fields, none internal |
| ComponentBase.ExplicitParserReset | src/disnake/ext/components/impl/component/base.py:136-140 | tagging an attribute without a field type resets its parser to `None` (shown on a `fields.field(parser=p)`) |
| ComponentBase.Finalised | src/disnake/ext/components/impl/component/base.py:60-82 | an auto id becomes `from_auto_id`; a custom id is validated (`ValueError`); a string becomes a field-less id named after the class; anything else is `TypeError` |
| ComponentBase.FinalisedValidates | src/disnake/ext/components/impl/component/base.py:60-72 | an auto or user custom id, once finalised, covers every non-internal field |
| ComponentBase.StaticIdUnvalidated | src/disnake/ext/components/impl/component/base.py:74-77 | a string id discards its text and is never validated, though it misses the class's fields |
| ComponentBase.ExtractCustomId | src/disnake/ext/components/impl/component/base.py:34-42 | a modal's or message component's custom id; any other interaction raises `TypeError` |
| ComponentBase.ComponentType.FinaliseCustomId | src/disnake/ext/components/impl/component/base.py:60-82 | the class's custom id becomes the finalised one, or stays put when finalising raises |
| ComponentBase.ComponentType.SetManager | src/disnake/ext/components/impl/component/base.py:248-259 | no-op for the same manager; otherwise unsubscribe from a different existing one, then set the new one |
| ComponentBase.ComponentType.ShouldInvokeFor | src/disnake/ext/components/impl/component/base.py:262-268 | `check_name` of the extracted id; `TypeError` for interactions without one |
| ComponentBase.InvokedForOwnIds | src/disnake/ext/components/impl/component/base.py:262-268 | a component is invoked for every id filled from its own spec and every id extending its name |
| Params.RegexFor | disnake_ext_components/params.py:33-50 | `REGEX_MAP[t]` exists for `str`, `int`, `float`, `bool` and entities (all entities share one pattern), else `KeyError` |
| Params.ConverterFor | disnake_ext_components/params.py:71-89 | `CONVERTER_MAP` has the same keys, each converting to its own type |
| Params.Collect | disnake_ext_components/params.py:122-126 | a dict comprehension succeeds iff every entry does, with each pattern once |
| Params.CollectDistinct | disnake_ext_components/params.py:122-126 | entries with distinct patterns are kept as they are, in order |
| Params.ParseParam | disnake_ext_components/params.py:115-129 | no annotation gives the `str` entry, other generics `TypeError`; the mapping holds each pattern once |
| Params.IsOptional | disnake_ext_components/params.py:146-152 | a default makes a parameter optional; otherwise it is optional iff its union or generic arguments include `None` or its `Literal` values do; a bare or missing annotation is not optional |
| Params.FromParam | disnake_ext_components/params.py:179-200 | the parameter info holds the parameter, its mapping, default and optionality |
| Params.OptionalInt | disnake_ext_components/params.py:119-123 | `Optional[int]` converts as `int` and is optional |
| Params.UnionKeepsOrder | disnake_ext_components/params.py:122-123 | `Union[int, bool]` tries `int` first, then `bool` |
| Params.EntityUnionCollapses | disnake_ext_components/params.py:33-50 | a union of two entity types collapses to one entry: the shared pattern with the last converter |
| Params.Finish | disnake_ext_components/params.py:271-277 | when every entry failed, an optional parameter returns its default (or `None`) and a required one raises `ConversionError` with all errors |
| Params.Convert | disnake_ext_components/params.py:211-277 | the conversion loop returns what trying the entries in order and then finishing gives |
| Params.Failures | disnake_ext_components/params.py:248-269 | each failed entry records a `MatchFailure` or the converter's exception, in attempt order |
| Params.CacheNeverHits | disnake_ext_components/params.py:245-255 | with each pattern once in the mapping, the match cache never changes the outcome |
| Params.FirstSuccessWins | disnake_ext_components/params.py:262-266 | the first admitted entry whose converter succeeds gives the result |
| Params.AllFailRecorded | disnake_ext_components/params.py:248-269 | when every entry fails in a recorded way, all errors are collected in order |
| Params.OtherErrorEscapes | disnake_ext_components/params.py:262-269 | any exception other than `BadArgument`/`ValueError` propagates at once |
| Listener.NewListener | disnake_ext_components/listener.py:207-225 | a non-empty regex selects the regex mode and its spec; otherwise the separator mode with `make_spec` of the parameter names |
| Listener.ParseCustomId | disnake_ext_components/listener.py:116-127 | regex mode needs a fullmatch with one group per parameter; separator mode needs the head to be the listener's name and one part per parameter; else `ValueError` |
| Listener.ArgsAsKwargs | disnake_ext_components/listener.py:150-151 | `dict(zip(names, args))` has a key per position both lists cover |
| Listener.IdOf | disnake_ext_components/listener.py:161 | an object with an `id` stands for that id |
| Listener.BuildCustomId | disnake_ext_components/listener.py:149-165 | a name given both positionally and by keyword raises `TypeError`; in separator mode a `sep` keyword clashes with the separator (`TypeError`); regex mode formats the spec with the merged arguments |
| Listener.ArgsAsKwargsAt | disnake_ext_components/listener.py:150-151 | with distinct names, parameter `i` receives argument `i` |
| Listener.PositionalKeywords | disnake_ext_components/listener.py:150-161 | without keywords, each parameter's keyword is its argument or that argument's id |
| Listener.ParseFilled | disnake_ext_components/listener.py:123-127 | a filled id parses back into its texts when the separator keeps them apart |
| Listener.BuildFills | disnake_ext_components/listener.py:149-165 | one positional argument per parameter fills the spec with their texts |
| Listener.BuildThenParse | disnake_ext_components/listener.py:116-165 | parsing a built id gives back the texts |
| Listener.ParseThenBuild | disnake_ext_components/listener.py:116-165 | building from the parsed texts gives back the id |
| Listener.ConvertAll | disnake_ext_components/listener.py:266-275 | parameters convert in order up to the shorter list; the first failure raises |
| Listener.ConvertParams | disnake_ext_components/listener.py:266-275 | the conversion loop gives `ConvertAll` |
| Listener.Call | disnake_ext_components/listener.py:227-277 | manual arguments run the callback directly; no id or an unparsable one returns without calling; otherwise the converted values are passed |
| Listener.NewSelectListener | disnake_ext_components/listener.py:366-390 | a select listener needs exactly one `SelectValue` parameter, else `TypeError` |
| Listener.CastToReturnType | disnake_ext_components/listener.py:392-411 | an annotation without origin raises `TypeError`; a scalar (or `str`/`bytes`) annotation takes the only value, more raising `TypeError` and none `IndexError`; a collection annotation builds the collection, a failed build raising `TypeError` |
| Listener.SelectCall | disnake_ext_components/listener.py:413-471 | manual calls run directly; no values, no id or an unparsable id return without calling; otherwise a conversion error, then a selected-value error, then a cast error is raised, and if none occurs the callback is invoked with the cast selected values first, then the converted id values |
| ListenerAbc.Serialize | disnake_ext_components/abc.py:143-145 | every parameter is serialised by `to_str` in order; a missing one raises `KeyError` |
| ListenerAbc.Merged | disnake_ext_components/abc.py:128-140 | the keyword arguments with the positional ones merged in |
| ListenerAbc.BuildCustomId | disnake_ext_components/abc.py:108-149 | overlapping positional and keyword names raise `TypeError`; otherwise a failing serialisation raises its error; a regex listener formats the spec with the serialised values alone, a separator listener with them and `sep`, where a parameter named `sep` clashes (`TypeError`) |
| ListenerAbc.SerializeMissing | disnake_ext_components/abc.py:143-145 | serialisation stops at the first parameter without a value, with `KeyError` |
| ListenerAbc.SerializeAt | disnake_ext_components/abc.py:143-145 | parameter `i` is serialised as its `to_str` text |
| ListenerAbc.MissingParamRefused | disnake_ext_components/abc.py:128-149 | building with a parameter missing raises `KeyError` |
| ListenerAbc.SerializedEach | disnake_ext_components/abc.py:143-145 | when every value serialises, each parameter name is bound to its text |
| ListenerAbc.PositionalSerialized | disnake_ext_components/abc.py:128-145 | positional arguments serialise to exactly one text per parameter name |
| ListenerAbc.SerializedPositional | disnake_ext_components/abc.py:128-145 | in separator mode, positional arguments alone serialise to each parameter's text and never produce a `sep` key |
| ListenerAbc.BuildAuto | disnake_ext_components/abc.py:147-149 | in separator mode the spec is formatted with the serialised values and `sep` |
| ListenerAbc.BuildFills | disnake_ext_components/abc.py:128-149 | one positional argument per parameter fills the spec with their texts |
| ListenerAbc.BuildThenParse | disnake_ext_components/abc.py:77-149 | parsing a built id gives back the serialised texts when the separator keeps them apart |
| Interaction.WrapInteraction | src/disnake/ext/components/interaction.py:480-485 | a message interaction gets the message wrapper, anything else the generic wrapper, one level deeper |
| Interaction.FirstInteraction | src/disnake/ext/components/interaction.py:497-512 | the position of the first interaction, none before it |
| Interaction.WrapEntry | src/disnake/ext/components/interaction.py:508-509 | `kwargs[kw] = wrap(...)` wraps one value and keeps every key in place |
| Interaction.WrapArgsKwargs | src/disnake/ext/components/interaction.py:488-516 | the loop as written returns `Wrapping` |
| Interaction.Refused | src/disnake/ext/components/interaction.py:504-512 | `TypeError` iff neither of the first two arguments nor any keyword value is an interaction; otherwise the keys are kept |
| Interaction.WrapsFirstArg | src/disnake/ext/components/interaction.py:497-502 | an interaction among the first two arguments is wrapped in place and the rest are kept |
| Interaction.ThirdArgDropped | src/disnake/ext/components/interaction.py:497-514 | with three or more arguments and no interaction among the first two, the third argument is lost |
| Interaction.ThirdArgDroppedExample | src/disnake/ext/components/interaction.py:497-514 | three plain arguments with an interaction by keyword come back as two |
| Interaction.WrapArgsKwargsKeepingArgs | src/disnake/ext/components/interaction.py:488-516 | the corrected loop returns `WrappingKeepingArgs` |
| Interaction.KeepsEveryArg | src/disnake/ext/components/interaction.py:488-516 | the corrected scan keeps every argument and keyword: each argument comes back unchanged or wrapped, and the arguments change exactly when the keywords do not |
| Interaction.AgreesUpToThirdArg | src/disnake/ext/components/interaction.py:497-514 | both scans fail alike, agree on fewer than three arguments and on the keyword arguments |
| Interaction.Prepare | src/disnake/ext/components/interaction.py:65-71 | `_prepare` gives a native UI component and leaves a native one alone |
| Interaction.PreparedEntries | src/disnake/ext/components/interaction.py:109-117 | every entry is prepared in the same layout, rows component by component |
| Interaction.ToUiComponents | src/disnake/ext/components/interaction.py:92-117 | `None` is refused unless allowed, `MISSING` kept, a single component prepared, a sequence prepared one level deep |
| Interaction.PrepareIdempotent | src/disnake/ext/components/interaction.py:65-117 | preparing twice is preparing once |

## Left out

- Remote-entity parsers (guild, message, user, channel, role, emoji, invite, snowflake,
  permissions), `source.py`, `helpers.py` and the legacy `converter.py` are not part of this
  model. They wrap the bot's cache and HTTP fetches.
- `FloatParser`, `dumps_float` and the datetime parsers are not part of this model: floating
  point and the datetime library. In the parser model they are one opaque class.
- `impl/manager.py` is not part of this model. `ComponentBase.ComponentType.SetManager`
  records `unsubscribe(recursive=False)` as a log of managers left.
- Async: every coroutine is modelled as the value it returns. `eval_maybe_coro` is the
  identity.
- `\w` is ASCII letters, digits and `_`; Python's `re.UNICODE` also accepts other Unicode
  letters and digits.
- `Regex.Compile` does not model the regex syntax inside literal text: a `{` left in a pattern
  (a repetition quantifier) is reported as unmodelled, not interpreted.
- `CustomId.FormatMap` does not model format specs (`{f:spec}`), conversions (`{f!r}`),
  attribute or index fields, or positional fields. They give an unmodelled error, where Python
  raises `IndexError` or formats them.
- `Values.Value` holds `None`, `bool`, `int`, `str`, tuples, collections, enum members and
  opaque objects. `str()` of a tuple or collection is not modelled: rendering one is
  unmodelled.
- Collections keep every element in order. The de-duplication a `set` performs and `dict`
  collections are not modelled.
- Enum aliases, mixins beyond a declared mixin type, and `Flag` composition are not modelled.
  A member is its class, name and value.
- `typing.Union` flattening and de-duplication of its arguments, and `Ellipsis` in
  `Tuple[T, ...]`, are not modelled. Union arguments are taken as given.
- `AutoID.default_sep` is a constant `"|"`. Reassigning the class variable is not modelled.
- The converter's `loads_param`, `dumps_param`, `loads` and `dumps`
  (`impl/converter.py:77-137`) are the same code as the factory's. They are modelled once, as
  `Factory.LoadsParam`, `Factory.DumpsParam`, `Factory.Loads` and `Factory.Dumps`.
- `Factory.ParsersOfWellFormed` assumes explicit parsers already meet the parser invariant
  (an `IntParser` base in 2..36). The constructors guarantee it, but a field's metadata is not
  checked.
- `Fields.GetFields` models `get_fields(internal=...)` as `fields.py` defines it.
  `Fields.OfKind` models the `get_fields(kind=...)` call that the factory and the metaclass
  make on the field-type metadata `_set_field_defaults` writes. Both are modelled because
  the two revisions are mixed in the source.
- Legacy converters (`CONVERTER_MAP`'s functions) and `re.fullmatch` of a parameter pattern
  are parameters of `Params.Convert` and `Listener.Call`. The user regex of a listener is
  a parameter too.
- `Params.Convert` does not pass the already `converted` values to the converters.
- Unmatched regex groups (`None` values in `groupdict()`) cannot occur in the custom-id
  patterns and are not modelled for user regexes.
- `utils.id_spec_from_signature`, `utils.id_spec_from_regex` and
  `utils.extract_listener_params` are not part of this model. The separator-mode spec is
  `CustomId.MakeSpec` of the parameter names, the regex-mode spec is given with the regex,
  and the listener parameters are given already split.
- `abc.py`'s `parse_custom_id` (95-106) is the same code as `listener.py`'s. It is modelled
  once, by `Listener.ParseCustomId`.
- `ParamInfo.to_str`, the conversion of a select listener's selected values and `_prepare`'s
  `as_ui_component` are parameters.
- The listeners' `__get__`, `error` and the decorator functions are not modelled.
- `Interaction.WrapInteraction`: the docstring of `wrap_interaction` says it returns a
  command interaction. The model follows the code, which returns the generic wrapper.
- The `send`/`edit` proxies of the interaction wrappers are not modelled; they are network
  calls.
- `stdlib.py`'s `NoneParser`, `IntParser`, `BoolParser`, `StringParser`, `CollectionParser`
  and `UnionParser` behave as `builtins.py`'s and are modelled once. The two revisions differ
  in the model only where the code does: the default inner parsers of `TupleParser`
  (`Parsers.TupleNew`, `ParserLaws.StdlibEmptyTuple`).
- `BoolParser`'s docstring calls it case-insensitive. The code compares exactly, and the model
  follows the code (`ParserLaws.BoolParserLoads`, `ParserLaws.BoolParserRoundTrip`).
- IntCodec.IntRoundTrip: stated only where `IntParser.dumps`'s decimal short-circuit
  (`argument < self.base` returns `str(argument)`) is harmless. That covers base 10, `n >= base`,
  and single digits. Every other value below the base, negative ones included, is written in
  decimal and read back in the parser's base. The model keeps the code as written and states
  the gap (`IntCodec.IntRoundTripFailsBelowBase`, `IntCodec.IntRoundTripBase36Counterexample`).
- `Listener.BuildCustomId` fully states only the regex mode and the error cases. Separator
  mode is stated by `Listener.BuildFills` for the positional case.
- ComponentBase.UntaggedBecomeCustomId: it applies to `fields.internal` attributes only
  because `fields.py`'s string-keyed metadata sets no field type. The revision `base.py`
  belongs to tags internal fields itself (`base.py:94`), so there internal fields stay
  internal. The conclusion about internal fields is an artefact of mixing the two revisions.
- ComponentBase.ExplicitParserReset: a `fields.field(parser=p)` loses its parser only because
  `fields.py`'s metadata sets no field type. The `fields` module of the revision `base.py`
  belongs to is not part of this model, so the example is an artefact of mixing the two
  revisions. What is stated about `base.py` itself is the reset of untagged attributes
  (`base.py:136-140`).
- IntCodec.ParseInt: only ASCII digits are recognised. Python's `int()` also accepts every
  other Unicode decimal digit (`int("٣", 36) == 3`), which the model refuses with `ValueError`.

## Findings

| source | as written | input that shows it | evidently intended | confidence | as-written member | corrected member |
|---|---|---|---|---|---|---|
| src/disnake/ext/components/interaction.py:497-514 | `zip(args_iter, range(2))` pulls a third item from `args_iter` before `range(2)` is exhausted. When neither of the first two arguments is an interaction, that item is never appended, and `new_args.extend(args_iter)` continues after it. | `wrap_args_kwargs((0, 1, 2), {"inter": interaction})` returns `((0, 1), {"inter": wrapped})` | every positional argument is returned, with only the interaction wrapped | high (not executed) | Interaction.ThirdArgDropped, Interaction.ThirdArgDroppedExample, Interaction.WrapArgsKwargs | Interaction.KeepsEveryArg, Interaction.WrapArgsKwargsKeepingArgs |
