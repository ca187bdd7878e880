/**
 * The pattern a custom id compiles to. `Escape` is the module's translation table (Python's
 * `re.escape` without `{` and `}`); `FormatToPattern` is the `re.sub` that turns each format field
 * `{name}`, `{name:spec}` or `{name!conv}` of the escaped text into a lazy named group
 * `(?P<name>.*?)`. The resulting pattern is a sequence of literal characters and lazy groups, and
 * `Match` is the backtracking fullmatch of such a pattern (`.` does not match a newline).
 */
module Regex {
  import opened Wrappers
  import Text

  /** The characters the translation table prefixes with a backslash. */
  const ESCAPED: set<char> := {
    '(', ')', '[', ']', '?', '*', '+', '-', '|', '^', '$', '\\', '.', '&', '~', '#',
    ' ', '\t', '\n', '\r', '\U{000b}', '\U{000c}'
  }

  function EscapeChar(c: char): string {
    if c in ESCAPED then ['\\', c] else [c]
  }

  /** `escape(pattern)`: `pattern.translate(_ESCAPE_TRANS)`. */
  function Escape(s: string): (r: string)
    ensures |r| >= |s|
  {
    if s == [] then [] else EscapeChar(s[0]) + Escape(s[1..])
  }

  /** What a regex engine reads back from escaped text: a backslash makes the next character literal. */
  function Unescape(e: string): string
  {
    if e == [] then []
    else if e[0] == '\\' && |e| >= 2 then [e[1]] + Unescape(e[2..])
    else [e[0]] + Unescape(e[1..])
  }

  lemma UnescapeChar(c: char, t: string)
    ensures Unescape(EscapeChar(c) + t) == [c] + Unescape(t)
  {
    if c in ESCAPED {
      assert (EscapeChar(c) + t)[2..] == t;
    } else {
      assert (EscapeChar(c) + t)[1..] == t;
    }
  }

  /** The escaped text stands for exactly the original characters. */
  lemma {:induction false} EscapeRoundTrip(s: string)
    ensures Unescape(Escape(s)) == s
  {
    if s != [] {
      EscapeRoundTrip(s[1..]);
      UnescapeChar(s[0], Escape(s[1..]));
      assert [s[0]] + s[1..] == s;
    }
  }

  /** Text without any of the special characters is left unchanged, and only such text is. */
  lemma {:induction false} EscapeIdentity(s: string)
    ensures Escape(s) == s <==> forall i :: 0 <= i < |s| ==> s[i] !in ESCAPED
  {
    if s != [] {
      EscapeIdentity(s[1..]);
      assert forall i :: 1 <= i < |s| ==> s[i] == s[1..][i - 1];
      if s[0] in ESCAPED {
        assert |Escape(s)| >= |s| + 1;
      } else if Escape(s) == s {
        assert Escape(s[1..]) == Escape(s)[1..];
      } else {
        assert [s[0]] + s[1..] == s;
      }
    }
  }

  lemma {:induction false} EscapeAppend(a: string, b: string)
    ensures Escape(a + b) == Escape(a) + Escape(b)
  {
    if a != [] {
      assert (a + b)[0] == a[0] && (a + b)[1..] == a[1..] + b;
      EscapeAppend(a[1..], b);
      Text.AppendAssoc(EscapeChar(a[0]), Escape(a[1..]), Escape(b));
    } else {
      assert a + b == b;
    }
  }

  /** Escaping adds only backslashes: any other character occurs in the result iff it occurs in the input. */
  lemma {:induction false} EscapeKeeps(s: string, c: char)
    requires c != '\\'
    ensures c in Escape(s) <==> c in s
  {
    if s != [] {
      EscapeKeeps(s[1..], c);
      assert s == [s[0]] + s[1..];
      assert c in Escape(s) <==> c in EscapeChar(s[0]) || c in Escape(s[1..]);
    }
  }

  /** `\w` on ASCII text: letters, digits and the underscore. */
  predicate IsWordChar(c: char) {
    ('a' <= c <= 'z') || ('A' <= c <= 'Z') || ('0' <= c <= '9') || c == '_'
  }

  predicate IsWord(s: string) {
    forall i :: 0 <= i < |s| ==> IsWordChar(s[i])
  }

  /** The longest prefix of `s` made of word characters (what a greedy `\w+` takes). */
  function WordRun(s: string): (w: string)
    ensures |w| <= |s| && w == s[..|w|] && IsWord(w)
    ensures |w| < |s| ==> !IsWordChar(s[|w|])
  {
    if s != [] && IsWordChar(s[0]) then [s[0]] + WordRun(s[1..]) else []
  }

  /** The first `}` at or after `i`, provided no newline comes before it (a lazy `.*?\}`). */
  function CloseBrace(s: string, i: nat): (r: Option<nat>)
    decreases |s| - i
    ensures r.Some? ==> i <= r.value < |s| && s[r.value] == '}'
    ensures r.Some? ==> forall j :: i <= j < r.value ==> s[j] != '}' && s[j] != '\n'
    ensures r.None? ==> forall j :: i <= j < |s| && s[j] == '}' ==> exists m :: i <= m < j && s[m] == '\n'
  {
    if i >= |s| then None
    else if s[i] == '}' then Some(i)
    else if s[i] == '\n' then None
    else CloseBrace(s, i + 1)
  }

  /**
   * A match of `\{(\w+)(?:\:.*?|\!.*?)?\}` at the start of `e`: the field name and the length
   * of the match. A shorter word run never helps, since the next character would then be a
   * word character rather than `}`, `:` or `!`.
   */
  function Placeholder(e: string): (r: Option<(string, nat)>)
    ensures r.Some? ==> |r.value.0| >= 1 && IsWord(r.value.0) && |r.value.0| + 2 <= r.value.1 <= |e|
    ensures r.Some? ==> e[0] == '{' && e[r.value.1 - 1] == '}' && e[1..|r.value.0| + 1] == r.value.0
  {
    if e == [] || e[0] != '{' then None
    else
      var w := WordRun(e[1..]);
      var j := 1 + |w|;
      if |w| == 0 || j >= |e| then None
      else if e[j] == '}' then Some((w, j + 1))
      else if e[j] == ':' || e[j] == '!' then
        match CloseBrace(e, j + 1)
        case Some(k) => Some((w, k + 1))
        case None => None
      else None
  }

  /** A compiled pattern element: a literal character, or a lazy named group `(?P<name>.*?)`. */
  datatype Token = Lit(c: char) | Group(name: string)

  /** The pattern for literal text. */
  function Lits(x: string): (r: seq<Token>)
    ensures |r| == |x| && forall i :: 0 <= i < |x| ==> r[i] == Lit(x[i])
  {
    if x == [] then [] else [Lit(x[0])] + Lits(x[1..])
  }

  /**
   * The pattern `re.sub` leaves in escaped text: each backslash pair is one literal, each
   * format field becomes a group, every other character stands for itself.
   */
  function Scan(e: string): seq<Token>
    decreases |e|
  {
    if e == [] then []
    else if e[0] == '\\' && |e| >= 2 then [Lit(e[1])] + Scan(e[2..])
    else match Placeholder(e)
      case Some((name, n)) => [Group(name)] + Scan(e[n..])
      case None => [Lit(e[0])] + Scan(e[1..])
  }

  /** `format_to_pattern(format_str)` before compilation. */
  function FormatToPattern(fmt: string): seq<Token>
  {
    Scan(Escape(fmt))
  }

  function GroupNames(toks: seq<Token>): (names: seq<string>)
    ensures |names| <= |toks|
  {
    if toks == [] then []
    else if toks[0].Group? then [toks[0].name] + GroupNames(toks[1..])
    else GroupNames(toks[1..])
  }

  predicate DistinctNames(names: seq<string>) {
    forall i, j :: 0 <= i < j < |names| ==> names[i] != names[j]
  }

  lemma DistinctTail(names: seq<string>)
    requires |names| > 0 && DistinctNames(names)
    ensures DistinctNames(names[1..])
  {
    forall a, b | 0 <= a < b < |names| - 1 ensures names[1..][a] != names[1..][b] {
      assert names[1..][a] == names[a + 1] && names[1..][b] == names[b + 1];
    }
  }

  /** A group name `re` accepts: an identifier (here, a word not starting with a digit). */
  predicate ValidGroupName(name: string) {
    |name| >= 1 && IsWord(name) && !('0' <= name[0] <= '9')
  }

  /**
   * `re.compile` of the produced pattern: a group name that is not an identifier, or one used
   * twice, is an `re.error`. A `{` left in the literal text may start a repetition count, which
   * this model does not describe.
   */
  function Compile(toks: seq<Token>): (r: Result<seq<Token>>)
    ensures r.Ok? <==> (Lit('{') !in toks && DistinctNames(GroupNames(toks))
                       && forall i :: 0 <= i < |GroupNames(toks)| ==> ValidGroupName(GroupNames(toks)[i]))
    ensures r.Ok? ==> r.value == toks
    ensures r.Err? ==> r.exc == Unmodelled || r.exc == RegexError
  {
    var names := GroupNames(toks);
    if Lit('{') in toks then Err(Unmodelled)
    else if !(forall i :: 0 <= i < |names| ==> ValidGroupName(names[i])) then Err(RegexError)
    else if !DistinctNames(names) then Err(RegexError)
    else Ok(toks)
  }

  /** The number of groups in a pattern. */
  function NumGroups(toks: seq<Token>): nat
  {
    |GroupNames(toks)|
  }

  /** The text a pattern stands for when its groups are replaced by `caps`, in order. */
  function Fill(toks: seq<Token>, caps: seq<string>): string
  {
    if toks == [] then []
    else match toks[0]
      case Lit(c) => [c] + Fill(toks[1..], caps)
      case Group(_) =>
        if caps == [] then Fill(toks[1..], caps) else caps[0] + Fill(toks[1..], caps[1..])
  }

  /**
   * `pattern.fullmatch(s)`: the captures, in group order, of the first match the backtracking
   * search finds. Each lazy group tries the shortest text first.
   */
  function Match(toks: seq<Token>, s: string): (r: Option<seq<string>>)
    decreases |toks|, |s| + 1
    ensures r.Some? ==> |r.value| == NumGroups(toks) && Fill(toks, r.value) == s
    ensures r.Some? ==> forall i :: 0 <= i < |r.value| ==> '\n' !in r.value[i]
  {
    if toks == [] then (if s == [] then Some([]) else None)
    else match toks[0]
      case Lit(c) => if |s| > 0 && s[0] == c then Match(toks[1..], s[1..]) else None
      case Group(_) => TryLen(toks, s, 0)
  }

  /** A group at the head of the pattern, having failed with the lengths below `k`, tries length `k`. */
  function TryLen(toks: seq<Token>, s: string, k: nat): (r: Option<seq<string>>)
    requires toks != [] && toks[0].Group? && k <= |s| && '\n' !in s[..k]
    decreases |toks|, |s| - k
    ensures r.Some? ==> |r.value| == NumGroups(toks) && Fill(toks, r.value) == s
    ensures r.Some? ==> forall i :: 0 <= i < |r.value| ==> '\n' !in r.value[i]
  {
    match Match(toks[1..], s[k..])
    case Some(caps) =>
      assert s[..k] + s[k..] == s;
      Some([s[..k]] + caps)
    case None =>
      if k < |s| && s[k] != '\n' then
        assert s[..k + 1] == s[..k] + [s[k]];
        TryLen(toks, s, k + 1)
      else None
  }

  /**
   * The shape of a custom id's fields: `n` groups, separated by the literal `sep`.
   */
  function GroupsTokens(names: seq<string>, sep: string): (r: seq<Token>)
    requires |names| >= 1
    ensures r != [] && r[0] == Group(names[0])
  {
    if |names| == 1 then [Group(names[0])]
    else [Group(names[0])] + Lits(sep) + GroupsTokens(names[1..], sep)
  }

  // ---------------------------------------------------------------------------------------
  // From a format string to its pattern.

  lemma ScanEscChar(c: char, t: string)
    requires c != '{'
    ensures Scan(EscapeChar(c) + t) == [Lit(c)] + Scan(t)
  {
    var e := EscapeChar(c) + t;
    if c in ESCAPED {
      assert e[2..] == t;
    } else {
      assert e[1..] == t;
    }
  }

  /** Escaped text without `{` becomes literals, whatever follows it. */
  lemma {:induction false} ScanEscaped(x: string, e2: string)
    requires '{' !in x
    ensures Scan(Escape(x) + e2) == Lits(x) + Scan(e2)
  {
    if x != [] {
      Text.AppendAssoc(EscapeChar(x[0]), Escape(x[1..]), e2);
      ScanEscChar(x[0], Escape(x[1..]) + e2);
      assert '{' !in x[1..] by { assert forall i :: 0 <= i < |x[1..]| ==> x[1..][i] == x[i + 1]; }
      ScanEscaped(x[1..], e2);
      Text.AppendAssoc([Lit(x[0])], Lits(x[1..]), Scan(e2));
    } else {
      assert Escape(x) + e2 == e2 && Lits(x) + Scan(e2) == Scan(e2);
    }
  }

  lemma {:induction false} WordRunStops(f: string, t: string)
    requires IsWord(f) && (t == [] || !IsWordChar(t[0]))
    ensures WordRun(f + t) == f
  {
    if f != [] {
      assert (f + t)[1..] == f[1..] + t;
      WordRunStops(f[1..], t);
      assert [f[0]] + f[1..] == f;
    }
  }

  /** A field `{f}` with a word `f` becomes the group `f`. */
  lemma ScanField(f: string, e2: string)
    requires |f| >= 1 && IsWord(f)
    ensures Scan("{" + f + "}" + e2) == [Group(f)] + Scan(e2)
  {
    var e := "{" + f + "}" + e2;
    assert e[1..] == f + ("}" + e2);
    WordRunStops(f, "}" + e2);
    assert e[1 + |f|] == '}';
    assert Placeholder(e) == Some((f, |f| + 2));
    assert e[|f| + 2..] == e2;
  }

  /** A format string with no `{` compiles to its own characters as literals. */
  lemma NoFieldsPattern(fmt: string)
    requires '{' !in fmt
    ensures FormatToPattern(fmt) == Lits(fmt)
  {
    ScanEscaped(fmt, []);
    assert Escape(fmt) + [] == Escape(fmt);
  }

  // ---------------------------------------------------------------------------------------
  // Matching.

  /** Literals at the head of a pattern consume exactly that prefix. */
  lemma {:induction false} MatchLits(x: string, toks: seq<Token>, s: string)
    ensures Match(Lits(x) + toks, s) == if Text.StartsWith(s, x) then Match(toks, s[|x|..]) else None
  {
    if x != [] {
      var p := Lits(x) + toks;
      assert p[0] == Lit(x[0]) && p[1..] == Lits(x[1..]) + toks;
      if |s| > 0 && s[0] == x[0] {
        MatchLits(x[1..], toks, s[1..]);
        assert Text.StartsWith(s, x) == Text.StartsWith(s[1..], x[1..]) by {
          if |x| <= |s| {
            assert s[..|x|] == [s[0]] + s[1..][..|x| - 1];
            assert x == [x[0]] + x[1..];
          }
        }
        if |x| <= |s| { assert s[1..][|x| - 1..] == s[|x|..]; }
      } else {
        assert !Text.StartsWith(s, x) by {
          if |x| <= |s| { assert s[..|x|][0] == s[0]; }
        }
      }
    } else {
      assert Lits(x) + toks == toks;
      assert s[0..] == s;
    }
  }

  /** A pattern of literals only fullmatches exactly its text. */
  lemma LiteralFullMatch(x: string, s: string)
    ensures Match(Lits(x), s) == if s == x then Some([]) else None
  {
    MatchLits(x, [], s);
    assert Lits(x) + [] == Lits(x);
    if Text.StartsWith(s, x) {
      assert s == s[..|x|] + s[|x|..];
    }
  }

  /** The last group of a pattern takes all the remaining text. */
  lemma {:induction false} LastGroupTakesRest(f: string, s: string, k: nat)
    requires k <= |s| && '\n' !in s
    ensures TryLen([Group(f)], s, k) == Some([s])
    decreases |s| - k
  {
    assert '\n' !in s[..k];
    assert [Group(f)][1..] == [];
    if k < |s| {
      assert Match([], s[k..]) == None;
      assert s[k] != '\n';
      LastGroupTakesRest(f, s, k + 1);
    } else {
      assert s[..k] == s && Match([], s[k..]) == Some([]);
      assert [s] + [] == [s];
    }
  }

  lemma FindFromStep(s: string, sep: string, k: nat)
    requires !Text.OccursAt(s, k, sep)
    ensures Text.FindFrom(s, sep, k) == if k < |s| then Text.FindFrom(s, sep, k + 1) else None
  {
  }

  lemma OccursStartsWith(s: string, k: nat, sep: string)
    requires k <= |s|
    ensures Text.StartsWith(s[k..], sep) == Text.OccursAt(s, k, sep)
  {
    if k + |sep| <= |s| {
      assert s[k..][..|sep|] == s[k..k + |sep|];
    }
  }

  lemma GroupsTail(names: seq<string>, sep: string)
    requires |names| >= 2
    ensures GroupsTokens(names, sep)[1..] == Lits(sep) + GroupsTokens(names[1..], sep)
  {
  }

  /** The text after the literal separator at `k`, matched by the remaining groups. */
  lemma AfterSep(names: seq<string>, sep: string, s: string, k: nat)
    requires |names| >= 2 && k <= |s|
    ensures Match(GroupsTokens(names, sep)[1..], s[k..])
            == if Text.OccursAt(s, k, sep) then Match(GroupsTokens(names[1..], sep), s[k + |sep|..]) else None
  {
    GroupsTail(names, sep);
    MatchLits(sep, GroupsTokens(names[1..], sep), s[k..]);
    OccursStartsWith(s, k, sep);
    if Text.OccursAt(s, k, sep) {
      assert s[k..][|sep|..] == s[k + |sep|..];
    }
  }

  /**
   * The groups-and-separators pattern, on newline-free text, cuts at the leftmost separators:
   * it matches exactly when `SplitN` succeeds, with the same parts.
   */
  lemma {:induction false} MatchGroups(names: seq<string>, sep: string, s: string)
    requires |names| >= 1 && |sep| > 0 && '\n' !in s
    ensures Match(GroupsTokens(names, sep), s) == Text.SplitN(s, sep, |names|)
    decreases |names|, |s| + 1
  {
    if |names| == 1 {
      LastGroupTakesRest(names[0], s, 0);
    } else {
      TryLenGroups(names, sep, s, 0);
      SplitFromStart(names, sep, s);
    }
  }

  /** The cut the first group's search arrives at once the lengths below `k` have failed. */
  function SplitFrom(s: string, sep: string, n: nat, k: nat): Option<seq<string>>
    requires n >= 2 && |sep| > 0
  {
    match Text.FindFrom(s, sep, k)
    case None => None
    case Some(k1) =>
      match Text.SplitN(s[k1 + |sep|..], sep, n - 1)
      case None => None
      case Some(ps) => Some([s[..k1]] + ps)
  }

  lemma SplitFromStart(names: seq<string>, sep: string, s: string)
    requires |names| >= 2 && |sep| > 0
    ensures SplitFrom(s, sep, |names|, 0) == Text.SplitN(s, sep, |names|)
  {
  }

  lemma TryLenStep(toks: seq<Token>, s: string, k: nat)
    requires toks != [] && toks[0].Group? && k <= |s| && '\n' !in s[..k]
    requires Match(toks[1..], s[k..]).None?
    ensures k < |s| && s[k] != '\n' ==> '\n' !in s[..k + 1]
    ensures TryLen(toks, s, k) == if k < |s| && s[k] != '\n' then TryLen(toks, s, k + 1) else None
  {
    if k < |s| { assert s[..k + 1] == s[..k] + [s[k]]; }
  }

  /** A separator at `k` whose remainder splits: the first group ends at `k`. */
  lemma SplitFromHit(s: string, sep: string, n: nat, k: nat)
    requires n >= 2 && |sep| > 0 && Text.OccursAt(s, k, sep)
    requires Text.SplitN(s[k + |sep|..], sep, n - 1).Some?
    ensures SplitFrom(s, sep, n, k) == Some([s[..k]] + Text.SplitN(s[k + |sep|..], sep, n - 1).value)
  {
  }

  /** A separator at `k` whose remainder does not split: no later separator helps. */
  lemma SplitFromDeadEnd(s: string, sep: string, n: nat, k: nat)
    requires n >= 2 && |sep| > 0 && Text.OccursAt(s, k, sep)
    requires Text.SplitN(s[k + |sep|..], sep, n - 1).None?
    ensures SplitFrom(s, sep, n, k) == None
    ensures k < |s| && SplitFrom(s, sep, n, k + 1) == None
  {
    assert k < |s|;
    assert Text.FindFrom(s, sep, k) == Some(k);
    SplitFromAt(s, sep, n, k, k);
    var f := Text.FindFrom(s, sep, k + 1);
    if f.Some? {
      var k2 := f.value;
      assert k <= k2 && Text.OccursAt(s, k2, sep);
      LaterNoSplit(s, sep, n - 1, k, k2);
      SplitFromAt(s, sep, n, k + 1, k2);
    } else {
      SplitFromNone(s, sep, n, k + 1);
    }
  }

  lemma SplitFromNone(s: string, sep: string, n: nat, k: nat)
    requires n >= 2 && |sep| > 0 && Text.FindFrom(s, sep, k) == None
    ensures SplitFrom(s, sep, n, k) == None
  {
  }

  lemma SplitFromAt(s: string, sep: string, n: nat, k: nat, k1: nat)
    requires n >= 2 && |sep| > 0 && Text.FindFrom(s, sep, k) == Some(k1)
    ensures SplitFrom(s, sep, n, k).Some? == Text.SplitN(s[k1 + |sep|..], sep, n - 1).Some?
  {
  }

  lemma LaterNoSplit(s: string, sep: string, m: nat, k: nat, k2: nat)
    requires m >= 1 && |sep| > 0 && k <= k2 && Text.OccursAt(s, k2, sep)
    requires Text.SplitN(s[k + |sep|..], sep, m).None?
    ensures Text.SplitN(s[k2 + |sep|..], sep, m).None?
  {
    if Text.SplitN(s[k2 + |sep|..], sep, m).Some? {
      SuffixOfSuffixSlice(s, k + |sep|, k2 + |sep|);
      Text.SplitNSuffix(s[k + |sep|..], sep, m, k2 - k);
    }
  }

  /** No separator at `k`: the search goes on from `k + 1`. */
  lemma SplitFromMiss(s: string, sep: string, n: nat, k: nat)
    requires n >= 2 && |sep| > 0 && !Text.OccursAt(s, k, sep)
    ensures SplitFrom(s, sep, n, k) == if k < |s| then SplitFrom(s, sep, n, k + 1) else None
  {
    FindFromStep(s, sep, k);
  }

  lemma {:induction false} TryLenGroups(names: seq<string>, sep: string, s: string, k: nat)
    requires |names| >= 2 && |sep| > 0 && '\n' !in s && k <= |s|
    ensures '\n' !in s[..k]
    ensures TryLen(GroupsTokens(names, sep), s, k) == SplitFrom(s, sep, |names|, k)
    decreases |names|, |s| - k
  {
    var toks := GroupsTokens(names, sep);
    assert '\n' !in s[..k];
    AfterSep(names, sep, s, k);
    var n := |names|;
    if Text.OccursAt(s, k, sep) {
      var rest := s[k + |sep|..];
      MatchGroups(names[1..], sep, rest);
      if Text.SplitN(rest, sep, n - 1).Some? {
        SplitFromHit(s, sep, n, k);
      } else {
        SplitFromDeadEnd(s, sep, n, k);
        TryLenStep(toks, s, k);
        TryLenGroups(names, sep, s, k + 1);
      }
    } else {
      SplitFromMiss(s, sep, n, k);
      TryLenStep(toks, s, k);
      if k < |s| {
        TryLenGroups(names, sep, s, k + 1);
      }
    }
  }

  lemma SuffixOfSuffixSlice(s: string, a: nat, b: nat)
    requires a <= b <= |s|
    ensures s[a..][b - a..] == s[b..]
  {
  }
}
