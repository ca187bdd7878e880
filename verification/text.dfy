/**
 * Python string primitives the codec is built from: `str.find`, `str.split(sep)`,
 * `sep.join(parts)`, `str.startswith` and `str.isspace`.
 */
module Text {
  import opened Wrappers

  /** `sep` occurs in `s` starting at index `i`. */
  predicate OccursAt(s: string, i: nat, sep: string) {
    i + |sep| <= |s| && s[i..i + |sep|] == sep
  }

  /** `s.find(sep, i)`: the leftmost occurrence of `sep` at or after `i`. */
  function FindFrom(s: string, sep: string, i: nat): (r: Option<nat>)
    decreases |s| - i
    ensures r.Some? ==> i <= r.value && OccursAt(s, r.value, sep)
    ensures r.Some? ==> forall j :: i <= j < r.value ==> !OccursAt(s, j, sep)
    ensures r.None? ==> forall j :: i <= j ==> !OccursAt(s, j, sep)
  {
    if i + |sep| > |s| then None
    else if s[i..i + |sep|] == sep then Some(i)
    else FindFrom(s, sep, i + 1)
  }

  /** `s.split(sep)` for a non-empty separator: cut at every leftmost, non-overlapping occurrence. */
  function Split(s: string, sep: string): (parts: seq<string>)
    requires |sep| > 0
    decreases |s|
    ensures |parts| >= 1
  {
    match FindFrom(s, sep, 0)
    case None => [s]
    case Some(k) => [s[..k]] + Split(s[k + |sep|..], sep)
  }

  /** `sep.join(parts)`. */
  function Join(parts: seq<string>, sep: string): string
  {
    if |parts| == 0 then ""
    else if |parts| == 1 then parts[0]
    else parts[0] + sep + Join(parts[1..], sep)
  }

  /** `sep` never occurs in `s`. */
  predicate Free(s: string, sep: string) {
    forall i :: 0 <= i < |s| ==> !OccursAt(s, i, sep)
  }

  /** Followed by `sep`, the text `part` has its first occurrence of `sep` right after it. */
  predicate NoSepIn(part: string, sep: string) {
    forall i :: 0 <= i < |part| ==> !OccursAt(part + sep, i, sep)
  }

  /** The parts can be told apart again after joining them with `sep`. */
  predicate Separable(parts: seq<string>, sep: string) {
    && (forall i :: 0 <= i < |parts| - 1 ==> NoSepIn(parts[i], sep))
    && (|parts| > 0 ==> Free(parts[|parts| - 1], sep))
  }

  lemma OccursAtPrefix(s: string, t: string, i: nat, sep: string)
    requires i + |sep| <= |s|
    ensures OccursAt(s + t, i, sep) == OccursAt(s, i, sep)
  {
    assert (s + t)[i..i + |sep|] == s[i..i + |sep|];
  }

  lemma OccursAtShift(pre: string, s: string, i: nat, sep: string)
    ensures OccursAt(pre + s, |pre| + i, sep) == OccursAt(s, i, sep)
  {
    if |pre| + i + |sep| <= |pre + s| {
      assert (pre + s)[|pre| + i..|pre| + i + |sep|] == s[i..i + |sep|];
    }
  }

  lemma NoSepInIsFree(part: string, sep: string)
    requires NoSepIn(part, sep)
    ensures Free(part, sep)
  {
    forall i | 0 <= i < |part| ensures !OccursAt(part, i, sep) {
      if i + |sep| <= |part| {
        OccursAtPrefix(part, sep, i, sep);
      }
    }
  }

  /** In `part + sep + rest` the leftmost `sep` is the one right after `part`. */
  lemma FindAfterPart(part: string, sep: string, rest: string)
    requires NoSepIn(part, sep)
    ensures FindFrom(part + sep + rest, sep, 0) == Some(|part|)
  {
    var s := part + sep + rest;
    assert s == (part + sep) + rest;
    assert s[|part|..|part| + |sep|] == sep;
    assert OccursAt(s, |part|, sep);
    forall j | 0 <= j < |part| ensures !OccursAt(s, j, sep) {
      OccursAtPrefix(part + sep, rest, j, sep);
    }

  }

  /** The last part, containing no `sep`, is returned whole. */
  lemma {:induction false} SplitFree(s: string, sep: string)
    requires |sep| > 0 && Free(s, sep)
    ensures Split(s, sep) == [s]
  {
    assert FindFrom(s, sep, 0) == None;
  }

  /** Splitting undoes joining, provided the parts are separable. */
  lemma {:induction false} SplitJoin(parts: seq<string>, sep: string)
    requires |sep| > 0 && |parts| >= 1 && Separable(parts, sep)
    ensures Split(Join(parts, sep), sep) == parts
  {
    if |parts| == 1 {
      SplitFree(parts[0], sep);
    } else {
      var rest := Join(parts[1..], sep);
      FindAfterPart(parts[0], sep, rest);
      var s := parts[0] + sep + rest;
      assert s[..|parts[0]|] == parts[0];
      assert s[|parts[0]| + |sep|..] == rest;
      assert Separable(parts[1..], sep) by {
        forall i | 0 <= i < |parts[1..]| - 1 ensures NoSepIn(parts[1..][i], sep) {
          assert parts[1..][i] == parts[i + 1];
        }
      }
      SplitJoin(parts[1..], sep);
    }
  }

  lemma JoinCons(head: string, rest: seq<string>, sep: string)
    requires |rest| >= 1
    ensures Join([head] + rest, sep) == head + sep + Join(rest, sep)
  {
    assert ([head] + rest)[1..] == rest;
  }

  lemma Rebuild(s: string, k: nat, sep: string)
    requires OccursAt(s, k, sep)
    ensures s == s[..k] + sep + s[k + |sep|..]
  {
    assert s == s[..k] + s[k..k + |sep|] + s[k + |sep|..];
  }

  /** Joining undoes splitting, for every string. */
  lemma {:induction false} JoinSplit(s: string, sep: string)
    requires |sep| > 0
    ensures Join(Split(s, sep), sep) == s
  {
    match FindFrom(s, sep, 0)
    case None =>
      assert Split(s, sep) == [s];
    case Some(k) =>
      var tail := s[k + |sep|..];
      JoinSplit(tail, sep);
      JoinCons(s[..k], Split(tail, sep), sep);
      Rebuild(s, k, sep);
  }

  /** Every list `Split` produces is separable, so `Split` and `Join` are mutually inverse. */
  lemma {:induction false} SplitSeparable(s: string, sep: string)
    requires |sep| > 0
    ensures Separable(Split(s, sep), sep)
  {
    match FindFrom(s, sep, 0)
    case None =>
      assert Split(s, sep) == [s];
    case Some(k) =>
      var head, tail := s[..k], s[k + |sep|..];
      SplitSeparable(tail, sep);
      var parts := Split(s, sep);
      var rest := Split(tail, sep);
      assert parts == [head] + rest;
      SplitHeadNoSep(s, sep, k);
      forall i | 0 <= i < |parts| - 1 ensures NoSepIn(parts[i], sep) {
        if i > 0 { assert parts[i] == rest[i - 1]; }
      }
      assert parts[|parts| - 1] == rest[|rest| - 1];
  }

  lemma SplitHeadNoSep(s: string, sep: string, k: nat)
    requires FindFrom(s, sep, 0) == Some(k)
    ensures NoSepIn(s[..k], sep)
  {
    var head := s[..k];
    assert s[..k + |sep|] == head + sep;
    assert s[..k + |sep|] + s[k + |sep|..] == s;
    forall i | 0 <= i < |head| ensures !OccursAt(head + sep, i, sep) {
      OccursAtPrefix(s[..k + |sep|], s[k + |sep|..], i, sep);
    }
  }

  /**
   * The parts a fullmatch of `n` lazy groups separated by `sep` yields: the first `n - 1`
   * parts end at the leftmost following occurrences of `sep`, and the last part takes the rest.
   */
  function SplitN(s: string, sep: string, n: nat): (r: Option<seq<string>>)
    requires |sep| > 0 && n >= 1
    decreases n
    ensures r.Some? ==> |r.value| == n
  {
    if n == 1 then Some([s])
    else match FindFrom(s, sep, 0)
      case None => None
      case Some(k) =>
        match SplitN(s[k + |sep|..], sep, n - 1)
        case None => None
        case Some(ps) => Some([s[..k]] + ps)
  }

  lemma OccursAtSuffix(s: string, j: nat, i: nat, sep: string)
    requires j <= |s|
    ensures OccursAt(s[j..], i, sep) == OccursAt(s, j + i, sep)
  {
    if j + i + |sep| <= |s| {
      assert s[j..][i..i + |sep|] == s[j + i..j + i + |sep|];
    }
  }

  lemma SplitNCons(s: string, sep: string, n: nat, k: nat)
    requires |sep| > 0 && n > 1 && FindFrom(s, sep, 0) == Some(k)
    ensures SplitN(s, sep, n).Some? == SplitN(s[k + |sep|..], sep, n - 1).Some?
    ensures SplitN(s, sep, n).Some? ==> SplitN(s, sep, n).value == [s[..k]] + SplitN(s[k + |sep|..], sep, n - 1).value
  {
    var rest := SplitN(s[k + |sep|..], sep, n - 1);
    assert SplitN(s, sep, n) == if rest.None? then None else Some([s[..k]] + rest.value);
  }

  /** `s.find(sep)` finds something at or before any occurrence of `sep`. */
  lemma FindFirst(s: string, sep: string, m: nat)
    requires OccursAt(s, m, sep)
    ensures FindFrom(s, sep, 0).Some? && FindFrom(s, sep, 0).value <= m
  {
  }

  lemma SuffixOfSuffix(s: string, j: nat, k: nat)
    requires k <= j <= |s|
    ensures s[k..][j - k..] == s[j..]
  {
  }

  lemma SplitNFinds(s: string, sep: string, n: nat)
    requires |sep| > 0 && n > 1 && SplitN(s, sep, n).Some?
    ensures FindFrom(s, sep, 0).Some?
  {
  }

  lemma SuffixStep(s: string, sep: string, n: nat, j: nat) returns (k: nat, d: nat)
    requires |sep| > 0 && n > 1 && j <= |s|
    requires SplitN(s[j..], sep, n).Some?
    ensures FindFrom(s, sep, 0) == Some(k) && k + |sep| + d <= |s|
    ensures SplitN(s[k + |sep|..][d..], sep, n - 1).Some?
  {
    var t := s[j..];
    SplitNFinds(t, sep, n);
    var k' := FindFrom(t, sep, 0).value;
    SplitNCons(t, sep, n, k');
    OccursAtSuffix(s, j, k', sep);
    FindFirst(s, sep, j + k');
    k := FindFrom(s, sep, 0).value;
    d := j + k' - k;
    SuffixOfSuffix(s, j + k' + |sep|, k + |sep|);
    SuffixOfSuffix(s, j + k' + |sep|, j);
    assert j + k' + |sep| <= |s|;
    assert s[k + |sep|..][d..] == t[k' + |sep|..];
  }

  /** If a suffix of `s` can be cut into `n` parts, so can `s` itself. */
  lemma {:induction false} SplitNSuffix(s: string, sep: string, n: nat, j: nat)
    requires |sep| > 0 && n >= 1 && j <= |s|
    requires SplitN(s[j..], sep, n).Some?
    ensures SplitN(s, sep, n).Some?
    decreases n
  {
    if n > 1 {
      var k, d := SuffixStep(s, sep, n, j);
      SplitNSuffix(s[k + |sep|..], sep, n - 1, d);
      SplitNCons(s, sep, n, k);
    }
  }

  /** A `sep`-free part, then `sep`, then a string that cuts into `ps`: the part is the first piece. */
  lemma SplitNAfterPart(part: string, sep: string, rest: string, n: nat, ps: seq<string>)
    requires |sep| > 0 && n > 1 && NoSepIn(part, sep) && SplitN(rest, sep, n - 1) == Some(ps)
    ensures SplitN(part + sep + rest, sep, n) == Some([part] + ps)
  {
    var s := part + sep + rest;
    FindAfterPart(part, sep, rest);
    assert s[..|part|] == part;
    assert s[|part| + |sep|..] == rest;
    SplitNCons(s, sep, n, |part|);
  }

  /** Cutting the joined parts into as many pieces gives the parts back when none but the last holds `sep`. */
  lemma {:induction false} SplitNJoin(parts: seq<string>, sep: string)
    requires |sep| > 0 && |parts| >= 1
    requires forall i :: 0 <= i < |parts| - 1 ==> NoSepIn(parts[i], sep)
    ensures SplitN(Join(parts, sep), sep, |parts|) == Some(parts)
  {
    if |parts| > 1 {
      var rest := Join(parts[1..], sep);
      JoinCons(parts[0], parts[1..], sep);
      assert [parts[0]] + parts[1..] == parts;
      assert forall i :: 0 <= i < |parts[1..]| - 1 ==> parts[1..][i] == parts[i + 1];
      SplitNJoin(parts[1..], sep);
      SplitNAfterPart(parts[0], sep, rest, |parts|, parts[1..]);
    } else {
      assert parts == [parts[0]];
    }
  }

  /** Joining the pieces gives the string back. */
  lemma {:induction false} SplitNJoins(s: string, sep: string, n: nat)
    requires |sep| > 0 && n >= 1 && SplitN(s, sep, n).Some?
    ensures Join(SplitN(s, sep, n).value, sep) == s
    decreases n
  {
    if n > 1 {
      var k :| FindFrom(s, sep, 0) == Some(k);
      var tail := s[k + |sep|..];
      SplitNCons(s, sep, n, k);
      SplitNJoins(tail, sep, n - 1);
      JoinCons(s[..k], SplitN(tail, sep, n - 1).value, sep);
      Rebuild(s, k, sep);
    }
  }

  /** Every piece but the last is free of `sep`. */
  lemma {:induction false} SplitNPartsFree(s: string, sep: string, n: nat)
    requires |sep| > 0 && n >= 1 && SplitN(s, sep, n).Some?
    ensures forall i :: 0 <= i < n - 1 ==> NoSepIn(SplitN(s, sep, n).value[i], sep)
    decreases n
  {
    if n > 1 {
      var k :| FindFrom(s, sep, 0) == Some(k);
      var tail := s[k + |sep|..];
      SplitNCons(s, sep, n, k);
      SplitNPartsFree(tail, sep, n - 1);
      SplitHeadNoSep(s, sep, k);
      var ps := SplitN(tail, sep, n - 1).value;
      var r := SplitN(s, sep, n).value;
      forall i | 0 <= i < n - 1 ensures NoSepIn(r[i], sep) {
        if i > 0 { assert r[i] == ps[i - 1]; }
      }
    }
  }

  /** Joining the pieces gives the string back, and every piece but the last is free of `sep`. */
  lemma JoinSplitN(s: string, sep: string, n: nat)
    requires |sep| > 0 && n >= 1 && SplitN(s, sep, n).Some?
    ensures Join(SplitN(s, sep, n).value, sep) == s
    ensures forall i :: 0 <= i < n - 1 ==> NoSepIn(SplitN(s, sep, n).value[i], sep)
  {
    SplitNJoins(s, sep, n);
    SplitNPartsFree(s, sep, n);
  }

  lemma AppendAssoc<T>(a: seq<T>, b: seq<T>, c: seq<T>)
    ensures a + b + c == a + (b + c)
  {
  }

  /** With a one-character separator, both conditions say the character does not occur. */
  lemma SingleCharSep(part: string, sep: string)
    requires |sep| == 1
    ensures NoSepIn(part, sep) <==> sep[0] !in part
    ensures Free(part, sep) <==> sep[0] !in part
  {
    if sep[0] in part {
      var i :| 0 <= i < |part| && part[i] == sep[0];
      assert OccursAt(part, i, sep) by { assert part[i..i + 1] == [part[i]]; }
      assert OccursAt(part + sep, i, sep) by { assert (part + sep)[i..i + 1] == [part[i]]; }
    } else {
      forall i | 0 <= i < |part| ensures !OccursAt(part + sep, i, sep) {
        assert (part + sep)[i..i + 1] == [part[i]];
      }
      forall i | 0 <= i < |part| ensures !OccursAt(part, i, sep) {
        if i + 1 <= |part| { assert part[i..i + 1] == [part[i]]; }
      }
    }
  }

  function StartsWith(s: string, prefix: string): bool {
    |prefix| <= |s| && s[..|prefix|] == prefix
  }

  /** The characters for which Python's `str.isspace` holds. */
  predicate IsWhitespace(c: char) {
    || c == ' ' || c == '\t' || c == '\n' || c == '\r' || c == '\U{000b}' || c == '\U{000c}'
    || ('\U{001c}' <= c <= '\U{001f}') || c == '\U{0085}' || c == '\U{00a0}' || c == '\U{1680}'
    || ('\U{2000}' <= c <= '\U{200a}') || c == '\U{2028}' || c == '\U{2029}' || c == '\U{202f}'
    || c == '\U{205f}' || c == '\U{3000}'
  }

  /** `s.isspace()`: false on the empty string. */
  predicate IsSpace(s: string) {
    |s| > 0 && forall i :: 0 <= i < |s| ==> IsWhitespace(s[i])
  }
}
