/**
 * Integer text codecs: Python's `str(n)`, its `int(s, base)` for bases 2..36, and the
 * base-N digit string that `IntParser.dumps` builds (impl/parser/builtins.py, IntParser).
 */
module IntCodec {
  import opened Wrappers
  import Text

  /** `_INT_CHARS`: the digit alphabet, lowest digit first. */
  const DIGITS: string := "0123456789abcdefghijklmnopqrstuvwxyz"

  /** `_INT_CHARS[d]`, computed from the character codes. */
  function DigitChar(d: nat): char
    requires d < 36
  {
    if d < 10 then ('0' as int + d) as char else ('a' as int + (d - 10)) as char
  }

  lemma DigitCharIsAlphabet(d: nat)
    requires d < 36
    ensures DigitChar(d) == DIGITS[d]
  {
  }

  /**
   * The value of an ASCII digit character (letters in either case), as Python's `int()` reads
   * it; the other Unicode decimal digits `int()` also accepts are not recognised.
   */
  function DigitValue(c: char): Option<nat>
  {
    if '0' <= c <= '9' then Some(c as int - '0' as int)
    else if 'a' <= c <= 'z' then Some(c as int - 'a' as int + 10)
    else if 'A' <= c <= 'Z' then Some(c as int - 'A' as int + 10)
    else None
  }

  predicate IsDigitIn(c: char, base: nat) {
    DigitValue(c).Some? && DigitValue(c).value < base
  }

  lemma DigitCharValue(d: nat)
    requires d < 36
    ensures DigitValue(DigitChar(d)) == Some(d)
    ensures !Text.IsWhitespace(DigitChar(d)) && DigitChar(d) != '-' && DigitChar(d) != '+'
    ensures DigitChar(d) != '_' && (d > 0 ==> DigitChar(d) != '0')
  {
  }

  /** The base-`base` digits of `n`, most significant first, without leading zeros. */
  function ToDigits(n: nat, base: nat): (r: string)
    requires 2 <= base <= 36
    decreases n
    ensures |r| >= 1
  {
    if n < base then [DigitChar(n)]
    else
      DivMod(n, base);
      ToDigits(n / base, base) + [DigitChar(n % base)]
  }

  /** `str(n)`. */
  function Decimal(n: int): string
  {
    if n < 0 then "-" + ToDigits(-n, 10) else ToDigits(n, 10)
  }

  // ---- int(s, base) ----

  function StripLeft(s: string): (r: string)
    ensures |r| <= |s|
  {
    if |s| > 0 && Text.IsWhitespace(s[0]) then StripLeft(s[1..]) else s
  }

  function StripRight(s: string): (r: string)
    ensures |r| <= |s|
  {
    if |s| > 0 && Text.IsWhitespace(s[|s| - 1]) then StripRight(s[..|s| - 1]) else s
  }

  /** The values of the digits of `s`, underscores skipped. */
  function DigitValues(s: string): seq<nat>
  {
    if s == [] then []
    else if s[|s| - 1] == '_' || DigitValue(s[|s| - 1]).None? then DigitValues(s[..|s| - 1])
    else DigitValues(s[..|s| - 1]) + [DigitValue(s[|s| - 1]).value]
  }

  /** The number a most-significant-first digit sequence denotes. */
  function ValueOf(ds: seq<nat>, base: nat): nat
  {
    if ds == [] then 0 else ValueOf(ds[..|ds| - 1], base) * base + ds[|ds| - 1]
  }

  /** Digits of the base, single underscores allowed between two digits. */
  predicate WellFormedDigits(s: string, base: nat) {
    && |s| > 0
    && IsDigitIn(s[0], base)
    && IsDigitIn(s[|s| - 1], base)
    && forall i :: 0 <= i < |s| ==>
         IsDigitIn(s[i], base) || (s[i] == '_' && i + 1 < |s| && IsDigitIn(s[i + 1], base))
  }

  /** Drops the `0x`/`0o`/`0b` prefix `int()` accepts for bases 16, 8 and 2, and one `_` after it. */
  function Unprefixed(body: string, base: nat): string
  {
    if |body| >= 2 && body[0] == '0'
       && ((base == 16 && (body[1] == 'x' || body[1] == 'X'))
           || (base == 8 && (body[1] == 'o' || body[1] == 'O'))
           || (base == 2 && (body[1] == 'b' || body[1] == 'B')))
    then (var rest := body[2..]; if |rest| > 0 && rest[0] == '_' then rest[1..] else rest)
    else body
  }

  /** `int(s, base)`: surrounding whitespace, one sign, an optional base prefix, then digits. */
  function ParseInt(s: string, base: nat): (r: Result<int>)
    requires 2 <= base <= 36
    ensures r.Err? ==> r.exc == ValueError
  {
    ParseSigned(StripRight(StripLeft(s)), base)
  }

  /** A stripped literal: a leading `-` negates, a leading `+` is dropped. */
  function ParseSigned(t: string, base: nat): (r: Result<int>)
    requires 2 <= base <= 36
    ensures r.Err? ==> r.exc == ValueError
  {
    if |t| > 0 && t[0] == '-' then
      var m :- ParseUnsigned(t[1..], base);
      Ok(-m)
    else if |t| > 0 && t[0] == '+' then ParseUnsigned(t[1..], base)
    else ParseUnsigned(t, base)
  }

  /** An unsigned literal: the optional base prefix, then well-formed digits. */
  function ParseUnsigned(body: string, base: nat): (r: Result<int>)
    requires 2 <= base <= 36
    ensures r.Err? ==> r.exc == ValueError
    ensures r.Ok? ==> r.value >= 0
  {
    var digits := Unprefixed(body, base);
    if WellFormedDigits(digits, base) then Ok(ValueOf(DigitValues(digits), base))
    else Err(ValueError)
  }

  // ---- IntParser.dumps ----

  /**
   * What `IntParser(base=base).dumps(n)` returns: `str(n)` below the base; the `b`, `o` and `x`
   * format specs for bases 2, 8 and 16 (which print the same lower-case digits); `str(n)` in
   * base 10; otherwise the digit loop.
   */
  function IntDumps(n: int, base: nat): string
    requires 2 <= base <= 36
  {
    if n < base then Decimal(n)
    else if base == 2 || base == 8 || base == 16 then ToDigits(n, base)
    else if base == 10 then Decimal(n)
    else ToDigits(n, base)
  }

  /** From the base upwards every shortcut agrees with the digit loop's result. */
  lemma ShortcutsAgree(n: int, base: nat)
    requires 2 <= base <= 36 && n >= base
    ensures IntDumps(n, base) == ToDigits(n, base)
  {
  }

  function Render(ds: seq<nat>): string
    requires forall i :: 0 <= i < |ds| ==> ds[i] < 36
  {
    if ds == [] then "" else [DigitChar(ds[0])] + Render(ds[1..])
  }

  function Reversed(ds: seq<nat>): (r: seq<nat>)
    ensures |r| == |ds| && forall i :: 0 <= i < |ds| ==> r[i] == ds[|ds| - 1 - i]
  {
    if ds == [] then [] else Reversed(ds[1..]) + [ds[0]]
  }

  /**
   * The digit loop of `IntParser.dumps` (reached for `n >= base` outside the shortcut bases):
   * collect `n % base` least significant first, then join the reversed digits.
   */
  method DumpDigits(n: nat, base: nat) returns (s: string)
    requires 2 <= base <= 36 && n >= base
    ensures s == ToDigits(n, base)
  {
    var digits: seq<nat> := [];
    var m: nat := n;
    while m != 0
      invariant Below(digits, base)
      invariant ToDigits(n, base) == Pending(m, base) + Collected(digits, base)
      decreases m
    {
      LoopStep(m, base, digits);
      digits := digits + [m % base];
      m := m / base;
    }
    s := Collected(digits, base);
  }

  /** The digits of `m` still to be produced: none once `m` is 0. */
  function Pending(m: nat, base: nat): string
    requires 2 <= base <= 36
  {
    if m == 0 then "" else ToDigits(m, base)
  }

  /** The collected digits (least significant first) rendered most significant first. */
  function Collected(digits: seq<nat>, base: nat): string
    requires 2 <= base <= 36
    requires Below(digits, base)
  {
    ReversedBound(digits, base);
    Render(Reversed(digits))
  }

  predicate Below(digits: seq<nat>, base: nat) {
    forall i :: 0 <= i < |digits| ==> digits[i] < base
  }

  lemma LoopStep(m: nat, base: nat, digits: seq<nat>)
    requires 2 <= base <= 36 && m > 0
    requires Below(digits, base)
    ensures 0 <= m / base < m && 0 <= m % base < base
    ensures Below(digits + [m % base], base)
    ensures Pending(m, base) + Collected(digits, base)
         == Pending(m / base, base) + Collected(digits + [m % base], base)
  {
    var d, q := m % base, m / base;
    DivMod(m, base);
    ReversedSnoc(digits, d);
    ReversedBound(digits, 36);
    RenderCons(d, Reversed(digits));
    PendingStep(m, base);
    Text.AppendAssoc(Pending(q, base), [DigitChar(d)], Render(Reversed(digits)));
  }

  lemma PendingStep(m: nat, base: nat)
    requires 2 <= base <= 36 && m > 0
    ensures m % base < base
    ensures Pending(m, base) == Pending(m / base, base) + [DigitChar(m % base)]
  {
    DivMod(m, base);
  }

  lemma ReversedBound(ds: seq<nat>, bound: nat)
    requires forall i :: 0 <= i < |ds| ==> ds[i] < bound
    ensures forall i :: 0 <= i < |ds| ==> Reversed(ds)[i] < bound
  {
    forall i | 0 <= i < |ds| ensures Reversed(ds)[i] < bound {
      assert Reversed(ds)[i] == ds[|ds| - 1 - i];
    }
  }

  lemma DivMod(m: nat, base: nat)
    requires 2 <= base
    ensures m % base < base
    ensures m < base ==> m / base == 0 && m % base == m
    ensures m >= base ==> m / base >= 1
    ensures m > 0 ==> m / base < m
    ensures m == (m / base) * base + m % base
  {
  }

  lemma RenderCons(d: nat, r: seq<nat>)
    requires d < 36 && forall i :: 0 <= i < |r| ==> r[i] < 36
    ensures Render([d] + r) == [DigitChar(d)] + Render(r)
  {
    assert ([d] + r)[1..] == r;
  }

  lemma ReversedSnoc(ds: seq<nat>, d: nat)
    ensures Reversed(ds + [d]) == [d] + Reversed(ds)
  {
    var a, b := Reversed(ds + [d]), [d] + Reversed(ds);
    assert |a| == |b|;
    forall i | 0 <= i < |a| ensures a[i] == b[i] {
      if i > 0 { assert (ds + [d])[|ds| - i] == ds[|ds| - i]; }
    }
  }

  // ---- round trips ----

  lemma DigitValuesSnoc(s: string, d: nat)
    requires d < 36
    ensures DigitValues(s + [DigitChar(d)]) == DigitValues(s) + [d]
  {
    DigitCharValue(d);
    assert (s + [DigitChar(d)])[..|s|] == s;
  }

  lemma {:induction false} ToDigitsAreDigits(n: nat, base: nat)
    requires 2 <= base <= 36
    ensures forall i :: 0 <= i < |ToDigits(n, base)| ==> IsDigitIn(ToDigits(n, base)[i], base)
    decreases n
  {
    DivMod(n, base);
    if n < base {
      DigitCharValue(n);
    } else {
      ToDigitsAreDigits(n / base, base);
      DigitCharValue(n % base);
      var p := ToDigits(n / base, base);
      var r := ToDigits(n, base);
      assert r == p + [DigitChar(n % base)];
      forall i | 0 <= i < |r| ensures IsDigitIn(r[i], base) {
        if i < |p| { assert r[i] == p[i]; }
      }
    }
  }

  lemma {:induction false} ToDigitsLeading(n: nat, base: nat)
    requires 2 <= base <= 36 && n > 0
    ensures ToDigits(n, base)[0] != '0'
    decreases n
  {
    DivMod(n, base);
    if n < base {
      DigitCharValue(n);
    } else {
      ToDigitsLeading(n / base, base);
      assert ToDigits(n, base)[0] == ToDigits(n / base, base)[0];
    }
  }

  lemma {:induction false} ToDigitsValues(n: nat, base: nat)
    requires 2 <= base <= 36
    ensures DigitValues(ToDigits(n, base)) == ToDigitValues(n, base)
    decreases n
  {
    DivMod(n, base);
    if n < base {
      DigitValuesSnoc([], n);
    } else {
      ToDigitsValues(n / base, base);
      DigitValuesSnoc(ToDigits(n / base, base), n % base);
    }
  }

  lemma {:induction false} ValueOfToDigitValues(n: nat, base: nat)
    requires 2 <= base <= 36
    ensures ValueOf(ToDigitValues(n, base), base) == n
    decreases n
  {
    DivMod(n, base);
    if n < base {
      assert ValueOf([n], base) == ValueOf([], base) * base + n;
    } else {
      var q, r := n / base, n % base;
      ValueOfToDigitValues(q, base);
      ValueOfSnoc(ToDigitValues(q, base), r, base);
    }
  }

  lemma ValueOfSnoc(ds: seq<nat>, d: nat, base: nat)
    ensures ValueOf(ds + [d], base) == ValueOf(ds, base) * base + d
  {
    assert (ds + [d])[..|ds|] == ds;
  }

  /** Every digit string `ToDigits` produces consists of digits of the base, starts with a non-zero digit, and denotes `n`. */
  lemma ToDigitsFacts(n: nat, base: nat)
    requires 2 <= base <= 36
    ensures forall i :: 0 <= i < |ToDigits(n, base)| ==> IsDigitIn(ToDigits(n, base)[i], base)
    ensures ValueOf(DigitValues(ToDigits(n, base)), base) == n
    ensures n > 0 ==> ToDigits(n, base)[0] != '0'
  {
    ToDigitsAreDigits(n, base);
    ToDigitsValues(n, base);
    ValueOfToDigitValues(n, base);
    if n > 0 { ToDigitsLeading(n, base); }
  }

  /** The digit values of `n`, most significant first. */
  function ToDigitValues(n: nat, base: nat): seq<nat>
    requires 2 <= base <= 36
    decreases n
  {
    if n < base then [n]
    else
      DivMod(n, base);
      ToDigitValues(n / base, base) + [n % base]
  }

  /** A plain run of digits of the base, without a misleading `0x`-style prefix, reads as its value. */
  lemma ParseDigitRun(s: string, base: nat)
    requires 2 <= base <= 36 && |s| > 0
    requires forall i :: 0 <= i < |s| ==> IsDigitIn(s[i], base)
    requires |s| >= 2 ==> s[0] != '0'
    ensures ParseInt(s, base) == Ok(ValueOf(DigitValues(s), base))
  {
    DigitOf(s, 0, base);
    DigitOf(s, |s| - 1, base);
    Unstripped(s);
    UnsignedDigitRun(s, base);
  }

  /** A literal `int()` reads as `v` reads as `-v` after a minus sign. */
  lemma ParseNegated(s: string, base: nat, v: int)
    requires 2 <= base <= 36 && |s| > 0 && !Text.IsWhitespace(s[|s| - 1])
    requires ParseUnsigned(s, base) == Ok(v)
    ensures ParseInt("-" + s, base) == Ok(-v)
  {
    NegativeSigned(s, base, v);
    ParseStripped("-" + s, s[|s| - 1], base);
  }

  lemma ParseStripped(t: string, last: char, base: nat)
    requires 2 <= base <= 36 && |t| > 0 && !Text.IsWhitespace(t[0])
    requires t[|t| - 1] == last && !Text.IsWhitespace(last)
    ensures ParseInt(t, base) == ParseSigned(t, base)
  {
    Unstripped(t);
  }

  lemma NegativeSigned(s: string, base: nat, v: int)
    requires 2 <= base <= 36 && ParseUnsigned(s, base) == Ok(v)
    ensures ParseSigned("-" + s, base) == Ok(-v)
  {
    assert ("-" + s)[1..] == s;
  }

  lemma UnsignedDigitRun(s: string, base: nat)
    requires 2 <= base <= 36 && |s| > 0
    requires forall i :: 0 <= i < |s| ==> IsDigitIn(s[i], base)
    requires |s| >= 2 ==> s[0] != '0'
    ensures ParseUnsigned(s, base) == Ok(ValueOf(DigitValues(s), base))
  {
    DigitRunWellFormed(s, base);
  }

  lemma Unstripped(t: string)
    requires |t| > 0 && !Text.IsWhitespace(t[0]) && !Text.IsWhitespace(t[|t| - 1])
    ensures StripRight(StripLeft(t)) == t
  {
  }

  lemma DigitRunWellFormed(s: string, base: nat)
    requires 2 <= base <= 36 && |s| > 0
    requires forall i :: 0 <= i < |s| ==> IsDigitIn(s[i], base)
    requires |s| >= 2 ==> s[0] != '0'
    ensures Unprefixed(s, base) == s && WellFormedDigits(s, base)
  {
  }

  lemma DigitOf(s: string, i: nat, base: nat)
    requires i < |s| && IsDigitIn(s[i], base) && 2 <= base <= 36
    ensures !Text.IsWhitespace(s[i]) && s[i] != '-' && s[i] != '+'
  {
  }

  /** `int()` reads back the base-`base` digits of every natural number. */
  lemma ParseToDigits(n: nat, base: nat)
    requires 2 <= base <= 36
    ensures ParseInt(ToDigits(n, base), base) == Ok(n)
  {
    ToDigitsFacts(n, base);
    var s := ToDigits(n, base);
    if |s| >= 2 {
      assert n >= base;
    }
    ParseDigitRun(s, base);
  }

  /** `int(str(n), 10) == n` for every integer. */
  lemma ParseDecimal(n: int)
    ensures ParseInt(Decimal(n), 10) == Ok(n)
  {
    if n >= 0 {
      ParseToDigits(n, 10);
    } else {
      assert Decimal(n) == "-" + ToDigits(-n, 10);
      ParseNegativeDecimal(-n);
    }
  }

  lemma ParseNegativeDecimal(m: nat)
    requires m > 0
    ensures ParseInt("-" + ToDigits(m, 10), 10) == Ok(-(m as int))
  {
    var s := ToDigits(m, 10);
    ToDigitsFacts(m, 10);
    DigitOf(s, |s| - 1, 10);
    UnsignedDigitRun(s, 10);
    ParseNegated(s, 10, m);
  }

  /**
   * `IntParser.loads(IntParser.dumps(n)) == n` where the decimal short-circuit is harmless:
   * in base 10, for `n >= base`, and for single decimal digits that are also digits of the base.
   */
  lemma IntRoundTrip(n: int, base: nat)
    requires 2 <= base <= 36
    requires base == 10 || n >= base || (-10 < n < 10 && -(base as int) < n < base)
    ensures ParseInt(IntDumps(n, base), base) == Ok(n)
  {
    if base == 10 {
      ParseDecimal(n);
    } else if n >= base {
      ParseToDigits(n, base);
    } else if n >= 0 {
      SmallDecimal(n, base);
      ParseToDigits(n, base);
    } else {
      RoundTripNegativeDigit(n, base);
    }
  }

  lemma SmallDecimal(n: nat, base: nat)
    requires 2 <= base <= 36 && n < 10 && n < base
    ensures Decimal(n) == ToDigits(n, base) == [DigitChar(n)]
  {
  }

  lemma RoundTripNegativeDigit(n: int, base: nat)
    requires 2 <= base <= 36 && -10 < n < 0 && -(base as int) < n
    ensures ParseInt(IntDumps(n, base), base) == Ok(n)
  {
    var d := [DigitChar(-n)];
    NegativeDigitDumps(n, base);
    SingleDigitUnsigned(-n, base);
    ParseNegated(d, base, -n);
  }

  lemma NegativeDigitDumps(n: int, base: nat)
    requires 2 <= base <= 36 && -10 < n < 0
    ensures IntDumps(n, base) == "-" + [DigitChar(-n)]
  {
  }

  lemma SingleDigitUnsigned(d: nat, base: nat)
    requires d < base <= 36 && 2 <= base
    ensures !Text.IsWhitespace(DigitChar(d))
    ensures ParseUnsigned([DigitChar(d)], base) == Ok(d)
  {
    DigitCharValue(d);
    DigitValuesSnoc([], d);
    ValueOfSnoc([], d, base);
    UnsignedDigitRun([DigitChar(d)], base);
  }

  /**
   * Between 10 and the base the decimal short-circuit breaks the round trip: the two decimal
   * digits of `n` are read back in base `base`.
   */
  lemma IntRoundTripFailsBelowBase(n: int, base: nat)
    requires 10 < base <= 36 && 10 <= n < base
    ensures IntDumps(n, base) == [DigitChar(n / 10), DigitChar(n % 10)]
    ensures ParseInt(IntDumps(n, base), base) == Ok((n / 10) * base + n % 10)
    ensures ParseInt(IntDumps(n, base), base) != Ok(n)
  {
    var hi, lo := n / 10, n % 10;
    TwoDecimalDigits(n, base);
    var s := [DigitChar(hi), DigitChar(lo)];
    TwoDigitValue(hi, lo, base);
    ParseDigitRun(s, base);
    ScaledExceeds(hi, lo, base, n);
  }

  lemma TwoDecimalDigits(n: nat, base: nat)
    requires 10 < base <= 36 && 10 <= n < base
    ensures 1 <= n / 10 < 10 && n % 10 < 10
    ensures IntDumps(n, base) == [DigitChar(n / 10), DigitChar(n % 10)]
  {
    assert Decimal(n) == ToDigits(n / 10, 10) + [DigitChar(n % 10)];
  }

  lemma TwoDigitValue(hi: nat, lo: nat, base: nat)
    requires 1 <= hi < 10 && lo < 10 && 10 < base <= 36
    ensures var s := [DigitChar(hi), DigitChar(lo)];
      && (forall i :: 0 <= i < |s| ==> IsDigitIn(s[i], base))
      && s[0] != '0'
      && ValueOf(DigitValues(s), base) == hi * base + lo
  {
    DigitCharValue(hi);
    DigitCharValue(lo);
    DigitValuesSnoc([], hi);
    DigitValuesSnoc([DigitChar(hi)], lo);
    ValueOfSnoc([], hi, base);
    ValueOfSnoc([hi], lo, base);
  }

  lemma ScaledExceeds(hi: nat, lo: nat, base: nat, n: int)
    requires 1 <= hi && 10 < base && n < base
    ensures hi * base + lo != n
  {
  }

  /** The smallest instance with the default base 36: 10 dumps as "10", which reads back as 36. */
  lemma IntRoundTripBase36Counterexample()
    ensures IntDumps(10, 36) == "10"
    ensures ParseInt("10", 36) == Ok(36)
  {
    IntRoundTripFailsBelowBase(10, 36);
  }
}
