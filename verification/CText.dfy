/**
 * Text as the C library sees it: character classes, the part of a buffer before
 * its NUL, character search, `strtol`, `atoi`, and decimal printing.
 */
module CText {
  import opened Machine

  const NUL: char := '\0'
  const LONG_MAX: int := 0x7FFF_FFFF_FFFF_FFFF
  const LONG_MIN: int := -0x8000_0000_0000_0000

  /** `isspace` in the "C" locale. */
  predicate IsSpace(c: char) {
    c == ' ' || '\t' <= c <= '\r'
  }

  /** The six white-space characters. */
  lemma {:induction false} SpaceIff(c: char)
    ensures IsSpace(c) <==> c in [' ', '\t', '\n', '\U{0B}', '\U{0C}', '\r']
  {
  }

  predicate IsDigit(c: char) {
    '0' <= c <= '9'
  }

  predicate AllDigits(s: string) {
    forall i | 0 <= i < |s| :: IsDigit(s[i])
  }

  predicate AllSpace(s: string) {
    forall i | 0 <= i < |s| :: IsSpace(s[i])
  }

  // ---- character search ---------------------------------------------------

  /** Index of the first `c` in `s`, or -1. */
  function IndexOf(s: string, c: char): (i: int)
    ensures -1 <= i < |s|
    ensures i == -1 <==> c !in s
    ensures i >= 0 ==> s[i] == c && c !in s[..i]
  {
    if s == [] then -1
    else if s[0] == c then 0
    else
      var r := IndexOf(s[1..], c);
      if r == -1 then -1
      else
        assert s[..r + 1] == [s[0]] + s[1..][..r];
        r + 1
  }

  /** Index of the last `c` in `s`, or -1. */
  function LastIndexOf(s: string, c: char): (i: int)
    ensures -1 <= i < |s|
    ensures i == -1 <==> c !in s
    ensures i >= 0 ==> s[i] == c && c !in s[i + 1..]
  {
    if s == [] then -1
    else
      var n := |s| - 1;
      assert s == s[..n] + [s[n]];
      if s[n] == c then n
      else
        var r := LastIndexOf(s[..n], c);
        assert r >= 0 ==> s[r + 1..] == s[..n][r + 1..] + [s[n]];
        r
  }

  lemma {:induction false} IndexOfUnique(a: string, c: char, b: string)
    requires c !in a
    ensures IndexOf(a + [c] + b, c) == |a|
  {
    var s := a + [c] + b;
    var i := IndexOf(s, c);
    assert s[|a|] == c && s[..|a|] == a;
    assert i >= 0;
    assert forall k | 0 <= k < i :: s[k] == s[..i][k];
    assert forall k | 0 <= k < |a| :: s[k] == a[k];
  }

  lemma {:induction false} LastIndexOfUnique(a: string, c: char, b: string)
    requires c !in b
    ensures LastIndexOf(a + [c] + b, c) == |a|
  {
    var s := a + [c] + b;
    if b == [] {
      assert s[|s| - 1] == c;
    } else {
      var b' := b[..|b| - 1];
      assert s[..|s| - 1] == a + [c] + b' && s[|s| - 1] == b[|b| - 1];
      LastIndexOfUnique(a, c, b');
    }
  }

  lemma {:induction false} LastIndexOfSnoc(s: string, x: char, c: char)
    ensures LastIndexOf(s + [x], c) == if x == c then |s| else LastIndexOf(s, c)
  {
    assert (s + [x])[..|s|] == s;
  }

  /** The C string a buffer holds: everything before its first NUL. */
  function CStr(s: string): (t: string)
    ensures NUL !in t
    ensures |t| <= |s| && t == s[..|t|]
    ensures |t| < |s| ==> s[|t|] == NUL
  {
    var i := IndexOf(s, NUL);
    if i == -1 then s else s[..i]
  }

  lemma {:induction false} CStrUnique(t: string, rest: string)
    requires NUL !in t
    ensures CStr(t + [NUL] + rest) == t
  {
    IndexOfUnique(t, NUL, rest);
  }

  // ---- strtol and atoi ----------------------------------------------------

  function LeadingSpaces(s: string): (n: nat)
    ensures n <= |s| && AllSpace(s[..n])
    ensures n < |s| ==> !IsSpace(s[n])
  {
    if s == [] || !IsSpace(s[0]) then 0
    else
      var n := LeadingSpaces(s[1..]);
      assert s[..n + 1] == [s[0]] + s[1..][..n];
      n + 1
  }

  function LeadingDigits(s: string): (n: nat)
    ensures n <= |s| && AllDigits(s[..n])
    ensures n < |s| ==> !IsDigit(s[n])
  {
    if s == [] || !IsDigit(s[0]) then 0
    else
      var n := LeadingDigits(s[1..]);
      assert s[..n + 1] == [s[0]] + s[1..][..n];
      n + 1
  }

  function DigitValue(c: char): (d: nat)
    requires IsDigit(c)
    ensures d < 10
  {
    c as int - '0' as int
  }

  /** The number a digit string of any length denotes. */
  function DigitsValue(s: string): (v: nat)
    requires AllDigits(s)
  {
    if s == [] then 0 else 10 * DigitsValue(s[..|s| - 1]) + DigitValue(s[|s| - 1])
  }

  /** Result of `strtol(s, &end, 10)`: the number, the offset of `end`, and whether errno became ERANGE. */
  datatype StrtolResult = StrtolResult(number: int, end: nat, range: bool)

  function Clamp(x: int, end: nat): (r: StrtolResult) {
    if x > LONG_MAX then StrtolResult(LONG_MAX, end, true)
    else if x < LONG_MIN then StrtolResult(LONG_MIN, end, true)
    else StrtolResult(x, end, false)
  }

  /** The digits of a numeral, after `skipped` characters of white space and sign. */
  function StrtolDigits(t: string, neg: bool, skipped: nat): (r: StrtolResult) {
    var n := LeadingDigits(t);
    if n == 0 then StrtolResult(0, 0, false)
    else
      var v: int := DigitsValue(t[..n]);
      Clamp(if neg then -v else v, skipped + n)
  }

  function StrtolSigned(t: string, skipped: nat): (r: StrtolResult) {
    if t != [] && t[0] == '-' then StrtolDigits(t[1..], true, skipped + 1)
    else if t != [] && t[0] == '+' then StrtolDigits(t[1..], false, skipped + 1)
    else StrtolDigits(t, false, skipped)
  }

  function Strtol(s: string): (r: StrtolResult)
    ensures r.end <= |s|
  {
    var w := LeadingSpaces(s);
    StrtolSigned(s[w..], w)
  }

  /** `atoi` as the GNU C library computes it: `strtol` truncated to `int`. */
  function Atoi(s: string): (r: i32) {
    Signed32(Strtol(s).number)
  }

  lemma {:induction false} StrtolAllDigits(ds: string, neg: bool, skipped: nat)
    requires AllDigits(ds) && ds != []
    ensures
      var v: int := DigitsValue(ds);
      StrtolDigits(ds, neg, skipped) == Clamp(if neg then -v else v, skipped + |ds|)
  {
    assert LeadingDigits(ds) == |ds| && ds[..|ds|] == ds;
  }

  lemma {:induction false} StrtolSignedDigits(sign: string, ds: string, skipped: nat)
    requires AllDigits(ds) && ds != [] && (sign == "" || sign == "-" || sign == "+")
    ensures
      var v: int := DigitsValue(ds);
      StrtolSigned(sign + ds, skipped) == Clamp(if sign == "-" then -v else v, skipped + |sign| + |ds|)
  {
    if sign == "" {
      assert sign + ds == ds;
      StrtolAllDigits(ds, false, skipped);
    } else {
      assert (sign + ds)[0] == sign[0] && (sign + ds)[1..] == ds;
      StrtolAllDigits(ds, sign == "-", skipped + 1);
    }
  }

  /** White space, an optional sign and at least one digit. */
  predicate IsNumeral(w: string, sign: string, ds: string) {
    AllSpace(w) && (sign == "" || sign == "-" || sign == "+") && AllDigits(ds) && ds != []
  }

  /** On text of the form spaces, optional sign, digits, `strtol` consumes everything. */
  lemma {:induction false} StrtolNumeral(w: string, sign: string, ds: string)
    requires IsNumeral(w, sign, ds)
    ensures
      var v: int := DigitsValue(ds);
      Strtol(w + (sign + ds)) == Clamp(if sign == "-" then -v else v, |w| + |sign| + |ds|)
  {
    var t := sign + ds;
    assert t[0] == (if sign == "" then ds[0] else sign[0]);
    LeadingSpacesUnique(w, t);
    assert (w + t)[|w|..] == t;
    StrtolSignedDigits(sign, ds, |w|);
  }

  lemma {:induction false} LeadingDigitsUnique(ds: string, rest: string)
    requires AllDigits(ds) && (rest == [] || !IsDigit(rest[0]))
    ensures LeadingDigits(ds + rest) == |ds|
  {
    if ds == [] {
      assert ds + rest == rest;
    } else {
      assert (ds + rest)[1..] == ds[1..] + rest;
      LeadingDigitsUnique(ds[1..], rest);
    }
  }

  /** Text after the digits is left alone. */
  lemma {:induction false} StrtolStops(w: string, sign: string, ds: string, rest: string)
    requires IsNumeral(w, sign, ds) && (rest == [] || !IsDigit(rest[0]))
    ensures Strtol(w + (sign + (ds + rest))) == Strtol(w + (sign + ds))
  {
    hide LeadingDigits, LeadingSpaces, DigitsValue;
    var long, short := sign + (ds + rest), sign + ds;
    assert long[0] == short[0] == (if sign == "" then ds[0] else sign[0]);
    LeadingSpacesUnique(w, long);
    LeadingSpacesUnique(w, short);
    assert (w + long)[|w|..] == long && (w + short)[|w|..] == short;
    SignedStops(sign, ds, rest, |w|);
  }

  lemma {:induction false} SignedStops(sign: string, ds: string, rest: string, skipped: nat)
    requires IsNumeral("", sign, ds) && (rest == [] || !IsDigit(rest[0]))
    ensures StrtolSigned(sign + (ds + rest), skipped) == StrtolSigned(sign + ds, skipped)
  {
    hide StrtolDigits;
    DigitsStop(ds, rest, sign == "-", skipped + |sign|);
    if sign == "" {
      assert sign + (ds + rest) == ds + rest && sign + ds == ds;
    } else {
      assert (sign + (ds + rest))[1..] == ds + rest && (sign + ds)[1..] == ds;
    }
  }

  lemma {:induction false} DigitsStop(ds: string, rest: string, neg: bool, skipped: nat)
    requires AllDigits(ds) && ds != [] && (rest == [] || !IsDigit(rest[0]))
    ensures StrtolDigits(ds + rest, neg, skipped) == StrtolDigits(ds, neg, skipped)
  {
    hide LeadingDigits, DigitsValue;
    LeadingDigitsUnique(ds, rest);
    LeadingDigitsUnique(ds, "");
    assert ds + "" == ds && (ds + rest)[..|ds|] == ds && ds[..|ds|] == ds;
  }

  lemma {:induction false} DigitsConsumed(t: string, neg: bool, skipped: nat)
    requires StrtolDigits(t, neg, skipped).end == skipped + |t| > 0
    ensures AllDigits(t) && t != []
  {
    hide LeadingDigits, DigitsValue;
    var n := LeadingDigits(t);
    assert n == |t| && t[..n] == t;
  }

  lemma {:induction false} SignedConsumed(t: string, skipped: nat) returns (sign: string, ds: string)
    requires StrtolSigned(t, skipped).end == skipped + |t| > 0
    ensures IsNumeral("", sign, ds) && t == sign + ds
  {
    hide StrtolDigits;
    if t != [] && (t[0] == '-' || t[0] == '+') {
      sign, ds := t[..1], t[1..];
      DigitsConsumed(ds, t[0] == '-', skipped + 1);
    } else {
      sign, ds := "", t;
      DigitsConsumed(ds, false, skipped);
    }
  }

  /** Conversely, a text that `strtol` consumes to its end is such a numeral. */
  lemma {:induction false} StrtolConsumes(s: string) returns (w: string, sign: string, ds: string)
    requires Strtol(s).end == |s| && s != []
    ensures IsNumeral(w, sign, ds) && s == w + (sign + ds)
  {
    hide StrtolSigned, LeadingSpaces;
    w := s[..LeadingSpaces(s)];
    var t := s[|w|..];
    sign, ds := SignedConsumed(t, |w|);
    assert s == w + t;
  }

  lemma {:induction false} LeadingSpacesUnique(w: string, rest: string)
    requires AllSpace(w) && (rest == [] || !IsSpace(rest[0]))
    ensures LeadingSpaces(w + rest) == |w|
  {
    if w == [] {
      assert w + rest == rest;
    } else {
      assert (w + rest)[1..] == w[1..] + rest;
      LeadingSpacesUnique(w[1..], rest);
    }
  }

  // ---- decimal printing ---------------------------------------------------

  function DigitChar(d: nat): (c: char)
    requires d < 10
    ensures IsDigit(c) && DigitValue(c) == d
  {
    '0' + d as char
  }

  /** Decimal representation without leading zeros. */
  function Decimal(n: nat): (s: string)
    ensures |s| > 0 && AllDigits(s)
  {
    if n < 10 then [DigitChar(n)] else Decimal(n / 10) + [DigitChar(n % 10)]
  }

  /** What `str_from_number` streams out for an integer. */
  function FromNumber(i: int): (s: string) {
    if i < 0 then "-" + Decimal(-i) else Decimal(i)
  }

  lemma {:induction false} DecimalValue(n: nat)
    ensures DigitsValue(Decimal(n)) == n
  {
    var s := Decimal(n);
    if n >= 10 {
      DecimalValue(n / 10);
      assert s[..|s| - 1] == Decimal(n / 10);
    } else {
      assert s[..|s| - 1] == [];
    }
  }

  lemma {:induction false} StrtolPlain(sign: string, ds: string, i: int)
    requires AllDigits(ds) && ds != [] && LONG_MIN < i <= LONG_MAX
    requires if i < 0 then sign == "-" && DigitsValue(ds) == -i else sign == "" && DigitsValue(ds) == i
    ensures Strtol(sign + ds) == StrtolResult(i, |sign + ds|, false)
  {
    StrtolNumeral("", sign, ds);
    assert "" + (sign + ds) == sign + ds;
  }

  lemma {:induction false} StrtolOfPrinted(i: int)
    requires LONG_MIN < i <= LONG_MAX
    ensures Strtol(FromNumber(i)) == StrtolResult(i, |FromNumber(i)|, false)
  {
    if i < 0 {
      DecimalValue(-i);
      StrtolPlain("-", Decimal(-i), i);
    } else {
      DecimalValue(i);
      StrtolPlain("", Decimal(i), i);
      assert "" + Decimal(i) == Decimal(i);
    }
  }

  /** Printing a C `int` and reading it back with `atoi` is the identity. */
  lemma {:induction false} AtoiOfPrinted(i: i32)
    ensures Atoi(FromNumber(i)) == i
  {
    assert Strtol(FromNumber(i)).number == i by {
      StrtolOfPrinted(i);
    }
    SignedIdentity(i);
  }
}
