/**
 * The string helpers of src/string_tools.cpp: trimming, lower-casing, prefix
 * test and splitting, with the algebra that the configuration loader rests on.
 */
module StringTools {
  import opened CText

  // ---- trimming -----------------------------------------------------------

  /** Neither end of `s` is white space. */
  predicate Trimmed(s: string) {
    s == [] || (!IsSpace(s[0]) && !IsSpace(s[|s| - 1]))
  }

  function TrailingSpaces(s: string): (n: nat)
    ensures n <= |s| && AllSpace(s[|s| - n..])
    ensures n < |s| ==> !IsSpace(s[|s| - n - 1])
  {
    if s == [] || !IsSpace(s[|s| - 1]) then 0
    else
      var t := s[..|s| - 1];
      var n := TrailingSpaces(t);
      assert s[|s| - n - 1..] == t[|t| - n..] + [s[|s| - 1]];
      n + 1
  }

  function LTrim(s: string): (t: string) {
    s[LeadingSpaces(s)..]
  }

  function RTrim(s: string): (t: string) {
    s[..|s| - TrailingSpaces(s)]
  }

  function Trim(s: string): (t: string) {
    LTrim(RTrim(s))
  }

  method StrLTrim(str: string) returns (s: string)
    ensures s == LTrim(str)
  {
    var first := 0;
    ghost var n := LeadingSpaces(str);
    assert forall i | 0 <= i < n :: str[i] == str[..n][i];
    while first < |str| && IsSpace(str[first])
      invariant first <= LeadingSpaces(str)
    {
      assert first < LeadingSpaces(str);
      first := first + 1;
    }
    s := str[first..];
  }

  method StrRTrim(str: string) returns (s: string)
    ensures s == RTrim(str)
  {
    hide TrailingSpaces;
    var n := |str|;
    ghost var k := |str| - TrailingSpaces(str);
    while n > 0 && IsSpace(str[n - 1])
      invariant k <= n <= |str|
    {
      n := n - 1;
    }
    if k < n {
      TrailingSpaceAt(str, n - 1);
    }
    s := str[..n];
  }

  lemma {:induction false} TrailingSpaceAt(s: string, i: int)
    requires |s| - TrailingSpaces(s) <= i < |s|
    ensures IsSpace(s[i])
  {
    hide TrailingSpaces;
    var k := |s| - TrailingSpaces(s);
    assert s[k..][i - k] == s[i];
  }

  /** The trimmed text between two runs of white space, which is the only one there is. */
  method StrTrim(str: string) returns (s: string)
    ensures s == Trim(str) && TrimsTo(str, s)
  {
    s := StrRTrim(str);
    s := StrLTrim(s);
    TrimIff(str, s);
  }

  lemma {:induction false} RTrimShape(s: string) returns (b: string)
    ensures s == RTrim(s) + b && AllSpace(b)
    ensures RTrim(s) == [] || !IsSpace(RTrim(s)[|RTrim(s)| - 1])
  {
    hide TrailingSpaces;
    b := s[|s| - TrailingSpaces(s)..];
  }

  lemma {:induction false} LTrimShape(s: string) returns (a: string)
    ensures s == a + LTrim(s) && AllSpace(a)
    ensures LTrim(s) == [] || !IsSpace(LTrim(s)[0])
    ensures LTrim(s) != [] ==> LTrim(s)[|LTrim(s)| - 1] == s[|s| - 1]
  {
    hide LeadingSpaces;
    a := s[..LeadingSpaces(s)];
  }

  /** Trimming splits its argument into white space, the trimmed core, white space. */
  lemma {:induction false} TrimShape(s: string) returns (a: string, b: string)
    ensures AllSpace(a) && AllSpace(b) && Trimmed(Trim(s))
    ensures s == a + Trim(s) + b
  {
    b := RTrimShape(s);
    a := LTrimShape(RTrim(s));
  }

  lemma {:induction false} TrailingSpacesOf(core: string, b: string)
    requires AllSpace(b) && (core == [] || !IsSpace(core[|core| - 1]))
    ensures TrailingSpaces(core + b) == |b|
  {
    var s := core + b;
    if b == [] {
      assert s == core;
    } else {
      var b' := b[..|b| - 1];
      TrailingSpacesOf(core, b');
      assert s[|s| - 1] == b[|b| - 1];
      assert s[..|s| - 1] == core + b';
    }
  }

  lemma {:induction false} RTrimOf(core: string, b: string)
    requires AllSpace(b) && (core == [] || !IsSpace(core[|core| - 1]))
    ensures RTrim(core + b) == core
  {
    TrailingSpacesOf(core, b);
  }

  lemma {:induction false} LTrimOf(a: string, core: string)
    requires AllSpace(a) && (core == [] || !IsSpace(core[0]))
    ensures LTrim(a + core) == core
  {
    LeadingSpacesUnique(a, core);
  }

  /** Any trimmed core is recovered from between white space. */
  lemma {:induction false} TrimUnique(a: string, core: string, b: string)
    requires AllSpace(a) && AllSpace(b) && Trimmed(core)
    ensures Trim(a + core + b) == core
  {
    var s := a + core + b;
    if core == [] {
      assert s == [] + (a + b);
      assert forall i | 0 <= i < |a + b| :: IsSpace((a + b)[i]);
      RTrimOf([], a + b);
      LTrimOf([], []);
    } else {
      assert (a + core)[|a + core| - 1] == core[|core| - 1];
      RTrimOf(a + core, b);
      LTrimOf(a, core);
    }
  }

  /** The text is white space, the trimmed `core`, white space. */
  ghost predicate TrimsTo(s: string, core: string) {
    Trimmed(core) && exists a: string, b: string :: AllSpace(a) && AllSpace(b) && s == a + core + b
  }

  /** Trimming decides that decomposition: it always exists, and its core is the trimmed text. */
  lemma {:induction false} TrimIff(s: string, core: string)
    ensures Trim(s) == core <==> TrimsTo(s, core)
  {
    var a, b := TrimShape(s);
    if TrimsTo(s, core) {
      var x: string, y: string :| AllSpace(x) && AllSpace(y) && s == x + core + y;
      TrimUnique(x, core, y);
    }
  }

  // ---- lower case and prefix ----------------------------------------------

  function LowerChar(c: char): (d: char) {
    if 'A' <= c <= 'Z' then 'a' + (c as int - 'A' as int) as char else c
  }

  function ToLower(s: string): (t: string)
    ensures |t| == |s|
    ensures forall i | 0 <= i < |s| :: t[i] == LowerChar(s[i])
  {
    seq(|s|, i requires 0 <= i < |s| => LowerChar(s[i]))
  }

  /** The same letter up to case, or the same character. */
  predicate SameLetter(c: char, d: char) {
    || c == d
    || ('A' <= c <= 'Z' && d as int == c as int + 32)
    || ('A' <= d <= 'Z' && c as int == d as int + 32)
  }

  /** Equal up to the case of letters. */
  predicate SameText(s: string, t: string) {
    |s| == |t| && forall i | 0 <= i < |s| :: SameLetter(s[i], t[i])
  }

  /** Comparing a lowered text with one in lower case is comparison up to case. */
  lemma {:induction false} LoweredIff(s: string, t: string)
    requires forall i | 0 <= i < |t| :: !('A' <= t[i] <= 'Z')
    ensures ToLower(s) == t <==> SameText(s, t)
  {
    if SameText(s, t) {
      forall i | 0 <= i < |s|
        ensures ToLower(s)[i] == t[i]
      {
        assert SameLetter(s[i], t[i]);
      }
    }
    if ToLower(s) == t {
      forall i | 0 <= i < |s|
        ensures SameLetter(s[i], t[i])
      {
        assert t[i] == ToLower(s)[i];
      }
    }
  }

  method StrToLower(str: string) returns (copy: string)
    ensures copy == ToLower(str) && |copy| == |str|
    ensures forall i | 0 <= i < |str| :: if 'A' <= str[i] <= 'Z' then copy[i] as int == str[i] as int + 32 else copy[i] == str[i]
  {
    copy := str;
    for i := 0 to |str|
      invariant |copy| == |str|
      invariant forall j | 0 <= j < i :: copy[j] == LowerChar(str[j])
      invariant forall j | i <= j < |str| :: copy[j] == str[j]
    {
      copy := copy[i := LowerChar(copy[i])];
    }
  }

  /** `strncmp(haystack.c_str(), needle.c_str(), needle.size()) == 0`. */
  predicate StartsWith(needle: string, haystack: string) {
    if NUL in needle then CStr(haystack) == CStr(needle) else needle <= CStr(haystack)
  }

  /** For a needle without NUL this is the prefix test on the C string. */
  lemma {:induction false} StartsWithIff(needle: string, haystack: string)
    requires NUL !in needle
    ensures StartsWith(needle, haystack) <==>
            |needle| <= |CStr(haystack)| && forall i | 0 <= i < |needle| :: CStr(haystack)[i] == needle[i]
  {
  }

  // ---- substring search ---------------------------------------------------

  predicate OccursAt(s: string, d: string, i: int) {
    0 <= i <= |s| - |d| && s[i..i + |d|] == d
  }

  /** `d` does not occur in `s`. */
  ghost predicate Free(s: string, d: string) {
    forall i :: !OccursAt(s, d, i)
  }

  function FindFrom(s: string, d: string, i: nat): (r: int)
    ensures r == -1 || (i <= r && OccursAt(s, d, r))
    decreases |s| - i
  {
    if i + |d| > |s| then -1
    else if s[i..i + |d|] == d then i
    else FindFrom(s, d, i + 1)
  }

  /** `std::string::find`: the first occurrence, or -1 for npos. */
  function Find(s: string, d: string): (r: int)
    ensures r == -1 || OccursAt(s, d, r)
  {
    FindFrom(s, d, 0)
  }

  lemma {:induction false} FindFromIsFirst(s: string, d: string, i: nat)
    ensures forall j | i <= j && (FindFrom(s, d, i) == -1 || j < FindFrom(s, d, i)) :: !OccursAt(s, d, j)
    decreases |s| - i
  {
    if i + |d| <= |s| && s[i..i + |d|] != d {
      FindFromIsFirst(s, d, i + 1);
    }
  }

  /** Nothing occurs before the position found, and nothing at all when none is found. */
  lemma {:induction false} FindIsFirst(s: string, d: string)
    ensures Find(s, d) == -1 <==> Free(s, d)
    ensures forall j | j < Find(s, d) :: !OccursAt(s, d, j)
  {
    FindFromIsFirst(s, d, 0);
  }

  // ---- splitting ----------------------------------------------------------

  /**
   * Pieces of `s` cut at successive first occurrences of `d`, at most `max` pieces
   * when `max` is positive and without a limit otherwise.
   */
  function Cut(s: string, d: string, max: int): (ps: seq<string>)
    requires d != "" || max > 0
    ensures |ps| > 0
    decreases |s|, if max > 0 then max else 0
  {
    var p := Find(s, d);
    if p == -1 || max == 1 then [s] else [s[..p]] + Cut(s[p + |d|..], d, max - 1)
  }

  /** What `str_split` returns: with limit 0 the last piece is not pushed. */
  function Split(s: string, d: string, max: int): (ps: seq<string>)
    requires d != "" || max > 0
  {
    var ps := Cut(s, d, max);
    if max != 0 then ps else ps[..|ps| - 1]
  }

  method StrSplit(str: string, delim: string, maxElem: int) returns (result: seq<string>)
    requires delim != "" || maxElem > 0
    ensures result == Split(str, delim, maxElem)
  {
    hide Cut, Find;
    var s := str;
    result := [];
    var tokens := 1;
    var pos := Find(s, delim);
    while pos != -1 && (maxElem < 0 || tokens != maxElem)
      invariant pos == Find(s, delim)
      invariant tokens >= 1 && (maxElem > 0 ==> tokens <= maxElem)
      invariant result + Cut(s, delim, maxElem - tokens + 1) == Cut(str, delim, maxElem)
      decreases |s|, if maxElem > 0 then maxElem - tokens else 0
    {
      CutStep(s, delim, maxElem - tokens + 1);
      ghost var rest := Cut(s[pos + |delim|..], delim, maxElem - tokens);
      Associate(result, s[..pos], rest);
      result := result + [s[..pos]];
      s := s[pos + |delim|..];
      tokens := tokens + 1;
      pos := Find(s, delim);
    }
    CutStep(s, delim, maxElem - tokens + 1);
    if maxElem != 0 {
      result := result + [s];
    }
  }

  /** One round of the loop, or its end. */
  lemma {:induction false} CutStep(s: string, d: string, max: int)
    requires d != "" || max > 0
    ensures Find(s, d) == -1 || max == 1 ==> Cut(s, d, max) == [s]
    ensures Find(s, d) != -1 && max != 1 ==>
              && 0 <= Find(s, d) <= Find(s, d) + |d| <= |s|
              && Cut(s, d, max) == [s[..Find(s, d)]] + Cut(s[Find(s, d) + |d|..], d, max - 1)
  {
    hide Find;
  }

  lemma {:induction false} Associate(xs: seq<string>, y: string, zs: seq<string>)
    ensures xs + ([y] + zs) == xs + [y] + zs
  {
  }

  function Join(ps: seq<string>, d: string): (s: string)
    requires |ps| > 0
  {
    if |ps| == 1 then ps[0] else ps[0] + d + Join(ps[1..], d)
  }

  /** Joining the pieces restores the input, for every delimiter and every limit. */
  lemma {:induction false} CutThenJoin(s: string, d: string, max: int)
    requires d != "" || max > 0
    ensures Join(Cut(s, d, max), d) == s
    decreases |s|, if max > 0 then max else 0
  {
    hide Cut, Find, Join;
    CutStep(s, d, max);
    var p := Find(s, d);
    if p != -1 && max != 1 {
      CutThenJoin(s[p + |d|..], d, max - 1);
      JoinCons(s[..p], Cut(s[p + |d|..], d, max - 1), d);
      AroundOccurrence(s, d, p);
    } else {
      JoinOne(s, d);
    }
  }

  lemma {:induction false} AroundOccurrence(s: string, d: string, p: int)
    requires OccursAt(s, d, p)
    ensures s == s[..p] + d + s[p + |d|..]
  {
  }

  lemma {:induction false} JoinCons(p: string, rest: seq<string>, d: string)
    requires |rest| > 0
    ensures Join([p] + rest, d) == p + d + Join(rest, d)
  {
    assert ([p] + rest)[1..] == rest;
  }

  lemma {:induction false} JoinOne(p: string, d: string)
    ensures Join([p], d) == p
  {
  }

  lemma {:induction false} OccursInPrefix(s: string, p: nat, d: string, i: int)
    requires p <= |s| && OccursAt(s[..p], d, i)
    ensures OccursAt(s, d, i)
  {
    assert s[..p][i..i + |d|] == s[i..i + |d|];
  }

  lemma {:induction false} FreeBeforeFirst(s: string, d: string)
    requires d != "" && Find(s, d) != -1
    ensures Free(s[..Find(s, d)], d)
  {
    var p := Find(s, d);
    FindIsFirst(s, d);
    forall i | OccursAt(s[..p], d, i)
      ensures OccursAt(s, d, i)
    {
      OccursInPrefix(s, p, d, i);
    }
  }

  /** Every piece but the last is free of the delimiter, the last one too unless a positive limit was reached. */
  ghost predicate WellCut(ps: seq<string>, d: string, max: int) {
    && |ps| > 0
    && (forall i | 0 <= i < |ps| - 1 :: Free(ps[i], d))
    && (max > 0 ==> |ps| <= max)
    && (Free(ps[|ps| - 1], d) || (max > 0 && |ps| == max))
  }

  lemma {:induction false} WellCutCons(p: string, rest: seq<string>, d: string, max: int)
    requires Free(p, d) && WellCut(rest, d, max - 1) && max != 1
    ensures WellCut([p] + rest, d, max)
  {
    var ps := [p] + rest;
    assert ps[|ps| - 1] == rest[|rest| - 1];
  }

  lemma {:induction false} CutPieces(s: string, d: string, max: int)
    requires d != ""
    ensures WellCut(Cut(s, d, max), d, max)
    decreases |s|, if max > 0 then max else 0
  {
    hide Cut, Find, Free;
    CutStep(s, d, max);
    var p := Find(s, d);
    if p != -1 && max != 1 {
      FreeBeforeFirst(s, d);
      CutPieces(s[p + |d|..], d, max - 1);
      WellCutCons(s[..p], Cut(s[p + |d|..], d, max - 1), d, max);
    } else {
      FindIsFirst(s, d);
    }
  }

  /** All nonpositive limits mean "no limit". */
  lemma {:induction false} CutUnlimited(s: string, d: string, max: int)
    requires d != "" && max <= 0
    ensures Cut(s, d, max) == Cut(s, d, -1)
    decreases |s|
  {
    hide Cut, Find;
    CutStep(s, d, max);
    CutStep(s, d, -1);
    var p := Find(s, d);
    if p != -1 {
      CutUnlimited(s[p + |d|..], d, max - 1);
      CutUnlimited(s[p + |d|..], d, -2);
    }
  }

  /** No proper nonempty prefix of `d` is also a suffix of it. */
  /** With limit 0 the unlimited pieces come without the last one. */
  lemma {:induction false} SplitZero(s: string, d: string)
    requires d != ""
    ensures
      var all := Split(s, d, -1);
      |all| > 0 && Split(s, d, 0) == all[..|all| - 1]
  {
    CutUnlimited(s, d, 0);
  }

  predicate Unbordered(d: string) {
    forall k | 0 < k < |d| :: d[..k] != d[|d| - k..]
  }

  ghost predicate AllFree(ps: seq<string>, d: string) {
    forall i | 0 <= i < |ps| :: Free(ps[i], d)
  }

  /** An occurrence that starts inside `p` lies inside `p` or overlaps the delimiter in a border. */
  lemma {:induction false} OverlapIsBorder(p: string, d: string, rest: string, j: int)
    requires OccursAt(p + d + rest, d, j) && j < |p|
    ensures OccursAt(p, d, j) || !Unbordered(d)
  {
    var s := p + d + rest;
    if j + |d| <= |p| {
      assert s[j..j + |d|] == p[j..j + |d|];
    } else {
      var k := j + |d| - |p|;
      assert s[j..j + |d|][|d| - k..] == s[|p|..|p| + k] == d[..k];
      assert d[|d| - k..] == d[..k];
    }
  }

  lemma {:induction false} FindAfterFree(p: string, d: string, rest: string)
    requires d != "" && Free(p, d) && Unbordered(d)
    ensures Find(p + d + rest, d) == |p|
  {
    var s := p + d + rest;
    assert s[|p|..|p| + |d|] == d;
    assert OccursAt(s, d, |p|);
    FindIsFirst(s, d);
    var r := Find(s, d);
    if r < |p| {
      OverlapIsBorder(p, d, rest, r);
    }
  }

  lemma {:induction false} JoinThenCut(ps: seq<string>, d: string)
    requires d != "" && Unbordered(d) && |ps| > 0 && AllFree(ps, d)
    ensures Cut(Join(ps, d), d, -1) == ps
  {
    hide Cut, Find, Free, Join, Unbordered;
    CutStep(Join(ps, d), d, -1);
    if |ps| > 1 {
      var rest := Join(ps[1..], d);
      assert [ps[0]] + ps[1..] == ps;
      JoinCons(ps[0], ps[1..], d);
      FindAfterFree(ps[0], d, rest);
      JoinThenCut(ps[1..], d);
      assert Join(ps, d)[|ps[0]| + |d|..] == rest;
      assert Join(ps, d)[..|ps[0]|] == ps[0];
      CutUnlimited(rest, d, -2);
    } else {
      FindIsFirst(ps[0], d);
      assert ps == [ps[0]];
      JoinOne(ps[0], d);
    }
  }

  /** With a border of length `k`, the list of the delimiter's first part and "" is not recovered. */
  lemma {:induction false} BorderedWitness(d: string, k: nat)
    requires 0 < k < |d| && d[..k] == d[|d| - k..]
    ensures
      var ps := [d[..|d| - k], ""];
      AllFree(ps, d) && Cut(Join(ps, d), d, -1) != ps
  {
    var u := d[..|d| - k];
    assert Join([u, ""], d) == u + d by {
      assert [u, ""][1..] == [""];
    }
    SelfOverlap(d, k);
    CutAtStart(u + d, d);
  }

  lemma {:induction false} SelfOverlap(d: string, k: nat)
    requires 0 < k < |d| && d[..k] == d[|d| - k..]
    ensures OccursAt(d[..|d| - k] + d, d, 0)
  {
    var u := d[..|d| - k];
    assert (u + d)[0..|d|] == u + d[..k];
    assert u + d[|d| - k..] == d;
  }

  lemma {:induction false} CutAtStart(s: string, d: string)
    requires d != "" && OccursAt(s, d, 0)
    ensures Cut(s, d, -1)[0] == ""
  {
    FindIsFirst(s, d);
    assert Find(s, d) == 0;
  }

  /**
   * Unlimited splitting inverts joining on all lists of delimiter-free pieces exactly
   * when the delimiter is unbordered.
   */
  lemma {:induction false} SplitInvertsJoin(d: string)
    requires d != ""
    ensures Unbordered(d) <==>
            forall ps: seq<string> | |ps| > 0 && AllFree(ps, d) :: Cut(Join(ps, d), d, -1) == ps
  {
    if Unbordered(d) {
      forall ps: seq<string> | |ps| > 0 && AllFree(ps, d)
        ensures Cut(Join(ps, d), d, -1) == ps
      {
        JoinThenCut(ps, d);
      }
    } else {
      var k :| 0 < k < |d| && d[..k] == d[|d| - k..];
      BorderedWitness(d, k);
    }
  }

  /** A piece is free of a one-character delimiter when it does not contain that character. */
  lemma {:induction false} FreeOfChar(s: string, c: char)
    ensures Free(s, [c]) <==> c !in s
  {
    forall i | OccursAt(s, [c], i)
      ensures c == s[i]
    {
      assert s[i..i + 1][0] == c;
    }
    if c in s {
      var i :| 0 <= i < |s| && s[i] == c;
      assert OccursAt(s, [c], i);
    }
  }

  /** For one-character delimiters, unlimited splitting inverts joining. */
  lemma {:induction false} SplitJoinChar(ps: seq<string>, c: char)
    requires |ps| > 0 && forall i | 0 <= i < |ps| :: c !in ps[i]
    ensures Split(Join(ps, [c]), [c], -1) == ps
  {
    forall i | 0 <= i < |ps|
      ensures Free(ps[i], [c])
    {
      FreeOfChar(ps[i], c);
    }
    JoinThenCut(ps, [c]);
  }
}
