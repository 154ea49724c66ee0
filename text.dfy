/**
 * String helpers with JavaScript's meaning: the `\s` class and `trim`, `\d`, ASCII case
 * folding, `substring(0, n)`, `includes`, `startsWith`/`endsWith`, a first-occurrence
 * `replace`, `join`, and the decimal text of an integer.
 */
module Text {
  import opened Wrappers

  // ---------------------------------------------------------------------------------------
  // Character classes

  predicate IsDigit(c: char) { '0' <= c <= '9' }

  predicate AllDigits(s: string) { forall i | 0 <= i < |s| :: IsDigit(s[i]) }

  predicate IsHexDigit(c: char) { IsDigit(c) || 'a' <= c <= 'f' || 'A' <= c <= 'F' }

  /** JavaScript's `\s`: WhiteSpace and LineTerminator, the same set `trim` removes. */
  predicate IsSpace(c: char) {
    || c == '\t' || c == '\n' || c == '\U{000B}' || c == '\U{000C}' || c == '\r' || c == ' '
    || c == '\U{00A0}' || c == '\U{1680}' || ('\U{2000}' <= c <= '\U{200A}')
    || c == '\U{2028}' || c == '\U{2029}' || c == '\U{202F}' || c == '\U{205F}'
    || c == '\U{3000}' || c == '\U{FEFF}'
  }

  function DigitValue(c: char): (d: nat)
    requires IsDigit(c)
    ensures d < 10
  {
    c as int - '0' as int
  }

  function DigitChar(d: nat): (c: char)
    requires d < 10
    ensures IsDigit(c) && DigitValue(c) == d
  {
    ('0' as int + d) as char
  }

  // ---------------------------------------------------------------------------------------
  // Digits: `s.replace(/\D/g, "")`

  /** The digit characters of `s`, in order. */
  function Digits(s: string): (r: string)
    ensures AllDigits(r) && |r| <= |s|
  {
    if s == [] then [] else (if IsDigit(s[0]) then [s[0]] else []) + Digits(s[1..])
  }

  lemma {:induction false} DigitsConcat(a: string, b: string)
    ensures Digits(a + b) == Digits(a) + Digits(b)
  {
    if a == [] {
      assert a + b == b;
    } else {
      assert (a + b)[1..] == a[1..] + b;
      DigitsConcat(a[1..], b);
    }
  }

  lemma {:induction false} DigitsOfDigits(s: string)
    requires AllDigits(s)
    ensures Digits(s) == s
  {
    if s != [] {
      DigitsOfDigits(s[1..]);
    }
  }

  lemma {:induction false} DigitsOfNonDigits(s: string)
    requires forall i | 0 <= i < |s| :: !IsDigit(s[i])
    ensures Digits(s) == []
  {
    if s != [] {
      DigitsOfNonDigits(s[1..]);
    }
  }

  /** `s.substring(0, n)` for `n >= 0`. */
  function Take(s: string, n: nat): (r: string)
    ensures |r| == if n < |s| then n else |s|
    ensures r == s[..|r|]
  {
    if n < |s| then s[..n] else s
  }

  // ---------------------------------------------------------------------------------------
  // Whitespace

  /** The index just past the run of white space that starts at `i` (greedy `\s*`). */
  function SkipSpaces(s: string, i: nat): (j: nat)
    requires i <= |s|
    ensures i <= j <= |s|
    ensures forall k | i <= k < j :: IsSpace(s[k])
    ensures j == |s| || !IsSpace(s[j])
    decreases |s| - i
  {
    if i < |s| && IsSpace(s[i]) then SkipSpaces(s, i + 1) else i
  }

  /** The characters of `s` that are not white space, in order. */
  function NonSpace(s: string): string {
    if s == [] then [] else (if IsSpace(s[0]) then [] else [s[0]]) + NonSpace(s[1..])
  }

  lemma {:induction false} NonSpaceConcat(a: string, b: string)
    ensures NonSpace(a + b) == NonSpace(a) + NonSpace(b)
  {
    if a == [] {
      assert a + b == b;
    } else {
      assert (a + b)[1..] == a[1..] + b;
      NonSpaceConcat(a[1..], b);
    }
  }

  lemma {:induction false} NonSpaceOfSpaces(s: string)
    requires forall i | 0 <= i < |s| :: IsSpace(s[i])
    ensures NonSpace(s) == []
  {
    if s != [] {
      NonSpaceOfSpaces(s[1..]);
    }
  }

  /** Length of `s` once trailing white space is dropped. */
  function TrimEndLength(s: string): (n: nat)
    ensures n <= |s|
    ensures forall k | n <= k < |s| :: IsSpace(s[k])
    ensures n == 0 || !IsSpace(s[n - 1])
  {
    if s == [] then 0 else if IsSpace(s[|s| - 1]) then TrimEndLength(s[..|s| - 1]) else |s|
  }

  /** Dropping white space at both ends keeps the non-blank characters. */
  lemma NonSpaceOfSlice(s: string, a: nat, b: nat)
    requires a <= b <= |s|
    requires forall k | 0 <= k < a :: IsSpace(s[k])
    requires forall k | b <= k < |s| :: IsSpace(s[k])
    ensures NonSpace(s[a..b]) == NonSpace(s)
  {
    SpacedSlice(s, a, b);
    NonSpaceFramed(s[..a], s[a..b], s[b..]);
  }

  lemma SpacedSlice(s: string, a: nat, b: nat)
    requires a <= b <= |s|
    requires forall k | 0 <= k < a :: IsSpace(s[k])
    requires forall k | b <= k < |s| :: IsSpace(s[k])
    ensures s == s[..a] + (s[a..b] + s[b..])
    ensures forall i | 0 <= i < a :: IsSpace(s[..a][i])
    ensures forall i | 0 <= i < |s| - b :: IsSpace(s[b..][i])
  {
    var t := s[a..];
    assert t[..b - a] == s[a..b];
    assert t[b - a..] == s[b..];
    assert t == s[a..b] + s[b..];
    assert s == s[..a] + t;
  }

  lemma NonSpaceFramed(x: string, m: string, y: string)
    requires forall i | 0 <= i < |x| :: IsSpace(x[i])
    requires forall i | 0 <= i < |y| :: IsSpace(y[i])
    ensures NonSpace(x + (m + y)) == NonSpace(m)
  {
    NonSpaceConcat(x, m + y);
    NonSpaceConcat(m, y);
    NonSpaceOfSpaces(x);
    NonSpaceOfSpaces(y);
    assert NonSpace(m) + [] == NonSpace(m);
  }

  /** `s.trim()`: the slice of `s` left once white space is dropped at both ends. */
  function Trim(s: string): (r: string)
    ensures |r| <= |s|
    ensures r == [] || (!IsSpace(r[0]) && !IsSpace(r[|r| - 1]))
    ensures NonSpace(r) == NonSpace(s)
    ensures SkipSpaces(s, 0) + |r| <= |s| && r == s[SkipSpaces(s, 0)..SkipSpaces(s, 0) + |r|]
  {
    var a := SkipSpaces(s, 0);
    var n := TrimEndLength(s[a..]);
    TrimSlice(s, a, n);
    s[a..a + n]
  }

  lemma TrimSlice(s: string, a: nat, n: nat)
    requires a <= |s| && forall k | 0 <= k < a :: IsSpace(s[k])
    requires a == |s| || !IsSpace(s[a])
    requires n <= |s[a..]| && forall k | n <= k < |s[a..]| :: IsSpace(s[a..][k])
    requires n == 0 || !IsSpace(s[a..][n - 1])
    ensures a + n <= |s|
    ensures n == 0 || (!IsSpace(s[a..a + n][0]) && !IsSpace(s[a..a + n][n - 1]))
    ensures NonSpace(s[a..a + n]) == NonSpace(s)
  {
    TrimEnds(s, a, n);
    NonSpaceOfSlice(s, a, a + n);
  }

  lemma TrimEnds(s: string, a: nat, n: nat)
    requires a <= |s| && n <= |s[a..]|
    requires forall k | n <= k < |s[a..]| :: IsSpace(s[a..][k])
    requires n == 0 || !IsSpace(s[a..][n - 1])
    requires a == |s| || !IsSpace(s[a])
    ensures a + n <= |s|
    ensures forall k | a + n <= k < |s| :: IsSpace(s[k])
    ensures n > 0 ==> !IsSpace(s[a]) && !IsSpace(s[a + n - 1])
  {
    var t := s[a..];
    forall k | a + n <= k < |s| ensures IsSpace(s[k]) {
      assert s[k] == t[k - a];
    }
    if n > 0 {
      assert s[a + n - 1] == t[n - 1];
    }
  }

  /** Trimming a text that neither starts nor ends with white space leaves it unchanged. */
  lemma TrimUnpadded(s: string)
    requires s == [] || (!IsSpace(s[0]) && !IsSpace(s[|s| - 1]))
    ensures Trim(s) == s
  {
    assert SkipSpaces(s, 0) == 0;
    assert s[0..] == s;
  }

  /** `s.replace(/\s+/g, ' ')`: every maximal run of white space becomes one blank. */
  function CollapseSpaces(s: string): (r: string)
    ensures forall i | 0 <= i < |r| :: IsSpace(r[i]) ==> r[i] == ' '
    ensures forall i | 0 <= i < |r| - 1 :: !(IsSpace(r[i]) && IsSpace(r[i + 1]))
    ensures |s| > 0 ==> |r| > 0 && r[0] == (if IsSpace(s[0]) then ' ' else s[0])
    ensures s == [] ==> r == []
    ensures NonSpace(r) == NonSpace(s)
    decreases |s|
  {
    if s == [] then []
    else if IsSpace(s[0]) then
      var j := SkipSpaces(s, 0);
      var rest := s[j..];
      assert s == s[..j] + rest;
      NonSpaceConcat(s[..j], rest);
      NonSpaceOfSpaces(s[..j]);
      [' '] + CollapseSpaces(rest)
    else
      assert s == [s[0]] + s[1..];
      [s[0]] + CollapseSpaces(s[1..])
  }

  /**
   * The `cleanText` helper of the scanner: white space collapsed to single blanks and trimmed.
   * The result keeps every non-blank character of `s`, in order, and no other white space.
   */
  function CleanText(s: string): (r: string)
    ensures forall i | 0 <= i < |r| :: IsSpace(r[i]) ==> r[i] == ' '
    ensures forall i | 0 <= i < |r| - 1 :: !(IsSpace(r[i]) && IsSpace(r[i + 1]))
    ensures r == [] || (!IsSpace(r[0]) && !IsSpace(r[|r| - 1]))
    ensures NonSpace(r) == NonSpace(s)
  {
    var c := CollapseSpaces(s);
    var r := Trim(c);
    CollapsedSlice(c, SkipSpaces(c, 0), |r|);
    r
  }

  /** A slice of collapsed text is collapsed. */
  lemma CollapsedSlice(c: string, a: nat, m: nat)
    requires forall i | 0 <= i < |c| :: IsSpace(c[i]) ==> c[i] == ' '
    requires forall i | 0 <= i < |c| - 1 :: !(IsSpace(c[i]) && IsSpace(c[i + 1]))
    requires a + m <= |c|
    ensures var r := c[a..a + m];
      && (forall i | 0 <= i < |r| :: IsSpace(r[i]) ==> r[i] == ' ')
      && (forall i | 0 <= i < |r| - 1 :: !(IsSpace(r[i]) && IsSpace(r[i + 1])))
  {
    var r := c[a..a + m];
    assert forall i | 0 <= i < |r| :: r[i] == c[a + i];
  }

  // ---------------------------------------------------------------------------------------
  // Case mapping. `toLowerCase`/`toUpperCase` map each ASCII letter, and also the three
  // non-ASCII letters whose one-character case mapping is an ASCII letter: KELVIN SIGN
  // (U+212A) lower-cases to `k`, DOTLESS I (U+0131) upper-cases to `I` and LONG S (U+017F)
  // to `S`. Other non-ASCII letters are left as they are, which cannot change whether an
  // ASCII word occurs in the result. A case-insensitive regular expression without the `u`
  // flag folds ASCII letters only, so `SameLetterI` uses the ASCII mapping alone.

  /** `toLowerCase` on one character. */
  function LowerChar(c: char): char {
    if 'A' <= c <= 'Z' then (c as int + 32) as char
    else if c == '\U{212A}' then 'k'
    else c
  }

  /** ASCII upper-casing, as a regular expression's `/i` folds letters. */
  function UpperChar(c: char): char {
    if 'a' <= c <= 'z' then (c as int - 32) as char else c
  }

  /** `toUpperCase` on one character. */
  function CaseUpperChar(c: char): char {
    if c == '\U{0131}' then 'I'
    else if c == '\U{017F}' then 'S'
    else UpperChar(c)
  }

  function ToLower(s: string): (r: string)
    ensures |r| == |s| && forall i | 0 <= i < |s| :: r[i] == LowerChar(s[i])
  {
    seq(|s|, i requires 0 <= i < |s| => LowerChar(s[i]))
  }

  function ToUpper(s: string): (r: string)
    ensures |r| == |s| && forall i | 0 <= i < |s| :: r[i] == CaseUpperChar(s[i])
  {
    seq(|s|, i requires 0 <= i < |s| => CaseUpperChar(s[i]))
  }

  /** Character equality under a case-insensitive regular expression with an ASCII pattern. */
  predicate SameLetterI(c: char, d: char) { UpperChar(c) == UpperChar(d) }

  /** `s` begins with `p`, letters compared case-insensitively. */
  predicate StartsWithI(s: string, p: string) {
    |p| <= |s| && forall k | 0 <= k < |p| :: SameLetterI(s[k], p[k])
  }

  // ---------------------------------------------------------------------------------------
  // Searching

  predicate StartsWith(s: string, p: string) { |p| <= |s| && s[..|p|] == p }

  predicate EndsWith(s: string, p: string) { |p| <= |s| && s[|s| - |p|..] == p }

  predicate OccursAt(s: string, t: string, i: int) {
    0 <= i && i + |t| <= |s| && s[i..i + |t|] == t
  }

  /** `s.includes(t)`. */
  predicate Contains(s: string, t: string) {
    exists i | 0 <= i <= |s| :: OccursAt(s, t, i)
  }

  /** The first index at or after `from` where `t` occurs in `s` (`indexOf`). */
  function IndexOfFrom(s: string, t: string, from: nat): (r: Option<nat>)
    requires from <= |s|
    ensures r.Some? ==> from <= r.value && OccursAt(s, t, r.value)
    ensures r.Some? ==> forall j | from <= j < r.value :: !OccursAt(s, t, j)
    ensures r.None? ==> forall j | from <= j :: !OccursAt(s, t, j)
    decreases |s| - from
  {
    if OccursAt(s, t, from) then Some(from)
    else if from + |t| >= |s| then
      assert forall j | from < j :: !OccursAt(s, t, j);
      None
    else IndexOfFrom(s, t, from + 1)
  }

  /** `s.replace(pat, rep)` with a string pattern: only the first occurrence is replaced. */
  function ReplaceFirst(s: string, pat: string, rep: string): string {
    match IndexOfFrom(s, pat, 0)
    case None => s
    case Some(i) => s[..i] + rep + s[i + |pat|..]
  }

  /** `s.split(c)` for a one-character separator. */
  function Split(s: string, c: char): (r: seq<string>)
    ensures |r| >= 1
    ensures forall k | 0 <= k < |r| :: c !in r[k]
    ensures |r| > 1 <==> c in s
    ensures Join(r, [c]) == s
  {
    if s == [] then [""]
    else
      var rest := Split(s[1..], c);
      assert s == [s[0]] + s[1..];
      if s[0] == c then
        JoinCons("", rest, [c]);
        [""] + rest
      else
        var r := [[s[0]] + rest[0]] + rest[1..];
        JoinGlue(s[0], rest, [c]);
        r
  }

  /** Concatenation regrouped: Dafny does not reassociate `+` on sequences by itself. */
  lemma ConcatAssoc(x: string, y: string, z: string)
    ensures x + (y + z) == x + y + z
  {
  }

  /** Gluing a character to the first part glues it to the join. */
  lemma JoinGlue(x: char, parts: seq<string>, sep: string)
    requires parts != []
    ensures Join([[x] + parts[0]] + parts[1..], sep) == [x] + Join(parts, sep)
  {
    var r := [[x] + parts[0]] + parts[1..];
    assert r[1..] == parts[1..];
    if |parts| > 1 {
      ConcatAssoc([x], parts[0], sep);
      ConcatAssoc([x], parts[0] + sep, Join(parts[1..], sep));
    }
  }

  /** `parts.join(sep)`. */
  function Join(parts: seq<string>, sep: string): string {
    if |parts| == 0 then "" else if |parts| == 1 then parts[0]
    else parts[0] + sep + Join(parts[1..], sep)
  }

  lemma ToUpperConcat(a: string, b: string)
    ensures ToUpper(a + b) == ToUpper(a) + ToUpper(b)
  {
  }

  lemma ContainsInPrefix(a: string, b: string, t: string)
    requires Contains(a, t)
    ensures Contains(a + b, t)
  {
    var i :| 0 <= i <= |a| && OccursAt(a, t, i);
    assert (a + b)[i..i + |t|] == a[i..i + |t|];
    assert 0 <= i <= |a + b| && OccursAt(a + b, t, i);
  }

  lemma ContainsInSuffix(a: string, b: string, t: string)
    requires Contains(b, t)
    ensures Contains(a + b, t)
  {
    var i :| 0 <= i <= |b| && OccursAt(b, t, i);
    var j := |a| + i;
    assert (a + b)[j..j + |t|] == b[i..i + |t|];
    assert 0 <= j <= |a + b| && OccursAt(a + b, t, j);
  }

  /** The characters of an occurrence are those of the text at the shifted positions. */
  lemma OccurrenceChar(s: string, t: string, i: int, k: nat)
    ensures OccursAt(s, t, i) && k < |t| ==> i + k < |s| && s[i + k] == t[k]
  {
    if OccursAt(s, t, i) && k < |t| {
      assert s[i..i + |t|][k] == s[i + k];
    }
  }

  /** A text lacking one of the characters of `t` does not contain `t`. */
  lemma LacksCharNoContains(s: string, t: string, k: nat)
    requires k < |t| && t[k] !in s
    ensures !Contains(s, t)
  {
    forall i | 0 <= i <= |s| ensures !OccursAt(s, t, i) {
      OccurrenceChar(s, t, i, k);
    }
  }

  lemma PrefixIndex(p: string, u: string, j: int)
    ensures 0 <= j < |p| ==> (p + u)[j] == p[j] && p[j] in p
  {
  }

  lemma SuffixIndex(p: string, k: nat, j: int)
    ensures k <= |p| && |p| - k <= j < |p| ==> p[j] in p[|p| - k..]
  {
    if k <= |p| && |p| - k <= j < |p| {
      assert p[|p| - k..][j - (|p| - k)] == p[j];
    }
  }

  /**
   * When the prefix `p` lacks `t[k]` and its last `k` characters lack `t[0]`, every
   * occurrence of `t` in `p + u` lies inside `u`.
   */
  lemma ContainsPastPrefix(p: string, u: string, t: string, k: nat)
    requires k < |t| && t[k] !in p
    requires k <= |p| && t[0] !in p[|p| - k..]
    ensures Contains(p + u, t) ==> Contains(u, t)
  {
    if Contains(p + u, t) {
      var s := p + u;
      var i :| 0 <= i <= |s| && OccursAt(s, t, i);
      PastPrefixAt(p, u, t, k, i);
      OccursInSuffix(p, u, t, i);
    }
  }

  lemma PastPrefixAt(p: string, u: string, t: string, k: nat, i: int)
    requires k < |t| && t[k] !in p
    requires k <= |p| && t[0] !in p[|p| - k..]
    requires OccursAt(p + u, t, i)
    ensures i >= |p|
  {
    OccurrenceChar(p + u, t, i, k);
    OccurrenceChar(p + u, t, i, 0);
    PrefixIndex(p, u, i + k);
    PrefixIndex(p, u, i);
    SuffixIndex(p, k, i);
  }

  lemma OccursInSuffix(p: string, u: string, t: string, i: int)
    requires i >= |p| && OccursAt(p + u, t, i)
    ensures OccursAt(u, t, i - |p|)
  {
    var s := p + u;
    assert s[i..i + |t|] == u[i - |p|..i - |p| + |t|];
  }

  /** The characters of a join are those of its parts and of the separator. */
  lemma {:induction false} JoinLacks(parts: seq<string>, sep: string, ch: char)
    requires ch !in sep
    requires forall i | 0 <= i < |parts| :: ch !in parts[i]
    ensures ch !in Join(parts, sep)
  {
    if |parts| > 1 {
      JoinLacks(parts[1..], sep, ch);
    }
  }

  lemma JoinCons(x: string, parts: seq<string>, sep: string)
    requires parts != []
    ensures Join([x] + parts, sep) == x + sep + Join(parts, sep)
  {
    assert ([x] + parts)[1..] == parts;
  }

  // ---------------------------------------------------------------------------------------
  // Decimal numbers

  function Pow10(n: nat): (p: nat)
    ensures p >= 1
  {
    if n == 0 then 1 else 10 * Pow10(n - 1)
  }

  /** The value of a string of decimal digits (`parseInt` of such a string). */
  function DigitsValue(s: string): nat
    requires AllDigits(s)
  {
    if s == [] then 0 else 10 * DigitsValue(s[..|s| - 1]) + DigitValue(s[|s| - 1])
  }

  lemma {:induction false} DigitsValueConcat(a: string, b: string)
    requires AllDigits(a) && AllDigits(b)
    ensures AllDigits(a + b)
    ensures DigitsValue(a + b) == DigitsValue(a) * Pow10(|b|) + DigitsValue(b)
  {
    if b == [] {
      assert a + b == a;
    } else {
      var b' := b[..|b| - 1];
      assert (a + b)[..|a + b| - 1] == a + b';
      assert (a + b)[|a + b| - 1] == b[|b| - 1];
      DigitsValueConcat(a, b');
      var x, y, d, p := DigitsValue(a), DigitsValue(b'), DigitValue(b[|b| - 1]), Pow10(|b'|);
      assert DigitsValue(a + b) == 10 * (x * p + y) + d;
      assert DigitsValue(b) == 10 * y + d;
      assert Pow10(|b|) == 10 * p;
      MulTen(x, p);
    }
  }

  lemma MulTen(x: int, p: int)
    ensures 10 * (x * p) == x * (10 * p)
  {
  }

  lemma {:induction false} DigitsValueBound(s: string)
    requires AllDigits(s)
    ensures DigitsValue(s) < Pow10(|s|)
  {
    if s != [] {
      DigitsValueBound(s[..|s| - 1]);
    }
  }

  /** `String(n)` for a natural number: decimal, no leading zeros. */
  function NatToString(n: nat): (r: string)
    ensures |r| > 0 && AllDigits(r)
    ensures |r| > 1 ==> r[0] != '0'
  {
    if n < 10 then [DigitChar(n)] else NatToString(n / 10) + [DigitChar(n % 10)]
  }

  lemma {:induction false} NatToStringValue(n: nat)
    ensures DigitsValue(NatToString(n)) == n
  {
    if n >= 10 {
      var s := NatToString(n);
      assert s[..|s| - 1] == NatToString(n / 10);
      NatToStringValue(n / 10);
    }
  }

  lemma NatToStringInjective(a: nat, b: nat)
    requires NatToString(a) == NatToString(b)
    ensures a == b
  {
    NatToStringValue(a);
    NatToStringValue(b);
  }

  /**
   * `isNaN(parseInt(s))`: after leading white space and an optional sign, a "0x"/"0X"
   * prefix must be followed by a hexadecimal digit, and anything else must start with a
   * decimal digit, for a number to be read.
   */
  predicate ParseIntNaN(s: string) {
    var a := SkipSpaces(s, 0);
    var u := if a < |s| && (s[a] == '+' || s[a] == '-') then s[a + 1..] else s[a..];
    if |u| >= 2 && u[0] == '0' && (u[1] == 'x' || u[1] == 'X') then !(|u| > 2 && IsHexDigit(u[2]))
    else !(|u| > 0 && IsDigit(u[0]))
  }

  /** `String(i)` for an integer. */
  function IntToString(i: int): string {
    if i < 0 then "-" + NatToString(-i) else NatToString(i)
  }
}
