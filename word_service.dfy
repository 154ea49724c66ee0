/**
 * The document generator (`WordService`): `generate` validates the work-order number,
 * makes sure the output folder exists, loads the template, fills it with the payload's
 * fields (keys upper-cased), removes older documents of the same order, writes
 * `OS-<id>.docx` and checks the file is there.
 *
 * The template engine is abstracted: whether the template is a readable zip and the error
 * the engine reports when rendering, if any, are inputs.
 */
module WordService {
  import opened Wrappers
  import opened Text
  import opened FileSystem

  // ---------------------------------------------------------------------------------------
  // Payload values as JavaScript sees them

  /** A property of the payload object: `null`, `undefined`, a string, an integer, a boolean or an object (with its `String()` text). */
  datatype Value = Null | Undefined | Str(s: string) | Num(n: int) | Bool(b: bool) | Obj(text: string)

  /** `String(v)`. */
  function JsString(v: Value): string {
    match v
    case Null => "null"
    case Undefined => "undefined"
    case Str(s) => s
    case Num(n) => IntToString(n)
    case Bool(b) => if b then "true" else "false"
    case Obj(text) => text
  }

  /** `!!v`. */
  predicate Truthy(v: Value) {
    match v
    case Null => false
    case Undefined => false
    case Str(s) => s != ""
    case Num(n) => n != 0
    case Bool(b) => b
    case Obj(_) => true
  }

  /** The payload as an ordered list of properties; `data.os` is the value of the last `os` entry. */
  function OsOf(entries: seq<(string, Value)>): (v: Value)
    ensures v != Undefined ==> exists i | 0 <= i < |entries| :: entries[i] == ("os", v)
    ensures (forall i | 0 <= i < |entries| :: entries[i].0 != "os") ==> v == Undefined
    ensures forall i | 0 <= i < |entries| && entries[i].0 == "os" ::
      (forall j | i < j < |entries| :: entries[j].0 != "os") ==> v == entries[i].1
  {
    if entries == [] then Undefined
    else if entries[|entries| - 1].0 == "os" then entries[|entries| - 1].1
    else OsOf(entries[..|entries| - 1])
  }

  // ---------------------------------------------------------------------------------------
  // `Number(s)` for strings

  /** A number value: NaN, an infinity, or `(-1)^negative * mantissa * 10^scale`. */
  datatype Numeric = NaN | Infinite(negative: bool) | Finite(negative: bool, mantissa: nat, scale: int)

  /** The first position of a character of `cs` in `s`, or `|s|`. */
  function FirstOf(s: string, cs: string): (r: nat)
    ensures r <= |s|
    ensures forall j | 0 <= j < r :: s[j] !in cs
    ensures r < |s| ==> s[r] in cs
  {
    if s == [] then 0
    else if s[0] in cs then 0
    else 1 + FirstOf(s[1..], cs)
  }

  predicate IsRadixDigit(c: char, radix: nat) {
    IsHexDigit(c) && (radix == 16 || (radix == 8 && '0' <= c <= '7') || (radix == 2 && '0' <= c <= '1'))
  }

  function HexValue(c: char): nat
    requires IsHexDigit(c)
  {
    if IsDigit(c) then DigitValue(c)
    else if 'a' <= c <= 'f' then c as int - 'a' as int + 10
    else c as int - 'A' as int + 10
  }

  function RadixValue(s: string, radix: nat): nat
    requires forall i | 0 <= i < |s| :: IsRadixDigit(s[i], radix)
  {
    if s == [] then 0
    else
      assert IsRadixDigit(s[|s| - 1], radix);
      radix * RadixValue(s[..|s| - 1], radix) + HexValue(s[|s| - 1])
  }

  /** An exponent `[+-]?digits`. */
  function ExponentOf(x: string): Option<int> {
    var neg := |x| > 0 && x[0] == '-';
    var d := if |x| > 0 && (x[0] == '+' || x[0] == '-') then x[1..] else x;
    if d != [] && AllDigits(d) then
      var v: int := DigitsValue(d);
      Some(if neg then -v else v)
    else None
  }

  /** `digits[.digits][e exp]`, with at least one digit before the exponent. */
  function UnsignedDecimal(u: string, negative: bool): (x: Numeric)
    ensures x.NaN? || x.Finite?
  {
    var e := FirstOf(u, "eE");
    var mant := u[..e];
    var exp := if e < |u| then ExponentOf(u[e + 1..]) else Some(0);
    var d := FirstOf(mant, ".");
    var ip := mant[..d];
    var fp := if d < |mant| then mant[d + 1..] else "";
    if exp.None? || !AllDigits(ip) || !AllDigits(fp) || |ip| + |fp| == 0 then NaN
    else
      assert AllDigits(ip + fp);
      Finite(negative, DigitsValue(ip + fp), exp.value - |fp|)
  }

  /** `Number(s)`: white space around the literal is ignored and the empty string is zero. */
  function ParseNumber(s: string): Numeric {
    ReadLiteral(Trim(s))
  }

  /** The literal once trimmed: a radix prefix, a sign, `Infinity` or a decimal. */
  function ReadLiteral(t: string): Numeric {
    if t == "" then Finite(false, 0, 0)
    else if |t| > 2 && t[0] == '0' && t[1] in "xXoObB" then
      var radix := if t[1] in "xX" then 16 else if t[1] in "oO" then 8 else 2;
      var ds := t[2..];
      if forall i | 0 <= i < |ds| :: IsRadixDigit(ds[i], radix) then Finite(false, RadixValue(ds, radix), 0)
      else NaN
    else
      var negative := t[0] == '-';
      var u := if t[0] == '+' || t[0] == '-' then t[1..] else t;
      if u == "Infinity" then Infinite(negative) else UnsignedDecimal(u, negative)
  }

  /** `Number(v)` for the two kinds the validation lets through. */
  function NumberOf(v: Value): Numeric {
    match v
    case Num(n) => Finite(n < 0, if n < 0 then -n else n, 0)
    case Str(s) => ParseNumber(s)
    case _ => NaN
  }

  predicate Positive(x: Numeric) {
    match x
    case NaN => false
    case Infinite(neg) => !neg
    case Finite(neg, m, _) => !neg && m > 0
  }

  predicate AtLeastMillion(x: Numeric) {
    match x
    case NaN => false
    case Infinite(neg) => !neg
    case Finite(neg, m, sc) =>
      !neg && (if sc >= 0 then m * Pow10(sc) >= 1000000 else m >= 1000000 * Pow10(-sc))
  }

  // ---------------------------------------------------------------------------------------
  // Validation

  datatype Check = Pass | Fail(message: string)

  const RequiredMessage: string := "Número da OS é obrigatório"
  const KindMessage: string := "Número da OS deve ser string ou número"
  const RangeMessage: string := "Número da OS deve ser um número válido"

  /** `validateData`: a present, non-blank id; a string or a number; a number strictly between 0 and 1000000. */
  function Validate(v: Value): (r: Check)
    ensures r.Pass? <==> (v.Str? || v.Num?) && Truthy(v) && Trim(JsString(v)) != ""
                         && Positive(NumberOf(v)) && !AtLeastMillion(NumberOf(v))
    ensures r.Fail? ==> r.message in {RequiredMessage, KindMessage, RangeMessage}
  {
    if !Truthy(v) || Trim(JsString(v)) == "" then Fail(RequiredMessage)
    else if !(v.Str? || v.Num?) then Fail(KindMessage)
    else
      var x := NumberOf(v);
      if x.NaN? || !Positive(x) || AtLeastMillion(x) then Fail(RangeMessage) else Pass
  }

  /** A numeric id passes exactly when it lies in 1..999999; zero is reported as missing. */
  lemma ValidateNumber(n: int)
    ensures Validate(Num(n)) == Pass <==> 0 < n < 1000000
    ensures n == 0 ==> Validate(Num(n)) == Fail(RequiredMessage)
    ensures n != 0 && !(0 < n < 1000000) ==> Validate(Num(n)) == Fail(RangeMessage)
  {
    if n != 0 {
      var t := JsString(Num(n));
      assert t != [] && !IsSpace(t[0]) && !IsSpace(t[|t| - 1]) by {
        if n < 0 {
          assert t[0] == '-';
          assert t[|t| - 1] == NatToString(-n)[|NatToString(-n)| - 1];
        }
      }
      TrimUnpadded(t);
    }
  }

  lemma FirstOfAbsent(s: string, cs: string)
    requires forall i | 0 <= i < |s| :: s[i] !in cs
    ensures FirstOf(s, cs) == |s|
  {
  }

  /** `Number` of a plain digit string is its decimal value. */
  lemma ParseDigits(s: string)
    requires s != [] && AllDigits(s)
    ensures ParseNumber(s) == Finite(false, DigitsValue(s), 0)
  {
    TrimUnpadded(s);
    assert !(|s| > 2 && s[0] == '0' && s[1] in "xXoObB");
    assert s[0] != 'I' && s[0] != '+' && s[0] != '-';
    UnsignedDigits(s);
  }

  lemma UnsignedDigits(s: string)
    requires s != [] && AllDigits(s)
    ensures UnsignedDecimal(s, false) == Finite(false, DigitsValue(s), 0)
  {
    FirstOfAbsent(s, "eE");
    assert s[..|s|] == s;
    FirstOfAbsent(s, ".");
    assert s + "" == s;
  }

  /** A string of digits passes exactly when its value lies in 1..999999 (leading zeros allowed). */
  lemma ValidateDigits(s: string)
    requires s != [] && AllDigits(s)
    ensures Validate(Str(s)) == Pass <==> 0 < DigitsValue(s) < 1000000
  {
    TrimUnpadded(s);
    ParseDigits(s);
    ValidateRead(s, ParseNumber(s));
  }

  /** Blanks around the id do not change the verdict: `Number` trims before reading. */
  lemma ValidateTrimmed(s: string)
    requires Trim(s) != ""
    ensures Validate(Str(s)) == Validate(Str(Trim(s)))
  {
    var t := Trim(s);
    TrimUnpadded(t);
    ParseTrimmed(s, t);
    ValidateRead(s, ParseNumber(t));
    ValidateRead(t, ParseNumber(t));
  }

  lemma ParseTrimmed(s: string, t: string)
    requires t == Trim(s) && Trim(t) == t
    ensures ParseNumber(s) == ParseNumber(t)
  {
  }

  /** Digits with blanks around them pass exactly when their value lies in 1..999999. */
  lemma ValidatePaddedDigits(s: string)
    requires Trim(s) != [] && AllDigits(Trim(s))
    ensures Validate(Str(s)) == Pass <==> 0 < DigitsValue(Trim(s)) < 1000000
  {
    ValidateTrimmed(s);
    ValidateDigits(Trim(s));
  }

  /** So ` 12 ` passes, as `12` does. */
  lemma ValidatePadded()
    ensures Validate(Str(" 12 ")) == Pass
  {
    TrimPadded();
    assert DigitsValue("12") == 12 by { assert "12"[..1] == "1"; }
    ValidatePaddedDigits(" 12 ");
  }

  lemma TrimPadded()
    ensures Trim(" 12 ") == "12"
  {
    assert SkipSpaces(" 12 ", 1) == 1;
    assert " 12 "[1..] == "12 ";
    assert "12 "[..2] == "12";
    assert TrimEndLength("12") == 2;
    assert TrimEndLength("12 ") == 2;
    assert " 12 "[1..1 + 2] == "12";
  }

  /** An exponent is read as a power of ten: `1e3` passes. */
  lemma ValidateExponent()
    ensures Validate(Str("1e3")) == Pass
  {
    ParseExponentForm("1e3", 1, 3);
    PowersOfTen();
    ValidateRead("1e3", Finite(false, 1, 3));
  }

  /** `1e6` reads as one million, which is out of range. */
  lemma ValidateExponentMillion()
    ensures Validate(Str("1e6")) == Fail(RangeMessage)
  {
    ParseExponentForm("1e6", 1, 6);
    PowersOfTen();
    ValidateRead("1e6", Finite(false, 1, 6));
  }

  lemma PowersOfTen()
    ensures Pow10(3) == 1000 && Pow10(6) == 1000000
  {
    assert Pow10(3) == 1000 by { assert Pow10(2) == 100 by { assert Pow10(1) == 10; } }
    assert Pow10(6) == 1000000 by {
      assert Pow10(5) == 100000 by { assert Pow10(4) == 10000; }
    }
  }

  /** A `0x` prefix reads the digits in base sixteen. */
  lemma ValidateHex()
    ensures Validate(Str("0x1F")) == Pass
  {
    ParseHex();
    ValidateRead("0x1F", Finite(false, 31, 0));
  }

  lemma ParseHex()
    ensures Trim("0x1F") == "0x1F" && ParseNumber("0x1F") == Finite(false, 31, 0)
  {
    var s := "0x1F";
    TrimUnpadded(s);
    ReadHex(s);
  }

  lemma ReadHex(s: string)
    requires s == "0x1F"
    ensures ReadLiteral(s) == Finite(false, 31, 0)
  {
    assert s[1] in "xX";
    assert s[2..] == "1F";
    assert RadixValue("1F", 16) == 31 by { assert "1F"[..1] == "1"; assert "1"[..0] == ""; }
  }

  /** A string that is not blank passes exactly when the number it reads as is in range. */
  lemma ValidateRead(s: string, x: Numeric)
    requires Trim(s) != [] && ParseNumber(s) == x
    ensures Validate(Str(s)) == if Positive(x) && !AtLeastMillion(x) then Pass else Fail(RangeMessage)
  {
  }

  /** `Number` of a digit, `e` and a digit. */
  lemma ParseExponentForm(u: string, m: nat, k: nat)
    requires |u| == 3 && IsDigit(u[0]) && u[1] == 'e' && IsDigit(u[2]) && u[0] != '0'
    requires DigitValue(u[0]) == m && DigitValue(u[2]) == k
    ensures Trim(u) == u && ParseNumber(u) == Finite(false, m, k)
  {
    TrimUnpadded(u);
    ReadExponentForm(u, m, k);
  }

  lemma ReadExponentForm(u: string, m: nat, k: nat)
    requires |u| == 3 && IsDigit(u[0]) && u[1] == 'e' && IsDigit(u[2]) && u[0] != '0'
    requires DigitValue(u[0]) == m && DigitValue(u[2]) == k
    ensures ReadLiteral(u) == Finite(false, m, k)
  {
    ExponentForm(u, m, k);
    assert u[0] != '+' && u[0] != '-';
    assert u != "Infinity" by { assert |"Infinity"| == 8; }
  }

  /** A digit, `e` and a digit: the digit times ten to the exponent. */
  lemma ExponentForm(u: string, m: nat, k: nat)
    requires |u| == 3 && IsDigit(u[0]) && u[1] == 'e' && IsDigit(u[2]) && u[0] != '0'
    requires DigitValue(u[0]) == m && DigitValue(u[2]) == k
    ensures UnsignedDecimal(u, false) == Finite(false, m, k)
  {
    assert FirstOf(u, "eE") == 1;
    assert u[..1] == [u[0]];
    assert FirstOf([u[0]], ".") == 1;
    assert [u[0]][..1] == [u[0]];
    assert u[2..] == [u[2]];
    assert DigitsValue([u[0]]) == m by { assert [u[0]][..0] == []; }
    assert DigitsValue([u[2]]) == k by { assert [u[2]][..0] == []; }
    assert [u[0]] + "" == [u[0]];
  }

  /** Kinds that are neither strings nor numbers never pass; absent values are reported as missing. */
  lemma ValidateOtherKinds(v: Value)
    requires !v.Str? && !v.Num?
    ensures Validate(v).Fail?
    ensures v.Null? || v.Undefined? || v == Bool(false) ==> Validate(v) == Fail(RequiredMessage)
    ensures v == Bool(true) ==> Validate(v) == Fail(KindMessage)
  {
    if v == Bool(true) {
      TrimUnpadded("true");
    }
  }

  // ---------------------------------------------------------------------------------------
  // File names

  predicate Forbidden(c: char) {
    c == '<' || c == '>' || c == ':' || c == '"' || c == '/' || c == '\\' || c == '|' || c == '?' || c == '*'
  }

  /** Every character not allowed in a Windows file name becomes `-`. */
  function SafeId(idText: string): (r: string)
    ensures |r| == |idText|
    ensures forall i | 0 <= i < |r| :: !Forbidden(r[i])
    ensures forall i | 0 <= i < |r| :: !Forbidden(idText[i]) ==> r[i] == idText[i]
  {
    seq(|idText|, i requires 0 <= i < |idText| => if Forbidden(idText[i]) then '-' else idText[i])
  }

  /** `generateDeterministicFilename`: `OS-<safe id>.docx`. */
  function Filename(idText: string): string {
    "OS-" + SafeId(idText) + ".docx"
  }

  /** The name of a numeric order is its decimal text, different orders get different names. */
  lemma FilenameOfNumber(a: nat, b: nat)
    ensures Filename(NatToString(a)) == "OS-" + NatToString(a) + ".docx"
    ensures Filename(NatToString(a)) == Filename(NatToString(b)) ==> a == b
  {
    var sa, sb := NatToString(a), NatToString(b);
    DigitsAllowed(sa);
    DigitsAllowed(sb);
    assert SafeId(sa) == sa;
    FilenameInjective(sa, sb);
    if Filename(sa) == Filename(sb) {
      NatToStringInjective(a, b);
    }
  }

  lemma DigitsAllowed(s: string)
    requires AllDigits(s)
    ensures forall i | 0 <= i < |s| :: !Forbidden(s[i])
  {
    forall i | 0 <= i < |s| ensures !Forbidden(s[i]) {
      assert IsDigit(s[i]);
    }
  }

  /** Ids without forbidden characters keep their names apart. */
  lemma FilenameInjective(a: string, b: string)
    requires forall i | 0 <= i < |a| :: !Forbidden(a[i])
    requires forall i | 0 <= i < |b| :: !Forbidden(b[i])
    ensures Filename(a) == Filename(b) ==> a == b
  {
    assert SafeId(a) == a;
    assert SafeId(b) == b;
    if Filename(a) == Filename(b) {
      assert |a| == |b|;
      assert forall i | 0 <= i < |a| :: a[i] == Filename(a)[3 + i] == Filename(b)[3 + i] == b[i];
    }
  }

  // ---------------------------------------------------------------------------------------
  // Older documents of an order: `^(?:O\.?S\.?)?\s*<id>[\s.\-_]`, case-insensitive

  /** The texts the optional group `O\.?S\.?` can match, with the empty alternative. */
  const GroupForms: seq<string> := ["", "OS", "O.S", "OS.", "O.S."]

  predicate IsTerminator(c: char) { IsSpace(c) || c == '.' || c == '-' || c == '_' }

  /** `name` reads `g`, `k` blanks, the id and a terminator. */
  predicate MatchWith(name: string, idText: string, g: string, k: nat) {
    var p := |g| + k;
    && p + |idText| < |name|
    && StartsWithI(name, g)
    && (forall i | |g| <= i < p :: IsSpace(name[i]))
    && StartsWithI(name[p..], idText)
    && IsTerminator(name[p + |idText|])
  }

  /** The legacy pattern matches `name` for the order written `idText`. */
  predicate LegacyMatch(name: string, idText: string) {
    exists gi, k | 0 <= gi < |GroupForms| && 0 <= k <= |name| :: MatchWith(name, idText, GroupForms[gi], k)
  }

  /** The files `cleanupLegacyFiles` removes: matching, not the new name, a `.docx`, not an Office lock file. */
  predicate LegacySelected(name: string, idText: string) {
    && LegacyMatch(name, idText)
    && name != Filename(idText)
    && EndsWith(name, ".docx")
    && !StartsWith(name, "~$")
  }

  lemma GroupCharNotDigit(name: string, j: nat, g: string)
    requires g in GroupForms && StartsWithI(name, g) && j < |g|
    ensures !IsDigit(name[j])
  {
    assert g[j] == 'O' || g[j] == 'S' || g[j] == '.';
    assert SameLetterI(name[j], g[j]);
  }

  lemma DigitSameLetter(c: char, d: char)
    requires IsDigit(d) && SameLetterI(c, d)
    ensures c == d
  {
  }

  /** Before the id, a match holds no digit. */
  lemma NoDigitBefore(name: string, idText: string, gi: nat, k: nat, j: nat)
    requires gi < |GroupForms| && MatchWith(name, idText, GroupForms[gi], k)
    requires j < |GroupForms[gi]| + k
    ensures !IsDigit(name[j])
  {
    var g := GroupForms[gi];
    if j < |g| {
      GroupCharNotDigit(name, j, g);
    } else {
      assert IsSpace(name[j]);
    }
  }

  /** The id of a match with a digit id starts at `p` and is `name[p..p + |idText|]`. */
  lemma DigitsAt(name: string, idText: string, p: nat)
    requires AllDigits(idText) && p + |idText| <= |name| && StartsWithI(name[p..], idText)
    ensures name[p..p + |idText|] == idText
  {
    forall i | 0 <= i < |idText| ensures name[p + i] == idText[i] {
      assert name[p..][i] == name[p + i];
      DigitSameLetter(name[p + i], idText[i]);
    }
  }

  /** The id `idText` sits at `p` in `name`: no digit before it and a non-digit after it. */
  predicate IdFoundAt(name: string, idText: string, p: nat) {
    && p + |idText| < |name|
    && name[p..p + |idText|] == idText
    && (idText != [] ==> name[p] == idText[0])
    && !IsDigit(name[p + |idText|])
    && (forall j | 0 <= j < p :: !IsDigit(name[j]))
  }

  /** A match of a digit id: where the id starts, no digit before it, a non-digit after it. */
  lemma MatchShape(name: string, idText: string, gi: nat, k: nat) returns (p: nat)
    requires idText != [] && AllDigits(idText)
    requires gi < |GroupForms| && MatchWith(name, idText, GroupForms[gi], k)
    ensures IdFoundAt(name, idText, p)
  {
    p := |GroupForms[gi]| + k;
    DigitsAt(name, idText, p);
    forall j | 0 <= j < p ensures !IsDigit(name[j]) {
      NoDigitBefore(name, idText, gi, k, j);
    }
  }

  lemma IdStart(name: string, idText: string) returns (p: nat)
    requires idText != [] && AllDigits(idText) && LegacyMatch(name, idText)
    ensures IdFoundAt(name, idText, p)
  {
    var gi, k :| 0 <= gi < |GroupForms| && 0 <= k <= |name| && MatchWith(name, idText, GroupForms[gi], k);
    p := MatchShape(name, idText, gi, k);
  }

  /** Two digits that each have no digit before them sit at the same place. */
  lemma SameStart(name: string, c: char, d: char, pa: nat, pb: nat)
    requires IsDigit(c) && IsDigit(d)
    requires pa < |name| && name[pa] == c && forall j | 0 <= j < pa :: !IsDigit(name[j])
    requires pb < |name| && name[pb] == d && forall j | 0 <= j < pb :: !IsDigit(name[j])
    ensures pa == pb
  {
  }

  /** Two digit strings found at the same place, each followed by a non-digit, are equal. */
  lemma SameStartSameDigits(name: string, a: string, b: string, p: nat)
    requires AllDigits(a) && AllDigits(b)
    requires p + |a| < |name| && name[p..p + |a|] == a && !IsDigit(name[p + |a|])
    requires p + |b| < |name| && name[p..p + |b|] == b && !IsDigit(name[p + |b|])
    ensures a == b
  {
    assert forall k | 0 <= k < |a| :: name[p + k] == a[k];
    assert forall k | 0 <= k < |b| :: name[p + k] == b[k];
  }

  /** Two digit ids each found where no digit precedes them and a non-digit follows are equal. */
  lemma SameIdAt(name: string, a: string, b: string, pa: nat, pb: nat)
    requires a != [] && AllDigits(a) && b != [] && AllDigits(b)
    requires IdFoundAt(name, a, pa) && IdFoundAt(name, b, pb)
    ensures a == b
  {
    SameStart(name, a[0], b[0], pa, pb);
    SameStartSameDigits(name, a, b, pa);
  }

  /**
   * A file name matches the legacy pattern of at most one digit id: the document of
   * order 350 never removes a file named for order 3501.
   */
  lemma {:induction false} LegacyMatchUnique(name: string, a: string, b: string)
    requires a != [] && AllDigits(a) && b != [] && AllDigits(b)
    requires LegacyMatch(name, a) && LegacyMatch(name, b)
    ensures a == b
  {
    var pa := IdStart(name, a);
    var pb := IdStart(name, b);
    SameIdAt(name, a, b, pa, pb);
  }

  /** The clean-up for order `m` spares every file of another order `n`. */
  lemma LegacySparesOtherOrders(name: string, n: nat, m: nat)
    requires n != m && LegacyMatch(name, NatToString(n))
    ensures !LegacySelected(name, NatToString(m))
  {
    if LegacyMatch(name, NatToString(m)) {
      LegacyMatchUnique(name, NatToString(n), NatToString(m));
      NatToStringInjective(n, m);
    }
  }

  /** The names of `files` the clean-up selects, in order. */
  function LegacyFiles(files: seq<string>, idText: string): (r: seq<string>)
    ensures forall n :: n in r <==> n in files && LegacySelected(n, idText)
  {
    if files == [] then []
    else
      var last := files[|files| - 1];
      assert files == files[..|files| - 1] + [last];
      LegacyFiles(files[..|files| - 1], idText) + (if LegacySelected(last, idText) then [last] else [])
  }

  /** What the clean-up removes: the selected files the disk lets go. */
  function LegacyGone(files: seq<string>, idText: string, locked: set<string>): set<string> {
    set n | n in files && LegacySelected(n, idText) && n !in locked
  }

  /** One more name tried: it joins the removed names unless it is locked. */
  lemma GoneStep(names: seq<string>, i: nat, locked: set<string>, gone: set<string>)
    requires i < |names|
    requires forall n :: n in gone <==> n in names[..i] && n !in locked
    ensures forall n :: n in (if names[i] !in locked then gone + {names[i]} else gone) <==>
      n in names[..i + 1] && n !in locked
  {
    assert names[..i + 1] == names[..i] + [names[i]];
  }

  /** Once every older document has been tried, the removed names are `LegacyGone`. */
  lemma GoneAll(files: seq<string>, idText: string, locked: set<string>, legacy: seq<string>, gone: set<string>)
    requires legacy == LegacyFiles(files, idText)
    requires forall n :: n in gone <==> n in legacy[..|legacy|] && n !in locked
    ensures gone == LegacyGone(files, idText, locked)
  {
    assert legacy[..|legacy|] == legacy;
  }

  // ---------------------------------------------------------------------------------------
  // Render data

  /** The template text of a value: `''` for `null`/`undefined`, `String(v)` otherwise. */
  function RenderText(v: Value): string {
    if v.Null? || v.Undefined? then "" else JsString(v)
  }

  /** `createRenderData` as a value: each key upper-cased, a later key overriding an earlier one. */
  function RenderDataOf(entries: seq<(string, Value)>): map<string, string> {
    if entries == [] then map[]
    else
      var last := entries[|entries| - 1];
      RenderDataOf(entries[..|entries| - 1])[ToUpper(last.0) := RenderText(last.1)]
  }

  /** The keys of the render data are the upper-cased payload keys. */
  lemma {:induction false} RenderDataKeys(entries: seq<(string, Value)>)
    ensures RenderDataOf(entries).Keys == set i | 0 <= i < |entries| :: ToUpper(entries[i].0)
  {
    if entries != [] {
      var front := entries[..|entries| - 1];
      RenderDataKeys(front);
      assert forall i | 0 <= i < |front| :: front[i] == entries[i];
    }
  }

  /** The value under a key is the text of the last entry with that key. */
  lemma {:induction false} RenderDataLast(entries: seq<(string, Value)>, i: nat)
    requires i < |entries|
    requires forall j | i < j < |entries| :: ToUpper(entries[j].0) != ToUpper(entries[i].0)
    ensures ToUpper(entries[i].0) in RenderDataOf(entries)
    ensures RenderDataOf(entries)[ToUpper(entries[i].0)] == RenderText(entries[i].1)
  {
    if i < |entries| - 1 {
      var front := entries[..|entries| - 1];
      assert front[i] == entries[i];
      RenderDataLast(front, i);
    }
  }

  /** `createRenderData`. */
  method CreateRenderData(entries: seq<(string, Value)>) returns (renderData: map<string, string>)
    ensures renderData == RenderDataOf(entries)
  {
    renderData := map[];
    for n := 0 to |entries|
      invariant renderData == RenderDataOf(entries[..n])
    {
      var (key, value) := entries[n];
      assert entries[..n + 1][..n] == entries[..n];
      if value != Null && value != Undefined {
        renderData := renderData[ToUpper(key) := JsString(value)];
      } else {
        renderData := renderData[ToUpper(key) := ""];
      }
    }
    assert entries[..|entries|] == entries;
  }

  // ---------------------------------------------------------------------------------------
  // Generation

  /** A template error: the engine's per-tag explanations, if it gave any, and its message. */
  datatype RenderFailure = RenderFailure(explanations: Option<seq<string>>, message: Option<string>)

  /** The reported text: the explanations joined by ` | `, else the message, else a fixed text. */
  function RenderMessage(f: RenderFailure): (r: string)
    ensures f.explanations.Some? && Join(f.explanations.value, " | ") != "" ==> r == Join(f.explanations.value, " | ")
    ensures (f.explanations.None? || Join(f.explanations.value, " | ") == "") ==>
      r == (if f.message.Some? then f.message.value else "Erro desconhecido")
  {
    var errors := if f.explanations.Some? then Join(f.explanations.value, " | ") else "";
    if errors != "" then errors else f.message.GetOr("Erro desconhecido")
  }

  /**
   * What the disk and the template engine do, step by step: an error text for a failing
   * `mkdir`, `readFile` or `writeFile`; whether the template exists and is a zip; the
   * engine's render failure; whether the written file is found again; the files whose
   * `unlink` fails.
   */
  datatype Environment = Environment(
    mkdirError: Option<string>,
    templatePresent: bool,
    readError: Option<string>,
    templateIsZip: bool,
    renderError: Option<RenderFailure>,
    writeError: Option<string>,
    verified: bool,
    locked: set<string>)

  datatype GenerateReply = Generated(file: string) | Failed(message: string)

  const CorruptTemplateMessage: string := "Arquivo modelo corrompido ou em formato inválido"
  const UnverifiedMessage: string := "Arquivo gerado mas não pôde ser verificado"

  function MissingTemplateMessage(modeloPath: string): string {
    "Arquivo modelo não encontrado: " + modeloPath
  }

  function InternalMessage(e: string): string { "Erro interno: " + e }

  function TagsMessage(f: RenderFailure): string { "Erro nas tags do template: " + RenderMessage(f) }

  /** The output folder after `generate`: whether it exists and what it lists. */
  datatype Disk = Disk(present: bool, names: seq<string>)

  /** `generate` as a value: the reply and the output folder afterwards. */
  function GenerateOf(modeloPath: string, disk: Disk, entries: seq<(string, Value)>, env: Environment): (GenerateReply, Disk) {
    var os := OsOf(entries);
    GenerateStages(modeloPath, disk, Validate(os), JsString(os), env)
  }

  /** The stages of `generate` once the id has been checked with the verdict `check`. */
  function GenerateStages(modeloPath: string, disk: Disk, check: Check, idText: string, env: Environment): (GenerateReply, Disk) {
    var file := Filename(idText);
    if check.Fail? then (Failed(check.message), disk)
    else if !disk.present && env.mkdirError.Some? then (Failed(InternalMessage(env.mkdirError.value)), disk)
    else
      var ready := if disk.present then disk else Disk(true, []);
      if !env.templatePresent then (Failed(MissingTemplateMessage(modeloPath)), ready)
      else if env.readError.Some? then (Failed(InternalMessage(env.readError.value)), ready)
      else if !env.templateIsZip then (Failed(CorruptTemplateMessage), ready)
      else if env.renderError.Some? then (Failed(TagsMessage(env.renderError.value)), ready)
      else
        var cleaned := Disk(true, Without(ready.names, LegacyGone(ready.names, idText, env.locked)));
        if env.writeError.Some? then (Failed(InternalMessage(env.writeError.value)), cleaned)
        else
          var written := Disk(true, if file in cleaned.names then cleaned.names else cleaned.names + [file]);
          if env.verified then (Generated(file), written) else (Failed(UnverifiedMessage), written)
  }

  /** A payload whose id fails validation leaves the disk alone and reports why. */
  lemma GenerateRejectsInvalid(modeloPath: string, disk: Disk, entries: seq<(string, Value)>, env: Environment)
    requires Validate(OsOf(entries)).Fail?
    ensures GenerateOf(modeloPath, disk, entries, env) == (Failed(Validate(OsOf(entries)).message), disk)
  {
  }

  /**
   * Success: the id is valid, the document `OS-<id>.docx` is listed, the older documents of
   * the order are gone unless locked, and every other file is still there.
   */
  lemma GenerateSuccess(modeloPath: string, disk: Disk, entries: seq<(string, Value)>, env: Environment)
    requires GenerateOf(modeloPath, disk, entries, env).0.Generated?
    ensures Validate(OsOf(entries)) == Pass
    ensures var (r, after) := GenerateOf(modeloPath, disk, entries, env);
      var idText := JsString(OsOf(entries));
      && r.file == Filename(idText)
      && after.present
      && r.file in after.names
      && (forall n | n in disk.names && disk.present :: n in after.names <==> !(LegacySelected(n, idText) && n !in env.locked) || n == r.file)
      && (forall n | n in after.names :: n == r.file || (disk.present && n in disk.names))
  {
    var os := OsOf(entries);
    StagesSuccess(modeloPath, disk, Validate(os), JsString(os), env);
  }

  lemma StagesSuccess(modeloPath: string, disk: Disk, check: Check, idText: string, env: Environment)
    requires GenerateStages(modeloPath, disk, check, idText, env).0.Generated?
    ensures check == Pass
    ensures var (r, after) := GenerateStages(modeloPath, disk, check, idText, env);
      && r.file == Filename(idText)
      && after.present
      && r.file in after.names
      && (forall n | n in disk.names && disk.present :: n in after.names <==> !(LegacySelected(n, idText) && n !in env.locked) || n == r.file)
      && (forall n | n in after.names :: n == r.file || (disk.present && n in disk.names))
  {
    var file := Filename(idText);
    var ready := if disk.present then disk else Disk(true, []);
    var gone := LegacyGone(ready.names, idText, env.locked);
    var cleaned := Disk(true, Without(ready.names, gone));
    var written := Disk(true, if file in cleaned.names then cleaned.names else cleaned.names + [file]);
    assert GenerateStages(modeloPath, disk, check, idText, env) == (Generated(file), written);
    CleanWriteNames(disk, idText, env.locked, written.names);
  }

  /** The names after the older documents are removed and the new one is written. */
  lemma CleanWriteNames(disk: Disk, idText: string, locked: set<string>, after: seq<string>)
    requires var ready := if disk.present then disk.names else [];
      var cleaned := Without(ready, LegacyGone(ready, idText, locked));
      var file := Filename(idText);
      after == if file in cleaned then cleaned else cleaned + [file]
    ensures Filename(idText) in after
    ensures forall n | n in disk.names && disk.present ::
      n in after <==> !(LegacySelected(n, idText) && n !in locked) || n == Filename(idText)
    ensures forall n | n in after :: n == Filename(idText) || (disk.present && n in disk.names)
  {
    var ready := if disk.present then disk.names else [];
    var gone := LegacyGone(ready, idText, locked);
    var cleaned := Without(ready, gone);
    assert forall n :: n in after <==> n in cleaned || n == Filename(idText);
    forall n | n in disk.names && disk.present
      ensures n in after <==> !(LegacySelected(n, idText) && n !in locked) || n == Filename(idText)
    {
      assert n in ready;
      assert n in gone <==> LegacySelected(n, idText) && n !in locked;
    }
  }

  /** A failure in the template stages happens before any file is removed or written. */
  lemma TemplateFailureKeepsFiles(modeloPath: string, disk: Disk, entries: seq<(string, Value)>, env: Environment)
    requires !env.templatePresent || env.readError.Some? || !env.templateIsZip || env.renderError.Some?
    ensures disk.present ==> GenerateOf(modeloPath, disk, entries, env).1 == disk
    ensures GenerateOf(modeloPath, disk, entries, env).0.Failed?
  {
  }

  /** The generator for one template and one output folder. */
  class Generator {
    const modeloPath: string
    const output: Folder

    constructor (modeloPath0: string, output0: Folder)
      ensures modeloPath == modeloPath0 && output == output0
    {
      modeloPath := modeloPath0;
      output := output0;
    }

    /** `getFileLocation`: the document's name in the output folder. */
    function FileLocation(idText: string): (r: string)
      ensures StartsWith(r, "OS-") && EndsWith(r, ".docx")
      ensures |r| == |idText| + 8 && r[3..|r| - 5] == SafeId(idText)
    {
      Filename(idText)
    }

    /** `fileExists`. */
    predicate FileExists(idText: string)
      reads output
    {
      output.present && Filename(idText) in output.names
    }

    /** `cleanupLegacyFiles`: a folder that cannot be listed is left alone; a locked file stays. */
    method CleanupLegacyFiles(idText: string, locked: set<string>)
      modifies output
      ensures output.present == old(output.present)
      ensures output.names ==
        if old(output.present) then Without(old(output.names), LegacyGone(old(output.names), idText, locked))
        else old(output.names)
    {
      if !output.present {
        return;
      }
      var files := output.names;
      var legacyFiles := LegacyFiles(files, idText);
      ghost var gone: set<string> := {};
      WithoutNothing(files, {});
      for i := 0 to |legacyFiles|
        invariant output.present
        invariant forall n :: n in gone <==> n in legacyFiles[..i] && n !in locked
        invariant output.names == Without(files, gone)
      {
        var legacyFile := legacyFiles[i];
        ghost var gone' := if legacyFile !in locked then gone + {legacyFile} else gone;
        GoneStep(legacyFiles, i, locked, gone);
        ghost var before := output.names;
        var removed := output.Unlink(legacyFile, legacyFile !in locked);
        UnlinkStep(files, gone, legacyFile, legacyFile !in locked, before, output.names);
        gone := gone';
      }
      GoneAll(files, idText, locked, legacyFiles, gone);
    }

    /** `generate(data)`, with the entries of `data` in order. */
    method Generate(entries: seq<(string, Value)>, env: Environment) returns (r: GenerateReply)
      modifies output
      ensures (r, Disk(output.present, output.names))
        == GenerateOf(modeloPath, Disk(old(output.present), old(output.names)), entries, env)
    {
      var osId := OsOf(entries);
      var validation := Validate(osId);
      if !validation.Pass? {
        return Failed(validation.message);
      }
      if !output.present {
        if env.mkdirError.Some? {
          return Failed(InternalMessage(env.mkdirError.value));
        }
        output.Ensure();
      }
      if !env.templatePresent {
        return Failed(MissingTemplateMessage(modeloPath));
      }
      if env.readError.Some? {
        return Failed(InternalMessage(env.readError.value));
      }
      if !env.templateIsZip {
        return Failed(CorruptTemplateMessage);
      }
      var renderData := CreateRenderData(entries);
      if env.renderError.Some? {
        return Failed(TagsMessage(env.renderError.value));
      }
      var idText := JsString(osId);
      CleanupLegacyFiles(idText, env.locked);
      var filePath := FileLocation(idText);
      if env.writeError.Some? {
        return Failed(InternalMessage(env.writeError.value));
      }
      output.Write(filePath);
      if !env.verified {
        return Failed(UnverifiedMessage);
      }
      return Generated(filePath);
    }
  }
}
