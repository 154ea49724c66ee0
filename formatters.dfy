/**
 * The input masks of the order form: the phone mask and its digit cleaning, and the
 * currency mask that reads the typed digits as cents.
 */
module Formatters {
  import opened Text

  // ---------------------------------------------------------------------------------------
  // Phone

  /** The largest number of digits a phone keeps: two of area code and nine of number. */
  const PhoneDigits: nat := 11

  /** `cleanPhone`: the digits of the value, for `wa.me` links. */
  function CleanPhone(value: string): (r: string)
    ensures AllDigits(r)
    ensures forall c :: c in r <==> c in value && IsDigit(c)
  {
    DigitsMembers(value);
    Digits(value)
  }

  lemma {:induction false} DigitsMembers(s: string)
    ensures forall c :: c in Digits(s) <==> c in s && IsDigit(c)
  {
    if s != [] {
      DigitsMembers(s[1..]);
      assert s == [s[0]] + s[1..];
    }
  }

  /** `formatPhone`: the first eleven digits, laid out by how many there are. */
  function FormatPhone(value: string): string {
    var v := Take(Digits(value), PhoneDigits);
    if |v| > 10 then "(" + v[..2] + ") " + v[2..7] + "-" + v[7..]
    else if |v| > 6 then "(" + v[..2] + ") " + v[2..6] + "-" + v[6..]
    else if |v| > 2 then "(" + v[..2] + ") " + v[2..]
    else v
  }

  /** `k` digit slots. */
  function Slots(k: nat): (r: string)
    ensures |r| == k && forall i | 0 <= i < k :: r[i] == '#'
  {
    if k == 0 then "" else Slots(k - 1) + "#"
  }

  /**
   * The layout for `n` digits, with `#` for a digit: `(##) #####-####` for eleven,
   * `(##) ####-` and the rest for seven to ten, `(##) ` and the rest for three to six, and
   * the bare digits for two or fewer.
   */
  function PhoneMask(n: nat): string {
    if n > 10 then "(##) #####-####"
    else if n > 6 then "(##) ####-" + Slots(n - 6)
    else if n > 2 then "(##) " + Slots(n - 2)
    else Slots(n)
  }

  /** `t` fills the mask `m`: digits in the slots, the mask's own characters elsewhere. */
  predicate Fills(t: string, m: string) {
    && |t| == |m|
    && forall i | 0 <= i < |m| :: if m[i] == '#' then IsDigit(t[i]) else t[i] == m[i]
  }

  /**
   * The phone mask keeps exactly the first eleven digits, in order, and lays them out in
   * the mask for their count.
   */
  lemma {:induction false} FormatPhoneShape(value: string)
    ensures var v := Take(Digits(value), PhoneDigits);
      && Digits(FormatPhone(value)) == v
      && Fills(FormatPhone(value), PhoneMask(|v|))
  {
    FormatPhoneDigits(value);
    var v := Take(Digits(value), PhoneDigits);
    if |v| > 10 {
      FillsLong(v);
    } else if |v| > 6 {
      FillsMiddle(v);
    } else if |v| > 2 {
      FillsShort(v);
    }
  }

  lemma {:induction false} FormatPhoneDigits(value: string)
    ensures Digits(FormatPhone(value)) == Take(Digits(value), PhoneDigits)
  {
    var v := Take(Digits(value), PhoneDigits);
    var r := FormatPhone(value);
    assert AllDigits(v);
    if |v| > 6 {
      var e := if |v| > 10 then 7 else 6;
      assert r == "(" + v[..2] + ") " + v[2..e] + "-" + v[e..];
      PhoneDigitsDashed(v, e);
    } else if |v| > 2 {
      assert r == "(" + v[..2] + ") " + v[2..];
      PhoneDigitsOpen(v);
    } else {
      DigitsOfDigits(v);
    }
  }

  lemma PhoneDigitsDashed(v: string, e: nat)
    requires AllDigits(v) && 2 <= e <= |v|
    ensures Digits("(" + v[..2] + ") " + v[2..e] + "-" + v[e..]) == v
  {
    var a, b, c := v[..2], v[2..e], v[e..];
    assert AllDigits(a) && AllDigits(b) && AllDigits(c);
    Laid("(", a, ") ", b);
    var x := "(" + a + ") " + b;
    assert x + "" == x;
    Laid(x, "", "-", c);
    assert v == a + b + c;
  }

  lemma PhoneDigitsOpen(v: string)
    requires AllDigits(v) && 2 <= |v|
    ensures Digits("(" + v[..2] + ") " + v[2..]) == v
  {
    var a, b := v[..2], v[2..];
    assert AllDigits(a) && AllDigits(b);
    Laid("(", a, ") ", b);
    assert v == a + b;
  }

  lemma {:induction false} FillsLong(v: string)
    requires AllDigits(v) && |v| == 11
    ensures Fills("(" + v[..2] + ") " + v[2..7] + "-" + v[7..], PhoneMask(|v|))
  {
    var r := "(" + v[..2] + ") " + v[2..7] + "-" + v[7..];
    var m := PhoneMask(|v|);
    assert |r| == 15 == |m|;
    forall i | 0 <= i < 15
      ensures if m[i] == '#' then IsDigit(r[i]) else r[i] == m[i]
    {
      if 1 <= i < 3 { assert r[i] == v[i - 1]; }
      else if 5 <= i < 10 { assert r[i] == v[i - 3]; }
      else if 11 <= i { assert r[i] == v[i - 4]; }
    }
  }

  lemma {:induction false} FillsMiddle(v: string)
    requires AllDigits(v) && 6 < |v| <= 10
    ensures Fills("(" + v[..2] + ") " + v[2..6] + "-" + v[6..], PhoneMask(|v|))
  {
    var r := "(" + v[..2] + ") " + v[2..6] + "-" + v[6..];
    var m := PhoneMask(|v|);
    var f := "(##) ####-";
    assert m == f + Slots(|v| - 6);
    assert |r| == |v| + 4 == |m|;
    forall i | 0 <= i < |m|
      ensures if m[i] == '#' then IsDigit(r[i]) else r[i] == m[i]
    {
      if i < 10 {
        assert m[i] == f[i];
        if 1 <= i < 3 { assert r[i] == v[i - 1]; }
        else if 5 <= i < 9 { assert r[i] == v[i - 3]; }
      } else {
        assert m[i] == '#' && r[i] == v[i - 4];
      }
    }
  }

  lemma {:induction false} FillsShort(v: string)
    requires AllDigits(v) && 2 < |v| <= 6
    ensures Fills("(" + v[..2] + ") " + v[2..], PhoneMask(|v|))
  {
    var r := "(" + v[..2] + ") " + v[2..];
    var m := PhoneMask(|v|);
    var f := "(##) ";
    assert m == f + Slots(|v| - 2);
    assert |r| == |v| + 3 == |m|;
    forall i | 0 <= i < |m|
      ensures if m[i] == '#' then IsDigit(r[i]) else r[i] == m[i]
    {
      if i < 5 {
        assert m[i] == f[i];
        if 1 <= i < 3 { assert r[i] == v[i - 1]; }
      } else {
        assert m[i] == '#' && r[i] == v[i - 3];
      }
    }
  }

  /** Digits laid out between characters of a mask keep their order. */
  lemma {:induction false} Laid(p: string, a: string, m: string, b: string)
    requires AllDigits(a) && AllDigits(b)
    requires forall i | 0 <= i < |m| :: !IsDigit(m[i])
    ensures Digits(p + a + m + b) == Digits(p) + a + b
  {
    DigitsOfDigits(a);
    DigitsOfDigits(b);
    DigitsOfNonDigits(m);
    DigitsConcat(p + a + m, b);
    DigitsConcat(p + a, m);
    DigitsConcat(p, a);
  }

  /** Cleaning a masked phone gives the first eleven digits of the value. */
  lemma {:induction false} CleanFormattedPhone(value: string)
    ensures CleanPhone(FormatPhone(value)) == Take(CleanPhone(value), PhoneDigits)
  {
    FormatPhoneShape(value);
  }

  /** Masking a masked phone changes nothing. */
  lemma {:induction false} FormatPhoneIdempotent(value: string)
    ensures FormatPhone(FormatPhone(value)) == FormatPhone(value)
  {
    FormatPhoneShape(value);
    var v := Take(Digits(value), PhoneDigits);
    assert Take(v, PhoneDigits) == v;
  }

  // ---------------------------------------------------------------------------------------
  // Currency

  /**
   * The string `toFixed(2)` gives for `cents / 100`: the integer part, a point and two
   * digits.
   */
  function FixedTwo(cents: nat): (r: string)
    ensures |r| >= 4 && r[|r| - 3] == '.'
  {
    NatToString(cents / 100) + "." + [DigitChar(cents % 100 / 10), DigitChar(cents % 10)]
  }

  /**
   * One step of `replace(/(\d)(?=(\d{3})+(?!\d))/g, "$1.")`: the first index from `j` on
   * that is not a digit, or the end.
   */
  function RunEnd(s: string, j: nat): (k: nat)
    requires j <= |s|
    ensures j <= k <= |s| && (k == |s| || !IsDigit(s[k]))
    ensures forall i | j <= i < k :: IsDigit(s[i])
    decreases |s| - j
  {
    if j < |s| && IsDigit(s[j]) then RunEnd(s, j + 1) else j
  }

  /**
   * The pattern matches with its digit at `i`: the digit is followed by a run of digits
   * whose length is a positive multiple of three and which ends at a non-digit or at the
   * end. (The greedy `(\d{3})+` gives back three digits at a time, so the lookahead holds
   * exactly for such a run.)
   */
  predicate GroupMark(s: string, i: nat)
    requires i < |s|
  {
    var k := RunEnd(s, i + 1) - (i + 1);
    IsDigit(s[i]) && k > 0 && k % 3 == 0
  }

  /** The global replace from index `i` on: the match consumes only its digit. */
  function MarkGroupsFrom(s: string, i: nat): string
    requires i <= |s|
    decreases |s| - i
  {
    if i == |s| then ""
    else [s[i]] + (if GroupMark(s, i) then "." else "") + MarkGroupsFrom(s, i + 1)
  }

  /** `formatCurrencyInput`: the typed digits read as cents. */
  function FormatCurrencyInput(value: string): (r: string)
    ensures r == "" <==> Digits(value) == ""
  {
    var v := Digits(value);
    if v == "" then ""
    else
      var fixed := FixedTwo(DigitsValue(v));
      var comma := fixed[..|fixed| - 3] + "," + fixed[|fixed| - 2..];
      "R$ " + MarkGroupsFrom(comma, 0)
  }

  /** Digit groups of three from the right, separated by points. */
  function Grouped(q: string): (r: string)
    decreases |q|
  {
    if |q| <= 3 then q else Grouped(q[..|q| - 3]) + "." + q[|q| - 3..]
  }

  /** The cents the currency mask reads from a value: its digits as one number. */
  function Cents(value: string): nat {
    DigitsValue(Digits(value))
  }

  /** The two-digit text of the cents below one real. */
  function CentsText(cents: nat): (r: string)
    ensures |r| == 2 && AllDigits(r)
  {
    [DigitChar(cents % 100 / 10), DigitChar(cents % 10)]
  }

  /**
   * A value with digits is shown as `R$ `, the reais in groups of three from the right
   * separated by points, a comma and exactly two digits of cents.
   */
  lemma {:induction false} FormatCurrencyShape(value: string)
    requires Digits(value) != ""
    ensures FormatCurrencyInput(value) ==
      "R$ " + Grouped(NatToString(Cents(value) / 100)) + "," + CentsText(Cents(value))
  {
    var n := Cents(value);
    var q := NatToString(n / 100);
    var c := CentsText(n);
    FormatCurrencyMarked(value);
    MarkDigitsPart(q, c, 0);
    MarkTail(q, c);
    DotsGrouped(q);
  }

  lemma FormatCurrencyMarked(value: string)
    requires Digits(value) != ""
    ensures FormatCurrencyInput(value) ==
      "R$ " + MarkGroupsFrom(NatToString(Cents(value) / 100) + "," + CentsText(Cents(value)), 0)
  {
    CommaOfFixed(Cents(value));
  }

  /** The point of the fixed-point text, replaced by a comma. */
  lemma CommaOfFixed(n: nat)
    ensures var fixed := FixedTwo(n);
      fixed[..|fixed| - 3] + "," + fixed[|fixed| - 2..] == NatToString(n / 100) + "," + CentsText(n)
  {
    var q, c := NatToString(n / 100), CentsText(n);
    var fixed := FixedTwo(n);
    assert fixed == q + "." + c;
    assert fixed[..|fixed| - 3] == q && fixed[|fixed| - 2..] == c;
  }

  /** Marks on the reais part: inside `q + "," + c`, a digit of `q` is marked by its distance to the comma. */
  function Dots(q: string, i: nat): string
    requires i <= |q|
    decreases |q| - i
  {
    if i == |q| then ""
    else [q[i]] + GroupDot(|q| - 1 - i) + Dots(q, i + 1)
  }

  /** The mark after a digit followed by `d` more digits of the reais. */
  function GroupDot(d: int): string {
    if d > 0 && d % 3 == 0 then "." else ""
  }

  lemma {:induction false} MarkDigitsPart(q: string, c: string, i: nat)
    requires AllDigits(q) && i <= |q|
    ensures MarkGroupsFrom(q + "," + c, i) == Dots(q, i) + MarkGroupsFrom(q + "," + c, |q|)
    decreases |q| - i
  {
    if i < |q| {
      MarkDigitsPart(q, c, i + 1);
      MarkDigitsStep(q, c, i);
    }
  }

  lemma MarkDigitsStep(q: string, c: string, i: nat)
    requires AllDigits(q) && i < |q|
    requires MarkGroupsFrom(q + "," + c, i + 1) == Dots(q, i + 1) + MarkGroupsFrom(q + "," + c, |q|)
    ensures MarkGroupsFrom(q + "," + c, i) == Dots(q, i) + MarkGroupsFrom(q + "," + c, |q|)
  {
    var s := q + "," + c;
    MarkAtDigit(q, c, i);
    var p, m := [q[i]] + GroupDot(|q| - 1 - i), MarkGroupsFrom(s, i + 1);
    assert MarkGroupsFrom(s, i) == p + m;
    ConcatAssoc(p, Dots(q, i + 1), MarkGroupsFrom(s, |q|));
  }

  /** Inside `q + "," + c`, the digit at `i` of `q` is marked by its distance to the comma. */
  lemma MarkAtDigit(q: string, c: string, i: nat)
    requires AllDigits(q) && i < |q|
    ensures (q + "," + c)[i] == q[i]
    ensures (if GroupMark(q + "," + c, i) then "." else "") == GroupDot(|q| - 1 - i)
  {
    var s := q + "," + c;
    assert s[|q|] == ',';
    assert forall j | i + 1 <= j < |q| :: IsDigit(s[j]);
    RunEndAt(s, i + 1, |q|);
    assert s[i] == q[i];
  }

  lemma {:induction false} RunEndAt(s: string, j: nat, k: nat)
    requires j <= k < |s| && !IsDigit(s[k]) && forall m | j <= m < k :: IsDigit(s[m])
    ensures RunEnd(s, j) == k
    decreases k - j
  {
    if j < k {
      RunEndAt(s, j + 1, k);
    }
  }

  lemma {:induction false} MarkTail(q: string, c: string)
    requires |c| == 2 && AllDigits(c)
    ensures MarkGroupsFrom(q + "," + c, |q|) == "," + c
  {
    var s := q + "," + c;
    var p := |q|;
    assert s[p] == ',' && s[p + 1] == c[0] && s[p + 2] == c[1];
    assert RunEnd(s, p + 3) == p + 3;
    assert RunEnd(s, p + 2) == p + 3;
    assert MarkGroupsFrom(s, p + 2) == [c[1]];
    assert MarkGroupsFrom(s, p + 1) == [c[0]] + [c[1]];
    assert MarkGroupsFrom(s, p) == [','] + ([c[0]] + [c[1]]);
    assert c == [c[0]] + [c[1]];
  }

  /** The marks the regex puts on the reais part are the groups of three from the right. */
  lemma {:induction false} DotsGrouped(q: string)
    ensures Dots(q, 0) == Grouped(q)
    decreases |q|
  {
    if |q| <= 3 {
      DotsPlain(q, 0);
    } else {
      var a, b := q[..|q| - 3], q[|q| - 3..];
      DotsSplit(q, a, 0);
      DotsGrouped(a);
      DotsPlain(q, |a|);
      assert q[|a|..] == b;
    }
  }

  /** No marks in the last three digits. */
  lemma {:induction false} DotsPlain(q: string, i: nat)
    requires i <= |q| <= i + 3
    ensures Dots(q, i) == q[i..]
    decreases |q| - i
  {
    if i < |q| {
      DotsPlain(q, i + 1);
      assert q[i..] == [q[i]] + q[i + 1..];
    }
  }

  /** Before the last three digits, the marks are those of the shorter number and one more at its end. */
  lemma {:induction false} DotsSplit(q: string, a: string, i: nat)
    requires |q| > 3 && a == q[..|q| - 3] && i < |a|
    ensures Dots(q, i) == Dots(a, i) + "." + Dots(q, |a|)
    decreases |a| - i
  {
    if i + 1 < |a| {
      DotsSplit(q, a, i + 1);
      DotsSplitStep(q, a, i);
    } else {
      DotsSplitLast(q, a, i);
    }
  }

  lemma DotsSplitStep(q: string, a: string, i: nat)
    requires |q| > 3 && a == q[..|q| - 3] && i + 1 < |a|
    requires Dots(q, i + 1) == Dots(a, i + 1) + "." + Dots(q, |a|)
    ensures Dots(q, i) == Dots(a, i) + "." + Dots(q, |a|)
  {
    var k := |a| - 1 - i;
    assert q[i] == a[i];
    assert |q| - 1 - i == k + 3;
    GroupDotShift(k);
    var p, da, m := [q[i]] + GroupDot(k), Dots(a, i + 1), Dots(q, |a|);
    assert Dots(q, i) == p + ((da + ".") + m);
    assert Dots(a, i) == p + da;
    ConcatAssoc(p, da + ".", m);
    ConcatAssoc(p, da, ".");
  }

  lemma DotsSplitLast(q: string, a: string, i: nat)
    requires |q| > 3 && a == q[..|q| - 3] && i + 1 == |a|
    ensures Dots(q, i) == Dots(a, i) + "." + Dots(q, |a|)
  {
    assert q[i] == a[i];
    assert |q| - 1 - i == 3;
    GroupDotShift(0);
    var m := Dots(q, i + 1);
    assert Dots(q, i) == [q[i]] + "." + m;
    assert Dots(a, i) == [q[i]];
  }

  /** Three more digits to the right keep the mark, and the fourth digit from the right is marked. */
  lemma GroupDotShift(k: nat)
    ensures GroupDot(k + 3) == if k == 0 then "." else GroupDot(k)
  {
    assert (k + 3) % 3 == k % 3;
  }



  lemma {:induction false} GroupedDigits(q: string)
    requires AllDigits(q)
    ensures Digits(Grouped(q)) == q
    decreases |q|
  {
    if |q| <= 3 {
      DigitsOfDigits(q);
    } else {
      var a, b := q[..|q| - 3], q[|q| - 3..];
      assert forall i | 0 <= i < |a| :: a[i] == q[i];
      assert forall i | 0 <= i < |b| :: b[i] == q[|q| - 3 + i];
      var g := Grouped(a);
      assert Grouped(q) == g + "." + b;
      GroupedDigits(a);
      DigitsAroundDot(g, b);
      assert q == a + b;
    }
  }

  lemma DigitsAroundDot(g: string, b: string)
    requires AllDigits(b)
    ensures Digits(g + "." + b) == Digits(g) + b
  {
    DigitsOfDigits(b);
    DigitsConcat(g + ".", b);
    DigitsConcat(g, ".");
    DigitsOfDot();
  }

  lemma DigitsOfDot()
    ensures Digits(".") == []
  {
    assert "."[1..] == [];
  }

  /** The digits of a shown amount: the reais, then the two digits of cents. */
  lemma {:induction false} FormatCurrencyDigits(value: string)
    requires Digits(value) != ""
    ensures Digits(FormatCurrencyInput(value)) == NatToString(Cents(value) / 100) + CentsText(Cents(value))
  {
    var n := Cents(value);
    var q := NatToString(n / 100);
    var c := CentsText(n);
    FormatCurrencyShape(value);
    GroupedDigits(q);
    DigitsOfShown(Grouped(q), c);
  }

  lemma DigitsOfShown(g: string, c: string)
    requires AllDigits(c)
    ensures Digits("R$ " + g + "," + c) == Digits(g) + c
  {
    assert "R$ " + g + "," + c == ("R$ " + g) + ("," + c);
    DigitsConcat("R$ " + g, "," + c);
    DigitsConcat("R$ ", g);
    DigitsConcat(",", c);
    DigitsOfDigits(c);
  }

  lemma {:induction false} TwoDigitsValue(n: nat)
    ensures DigitsValue(CentsText(n)) == n % 100
  {
    var c := CentsText(n);
    var hi, lo := n % 100 / 10, n % 10;
    assert c[..1] == [c[0]];
    assert [c[0]][..0] == [];
    assert DigitsValue([c[0]]) == hi;
    assert DigitsValue(c) == 10 * hi + lo;
    assert 10 * hi + lo == n % 100;
  }

  /** Reading the digits of a shown amount back as cents gives the amount. */
  lemma {:induction false} FormatCurrencyCents(value: string)
    requires Digits(value) != ""
    ensures Cents(FormatCurrencyInput(value)) == Cents(value)
  {
    var n := Cents(value);
    var q := NatToString(n / 100);
    var c := CentsText(n);
    FormatCurrencyDigits(value);
    DigitsValueConcat(q, c);
    NatToStringValue(n / 100);
    TwoDigitsValue(n);
    assert Pow10(2) == 100;
    DivMod100(n);
  }

  lemma DivMod100(n: nat)
    ensures n / 100 * 100 + n % 100 == n
  {
  }

  /** Masking a shown amount again shows the same amount. */
  lemma {:induction false} FormatCurrencyIdempotent(value: string)
    ensures FormatCurrencyInput(FormatCurrencyInput(value)) == FormatCurrencyInput(value)
  {
    var r := FormatCurrencyInput(value);
    if Digits(value) != "" {
      FormatCurrencyCents(value);
      FormatCurrencyDigits(value);
      FormatCurrencyShape(value);
      FormatCurrencyShape(r);
    } else {
      assert r == "";
    }
  }
}
