/** Decimal text as Python renders and reads it: `%0Nd` zero padding (used by `str(date)`),
    `str(n)` for a natural number, `"%.2f"` for a value held in hundredths, and `float(s)`
    restricted to unsigned plain decimals. */
module Decimal {
  import opened Options

  predicate IsDigit(c: char) {
    '0' <= c <= '9'
  }

  predicate AllDigits(s: string) {
    forall i | 0 <= i < |s| :: IsDigit(s[i])
  }

  function DigitValue(c: char): nat
    requires IsDigit(c)
  {
    c as int - '0' as int
  }

  function DigitChar(k: nat): (c: char)
    requires k < 10
    ensures IsDigit(c) && DigitValue(c) == k
  {
    ('0' as int + k) as char
  }

  function Pow10(w: nat): (p: nat)
    ensures p >= 1
  {
    if w == 0 then 1 else 10 * Pow10(w - 1)
  }

  /** The number a string of decimal digits denotes, most significant digit first. */
  function DigitsValue(s: string): nat
    requires AllDigits(s)
  {
    if s == [] then 0 else 10 * DigitsValue(s[..|s| - 1]) + DigitValue(s[|s| - 1])
  }

  /** `"%0*d" % (w, n)`: `n` in exactly `w` digits, padded with leading zeros. */
  function Padded(n: nat, w: nat): (s: string)
    requires n < Pow10(w)
    ensures |s| == w && AllDigits(s) && DigitsValue(s) == n
  {
    if w == 0 then ""
    else
      var s := Padded(n / 10, w - 1) + [DigitChar(n % 10)];
      assert s[..|s| - 1] == Padded(n / 10, w - 1);
      s
  }

  /** `str(n)` for a natural number: its shortest decimal form, without a leading zero. */
  function NatText(n: nat): (s: string)
    ensures |s| >= 1 && AllDigits(s) && DigitsValue(s) == n
    ensures s[0] == '0' ==> n == 0
    ensures |s| == 1 <==> n < 10
  {
    if n < 10 then [DigitChar(n)]
    else
      var s := NatText(n / 10) + [DigitChar(n % 10)];
      assert s[..|s| - 1] == NatText(n / 10);
      s
  }

  /** The index of the first occurrence of `c` in `s`. */
  function FirstIndex(s: string, c: char): (r: Option<nat>)
    ensures r.None? ==> c !in s
    ensures r.Some? ==> r.value < |s| && s[r.value] == c
    ensures r.Some? ==> forall i | 0 <= i < r.value :: s[i] != c
  {
    if s == [] then None
    else if s[0] == c then Some(0)
    else
      match FirstIndex(s[1..], c)
      case None => None
      case Some(k) => Some(k + 1)
  }

  /** `v / 10^k`. */
  function Shifted(v: nat, k: nat): (r: real)
    ensures r >= 0.0
  {
    if k == 0 then v as real else Shifted(v, k - 1) / 10.0
  }

  /** `float(s)` for an unsigned decimal `digits[.digits]` with at least one digit; anything
      else (on which Python raises `ValueError` or accepts a form not written here) is `None`. */
  function ParseDecimal(s: string): (r: Option<real>)
    ensures r.Some? ==> r.value >= 0.0
  {
    match FirstIndex(s, '.')
    case None =>
      if |s| >= 1 && AllDigits(s) then Some(DigitsValue(s) as real) else None
    case Some(k) =>
      var whole, frac := s[..k], s[k + 1..];
      if |whole| + |frac| >= 1 && AllDigits(whole) && AllDigits(frac)
      then Some(DigitsValue(whole) as real + Shifted(DigitsValue(frac), |frac|))
      else None
  }

  /** `"%.2f" % (h / 100)` for a value given exactly in hundredths. */
  function FixedTwo(h: nat): (s: string)
    ensures |s| >= 4 && s[|s| - 3] == '.'
    ensures AllDigits(s[..|s| - 3]) && AllDigits(s[|s| - 2..])
    ensures DigitsValue(s[..|s| - 3]) == h / 100 && DigitsValue(s[|s| - 2..]) == h % 100
    ensures |s| >= 5 ==> s[0] != '0'
  {
    assert Pow10(2) == 100;
    var whole, cents := NatText(h / 100), Padded(h % 100, 2);
    var s := whole + "." + cents;
    assert s[..|s| - 3] == whole && s[|s| - 2..] == cents;
    s
  }

  /** The text `"%.2f"` writes begins and ends with a digit. */
  lemma FixedTwoEnds(h: nat)
    ensures IsDigit(FixedTwo(h)[0]) && IsDigit(FixedTwo(h)[|FixedTwo(h)| - 1])
  {
    assert Pow10(2) == 100;
    assert FixedTwo(h)[0] == NatText(h / 100)[0];
  }

  /** `f"{h / 100:.2f}%"`: a percentage given in hundredths, with two decimals and a percent
      sign. */
  function PercentText(h: nat): (s: string)
    ensures |s| >= 5 && s[|s| - 1] == '%'
  {
    FixedTwo(h) + "%"
  }

  /** The rendered percentage assembled from the texts of its whole part and its two
      decimals. */
  lemma PercentTextOf(h: nat, whole: string, cents: string)
    requires NatText(h / 100) == whole
    requires h % 100 < Pow10(2) && Padded(h % 100, 2) == cents
    ensures PercentText(h) == whole + "." + cents + "%"
  {
    assert Pow10(2) == 100;
  }

  /** Reading back what `"%.2f"` wrote gives the value exactly. */
  lemma {:induction false} ParseFixedTwo(h: nat)
    ensures ParseDecimal(FixedTwo(h)) == Some(h as real / 100.0)
  {
    var s := FixedTwo(h);
    var k := |s| - 3;
    var whole, frac := s[..k], s[k + 1..];
    assert frac == s[|s| - 2..];
    forall i | 0 <= i < k ensures s[i] != '.' {
      assert IsDigit(whole[i]);
    }
    assert FirstIndex(s, '.') == Some(k);
    assert Shifted(h % 100, 1) == (h % 100) as real / 10.0;
    assert Shifted(h % 100, 2) == (h % 100) as real / 100.0;
    assert (h / 100) as real + (h % 100) as real / 100.0 == h as real / 100.0;
  }

  /** `s.strip(c)`: drop every leading and every trailing `c`. */
  function Strip(s: string, c: char): (r: string)
    decreases |s|
  {
    if s == [] then s
    else if s[0] == c then Strip(s[1..], c)
    else if s[|s| - 1] == c then Strip(s[..|s| - 1], c)
    else s
  }

  /** `float(t.strip('%'))`: a rendered percentage read back as a number. */
  function ReadPercent(t: string): Option<real>
  {
    ParseDecimal(Strip(t, '%'))
  }

  /** The rendered percentage reads back exactly. */
  lemma ParsePercentText(h: nat)
    ensures ReadPercent(PercentText(h)) == Some(h as real / 100.0)
  {
    var f := FixedTwo(h);
    var s := PercentText(h);
    assert s[|s| - 1] == '%' && s[..|s| - 1] == f;
    FixedTwoEnds(h);
    assert s[0] == f[0];
    assert Strip(s, '%') == f;
    ParseFixedTwo(h);
  }
}
