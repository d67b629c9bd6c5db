/** Numbers as the catalogue writes and reads them: `str(int)` and `int(s)`
    for the publication year, `str(float)` and `float(s)` for the width and
    height. A float is modelled by the exact decimal numeral its `repr`
    prints, so a float that is written and read back is the same float. */
module Numerals {
  import opened Wrappers
  import opened Text

  type Digit = d: int | 0 <= d <= 9

  function DigitChar(d: Digit): char {
    (d + '0' as int) as char
  }

  function CharDigit(c: char): Digit
    requires IsDigit(c)
  {
    c as int - '0' as int
  }

  predicate AllDigits(s: string) {
    forall i :: 0 <= i < |s| ==> IsDigit(s[i])
  }

  /** The value of a run of digits, most significant first; leading zeros
      are allowed. */
  function DigitsValue(s: string): nat
    requires AllDigits(s)
    decreases |s|
  {
    if |s| == 0 then 0 else DigitsValue(s[..|s| - 1]) * 10 + CharDigit(s[|s| - 1])
  }

  /** `str(n)` for a non-negative integer: digits without a leading zero
      whose value is `n`. */
  function ShowNat(n: nat): (r: string)
    ensures |r| >= 1 && AllDigits(r)
    ensures DigitsValue(r) == n
    ensures |r| > 1 ==> r[0] != '0'
    decreases n
  {
    if n < 10 then [DigitChar(n)]
    else
      var p := ShowNat(n / 10);
      var r := p + [DigitChar(n % 10)];
      assert r[..|r| - 1] == p;
      r
  }

  /** The whitespace `int(s)` and `float(s)` skip around a numeral. CPython
      first maps every non-ASCII character that `isspace` accepts to a space
      and then skips only the ASCII spaces ` \t\n\v\f\r`, so the separators
      U+001C to U+001F, which `str.strip()` does remove, are not skipped. */
  predicate NumeralSpace(c: char) {
    IsSpace(c) && !('\U{1c}' <= c <= '\U{1f}')
  }

  /** The leading whitespace `int(s)` and `float(s)` skip. */
  function TrimStart(s: string): (r: string)
    ensures |r| <= |s|
    ensures |r| > 0 ==> !NumeralSpace(r[0])
    ensures |s| > 0 && !NumeralSpace(s[0]) ==> r == s
    decreases |s|
  {
    if |s| > 0 && NumeralSpace(s[0]) then TrimStart(s[1..]) else s
  }

  /** The trailing whitespace `int(s)` and `float(s)` skip. */
  function TrimEnd(s: string): (r: string)
    ensures |r| <= |s|
    ensures |r| > 0 ==> !NumeralSpace(r[|r| - 1]) && r[0] == s[0]
    ensures |s| > 0 && !NumeralSpace(s[0]) ==> |r| > 0
    ensures |s| > 0 && !NumeralSpace(s[|s| - 1]) ==> r == s
    decreases |s|
  {
    if |s| > 0 && NumeralSpace(s[|s| - 1]) then TrimEnd(s[..|s| - 1]) else s
  }

  /** A numeral with the whitespace around it removed. */
  function Trim(s: string): (r: string)
    ensures |r| <= |s|
    ensures |r| > 0 ==> !NumeralSpace(r[0]) && !NumeralSpace(r[|r| - 1])
    ensures |s| > 0 && !NumeralSpace(s[0]) && !NumeralSpace(s[|s| - 1]) ==> r == s
  {
    TrimEnd(TrimStart(s))
  }

  /** `str(i)`. */
  function ShowInt(i: int): string {
    if i < 0 then "-" + ShowNat(-i) else ShowNat(i)
  }

  /** `int(s)`: surrounding whitespace (`NumeralSpace`), then an optional
      sign, then one or more digits; anything else raises `ValueError`, here
      `None`. */
  function ParseInt(s: string): (r: Option<int>)
    ensures r.Some? ==> |Trim(s)| > 0
  {
    var t := Trim(s);
    if |t| > 0 && (t[0] == '-' || t[0] == '+') then
      var body := t[1..];
      if |body| > 0 && AllDigits(body) then
        var v: int := DigitsValue(body);
        Some(if t[0] == '-' then -v else v)
      else None
    else if |t| > 0 && AllDigits(t) then Some(DigitsValue(t))
    else None
  }

  /** `int(str(i)) == i`. */
  lemma ParseShowInt(i: int)
    ensures ParseInt(ShowInt(i)) == Some(i)
  {
    var s := ShowInt(i);
    assert !IsSpace(s[0]) && !IsSpace(s[|s| - 1]);
    if i < 0 {
      assert s[1..] == ShowNat(-i);
    }
  }

  /** The number of digits of `n` is at most `k` exactly when `n < 10^k`. */
  lemma {:induction false} ShowNatLength(n: nat, k: nat)
    requires k >= 1
    ensures |ShowNat(n)| <= k <==> n < Pow10(k)
    decreases n
  {
    if n >= 10 {
      if k == 1 {
        assert |ShowNat(n)| == |ShowNat(n / 10)| + 1;
      } else {
        ShowNatLength(n / 10, k - 1);
        assert Pow10(k) == 10 * Pow10(k - 1);
      }
    } else {
      Pow10Positive(k);
    }
  }

  function Pow10(k: nat): nat {
    if k == 0 then 1 else 10 * Pow10(k - 1)
  }

  lemma {:induction false} Pow10Positive(k: nat)
    requires k >= 1
    ensures Pow10(k) >= 10
  {
    if k > 1 {
      Pow10Positive(k - 1);
    }
  }

  /** A decimal numeral: sign, whole part and the digits after the point. */
  datatype Decimal = Decimal(negative: bool, whole: nat, frac: seq<Digit>)

  /** `repr` never ends the fraction in a zero (except the lone "0" of an
      empty fraction, which is not stored). */
  predicate Canonical(x: Decimal) {
    x.frac == [] || x.frac[|x.frac| - 1] != 0
  }

  /** A Python float, by the decimal numeral its `repr` prints. */
  type Float = x: Decimal | Canonical(x) witness Decimal(false, 0, [])

  function FracValue(ds: seq<Digit>): (r: real)
    ensures 0.0 <= r < 1.0
    decreases |ds|
  {
    if ds == [] then 0.0 else (ds[0] as real + FracValue(ds[1..])) / 10.0
  }

  /** The number a numeral stands for. */
  function Value(x: Decimal): real {
    var magnitude := x.whole as real + FracValue(x.frac);
    if x.negative then -magnitude else magnitude
  }

  function DigitsText(ds: seq<Digit>): string {
    seq(|ds|, i requires 0 <= i < |ds| => DigitChar(ds[i]))
  }

  function DigitSeq(s: string): seq<Digit>
    requires AllDigits(s)
  {
    seq(|s|, i requires 0 <= i < |s| => CharDigit(s[i]))
  }

  /** `str(x)` for a float: sign, whole digits, a point, and at least one
      fraction digit. */
  function ShowFloat(x: Float): (r: string)
    ensures |r| >= 3
  {
    (if x.negative then "-" else "") + ShowNat(x.whole) + "." + FractionText(x.frac)
  }

  function FractionText(frac: seq<Digit>): (r: string)
    ensures |r| >= 1 && AllDigits(r)
  {
    if frac == [] then "0" else DigitsText(frac)
  }

  /** The number of leading digits of `s`. */
  function LeadingDigits(s: string): (n: nat)
    ensures n <= |s| && AllDigits(s[..n])
    ensures n < |s| ==> !IsDigit(s[n])
    decreases |s|
  {
    if |s| > 0 && IsDigit(s[0]) then
      var n := 1 + LeadingDigits(s[1..]);
      assert s[..n] == [s[0]] + s[1..][..n - 1];
      n
    else 0
  }

  /** Drops trailing zero digits. */
  function TrimZeros(ds: seq<Digit>): (r: seq<Digit>)
    ensures r == [] || r[|r| - 1] != 0
    ensures |r| <= |ds|
    decreases |ds|
  {
    if |ds| > 0 && ds[|ds| - 1] == 0 then TrimZeros(ds[..|ds| - 1]) else ds
  }

  /** What `TrimZeros` drops are zeros at the end, and what it keeps is the
      rest of the digits. */
  lemma {:induction false} TrimZerosMeans(ds: seq<Digit>)
    ensures var r := TrimZeros(ds);
      && r == ds[..|r|]
      && forall i :: |r| <= i < |ds| ==> ds[i] == 0
    decreases |ds|
  {
    if |ds| > 0 && ds[|ds| - 1] == 0 {
      TrimZerosMeans(ds[..|ds| - 1]);
      var r := TrimZeros(ds);
      assert ds[..|ds| - 1][..|r|] == ds[..|r|];
    }
  }

  /** The unsigned part of `float(s)`: digits, optionally a point and more
      digits, with at least one digit in all. */
  function ParseUnsigned(negative: bool, s: string): Option<Float> {
    var n := LeadingDigits(s);
    if n == |s| then
      if n == 0 then None else Some(Decimal(negative, DigitsValue(s), []))
    else if s[n] != '.' || !AllDigits(s[n + 1..]) || (n == 0 && n + 1 == |s|) then None
    else Some(Decimal(negative, DigitsValue(s[..n]), TrimZeros(DigitSeq(s[n + 1..]))))
  }

  /** `float(s)` on plain decimal notation, surrounding whitespace
      (`NumeralSpace`) allowed;
      anything else raises `ValueError`, here `None`. */
  function ParseFloat(s: string): Option<Float> {
    var t := Trim(s);
    if |t| > 0 && (t[0] == '-' || t[0] == '+') then ParseUnsigned(t[0] == '-', t[1..])
    else ParseUnsigned(false, t)
  }

  /** A run of digits followed by a non-digit has exactly that many leading
      digits. */
  lemma {:induction false} LeadingDigitsAppend(a: string, b: string)
    requires AllDigits(a)
    requires |b| > 0 && !IsDigit(b[0])
    ensures LeadingDigits(a + b) == |a|
    decreases |a|
  {
    if |a| > 0 {
      LeadingDigitsAppend(a[1..], b);
      assert (a + b)[1..] == a[1..] + b;
    }
  }

  /** Reading the digits of a fraction back gives the fraction. */
  lemma FractionDigits(frac: seq<Digit>)
    requires frac != []
    ensures DigitSeq(DigitsText(frac)) == frac
  {
  }

  /** The unsigned part of a shown float reads back as its whole part and
      fraction. */
  lemma ParseUnsignedShown(negative: bool, x: Float)
    ensures ParseUnsigned(negative, ShowNat(x.whole) + "." + FractionText(x.frac))
         == Some(Decimal(negative, x.whole, x.frac))
  {
    var w := ShowNat(x.whole);
    var f := FractionText(x.frac);
    var body := w + "." + f;
    LeadingDigitsAppend(w, "." + f);
    assert body == w + ("." + f);
    assert body[..|w|] == w;
    assert body[|w| + 1..] == f;
    if x.frac == [] {
      assert DigitSeq(f) == [0];
    } else {
      FractionDigits(x.frac);
    }
  }

  /** A shown float has no whitespace at either end. */
  lemma ShowFloatEnds(x: Float)
    ensures var s := ShowFloat(x); !IsSpace(s[0]) && !IsSpace(s[|s| - 1])
  {
    var w := ShowNat(x.whole);
    var f := FractionText(x.frac);
    var s := ShowFloat(x);
    assert s[|s| - 1] == f[|f| - 1];
    if !x.negative {
      assert s[0] == w[0];
    }
  }

  lemma ParseFloatSigned(x: Float, s: string)
    requires Trim(s) == s && |s| > 0 && s[0] == '-'
    requires ParseUnsigned(true, s[1..]) == Some(x)
    ensures ParseFloat(s) == Some(x)
  {
  }

  lemma ParseFloatUnsigned(x: Float, s: string)
    requires Trim(s) == s && |s| > 0 && IsDigit(s[0])
    requires ParseUnsigned(false, s) == Some(x)
    ensures ParseFloat(s) == Some(x)
  {
  }

  /** `float(str(x)) == x`: the numeral `repr` prints reads back as the same
      float. */
  lemma ParseShowFloat(x: Float)
    ensures ParseFloat(ShowFloat(x)) == Some(x)
  {
    var w := ShowNat(x.whole);
    var body := w + "." + FractionText(x.frac);
    var s := ShowFloat(x);
    ShowFloatEnds(x);
    assert Trim(s) == s;
    if x.negative {
      assert s == "-" + body;
      assert s[1..] == body;
      ParseUnsignedShown(x.negative, x);
      ParseFloatSigned(x, s);
    } else {
      assert s == body;
      assert s[0] == w[0];
      ParseUnsignedShown(x.negative, x);
      ParseFloatUnsigned(x, s);
    }
  }

  /** A numeral that starts with one of the separators U+001C to U+001F is
      rejected by both `int` and `float`, although `isspace` holds for the
      separator and `str.strip()` would remove it. */
  lemma SeparatorRejected(s: string)
    requires |s| > 0 && '\U{1c}' <= s[0] <= '\U{1f}'
    ensures IsSpace(s[0])
    ensures ParseInt(s) == None
    ensures ParseFloat(s) == None
  {
    assert TrimStart(s) == s;
  }
}
