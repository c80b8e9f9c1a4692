/** JavaScript numbers as the utilities use them. A finite number is
    modelled by its shortest decimal form `Decimal(units, scale)`, whose
    value is `units / 10^scale`; on top of it sit `Math.round`,
    `toFixed(1)` and the default number-to-string conversion. */
module JsNumbers {
  import opened Wrappers
  import opened JsStrings

  function Pow10(n: nat): (r: nat)
    ensures r >= 1
  {
    if n == 0 then 1 else 10 * Pow10(n - 1)
  }

  /** `q * 10^k`, by repeated multiplication by ten. */
  function Shift(q: nat, k: nat): nat {
    if k == 0 then q else 10 * Shift(q, k - 1)
  }

  lemma {:induction false} ShiftIsProduct(q: nat, k: nat)
    ensures Shift(q, k) == q * Pow10(k)
  {
    if k > 0 {
      ShiftIsProduct(q, k - 1);
      assert q * Pow10(k) == 10 * (q * Pow10(k - 1));
    }
  }

  function Abs(x: int): nat {
    if x < 0 then -x else x
  }

  /** Quotient and remainder of `a` by a positive `b`. */
  function Quot(a: nat, b: nat): (q: nat)
    requires b > 0
  {
    a / b
  }

  function Rem(a: nat, b: nat): (r: nat)
    requires b > 0
    ensures r < b
    ensures Quot(a, b) * b + r == a
  {
    a % b
  }

  /** The number `units / 10^scale`. */
  datatype Decimal = Decimal(units: int, scale: nat)

  /** `x < 1` */
  predicate LessThanOne(d: Decimal) {
    d.units < Pow10(d.scale)
  }

  /** `Math.round(p / q)`: the integer nearest to `p / q`, halves rounded up
      towards positive infinity. */
  function RoundRatio(p: int, q: int): (r: int)
    requires q > 0
    ensures 2 * q * r <= 2 * p + q < 2 * q * r + 2 * q
    ensures p >= 0 ==> r >= 0
  {
    (2 * p + q) / (2 * q)
  }

  /** `Math.round(x)` */
  function MathRound(d: Decimal): int {
    RoundRatio(d.units, Pow10(d.scale))
  }

  /** `Math.round(1 / x)` for a non-zero `x`: with `a = |units|`, the
      result `r` is the integer nearest to `±10^scale / a`. */
  function ReciprocalRound(d: Decimal): (r: int)
    requires d.units != 0
    ensures var a := Abs(d.units);
            var n: int := if d.units > 0 then Pow10(d.scale) else -(Pow10(d.scale) as int);
            2 * a * r <= 2 * n + a < 2 * a * r + 2 * a
  {
    if d.units > 0 then RoundRatio(Pow10(d.scale), d.units)
    else RoundRatio(-(Pow10(d.scale) as int), -d.units)
  }

  /** For `0 < x < 1` the reciprocal exceeds one, so its rounding is a
      positive denominator. */
  lemma ReciprocalOfFractionPositive(d: Decimal)
    requires 0 < d.units && LessThanOne(d)
    ensures ReciprocalRound(d) >= 1
  {
  }

  // ---- Digits ----

  predicate IsDigit(c: char) {
    '0' <= c <= '9'
  }

  predicate IsDigits(s: string) {
    |s| > 0 && forall i :: 0 <= i < |s| ==> IsDigit(s[i])
  }

  function DigitChar(n: nat): (c: char)
    requires n < 10
    ensures IsDigit(c)
  {
    ['0', '1', '2', '3', '4', '5', '6', '7', '8', '9'][n]
  }

  function DigitValue(c: char): nat
    requires IsDigit(c)
  {
    (c as int - '0' as int) as nat
  }

  /** The number a string of decimal digits denotes, most significant first. */
  function ParseNat(s: string): nat
    requires forall i :: 0 <= i < |s| ==> IsDigit(s[i])
  {
    if |s| == 0 then 0 else 10 * ParseNat(s[..|s| - 1]) + DigitValue(s[|s| - 1])
  }

  /** `n.toString()` for a non-negative integer: no leading zeros. */
  function NatToString(n: nat): (s: string)
    ensures IsDigits(s)
    ensures |s| > 1 ==> s[0] != '0'
  {
    if n < 10 then [DigitChar(n)] else NatToString(n / 10) + [DigitChar(n % 10)]
  }

  lemma DigitRoundTrip(n: nat)
    requires n < 10
    ensures DigitValue(DigitChar(n)) == n
  {
  }

  /** Parsing undoes printing. */
  lemma {:induction false} NatToStringRoundTrip(n: nat)
    ensures ParseNat(NatToString(n)) == n
  {
    DigitRoundTrip(n % 10);
    if n >= 10 {
      var s := NatToString(n);
      assert s[..|s| - 1] == NatToString(n / 10);
      NatToStringRoundTrip(n / 10);
    }
  }

  /** `String(i)` for an integer `i` with fewer than 22 digits. */
  function IntToString(i: int): (s: string)
    ensures |s| > 0
    ensures s[0] == '-' <==> i < 0
  {
    if i < 0 then "-" + NatToString(-i) else NatToString(i)
  }

  /** The last `w` decimal digits of `n`, zero-padded on the left. */
  function PadDigits(n: nat, w: nat): (s: string)
    requires n < Pow10(w)
    ensures |s| == w
    ensures forall i :: 0 <= i < |s| ==> IsDigit(s[i])
  {
    if w == 0 then "" else PadDigits(n / 10, w - 1) + [DigitChar(n % 10)]
  }

  lemma {:induction false} PadDigitsRoundTrip(n: nat, w: nat)
    requires n < Pow10(w)
    ensures ParseNat(PadDigits(n, w)) == n
  {
    if w > 0 {
      var s := PadDigits(n, w);
      assert s[..|s| - 1] == PadDigits(n / 10, w - 1);
      PadDigitsRoundTrip(n / 10, w - 1);
      DigitRoundTrip(n % 10);
    }
  }

  // ---- Number to string ----

  /** The same number with trailing fractional zeros removed. */
  function Normalize(d: Decimal): (r: Decimal)
    ensures r.scale <= d.scale
    ensures r.units * Pow10(d.scale - r.scale) == d.units
    ensures r.scale > 0 ==> r.units % 10 != 0
    ensures r.units < 0 <==> d.units < 0
    decreases d.scale
  {
    if d.scale > 0 && d.units % 10 == 0 then
      var r := Normalize(Decimal(d.units / 10, d.scale - 1));
      assert Pow10(d.scale - r.scale) == 10 * Pow10(d.scale - 1 - r.scale);
      assert r.units * Pow10(d.scale - r.scale) == 10 * (r.units * Pow10(d.scale - 1 - r.scale));
      r
    else
      d
  }

  /** The digits of `mag / 10^scale`: the integer digits, then, when
      `scale > 0`, a point and exactly `scale` fractional digits. */
  function Positional(mag: nat, scale: nat): (s: string)
    ensures |s| > 0 && IsDigit(s[0])
  {
    var p := Pow10(scale);
    var w := NatToString(Quot(mag, p));
    if scale == 0 then w else w + "." + PadDigits(Rem(mag, p), scale)
  }

  /** `String(x)` for a finite number written in positional notation:
      an optional minus sign, the integer digits, and the fractional digits
      without trailing zeros after a point when there are any. */
  function JsNumberString(d: Decimal): (s: string)
    ensures |s| > 0
    ensures s[0] == '-' <==> d.units < 0
  {
    var n := Normalize(d);
    (if n.units < 0 then "-" else "") + Positional(Abs(n.units), n.scale)
  }

  /** Reads a positional decimal numeral: digits, optionally followed by a
      point and more digits. */
  function ParseUnsigned(s: string): Option<Decimal> {
    var parts := Split(s, '.');
    if |parts| == 1 && IsDigits(parts[0]) then
      Some(Decimal(ParseNat(parts[0]), 0))
    else if |parts| == 2 && IsDigits(parts[0]) && IsDigits(parts[1]) then
      Some(Decimal(Shift(ParseNat(parts[0]), |parts[1]|) + ParseNat(parts[1]), |parts[1]|))
    else
      None
  }

  /** Reads an optionally negative positional decimal numeral. */
  function ParseDecimal(s: string): Option<Decimal> {
    if |s| > 0 && s[0] == '-' then
      match ParseUnsigned(s[1..])
      case Some(u) => Some(Decimal(-u.units, u.scale))
      case None => None
    else
      ParseUnsigned(s)
  }

  lemma DigitsHaveNoPoint(s: string)
    requires forall i :: 0 <= i < |s| ==> IsDigit(s[i])
    ensures '.' !in s
  {
  }

  /** Whole digits and fractional digits read back as one numeral. */
  lemma ParseUnsignedParts(w: string, f: string, q: nat, r: nat)
    requires IsDigits(w) && IsDigits(f)
    requires ParseNat(w) == q && ParseNat(f) == r
    ensures ParseUnsigned(w + "." + f) == Some(Decimal(Shift(q, |f|) + r, |f|))
  {
    var parts := [w, f];
    PointFreeParts(w, f);
    SplitJoin(parts, '.');
    assert Join(parts, '.') == w + "." + f by {
      assert parts[1..] == [f];
    }
    assert Split(w + "." + f, '.') == parts;
  }

  lemma PointFreeParts(w: string, f: string)
    requires IsDigits(w) && IsDigits(f)
    ensures forall i :: 0 <= i < |[w, f]| ==> '.' !in [w, f][i]
  {
    DigitsHaveNoPoint(w);
    DigitsHaveNoPoint(f);
  }

  lemma ParseUnsignedWhole(w: string)
    requires IsDigits(w)
    ensures ParseUnsigned(w) == Some(Decimal(ParseNat(w), 0))
  {
    DigitsHaveNoPoint(w);
    SplitJoin([w], '.');
  }

  /** Reading back a positional rendering gives the same number. */
  lemma PositionalRoundTrip(mag: nat, scale: nat)
    ensures ParseUnsigned(Positional(mag, scale)) == Some(Decimal(mag, scale))
  {
    if scale == 0 {
      WholeRoundTrip(mag);
    } else {
      FractionRoundTrip(mag, scale);
    }
  }

  lemma WholeRoundTrip(mag: nat)
    ensures ParseUnsigned(Positional(mag, 0)) == Some(Decimal(mag, 0))
  {
    assert Pow10(0) == 1;
    assert Quot(mag, 1) == mag;
    var w := NatToString(mag);
    assert Positional(mag, 0) == w;
    NatToStringRoundTrip(mag);
    ParseUnsignedWhole(w);
  }

  lemma FractionRoundTrip(mag: nat, scale: nat)
    requires scale > 0
    ensures ParseUnsigned(Positional(mag, scale)) == Some(Decimal(mag, scale))
  {
    var p := Pow10(scale);
    var q, r := Quot(mag, p), Rem(mag, p);
    var w := NatToString(q);
    var f := PadDigits(r, scale);
    assert Positional(mag, scale) == w + "." + f;
    NatToStringRoundTrip(q);
    PadDigitsRoundTrip(r, scale);
    ParseUnsignedParts(w, f, q, r);
    ShiftIsProduct(q, scale);
  }

  /** Reading back what `JsNumberString` printed gives the same number in
      its normal form: the rendering loses nothing. */
  lemma JsNumberStringRoundTrip(d: Decimal)
    ensures ParseDecimal(JsNumberString(d)) == Some(Normalize(d))
  {
    var n := Normalize(d);
    var body := Positional(Abs(n.units), n.scale);
    PositionalRoundTrip(Abs(n.units), n.scale);
    var s := JsNumberString(d);
    if n.units < 0 {
      assert s == "-" + body;
      assert s[1..] == body;
    } else {
      assert s == body;
    }
  }

  /** Trailing zeros do not change the rendering: equal numbers print
      equally whatever their scale. */
  lemma JsNumberStringScaleFree(units: int, scale: nat, k: nat)
    ensures JsNumberString(Decimal(units * Pow10(k), scale + k)) == JsNumberString(Decimal(units, scale))
  {
    NormalizeScaleFree(units, scale, k);
  }

  lemma {:induction false} NormalizeScaleFree(units: int, scale: nat, k: nat)
    ensures Normalize(Decimal(units * Pow10(k), scale + k)) == Normalize(Decimal(units, scale))
  {
    if k > 0 {
      var m := units * Pow10(k - 1);
      ScaleStep(units, k);
      NormalizeDropsZero(m, scale + k - 1);
      NormalizeScaleFree(units, scale, k - 1);
    } else {
      assert units * Pow10(k) == units;
    }
  }

  lemma ScaleStep(units: int, k: nat)
    requires k > 0
    ensures units * Pow10(k) == 10 * (units * Pow10(k - 1))
  {
    var p := Pow10(k - 1);
    assert Pow10(k) == 10 * p;
  }

  lemma NormalizeDropsZero(m: int, scale: nat)
    ensures Normalize(Decimal(10 * m, scale + 1)) == Normalize(Decimal(m, scale))
  {
    assert (10 * m) % 10 == 0 && (10 * m) / 10 == m;
  }

  /** An integer prints as its digits. */
  lemma IntegerRendering(i: int)
    ensures JsNumberString(Decimal(i, 0)) == IntToString(i)
  {
    assert Normalize(Decimal(i, 0)) == Decimal(i, 0);
    assert Quot(Abs(i), 1) == Abs(i);
    assert Positional(Abs(i), 0) == NatToString(Abs(i));
  }

  /** The printed integer reads back as itself, for either sign. */
  lemma IntToStringRoundTrip(i: int)
    ensures ParseDecimal(IntToString(i)) == Some(Decimal(i, 0))
  {
    IntegerRendering(i);
    JsNumberStringRoundTrip(Decimal(i, 0));
    assert Normalize(Decimal(i, 0)) == Decimal(i, 0);
  }

  // ---- toFixed(1) ----

  /** `|x|` to the nearest tenth, counted in tenths; a tie picks the larger. */
  function Tenths(d: Decimal): (t: nat)
    ensures var q := Pow10(d.scale);
            2 * q * t <= 20 * Abs(d.units) + q < 2 * q * t + 2 * q
  {
    RoundRatio(10 * Abs(d.units), Pow10(d.scale))
  }

  /** `x.toFixed(1)`: the sign of `x`, then `|x|` rounded to one decimal
      with exactly one digit after the point. */
  function ToFixed1(d: Decimal): string {
    (if d.units < 0 then "-" else "") + Positional(Tenths(d), 1)
  }

  /** `toFixed(1)` prints the signed nearest tenth. */
  lemma ToFixed1RoundTrip(d: Decimal)
    ensures ParseDecimal(ToFixed1(d)) ==
            Some(Decimal(if d.units < 0 then -(Tenths(d) as int) else Tenths(d), 1))
  {
    var body := Positional(Tenths(d), 1);
    PositionalRoundTrip(Tenths(d), 1);
    var s := ToFixed1(d);
    if d.units < 0 {
      assert s == "-" + body;
      assert s[1..] == body;
    } else {
      assert s == body;
    }
  }

  /** A number that already has one decimal keeps its value under
      `toFixed(1)` (an FNumber of 2.8 prints as "2.8"). */
  lemma ToFixed1Exact(d: Decimal)
    requires d.scale == 1
    ensures ParseDecimal(ToFixed1(d)) == Some(d)
  {
    ToFixed1RoundTrip(d);
    var t := Tenths(d);
    assert 20 * t <= 20 * Abs(d.units) + 10 < 20 * t + 20;
  }
}
