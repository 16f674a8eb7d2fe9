/**
 * The JavaScript `Number` behaviour the dashboard depends on, over exact
 * reals: the special values, `Number(x.toFixed(1))`, `String(x)` for values
 * written in positional notation, and the one binary64 rounding effect that
 * can change a sign test (underflow to zero).
 */
module JsNumbers {

  /** A `Number` as the model tracks it: NaN, an infinity, or a finite value. */
  datatype JsNumber = NaN | PosInfinity | NegInfinity | Finite(value: real)

  /** `n > 0` in JavaScript: false for NaN, true for +Infinity. */
  predicate IsPositive(n: JsNumber) {
    n.PosInfinity? || (n.Finite? && n.value > 0.0)
  }

  /** 10^n. */
  function Pow10Nat(n: nat): nat {
    if n == 0 then 1 else 10 * Pow10Nat(n - 1)
  }

  /**
   * 2^-1075, half the smallest subnormal binary64 value. A positive
   * mathematical value at or below it rounds to +0 (ties go to the even
   * significand, which is 0).
   */
  const HalfMinSubnormal: real := 1.0 / 404804506614621236704990693437834614099113299528284236713802716054860679135990693783920767402874248990374155728633623822779617474771586953734026799881477019843034848553132722728933815484186432682479535356945490137124014966849385397236206711298319112681620113024717539104666829230461005064372655017292012526615415482186989568.0

  /**
   * The `Number` for the exact value `v` ("the Number value for" in
   * ECMA-262), as far as the sign matters: magnitudes that underflow become
   * zero, all other values are kept exactly.
   */
  function NumberValue(v: real): (n: JsNumber)
    ensures n.Finite?
    ensures IsPositive(n) <==> v > HalfMinSubnormal
    ensures n.value < 0.0 <==> v < -HalfMinSubnormal
    ensures -HalfMinSubnormal <= v <= HalfMinSubnormal ==> n.value == 0.0
  {
    if -HalfMinSubnormal <= v <= HalfMinSubnormal then Finite(0.0) else Finite(v)
  }

  /**
   * `Number(x.toFixed(1))` for a finite `x`: the nearest multiple of 0.1,
   * a tie going away from zero (toFixed picks the larger candidate for
   * x >= 0 and works on -x for x < 0).
   */
  function RoundToTenth(x: real): (r: real)
    ensures x >= 0.0 ==> -0.05 < r - x <= 0.05
    ensures x < 0.0 ==> -0.05 <= r - x < 0.05
    ensures (r * 10.0).Floor as real == r * 10.0
  {
    if x >= 0.0 then
      var k := (10.0 * x + 0.5).Floor;
      assert k as real <= 10.0 * x + 0.5 < k as real + 1.0;
      assert (k as real / 10.0) * 10.0 == k as real;
      k as real / 10.0
    else
      var k := (-10.0 * x + 0.5).Floor;
      assert k as real <= -10.0 * x + 0.5 < k as real + 1.0;
      assert -(k as real / 10.0) * 10.0 == (-k) as real;
      -(k as real / 10.0)
  }

  /** Rounding is symmetric about zero: a negative value rounds as its magnitude does, with the sign put back. */
  lemma RoundToTenthOdd(x: real)
    ensures RoundToTenth(-x) == -RoundToTenth(x)
  {
  }

  /** A value already on a tenth is its own rounding; so rounding twice is rounding once. */
  lemma {:induction false} RoundToTenthIdempotent(x: real)
    ensures RoundToTenth(RoundToTenth(x)) == RoundToTenth(x)
  {
    var r := RoundToTenth(x);
    var k := (r * 10.0).Floor;
    assert r == k as real / 10.0;
    if r >= 0.0 {
      assert 10.0 * r + 0.5 == k as real + 0.5;
      assert (10.0 * r + 0.5).Floor == k;
    } else {
      assert -10.0 * r + 0.5 == (-k) as real + 0.5;
      assert (-10.0 * r + 0.5).Floor == -k;
    }
  }

  /**
   * `x / y` for finite operands: the exact quotient, or for a zero divisor
   * (a positive zero, as a square is) an infinity with the sign of `x`, or
   * NaN for `0 / 0`. Overflow past the largest binary64 value is not modelled.
   */
  function Divide(x: real, y: real): (r: JsNumber)
    ensures y != 0.0 ==> r == Finite(x / y)
    ensures y == 0.0 && x > 0.0 ==> r == PosInfinity
    ensures y == 0.0 && x < 0.0 ==> r == NegInfinity
    ensures r.NaN? <==> x == 0.0 && y == 0.0
  {
    if y != 0.0 then Finite(x / y)
    else if x > 0.0 then PosInfinity
    else if x < 0.0 then NegInfinity
    else NaN
  }

  /** 10^21: from this magnitude on, `toFixed` prints `String(x)` instead of rounding. */
  const ToFixedLimit: real := 1_000_000_000_000_000_000_000.0

  /**
   * `Number(x.toFixed(1))`. NaN and the infinities come back unchanged, a
   * magnitude of at least 10^21 is printed in full and read back as it was,
   * and everything else is rounded to the nearest tenth.
   */
  function ToFixedOne(x: JsNumber): (r: JsNumber)
    ensures r.Finite? <==> x.Finite?
    ensures !x.Finite? ==> r == x
    ensures x.Finite? ==> -0.05 <= r.value - x.value <= 0.05
    ensures x.Finite? && -ToFixedLimit < x.value < ToFixedLimit ==> r.value == RoundToTenth(x.value)
  {
    match x
    case Finite(v) => if v <= -ToFixedLimit || v >= ToFixedLimit then x else Finite(RoundToTenth(v))
    case _ => x
  }

  // ---- String(x) for a finite value written in positional notation ----

  /** The exact decimal `mantissa / 10^places`. */
  datatype Decimal = Decimal(mantissa: int, places: nat)

  /** `x / 10^k`, dividing by ten `k` times. */
  function ScaleDown(x: real, k: nat): real {
    if k == 0 then x else ScaleDown(x, k - 1) / 10.0
  }

  function Value(d: Decimal): real {
    ScaleDown(d.mantissa as real, d.places)
  }

  /** Scaling commutes with negation. */
  lemma {:induction false} ScaleDownNegate(x: real, k: nat)
    ensures ScaleDown(-x, k) == -ScaleDown(x, k)
  {
    if k > 0 {
      ScaleDownNegate(x, k - 1);
    }
  }

  /** Scaling keeps the sign. */
  lemma {:induction false} ScaleDownSign(x: real, k: nat)
    ensures ScaleDown(x, k) < 0.0 <==> x < 0.0
    ensures ScaleDown(x, k) > 0.0 <==> x > 0.0
  {
    if k > 0 {
      ScaleDownSign(x, k - 1);
    }
  }

  /** Dividing by ten first is the same as one more scaling step. */
  lemma {:induction false} ScaleDownTenth(x: real, k: nat)
    ensures ScaleDown(x / 10.0, k) == ScaleDown(x, k) / 10.0
  {
    if k > 0 {
      ScaleDownTenth(x, k - 1);
    }
  }

  /** The exact value of `m * 10^e`. */
  function Scaled(m: nat, e: int): real
    decreases if e > 0 then e else 0
  {
    if e > 0 then Scaled(10 * m, e - 1) else Value(Decimal(m, -e))
  }

  /**
   * The values `String(x)` prints without an exponent: zero, and
   * magnitudes from 10^-6 up to, but not including, 10^21.
   */
  predicate Positional(d: Decimal) {
    var v := Value(d);
    v == 0.0 || (0.000001 <= v < ToFixedLimit) || (-ToFixedLimit < v <= -0.000001)
  }

  /** The same decimal with trailing zero places removed, as `String(x)` prints it. */
  function Normalize(d: Decimal): (r: Decimal)
    ensures r.places == 0 || r.mantissa % 10 != 0
    ensures r.places <= d.places
    ensures r.mantissa < 0 <==> d.mantissa < 0
    decreases d.places
  {
    if d.places > 0 && d.mantissa % 10 == 0 then Normalize(Decimal(d.mantissa / 10, d.places - 1))
    else d
  }

  /** Removing trailing zero places does not change the value. */
  lemma {:induction false} NormalizeValue(d: Decimal)
    ensures Value(Normalize(d)) == Value(d)
    decreases d.places
  {
    if d.places > 0 && d.mantissa % 10 == 0 {
      var r := Decimal(d.mantissa / 10, d.places - 1);
      NormalizeValue(r);
      assert d.mantissa as real / 10.0 == r.mantissa as real;
      ScaleDownTenth(d.mantissa as real, r.places);
    }
  }

  function DigitChar(k: nat): (c: char)
    requires k < 10
    ensures '0' <= c <= '9'
    ensures c as int == '0' as int + k
  {
    ('0' as int + k) as char
  }

  /** The decimal digits of `n`, without leading zeros ("0" for zero). */
  function NatToDigits(n: nat): (s: string)
    ensures |s| >= 1
    ensures forall i :: 0 <= i < |s| ==> '0' <= s[i] <= '9'
  {
    if n < 10 then [DigitChar(n)] else NatToDigits(n / 10) + [DigitChar(n % 10)]
  }

  /** The last `width` decimal digits of `n`, with leading zeros. */
  function PadDigits(n: nat, width: nat): (s: string)
    ensures |s| == width
    ensures forall i :: 0 <= i < |s| ==> '0' <= s[i] <= '9'
  {
    if width == 0 then [] else PadDigits(n / 10, width - 1) + [DigitChar(n % 10)]
  }

  function Abs(m: int): nat {
    if m < 0 then -m else m
  }

  /**
   * `String(x)` for the decimal `d`: a minus sign for a negative value, the
   * integer part, and the fractional digits without trailing zeros.
   */
  function DecimalString(d: Decimal): (s: string)
    ensures |s| >= 1
    ensures s[0] == '-' <==> d.mantissa < 0
    ensures s[0] != '-' ==> '0' <= s[0] <= '9'
  {
    var n := Normalize(d);
    var digits := NatToDigits(WholePart(n));
    var tail := FractionTail(n);
    if n.mantissa < 0 then "-" + digits + tail
    else
      assert (digits + tail)[0] == digits[0];
      digits + tail
  }

  /** `a / 10^k`, one digit at a time. */
  function ShiftRight(a: nat, k: nat): nat {
    if k == 0 then a else ShiftRight(a / 10, k - 1)
  }

  /** `a % 10^k`: the last `k` digits of `a`. */
  function LastDigits(a: nat, k: nat): nat {
    if k == 0 then 0 else LastDigits(a / 10, k - 1) * 10 + a % 10
  }

  /** Division with remainder by a power of ten. */
  lemma {:induction false} ShiftRightLastDigits(a: nat, k: nat)
    ensures a == ShiftRight(a, k) * Pow10Nat(k) + LastDigits(a, k)
    ensures LastDigits(a, k) < Pow10Nat(k)
  {
    if k > 0 {
      ShiftRightLastDigits(a / 10, k - 1);
      var q, r, p, c := ShiftRight(a / 10, k - 1), LastDigits(a / 10, k - 1), Pow10Nat(k - 1), a % 10;
      assert ShiftRight(a, k) == q && LastDigits(a, k) == r * 10 + c && Pow10Nat(k) == p * 10;
      assert a == (a / 10) * 10 + c && a / 10 == q * p + r;
      ShiftDigits(q, p, r, c);
    }
  }

  /** Appending a digit to `x * p + y` scales both parts by ten. */
  lemma ShiftDigits(x: int, p: int, y: int, c: int)
    ensures (x * p + y) * 10 + c == x * (p * 10) + (y * 10 + c)
  {
  }

  /** The integer part of the magnitude. */
  function WholePart(d: Decimal): nat {
    ShiftRight(Abs(d.mantissa), d.places)
  }

  /** The fractional digits of the magnitude, as an integer. */
  function FractionPart(d: Decimal): nat {
    LastDigits(Abs(d.mantissa), d.places)
  }

  /** What `String(x)` prints after the integer part: nothing, or a point and the fraction digits. */
  function FractionTail(d: Decimal): (s: string)
    ensures s == [] || s[0] == '.'
  {
    if d.places == 0 then "" else "." + PadDigits(FractionPart(d), d.places)
  }

  lemma SignOfValue(d: Decimal)
    ensures Value(d) < 0.0 <==> d.mantissa < 0
    ensures Value(d) > 0.0 <==> d.mantissa > 0
  {
    ScaleDownSign(d.mantissa as real, d.places);
  }

  /** The value of a decimal from its sign and magnitude. */
  lemma ValueFromMagnitude(d: Decimal)
    ensures var m := Value(Decimal(Abs(d.mantissa), d.places));
      Value(d) == if d.mantissa < 0 then -m else m
  {
    if d.mantissa < 0 {
      ScaleDownNegate(Abs(d.mantissa) as real, d.places);
      assert (-(Abs(d.mantissa) as real)) == d.mantissa as real;
    }
  }

  /** `Math.trunc` of a decimal: its integer part, with the sign of the value. */
  function TruncatedPart(d: Decimal): int {
    if d.mantissa < 0 then -(WholePart(d) as int) else WholePart(d)
  }

  /** The floor of a tenth is the integer tenth of the floor. */
  lemma FloorTenth(x: real)
    requires x >= 0.0
    ensures (x / 10.0).Floor == x.Floor / 10
  {
    var n := x.Floor;
    var q := n / 10;
    assert 10 * q <= n < 10 * q + 10;
    assert q as real <= x / 10.0 < q as real + 1.0;
  }

  /** Scaling a non-negative value down by `10^k` shifts its integer part right by `k` digits. */
  lemma {:induction false} FloorScaleDown(x: real, k: nat)
    requires x >= 0.0
    ensures ScaleDown(x, k).Floor == ShiftRight(x.Floor, k)
    decreases k
  {
    if k > 0 {
      var y := x / 10.0;
      ScaleDownTenth(x, k - 1);
      assert ScaleDown(x, k) == ScaleDown(y, k - 1);
      FloorScaleDown(y, k - 1);
      FloorTenth(x);
    }
  }

  /** The integer part is the floor of a non-negative value. */
  lemma WholePartIsFloor(d: Decimal)
    requires d.mantissa >= 0
    ensures Value(d).Floor == WholePart(d)
  {
    FloorScaleDown(d.mantissa as real, d.places);
    assert (d.mantissa as real).Floor == Abs(d.mantissa);
  }

  /** The integer part lies strictly between 0 and `k` exactly when the value lies in [1, k). */
  lemma TruncatedPartBetween(d: Decimal, k: nat)
    ensures 0 < TruncatedPart(d) < k <==> 1.0 <= Value(d) < k as real
  {
    SignOfValue(d);
    if d.mantissa >= 0 {
      WholePartIsFloor(d);
    }
  }
}
