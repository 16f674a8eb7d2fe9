/**
 * The global `parseInt(string)` (no radix) and `parseFloat(string)` of
 * ECMA-262, sections 19.2.5 and 19.2.4: both skip leading white space and
 * convert the longest prefix that forms a number, ignoring the rest.
 */
module JsParse {
  import opened Wrappers
  import opened JsNumbers
  import opened JsStrings

  /** StrWhiteSpaceChar: the WhiteSpace and LineTerminator code points of ECMA-262. */
  predicate IsWhiteSpace(c: char) {
    var k := c as int;
    // TAB, LF, VT, FF, CR; SPACE, NO-BREAK SPACE, OGHAM SPACE MARK, EN QUAD .. HAIR SPACE
    || (0x09 <= k <= 0x0D) || k == 0x20 || k == 0xA0 || k == 0x1680 || (0x2000 <= k <= 0x200A)
    // LINE SEPARATOR, PARAGRAPH SEPARATOR, NARROW NBSP, MEDIUM MATHEMATICAL SPACE, IDEOGRAPHIC SPACE, BOM
    || k == 0x2028 || k == 0x2029 || k == 0x202F || k == 0x205F || k == 0x3000 || k == 0xFEFF
  }

  /** The string with its leading white space removed (the first step of both parsers). */
  function TrimStart(s: string): (t: string)
    ensures |t| <= |s| && t == s[|s| - |t|..]
    ensures t == [] || !IsWhiteSpace(t[0])
    ensures forall i :: 0 <= i < |s| - |t| ==> IsWhiteSpace(s[i])
  {
    if s != [] && IsWhiteSpace(s[0]) then TrimStart(s[1..]) else s
  }

  predicate IsDecimalDigit(c: char) {
    '0' <= c <= '9'
  }

  /** The value of `c` as a digit in radices up to 36 (letters of either case count from 10). */
  function DigitValue(c: char): nat {
    if '0' <= c <= '9' then c as nat - '0' as nat
    else if 'a' <= c <= 'z' then c as nat - 'a' as nat + 10
    else if 'A' <= c <= 'Z' then c as nat - 'A' as nat + 10
    else 36
  }

  /** The two radices `parseInt` without a radix argument uses. */
  type Radix = r: nat | r == 10 || r == 16 witness 10

  predicate IsRadixDigit(c: char, radix: Radix) {
    DigitValue(c) < radix
  }

  /** The length of the longest prefix of `s` made of digits of `radix`. */
  function DigitRun(s: string, radix: Radix): (n: nat)
    ensures n <= |s|
    ensures forall i :: 0 <= i < n ==> IsRadixDigit(s[i], radix)
    ensures n < |s| ==> !IsRadixDigit(s[n], radix)
  {
    if s == [] || !IsRadixDigit(s[0], radix) then 0 else 1 + DigitRun(s[1..], radix)
  }

  /** The number that the digit string `ds` denotes in `radix`, most significant digit first. */
  function DigitsValue(ds: string, radix: Radix): nat {
    if ds == [] then 0
    else
      var high := DigitsValue(ds[..|ds| - 1], radix);
      (if radix == 16 then 16 * high else 10 * high) + DigitValue(ds[|ds| - 1])
  }

  /** The sign of a prefix: whether it is `-`, and the text after an optional `+` or `-`. */
  function IsNegative(t: string): bool {
    |t| > 0 && t[0] == '-'
  }

  function DropSign(t: string): (u: string)
    ensures |u| <= |t| && u == t[|t| - |u|..]
  {
    if |t| > 0 && (t[0] == '+' || t[0] == '-') then t[1..] else t
  }

  /**
   * `parseInt(s)`; `None` is NaN. A `0x` or `0X` after the sign switches to
   * radix 16; otherwise the radix is 10. The result is the exact integer
   * (the rounding of very long digit strings to binary64 is not modelled).
   */
  function ParseInt(s: string): (r: Option<int>)
    ensures r.Some? ==> exists i :: 0 <= i < |s| && IsDecimalDigit(s[i])
  {
    var t := TrimStart(s);
    var r := IntegerPrefix(t);
    if r.Some? then DigitInSuffix(s, t); r else r
  }

  /** A digit of a suffix of `s` is a digit of `s`. */
  lemma DigitInSuffix(s: string, t: string)
    requires |t| <= |s| && t == s[|s| - |t|..]
    requires exists k :: 0 <= k < |t| && IsDecimalDigit(t[k])
    ensures exists i :: 0 <= i < |s| && IsDecimalDigit(s[i])
  {
    var k :| 0 <= k < |t| && IsDecimalDigit(t[k]);
    assert s[|s| - |t| + k] == t[k];
  }

  /** `parseInt` after the white space: an optional sign, then digits. */
  function IntegerPrefix(t: string): (r: Option<int>)
    ensures r.Some? ==> exists i :: 0 <= i < |t| && IsDecimalDigit(t[i])
  {
    var u := DropSign(t);
    match UnsignedIntegerPrefix(u)
    case None => None
    case Some(v) =>
      assert IsDecimalDigit(t[|t| - |u|]);
      var w: int := v;
      Some(if IsNegative(t) then -w else w)
  }

  /** The digits after the sign: hexadecimal after `0x` or `0X`, decimal otherwise. */
  function UnsignedIntegerPrefix(u: string): (r: Option<nat>)
    ensures r.Some? ==> |u| >= 1 && IsDecimalDigit(u[0])
  {
    var hex := |u| >= 2 && u[0] == '0' && (u[1] == 'x' || u[1] == 'X');
    var radix: Radix := if hex then 16 else 10;
    var digits := if hex then u[2..] else u;
    var n := DigitRun(digits, radix);
    if n == 0 then None
    else
      assert hex ==> u[0] == '0';
      assert !hex ==> IsDecimalDigit(u[0]);
      Some(DigitsValue(digits[..n], radix))
  }

  /**
   * The value of an ExponentPart at the start of `s` (`e` or `E`, an
   * optional sign, at least one digit), or 0 when `s` does not start with a
   * complete one (the prefix then ends before the `e`).
   */
  function ExponentValue(s: string): int {
    if |s| >= 1 && (s[0] == 'e' || s[0] == 'E') then
      var t := s[1..];
      var u := DropSign(t);
      var k := DigitRun(u, 10);
      if k == 0 then 0
      else if IsNegative(t) then -(DigitsValue(u[..k], 10) as int)
      else DigitsValue(u[..k], 10) as int
    else 0
  }

  /**
   * The exact value of the longest prefix of `u` that is a decimal literal
   * without sign: digits, an optional `.` and fraction digits (at least one
   * digit in all), and an optional exponent; `None` when there is no such prefix.
   */
  function UnsignedDecimalPrefix(u: string): (r: Option<real>)
    ensures r.Some? ==> (|u| >= 1 && IsDecimalDigit(u[0])) || (|u| >= 2 && IsDecimalDigit(u[1]))
  {
    var i := DigitRun(u, 10);
    if i < |u| && u[i] == '.' then
      var r := FractionLiteral(u[..i], u[i + 1..]);
      assert r.Some? && i == 0 ==> u[1] == u[i + 1..][0];
      r
    else if i == 0 then None
    else Some(Scaled(DigitsValue(u[..i], 10), ExponentValue(u[i..])))
  }

  /**
   * The rest of a literal after the point: fraction digits (the integer
   * digits `whole` and these together must not be empty) and an optional exponent.
   */
  function FractionLiteral(whole: string, afterPoint: string): (r: Option<real>)
    ensures r.Some? ==> |whole| >= 1 || (|afterPoint| >= 1 && IsDecimalDigit(afterPoint[0]))
  {
    var f := DigitRun(afterPoint, 10);
    if |whole| == 0 && f == 0 then None
    else Some(Scaled(DigitsValue(whole + afterPoint[..f], 10), ExponentValue(afterPoint[f..]) - f))
  }

  /**
   * `parseFloat(s)`: the longest prefix of the trimmed string that is a
   * StrDecimalLiteral, or NaN when there is none.
   */
  function ParseFloat(s: string): (r: JsNumber)
    ensures r.Finite? ==> exists i :: 0 <= i < |s| && IsDecimalDigit(s[i])
  {
    var t := TrimStart(s);
    var r := DecimalPrefix(t);
    if r.Finite? then DigitInSuffix(s, t); r else r
  }

  /**
   * `parseFloat` after the white space: a sign, then `Infinity` or an
   * unsigned decimal literal. No hexadecimal, no separators.
   */
  function DecimalPrefix(t: string): (r: JsNumber)
    ensures r.Finite? ==> exists i :: 0 <= i < 3 && i < |t| && IsDecimalDigit(t[i])
  {
    var u := DropSign(t);
    if HasPrefix(u, "Infinity") then (if IsNegative(t) then NegInfinity else PosInfinity)
    else
      match UnsignedDecimalPrefix(u)
      case None => NaN
      case Some(v) =>
        assert IsDecimalDigit(t[|t| - |u|]) || IsDecimalDigit(t[|t| - |u| + 1]);
        NumberValue(if IsNegative(t) then -v else v)
  }

  // ---- digit strings ----

  /** A digit string split in two: the left part shifts by the length of the right. */
  lemma {:induction false} DigitsValueAppend(a: string, b: string)
    ensures DigitsValue(a + b, 10) == DigitsValue(a, 10) * Pow10Nat(|b|) + DigitsValue(b, 10)
    decreases |b|
  {
    if b == [] {
      assert a + b == a;
    } else {
      var b' := b[..|b| - 1];
      var ab := a + b;
      assert ab[..|ab| - 1] == a + b';
      assert ab[|ab| - 1] == b[|b| - 1];
      DigitsValueAppend(a, b');
      var x, y, p, c := DigitsValue(a, 10), DigitsValue(b', 10), Pow10Nat(|b'|), DigitValue(b[|b| - 1]);
      var v := DigitsValue(a + b', 10);
      assert DigitsValue(ab, 10) == 10 * v + c;
      assert DigitsValue(b, 10) == 10 * y + c;
      assert Pow10Nat(|b|) == 10 * p;
      AppendDigit(x, p, y, c, v);
    }
  }

  /** If `v == x * p + y`, then appending digit `c` to `v` gives `x * (10 * p) + (10 * y + c)`. */
  lemma AppendDigit(x: int, p: int, y: int, c: int, v: int)
    requires v == x * p + y
    ensures 10 * v + c == x * (10 * p) + (10 * y + c)
  {
  }

  /** `NatToDigits` and `DigitsValue` are inverse. */
  lemma {:induction false} NatToDigitsValue(n: nat)
    ensures DigitsValue(NatToDigits(n), 10) == n
  {
    if n >= 10 {
      var ds := NatToDigits(n);
      assert ds[..|ds| - 1] == NatToDigits(n / 10);
      assert DigitValue(ds[|ds| - 1]) == n % 10;
      NatToDigitsValue(n / 10);
    }
  }

  /** Zero-padded digits denote the number they were made from. */
  lemma {:induction false} PadDigitsValue(n: nat, width: nat)
    requires n < Pow10Nat(width)
    ensures DigitsValue(PadDigits(n, width), 10) == n
  {
    if width > 0 {
      var ds := PadDigits(n, width);
      assert ds[..|ds| - 1] == PadDigits(n / 10, width - 1);
      assert DigitValue(ds[|ds| - 1]) == n % 10;
      assert n / 10 < Pow10Nat(width - 1);
      PadDigitsValue(n / 10, width - 1);
      assert DigitsValue(ds, 10) == 10 * (n / 10) + n % 10;
    }
  }

  /** The digit run of a digit string followed by a non-digit ends exactly at the non-digit. */
  lemma {:induction false} DigitRunOf(ds: string, rest: string, radix: Radix)
    requires forall i :: 0 <= i < |ds| ==> IsRadixDigit(ds[i], radix)
    requires rest == [] || !IsRadixDigit(rest[0], radix)
    ensures DigitRun(ds + rest, radix) == |ds|
  {
    if ds != [] {
      assert (ds + rest)[1..] == ds[1..] + rest;
      DigitRunOf(ds[1..], rest, radix);
    } else {
      assert ds + rest == rest;
    }
  }

  /** Leading white space is what `TrimStart` removes. */
  lemma {:induction false} TrimStartSkipsWhiteSpace(ws: string, s: string)
    requires forall i :: 0 <= i < |ws| ==> IsWhiteSpace(ws[i])
    ensures TrimStart(ws + s) == TrimStart(s)
  {
    if ws != [] {
      assert (ws + s)[1..] == ws[1..] + s;
      TrimStartSkipsWhiteSpace(ws[1..], s);
    } else {
      assert ws + s == s;
    }
  }

  /** Leading white space never changes what either parser returns. */
  lemma ParsersSkipWhiteSpace(ws: string, s: string)
    requires forall i :: 0 <= i < |ws| ==> IsWhiteSpace(ws[i])
    ensures ParseInt(ws + s) == ParseInt(s)
    ensures ParseFloat(ws + s) == ParseFloat(s)
  {
    TrimStartSkipsWhiteSpace(ws, s);
  }

  /** A decimal digit is a digit of radix 10 and not white space. */
  lemma DecimalDigitFacts(c: char)
    requires IsDecimalDigit(c)
    ensures IsRadixDigit(c, 10) && !IsWhiteSpace(c) && c != '-' && c != '+'
  {
  }

  /** Text that starts with a decimal digit, other than `0x`/`0X`, is read as a decimal digit run. */
  lemma {:induction false} UnsignedOfDigits(ds: string, rest: string)
    requires |ds| >= 1 && forall i :: 0 <= i < |ds| ==> IsDecimalDigit(ds[i])
    requires rest == [] || !IsDecimalDigit(rest[0])
    requires |ds| >= 2 || rest == [] || (rest[0] != 'x' && rest[0] != 'X')
    ensures UnsignedIntegerPrefix(ds + rest) == Some(DigitsValue(ds, 10))
  {
    var s := ds + rest;
    assert s[0] == ds[0];
    assert |s| >= 2 ==> s[1] == (if |ds| >= 2 then ds[1] else rest[0]);
    assert !(|s| >= 2 && s[0] == '0' && (s[1] == 'x' || s[1] == 'X'));
    forall i | 0 <= i < |ds| ensures IsRadixDigit(ds[i], 10) {
      DecimalDigitFacts(ds[i]);
    }
    assert rest == [] || !IsRadixDigit(rest[0], 10);
    DigitRunOf(ds, rest, 10);
    assert s[..|ds|] == ds;
  }

  /**
   * `parseInt` reads a run of decimal digits and stops at the first other
   * character: `parseInt("7.9")` is 7.
   */
  lemma ParseIntDecimalPrefix(ds: string, rest: string)
    requires |ds| >= 1 && forall i :: 0 <= i < |ds| ==> IsDecimalDigit(ds[i])
    requires rest == [] || !IsDecimalDigit(rest[0])
    requires |ds| >= 2 || rest == [] || (rest[0] != 'x' && rest[0] != 'X')
    ensures ParseInt(ds + rest) == Some(DigitsValue(ds, 10) as int)
  {
    UnsignedOfDigits(ds, rest);
    assert (ds + rest)[0] == ds[0];
    ParseIntUnsigned(ds + rest, DigitsValue(ds, 10));
  }

  /**
   * After `0x` or `0X`, `parseInt` reads a run of hexadecimal digits and
   * stops at the first other character: `parseInt("0x13")` is 19.
   */
  lemma ParseIntHexPrefix(x: char, hs: string, rest: string)
    requires x == 'x' || x == 'X'
    requires |hs| >= 1 && forall i :: 0 <= i < |hs| ==> IsRadixDigit(hs[i], 16)
    requires rest == [] || !IsRadixDigit(rest[0], 16)
    ensures ParseInt(['0', x] + (hs + rest)) == Some(DigitsValue(hs, 16) as int)
  {
    var u := ['0', x] + (hs + rest);
    UnsignedOfHexDigits(x, hs, rest);
    assert u[0] == '0';
    ParseIntUnsigned(u, DigitsValue(hs, 16));
  }

  /** The digit reading of `0x` and a hexadecimal run is the run's value. */
  lemma UnsignedOfHexDigits(x: char, hs: string, rest: string)
    requires x == 'x' || x == 'X'
    requires |hs| >= 1 && forall i :: 0 <= i < |hs| ==> IsRadixDigit(hs[i], 16)
    requires rest == [] || !IsRadixDigit(rest[0], 16)
    ensures UnsignedIntegerPrefix(['0', x] + (hs + rest)) == Some(DigitsValue(hs, 16))
  {
    var v := hs + rest;
    var u := ['0', x] + v;
    assert u[0] == '0' && u[1] == x;
    assert u[2..] == v;
    DigitRunOf(hs, rest, 16);
    assert v[..|hs|] == hs;
  }

  /** An optional minus sign before text that starts with a digit: `parseInt` reads the text and applies the sign. */
  lemma ParseIntSigned(negative: bool, u: string, n: nat)
    requires |u| >= 1 && IsDecimalDigit(u[0])
    requires UnsignedIntegerPrefix(u) == Some(n)
    ensures ParseInt((if negative then "-" else "") + u) == Some(if negative then -(n as int) else n as int)
  {
    if negative {
      ParseIntNegated(u, n);
    } else {
      assert "" + u == u;
      ParseIntUnsigned(u, n);
    }
  }

  /** Without a sign, `parseInt` is the digit reading. */
  lemma ParseIntUnsigned(u: string, n: nat)
    requires |u| >= 1 && IsDecimalDigit(u[0])
    requires UnsignedIntegerPrefix(u) == Some(n)
    ensures ParseInt(u) == Some(n as int)
  {
    DecimalDigitFacts(u[0]);
    assert DropSign(u) == u && !IsNegative(u);
    IntegerPrefixParts(u);
    ParseIntNoWhiteSpace(u);
  }

  /** A minus sign before text that starts with a digit negates what `parseInt` reads. */
  lemma ParseIntNegated(u: string, n: nat)
    requires |u| >= 1 && IsDecimalDigit(u[0])
    requires UnsignedIntegerPrefix(u) == Some(n)
    ensures ParseInt("-" + u) == Some(-(n as int))
  {
    var s := "-" + u;
    assert s[0] == '-' && s[1..] == u;
    assert DropSign(s) == u && IsNegative(s);
    IntegerPrefixParts(s);
    assert IntegerPrefix(s) == Some(-(n as int));
    assert !IsWhiteSpace(s[0]);
    ParseIntNoWhiteSpace(s);
  }

  /** `IntegerPrefix` as the digit reading of the text after the sign, with the sign applied. */
  lemma IntegerPrefixParts(t: string)
    ensures IntegerPrefix(t) == match UnsignedIntegerPrefix(DropSign(t))
      case None => None
      case Some(v) => Some(if IsNegative(t) then -(v as int) else v as int)
  {
  }

  /** Without leading white space, `parseInt` is `IntegerPrefix`. */
  lemma ParseIntNoWhiteSpace(s: string)
    requires s == [] || !IsWhiteSpace(s[0])
    ensures ParseInt(s) == IntegerPrefix(s)
  {
    assert TrimStart(s) == s;
  }

  /**
   * `parseInt(String(x))` truncates `x` toward zero: the integer part of the
   * printed decimal, negated for a negative `x`. This holds where `String(x)`
   * prints no exponent; `parseInt("5e-7")` is 5.
   */
  lemma ParseIntOfDecimalString(d: Decimal)
    requires Positional(d)
    ensures ParseInt(DecimalString(d)) == Some(TruncatedPart(Normalize(d)))
  {
    var n := Normalize(d);
    var u := NatToDigits(WholePart(n)) + FractionTail(n);
    var w := WholePart(n);
    DecimalStringParts(d);
    assert DecimalString(d) == (if n.mantissa < 0 then "-" else "") + u;
    IntegerPartRead(n);
    ParseIntSigned(n.mantissa < 0, u, w);
    assert TruncatedPart(n) == if n.mantissa < 0 then -(w as int) else w as int;
  }

  /** `String(x)` is a sign, the integer digits and the fraction tail. */
  lemma DecimalStringParts(d: Decimal)
    ensures var n := Normalize(d);
      DecimalString(d) == (if n.mantissa < 0 then "-" else "") + (NatToDigits(WholePart(n)) + FractionTail(n))
  {
  }

  /** `parseInt` of the unsigned part of `String(x)` reads the integer digits. */
  lemma IntegerPartRead(n: Decimal)
    ensures var u := NatToDigits(WholePart(n)) + FractionTail(n);
      |u| >= 1 && IsDecimalDigit(u[0]) && UnsignedIntegerPrefix(u) == Some(WholePart(n))
  {
    var digits := NatToDigits(WholePart(n));
    var u := digits + FractionTail(n);
    UnsignedOfDigits(digits, FractionTail(n));
    NatToDigitsValue(WholePart(n));
    assert u[0] == digits[0];
  }

  /** The integer digits followed by the zero-padded fraction digits denote the magnitude of the mantissa. */
  lemma AllDigitsValue(n: Decimal)
    ensures DigitsValue(NatToDigits(WholePart(n)) + PadDigits(FractionPart(n), n.places), 10) == Abs(n.mantissa)
  {
    var w, f, p := WholePart(n), FractionPart(n), Pow10Nat(n.places);
    ShiftRightLastDigits(Abs(n.mantissa), n.places);
    NatToDigitsValue(w);
    PadDigitsValue(f, n.places);
    DigitsValueAppend(NatToDigits(w), PadDigits(f, n.places));
  }

  predicate AllDecimalDigits(ds: string) {
    forall i :: 0 <= i < |ds| ==> IsDecimalDigit(ds[i])
  }

  lemma {:induction false} DecimalDigitsAreRadixDigits(ds: string)
    requires AllDecimalDigits(ds)
    ensures forall i :: 0 <= i < |ds| ==> IsRadixDigit(ds[i], 10)
  {
    forall i | 0 <= i < |ds| ensures IsRadixDigit(ds[i], 10) {
      DecimalDigitFacts(ds[i]);
    }
  }

  /** A plain digit string is an unsigned decimal literal denoting its digits' value. */
  lemma UnsignedDecimalOfDigits(ds: string)
    requires |ds| >= 1 && AllDecimalDigits(ds)
    ensures UnsignedDecimalPrefix(ds) == Some(DigitsValue(ds, 10) as real)
  {
    DecimalDigitsAreRadixDigits(ds);
    DigitRunOf(ds, [], 10);
    assert ds + [] == ds;
    assert ds[..|ds|] == ds;
    assert ds[|ds|..] == [];
  }

  /** Digits, a point and fraction digits denote the digits' value scaled down by the fraction's length. */
  lemma UnsignedDecimalOfFraction(ds: string, fs: string)
    requires |ds| >= 1 && AllDecimalDigits(ds) && |fs| >= 1 && AllDecimalDigits(fs)
    ensures UnsignedDecimalPrefix(ds + "." + fs) == Some(Value(Decimal(DigitsValue(ds + fs, 10), |fs|)))
  {
    var u := ds + "." + fs;
    var i := |ds|;
    DecimalDigitsAreRadixDigits(ds);
    DecimalDigitsAreRadixDigits(fs);
    assert u == ds + ("." + fs);
    DigitRunOf(ds, "." + fs, 10);
    assert u[..i] == ds;
    assert u[i + 1..] == fs;
    DigitRunOf(fs, [], 10);
    assert fs + [] == fs;
    assert fs[..|fs|] == fs && fs[|fs|..] == [];
    assert UnsignedDecimalPrefix(u) == FractionLiteral(ds, fs);
  }

  /** `parseFloat` of the unsigned part of `String(x)` reads the whole of it, giving the magnitude. */
  lemma UnsignedPartRead(n: Decimal)
    ensures var u := NatToDigits(WholePart(n)) + FractionTail(n);
      && |u| >= 1 && IsDecimalDigit(u[0])
      && UnsignedDecimalPrefix(u) == Some(Value(Decimal(Abs(n.mantissa), n.places)))
  {
    var digits, frac := NatToDigits(WholePart(n)), PadDigits(FractionPart(n), n.places);
    var u := digits + FractionTail(n);
    var a: nat := Abs(n.mantissa);
    assert u[0] == digits[0];
    assert AllDecimalDigits(digits) && AllDecimalDigits(frac);
    AllDigitsValue(n);
    assert DigitsValue(digits + frac, 10) == a;
    if n.places == 0 {
      assert u == digits;
      assert digits + frac == digits;
      UnsignedDecimalOfDigits(digits);
    } else {
      assert u == digits + "." + frac;
      UnsignedDecimalOfFraction(digits, frac);
    }
  }

  /** Without leading white space, `parseFloat` is `DecimalPrefix`. */
  lemma ParseFloatNoWhiteSpace(s: string)
    requires s == [] || !IsWhiteSpace(s[0])
    ensures ParseFloat(s) == DecimalPrefix(s)
  {
    assert TrimStart(s) == s;
  }

  /** `DecimalPrefix` reads the text after the sign and then applies the sign. */
  lemma DecimalPrefixAfterSign(t: string, u: string)
    requires DropSign(t) == u && |u| >= 1 && IsDecimalDigit(u[0])
    ensures DecimalPrefix(t) == match UnsignedDecimalPrefix(u)
      case None => NaN
      case Some(v) => NumberValue(if IsNegative(t) then -v else v)
  {
    assert u[0] != "Infinity"[0];
    assert !HasPrefix(u, "Infinity");
  }

  /** `parseFloat(String(x))` gives back the number `x` denotes. */
  lemma ParseFloatOfDecimalString(d: Decimal)
    ensures ParseFloat(DecimalString(d)) == NumberValue(Value(d))
  {
    var n := Normalize(d);
    NormalizeValue(d);
    var u := NatToDigits(WholePart(n)) + FractionTail(n);
    var s := (if n.mantissa < 0 then "-" else "") + u;
    var m := Value(Decimal(Abs(n.mantissa), n.places));
    DecimalStringParts(d);
    assert DecimalString(d) == s;
    UnsignedPartRead(n);
    DecimalDigitFacts(u[0]);
    if n.mantissa < 0 {
      assert s[0] == '-' && s[1..] == u;
    } else {
      assert s == u;
    }
    ParseFloatNoWhiteSpace(s);
    DecimalPrefixAfterSign(s, u);
    ValueFromMagnitude(n);
    assert ParseFloat(s) == NumberValue(if n.mantissa < 0 then -m else m);
  }

  /**
   * `parseFloat` reads digits, a point and fraction digits, and ignores the
   * text after them: `parseFloat("142.5cm")` is 142.5.
   */
  lemma ParseFloatFractionPrefix(ds: string, fs: string, rest: string)
    requires |ds| >= 1 && AllDecimalDigits(ds) && |fs| >= 1 && AllDecimalDigits(fs)
    requires rest == [] || (!IsDecimalDigit(rest[0]) && rest[0] != 'e' && rest[0] != 'E')
    ensures ParseFloat(ds + ("." + (fs + rest))) == NumberValue(Value(Decimal(DigitsValue(ds + fs, 10), |fs|)))
  {
    var u := ds + ("." + (fs + rest));
    var i := |ds|;
    DecimalDigitsAreRadixDigits(ds);
    DigitRunOf(ds, "." + (fs + rest), 10);
    assert u[..i] == ds && u[i] == '.' && u[i + 1..] == fs + rest;
    FractionRead(ds, fs, rest);
    assert UnsignedDecimalPrefix(u) == Some(Value(Decimal(DigitsValue(ds + fs, 10), |fs|)));
    UnsignedFloatRead(u);
  }

  /** Fraction digits followed by neither a digit nor an exponent give the digits' value, scaled down. */
  lemma FractionRead(ds: string, fs: string, rest: string)
    requires |ds| >= 1 && AllDecimalDigits(fs)
    requires rest == [] || (!IsDecimalDigit(rest[0]) && rest[0] != 'e' && rest[0] != 'E')
    ensures FractionLiteral(ds, fs + rest) == Some(Value(Decimal(DigitsValue(ds + fs, 10), |fs|)))
  {
    DecimalDigitsAreRadixDigits(fs);
    assert rest == [] || !IsRadixDigit(rest[0], 10);
    DigitRunOf(fs, rest, 10);
    assert (fs + rest)[..|fs|] == fs && (fs + rest)[|fs|..] == rest;
    assert ExponentValue(rest) == 0;
  }

  /**
   * `parseFloat` reads digits and an exponent, and ignores the text after
   * them: `parseFloat("1e2x")` is 100.
   */
  lemma ParseFloatExponentPrefix(ds: string, es: string, rest: string)
    requires |ds| >= 1 && AllDecimalDigits(ds) && |es| >= 1 && AllDecimalDigits(es)
    requires rest == [] || !IsDecimalDigit(rest[0])
    ensures ParseFloat(ds + ("e" + (es + rest))) == NumberValue(Scaled(DigitsValue(ds, 10), DigitsValue(es, 10)))
  {
    var u := ds + ("e" + (es + rest));
    var i := |ds|;
    DecimalDigitsAreRadixDigits(ds);
    DigitRunOf(ds, "e" + (es + rest), 10);
    assert u[..i] == ds && u[i] == 'e' && u[i..] == "e" + (es + rest);
    var t := es + rest;
    DecimalDigitsAreRadixDigits(es);
    assert rest == [] || !IsRadixDigit(rest[0], 10);
    DigitRunOf(es, rest, 10);
    assert t[..|es|] == es && t[0] == es[0];
    ExponentRead(t);
    assert UnsignedDecimalPrefix(u) == Some(Scaled(DigitsValue(ds, 10), DigitsValue(es, 10)));
    UnsignedFloatRead(u);
  }

  /** An `e` followed by a digit gives the value of the digit run after it as the exponent. */
  lemma ExponentRead(t: string)
    requires |t| >= 1 && IsDecimalDigit(t[0])
    ensures ExponentValue("e" + t) == DigitsValue(t[..DigitRun(t, 10)], 10) as int
  {
    var s := "e" + t;
    assert s[1..] == t;
    assert DropSign(t) == t && !IsNegative(t);
    DecimalDigitFacts(t[0]);
  }

  /** Text that starts with a digit is read by `parseFloat` as its unsigned decimal prefix. */
  lemma UnsignedFloatRead(u: string)
    requires |u| >= 1 && IsDecimalDigit(u[0]) && UnsignedDecimalPrefix(u).Some?
    ensures ParseFloat(u) == NumberValue(UnsignedDecimalPrefix(u).value)
  {
    DecimalDigitFacts(u[0]);
    ParseFloatNoWhiteSpace(u);
    assert DropSign(u) == u && !IsNegative(u);
    DecimalPrefixAfterSign(u, u);
  }
}
