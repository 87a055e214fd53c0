/** Number() applied to a string (ECMA-262 section 7.1.4.1): strip the
    ECMAScript whitespace, parse the rest as a StringNumericLiteral, take its
    mathematical value and convert that to a Number. The conversion keeps the
    exact value and models only the part of binary64 rounding that matters to
    the caller here: a magnitude too large for a double becomes an infinity. */
module NumberConversion {
  import opened Wrappers
  import opened Text
  import opened NumericLiteral

  /** The Number values the conversion can produce. `Finite` holds the exact
      mathematical value of the literal (negative zero is zero). */
  datatype JsNumber = NaN | PositiveInfinity | NegativeInfinity | Finite(value: real)

  function Pow(b: nat, n: nat): (r: nat)
    ensures b > 0 ==> r > 0
  {
    if n == 0 then 1 else b * Pow(b, n - 1)
  }

  /** 10 to the power e, exactly, for any integer e. */
  function Scale(e: int): (r: real)
    ensures r > 0.0
  {
    if e >= 0 then Pow(10, e) as real else 1.0 / (Pow(10, -e) as real)
  }

  /** Value of a digit string in the given base, most significant digit first. */
  function DigitsValue(s: string, base: nat): nat
    requires AllDigitsOf(s, base)
  {
    if s == [] then 0
    else
      NaturalProduct(DigitsValue(s[..|s| - 1], base), base);
      DigitsValue(s[..|s| - 1], base) * base + DigitValue(s[|s| - 1])
  }

  /** Called in DigitsValue's body so that the solver sees at once that the
      product of two naturals is a natural, instead of searching for it with
      nonlinear arithmetic. */
  lemma NaturalProduct(x: nat, y: nat)
    ensures x * y >= 0
  {
  }

  function SignFactor(sign: Sign): real {
    if sign == Minus then -1.0 else 1.0
  }

  function ExponentValue(e: Exponent): int
    requires WellFormedExponent(e)
  {
    match e
    case NoExponent => 0
    case Exponent(_, sign, digits) =>
      var magnitude: int := DigitsValue(digits, 10);
      if sign == Minus then -magnitude else magnitude
  }

  /** The magnitude of a decimal literal: the digits before and after the point
      read as one integer, scaled by ten to the exponent less the number of
      fraction digits. */
  function DecimalMagnitude(whole: string, fraction: string, exponent: Exponent): real
    requires AllDigitsOf(whole, 10) && AllDigitsOf(fraction, 10) && WellFormedExponent(exponent)
  {
    (Significand(whole, fraction) as real) * Scale(ExponentValue(exponent) - |fraction|)
  }

  /** The digits of a decimal literal, before and after the point, as one integer. */
  function Significand(whole: string, fraction: string): nat
    requires AllDigitsOf(whole, 10) && AllDigitsOf(fraction, 10)
  {
    AllDigitsConcat(whole, fraction);
    DigitsValue(whole + fraction, 10)
  }

  lemma AllDigitsConcat(x: string, y: string)
    requires AllDigitsOf(x, 10) && AllDigitsOf(y, 10)
    ensures AllDigitsOf(x + y, 10)
  {
  }

  /** The mathematical value of a literal other than Infinity. The empty
      literal is zero. */
  function MathematicalValue(l: Literal): real
    requires WellFormed(l) && !l.InfinityLiteral?
  {
    match l
    case EmptyLiteral => 0.0
    case DecimalLiteral(sign, whole, _, fraction, exponent) =>
      SignFactor(sign) * DecimalMagnitude(whole, fraction, exponent)
    case NonDecimalLiteral(marker, digits) => DigitsValue(digits, RadixOf(marker)) as real
  }

  /** The smallest magnitude that round-to-nearest-even turns into an infinity
      in binary64: the largest finite double, 2^1024 - 2^971, plus half a unit
      in its last place. */
  function OverflowThreshold(): real {
    (Pow(2, 1024) - Pow(2, 970)) as real
  }

  /** Conversion of an exact value to a Number, as far as it is modelled:
      beyond the overflow threshold the result is an infinity of the same sign. */
  function RoundToNumber(x: real): JsNumber {
    if x >= OverflowThreshold() then PositiveInfinity
    else if x <= -OverflowThreshold() then NegativeInfinity
    else Finite(x)
  }

  /** The Number a well-formed literal denotes. */
  function LiteralToNumber(l: Literal): JsNumber
    requires WellFormed(l)
  {
    if l.InfinityLiteral? then
      (if l.sign == Minus then NegativeInfinity else PositiveInfinity)
    else RoundToNumber(MathematicalValue(l))
  }

  /** Number(s) for a string s: NaN when the trimmed string is not a
      StringNumericLiteral. */
  function ToNumber(s: string): JsNumber {
    ParseSound(Trim(s));
    match Parse(Trim(s))
    case None => NaN
    case Some(l) => LiteralToNumber(l)
  }

  // ---- What Number() does with the strings the grammar describes ----

  /** A rendered literal neither starts nor ends with whitespace. */
  lemma RenderTrimmed(l: Literal)
    requires WellFormed(l)
    ensures IsTrimmed(Render(l))
  {
    if !l.EmptyLiteral? {
      RenderShape(l);
      var s := Render(l);
      EdgeNotWhitespace(s[0]);
      EdgeNotWhitespace(s[|s| - 1]);
    }
  }

  /** None of the characters a literal can start or end with is whitespace. */
  lemma EdgeNotWhitespace(c: char)
    requires IsHexDigit(c) || c in "+-.Iy"
    ensures !IsWhitespace(c)
  {
  }

  lemma LastOfConcat(x: string, y: string)
    requires y != []
    ensures (x + y)[|x + y| - 1] == y[|y| - 1]
  {
  }

  /** A decimal body ends with a digit or with the point. */
  lemma DecimalBodyEnd(l: Literal)
    requires WellFormed(l) && l.DecimalLiteral?
    ensures var body := DecimalBody(l.whole, l.point, l.fraction, l.exponent);
      body != [] && (IsDecimalDigit(body[|body| - 1]) || body[|body| - 1] == '.')
  {
    var pt, et := PointText(l.point), ExponentText(l.exponent);
    var body := DecimalBody(l.whole, l.point, l.fraction, l.exponent);
    if et != [] {
      assert body[|body| - 1] == et[|et| - 1];
      assert et[|et| - 1] == l.exponent.digits[|l.exponent.digits| - 1];
      assert IsDigitOf(l.exponent.digits[|l.exponent.digits| - 1], 10);
    } else if l.fraction != [] {
      assert body[|body| - 1] == l.fraction[|l.fraction| - 1];
      assert IsDigitOf(l.fraction[|l.fraction| - 1], 10);
    } else if l.point {
      assert body[|body| - 1] == '.';
    } else {
      assert body == l.whole;
      assert IsDigitOf(l.whole[|l.whole| - 1], 10);
    }
  }

  /** The first and last characters a rendered literal can have, by kind. */
  lemma RenderShape(l: Literal)
    requires WellFormed(l) && !l.EmptyLiteral?
    ensures var s := Render(l);
      && s != []
      && (l.DecimalLiteral? ==>
            (IsDecimalDigit(s[0]) || s[0] in "+-.") && (IsDecimalDigit(s[|s| - 1]) || s[|s| - 1] == '.'))
      && (l.NonDecimalLiteral? ==> |s| >= 3 && s[0] == '0' && IsRadixMarker(s[1]) && IsHexDigit(s[|s| - 1]))
      && (l.InfinityLiteral? ==> s[0] in "+-I" && s[|s| - 1] == 'y')
  {
    match l
    case InfinityLiteral(sign) => InfinityShape(sign);
    case DecimalLiteral(_, _, _, _, _) => DecimalShape(l);
    case NonDecimalLiteral(_, _) => NonDecimalShape(l);
  }

  lemma InfinityShape(sign: Sign)
    ensures var s := Render(InfinityLiteral(sign));
      s != [] && s[0] in "+-I" && s[|s| - 1] == 'y'
  {
    LastOfConcat(SignText(sign), "Infinity");
  }

  lemma DecimalShape(l: Literal)
    requires WellFormed(l) && l.DecimalLiteral?
    ensures var s := Render(l);
      && s != []
      && (IsDecimalDigit(s[0]) || s[0] in "+-.") && (IsDecimalDigit(s[|s| - 1]) || s[|s| - 1] == '.')
  {
    var body := DecimalBody(l.whole, l.point, l.fraction, l.exponent);
    DecimalBodyStart(l);
    DecimalBodyEnd(l);
    LastOfConcat(SignText(l.sign), body);
  }

  lemma NonDecimalShape(l: Literal)
    requires WellFormed(l) && l.NonDecimalLiteral?
    ensures var s := Render(l);
      |s| >= 3 && s[0] == '0' && IsRadixMarker(s[1]) && IsHexDigit(s[|s| - 1])
  {
    assert IsDigitOf(l.digits[|l.digits| - 1], RadixOf(l.marker));
    LastOfConcat(['0', l.marker], l.digits);
  }

  /** Number() of a well-formed literal, with any whitespace around it, is the
      Number the literal denotes. */
  lemma ToNumberOfRender(a: string, l: Literal, b: string)
    requires WellFormed(l) && AllWhitespace(a) && AllWhitespace(b)
    ensures ToNumber(a + Render(l) + b) == LiteralToNumber(l)
  {
    RenderTrimmed(l);
    TrimOfPadded(a, Render(l), b);
    ParseRender(l);
  }

  /** Number() of the unpadded rendering of a well-formed literal. */
  lemma ToNumberOfLiteral(l: Literal)
    requires WellFormed(l)
    ensures ToNumber(Render(l)) == LiteralToNumber(l)
  {
    assert [] + Render(l) + [] == Render(l);
    ToNumberOfRender([], l, []);
  }

  /** Number() gives NaN exactly for the strings that, once trimmed, are not
      the rendering of any well-formed literal. */
  lemma ToNumberNaN(s: string)
    ensures ToNumber(s) == NaN <==> forall l :: WellFormed(l) ==> Render(l) != Trim(s)
  {
    if ToNumber(s) != NaN {
      ParseSound(Trim(s));
      var l := Parse(Trim(s)).value;
      assert WellFormed(l) && Render(l) == Trim(s);
    } else {
      forall l | WellFormed(l)
        ensures Render(l) != Trim(s)
      {
        ParseRender(l);
      }
    }
  }

  /** A finite result never reaches the overflow threshold. */
  lemma ToNumberFiniteBounded(s: string)
    requires ToNumber(s).Finite?
    ensures -OverflowThreshold() < ToNumber(s).value < OverflowThreshold()
    ensures exists l :: (WellFormed(l) && Render(l) == Trim(s) && !l.InfinityLiteral?
      && MathematicalValue(l) == ToNumber(s).value)
  {
    ParseSound(Trim(s));
    var l := Parse(Trim(s)).value;
    assert WellFormed(l) && Render(l) == Trim(s) && !l.InfinityLiteral?;
  }

  // ---- Overflow: a decimal literal with a large exponent is an infinity ----

  lemma {:induction false} PowAdd(b: nat, m: nat, n: nat)
    ensures Pow(b, m + n) == Pow(b, m) * Pow(b, n)
  {
    if n > 0 {
      PowAdd(b, m, n - 1);
      calc {
        Pow(b, m + n);
        b * Pow(b, m + n - 1);
        b * (Pow(b, m) * Pow(b, n - 1));
        { MultiplyRotate(b, Pow(b, m), Pow(b, n - 1)); }
        Pow(b, m) * (b * Pow(b, n - 1));
        Pow(b, m) * Pow(b, n);
      }
    }
  }

  lemma {:induction false} PowMonotoneBase(a: nat, b: nat, n: nat)
    requires a <= b
    ensures Pow(a, n) <= Pow(b, n)
  {
    if n > 0 {
      PowMonotoneBase(a, b, n - 1);
      MultiplyMonotone(a, Pow(a, n - 1), b, Pow(b, n - 1));
    }
  }

  lemma GapArithmetic(p: nat, q: nat)
    requires p > 0 && q > 1
    ensures p * (2 * q) - p > p * q
  {
    assert p * (2 * q) - p == p * q + p * (q - 1);
  }

  lemma MultiplyRotate(x: nat, y: nat, z: nat)
    ensures x * (y * z) == y * (x * z)
  {
  }

  lemma MultiplyMonotone(a: nat, x: nat, b: nat, y: nat)
    requires a <= b && x <= y
    ensures a * x <= b * y
  {
  }

  lemma {:induction false} PowOfPow(b: nat, m: nat, n: nat)
    ensures Pow(Pow(b, m), n) == Pow(b, m * n)
  {
    if n > 0 {
      PowOfPow(b, m, n - 1);
      PowAdd(b, m, m * (n - 1));
      assert m + m * (n - 1) == m * n;
    }
  }

  /** 2^1024 <= 10^342, since 2^1024 = 2 * 8^341 and 8^341 <= 10^341. */
  lemma TwoTo1024BelowTenTo342()
    ensures Pow(2, 1024) <= Pow(10, 342)
  {
    PowAdd(2, 1, 1023);
    PowOfPow(2, 3, 341);
    assert Pow(2, 3) == 8;
    PowMonotoneBase(8, 10, 341);
    PowAdd(10, 1, 341);
  }

  lemma {:induction false} ScaleMonotone(e: nat, f: nat)
    requires e <= f
    ensures Pow(10, e) <= Pow(10, f)
  {
    PowAdd(10, e, f - e);
  }

  /** The threshold lies above 2^1023, so every value of magnitude at most
      2^1023 (in particular every intensity in range) stays finite. */
  lemma ThresholdAbovePowerOfTwo()
    ensures OverflowThreshold() > Pow(2, 1023) as real
  {
    GapAbovePowerOfTwo(970);
  }

  /** Every value of magnitude at most 2^1023 converts to itself. */
  lemma FiniteWithinRange(x: real)
    requires -(Pow(2, 1023) as real) <= x <= Pow(2, 1023) as real
    ensures RoundToNumber(x) == Finite(x)
  {
    ThresholdAbovePowerOfTwo();
  }

  lemma GapAbovePowerOfTwo(h: nat)
    ensures Pow(2, h + 54) - Pow(2, h) > Pow(2, h + 53)
  {
    var p := Pow(2, h);
    PowAdd(2, h, 54);
    PowAdd(2, h, 53);
    PowAdd(2, 53, 1);
    var q := Pow(2, 53);
    assert Pow(2, 54) == 2 * q;
    assert q > 1 by { PowAdd(2, 1, 52); }
    GapArithmetic(p, q);
  }

  /** Every real at least ten to a power from 342 up is past the overflow
      threshold. */
  lemma PastThreshold(x: real, e: int)
    requires e >= 342 && x >= Scale(e)
    ensures x >= OverflowThreshold()
  {
    TwoTo1024BelowTenTo342();
    ScaleMonotone(342, e);
  }

  lemma RoundBeyondThreshold(magnitude: real)
    requires magnitude >= OverflowThreshold()
    ensures RoundToNumber(magnitude) == PositiveInfinity
    ensures RoundToNumber(-magnitude) == NegativeInfinity
  {
    ThresholdAbovePowerOfTwo();
  }

  /** Nonzero digits make a magnitude at least its scale. */
  lemma MagnitudeAtLeastScale(whole: string, fraction: string, exponent: Exponent)
    requires AllDigitsOf(whole, 10) && AllDigitsOf(fraction, 10) && WellFormedExponent(exponent)
    requires Significand(whole, fraction) > 0
    ensures DecimalMagnitude(whole, fraction, exponent) >= Scale(ExponentValue(exponent) - |fraction|)
  {
    var digits := Significand(whole, fraction);
    var scale := Scale(ExponentValue(exponent) - |fraction|);
    var m := DecimalMagnitude(whole, fraction, exponent);
    assert m == (digits as real) * scale;
    ProductAtLeast(m, digits, scale);
  }

  lemma ProductAtLeast(m: real, digits: nat, scale: real)
    requires m == (digits as real) * scale && digits > 0 && scale > 0.0
    ensures m >= scale
  {
  }

  /** A decimal literal whose digits are not all zero and whose scale (its
      exponent less its number of fraction digits) is at least 342 converts to
      an infinity of its sign: for instance "1e400" and "-1e400". */
  lemma LargeLiteralOverflows(l: Literal)
    requires WellFormed(l) && l.DecimalLiteral?
    requires Significand(l.whole, l.fraction) > 0
    requires ExponentValue(l.exponent) - |l.fraction| >= 342
    ensures LiteralToNumber(l) == if l.sign == Minus then NegativeInfinity else PositiveInfinity
  {
    MagnitudePastThreshold(l.whole, l.fraction, l.exponent);
    SignedMagnitude(l);
    RoundBeyondThreshold(DecimalMagnitude(l.whole, l.fraction, l.exponent));
  }

  lemma MagnitudePastThreshold(whole: string, fraction: string, exponent: Exponent)
    requires AllDigitsOf(whole, 10) && AllDigitsOf(fraction, 10) && WellFormedExponent(exponent)
    requires Significand(whole, fraction) > 0
    requires ExponentValue(exponent) - |fraction| >= 342
    ensures DecimalMagnitude(whole, fraction, exponent) >= OverflowThreshold()
  {
    MagnitudeAtLeastScale(whole, fraction, exponent);
    PastThreshold(DecimalMagnitude(whole, fraction, exponent), ExponentValue(exponent) - |fraction|);
  }

  /** A decimal literal's value is its magnitude, negated after a minus sign. */
  lemma SignedMagnitude(l: Literal)
    requires WellFormed(l) && l.DecimalLiteral?
    ensures var magnitude := DecimalMagnitude(l.whole, l.fraction, l.exponent);
      MathematicalValue(l) == if l.sign == Minus then -magnitude else magnitude
  {
  }
}
