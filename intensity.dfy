/** The input pipeline of the sound-intensity calculator: parseInput (trim,
    first decimal comma to a point, Number(), finiteness gate) and the decision
    ladder of validateAndCalculate, which picks exactly one of five outcomes. */
module Intensity {
  import opened Sequences
  import opened Text
  import opened NumericLiteral
  import opened NumberConversion

  /** I_REF, the reference intensity 10^-12 of the decibel formula. */
  const ReferenceIntensity: real := 0.000000000001
  /** MIN_I: the smallest accepted intensity, equal to I_REF. */
  const MinIntensity: real := ReferenceIntensity
  /** MAX_I: the largest accepted intensity. */
  const MaxIntensity: real := 1.0

  /** What parseInput returns: null for an empty normalised string, NaN for a
      conversion that is NaN or infinite, and otherwise the finite number. */
  datatype Parsed = NullMarker | NotANumber | Value(value: real)

  /** The five outcomes of one calculation. A success carries the accepted
      intensity (the decibel text derived from it is not modelled). */
  datatype Outcome = Empty | Invalid | BelowMin | AboveMax | Success(intensity: real)

  /** value.trim().replace(',', '.'): trims, then turns the first comma (only
      that one) into a point. The length of the trimmed string is kept. */
  function Normalise(raw: string): (r: string)
    ensures |r| == |Trim(raw)|
    ensures r == [] <==> AllWhitespace(raw)
  {
    ReplaceFirst(Trim(raw), ',', '.')
  }

  /** parseInput. */
  function ParseInput(raw: string): (r: Parsed)
    ensures r.NullMarker? <==> AllWhitespace(raw)
    ensures r.Value? ==> -OverflowThreshold() < r.value < OverflowThreshold()
  {
    var normalized := Normalise(raw);
    if normalized == "" then NullMarker
    else
      var num := ToNumber(normalized);
      if !num.Finite? then
        NotANumber
      else
        ToNumberFiniteBounded(normalized);
        Value(num.value)
  }

  /** The number a parse result stands for in `<` and `>`: JavaScript converts
      null to 0 there. */
  function Numeric(p: Parsed): real
    requires !p.NotANumber?
  {
    if p.NullMarker? then 0.0 else p.value
  }

  /** The ladder after the empty check: Number.isNaN first, then the lower
      bound, then the upper bound; each error returns early. */
  function Ladder(p: Parsed): Outcome {
    if p.NotANumber? then Invalid
    else if Numeric(p) < MinIntensity then BelowMin
    else if Numeric(p) > MaxIntensity then AboveMax
    else Success(Numeric(p))
  }

  /** The outcome validateAndCalculate reaches for the raw text of the input. */
  function Classify(raw: string): Outcome {
    if Trim(raw) == "" then Empty else Ladder(ParseInput(raw))
  }

  /** The ladder read off the number Number() produced: NaN and the infinities
      are invalid, then the two inclusive bounds are checked in order. */
  function Decide(n: JsNumber): Outcome {
    if !n.Finite? then Invalid
    else if n.value < MinIntensity then BelowMin
    else if n.value > MaxIntensity then AboveMax
    else Success(n.value)
  }

  // ---- Properties of the ladder ----

  /** Past the empty check, the outcome is the ladder on parseInput's result. */
  lemma ClassifyNonBlank(raw: string)
    requires Trim(raw) != ""
    ensures Classify(raw) == Ladder(ParseInput(raw))
  {
  }

  /** parseInput's null result never reaches the ladder: Classify has already
      answered Empty for every input that would produce it. Were it reached,
      JavaScript's comparison would read it as 0 and report BelowMin. */
  lemma NullMarkerUnreachable(raw: string)
    ensures Trim(raw) != "" ==> !ParseInput(raw).NullMarker?
    ensures Ladder(NullMarker) == BelowMin
  {
  }

  /** Empty exactly for the empty and whitespace-only inputs. */
  lemma ClassifyEmpty(raw: string)
    ensures Classify(raw) == Empty <==> AllWhitespace(raw)
  {
  }

  /** Invalid exactly when the input is not blank and Number() of the
      normalised text is NaN or an infinity; such a value is never range-checked. */
  lemma ClassifyInvalid(raw: string)
    ensures Classify(raw) == Invalid <==> !AllWhitespace(raw) && !ToNumber(Normalise(raw)).Finite?
  {
  }

  /** A non-blank input is decided by the number its normalised text converts
      to, and by nothing else. */
  lemma ClassifyByNumber(raw: string)
    requires !AllWhitespace(raw)
    ensures Classify(raw) == Decide(ToNumber(Normalise(raw)))
  {
  }

  /** For a finite conversion v the outcome depends on v alone, with both
      bounds inclusive: v < 1e-12 is BelowMin, v > 1 is AboveMax, and every v
      in [1e-12, 1] succeeds with intensity v. */
  lemma ClassifyFinite(raw: string, v: real)
    requires !AllWhitespace(raw) && ToNumber(Normalise(raw)) == Finite(v)
    ensures v < MinIntensity ==> Classify(raw) == BelowMin
    ensures v > MaxIntensity ==> Classify(raw) == AboveMax
    ensures MinIntensity <= v <= MaxIntensity ==> Classify(raw) == Success(v)
  {
  }

  /** Success implies the accepted intensity lies in [MIN_I, MAX_I] and is the
      value Number() gives for the normalised text. */
  lemma SuccessInRange(raw: string)
    requires Classify(raw).Success?
    ensures MinIntensity <= Classify(raw).intensity <= MaxIntensity
    ensures ToNumber(Normalise(raw)) == Finite(Classify(raw).intensity)
  {
    var p := ParseInput(raw);
    assert Classify(raw) == Ladder(p);
    assert p.Value?;
  }

  // ---- Properties of the normalisation ----

  /** Whitespace around the input changes nothing. */
  lemma PaddingInvariant(a: string, raw: string, b: string)
    requires AllWhitespace(a) && AllWhitespace(b)
    ensures Normalise(a + raw + b) == Normalise(raw)
    ensures Classify(a + raw + b) == Classify(raw)
  {
    TrimOfPaddedString(a, raw, b);
    ClassifyByNormalise(a + raw + b, raw);
  }

  /** An input with exactly one comma normalises exactly as the same input with
      a point there ("0,001" and "0.001"), so both get the same outcome. */
  lemma DecimalCommaEquivalence(raw: string, k: nat)
    requires k < |raw| && raw[k] == ','
    requires forall j :: 0 <= j < |raw| && j != k ==> raw[j] != ','
    ensures Normalise(raw) == Normalise(raw[k := '.'])
    ensures Classify(raw) == Classify(raw[k := '.'])
  {
    CommaNormalisesAsPoint(raw, k);
    ClassifyByNormalise(raw, raw[k := '.']);
  }

  lemma CommaNormalisesAsPoint(raw: string, k: nat)
    requires k < |raw| && raw[k] == ','
    requires forall j :: 0 <= j < |raw| && j != k ==> raw[j] != ','
    ensures Normalise(raw) == Normalise(raw[k := '.'])
  {
    var a, b := TrimSplits(raw);
    var m := Trim(raw);
    CommaInsideTrim(raw, k, a, m, b);
    var i := k - |a|;
    TrimOfUpdate(raw, k, a, m, b);
    SoleComma(raw, k, a, m, b);
    ReplaceSoleComma(m, i);
  }

  /** A comma is not whitespace, so it lies inside the trimmed part. */
  lemma CommaInsideTrim(raw: string, k: nat, a: string, m: string, b: string)
    requires raw == a + m + b && AllWhitespace(a) && AllWhitespace(b)
    requires k < |raw| && raw[k] == ','
    ensures |a| <= k < |a| + |m|
  {
    assert forall j :: 0 <= j < |a| ==> raw[j] == a[j];
    assert forall j :: |a| + |m| <= j < |raw| ==> raw[j] == b[j - |a| - |m|];
  }

  /** Overwriting a character inside the trimmed part with a non-whitespace
      character overwrites the same character of the trimmed string. */
  lemma TrimOfUpdate(raw: string, k: nat, a: string, m: string, b: string)
    requires raw == a + m + b && AllWhitespace(a) && AllWhitespace(b) && IsTrimmed(m)
    requires |a| <= k < |a| + |m|
    ensures Trim(raw[k := '.']) == m[k - |a| := '.']
  {
    var m' := m[k - |a| := '.'];
    assert raw[k := '.'] == a + m' + b;
    TrimOfPadded(a, m', b);
  }

  lemma SoleComma(raw: string, k: nat, a: string, m: string, b: string)
    requires raw == a + m + b
    requires |a| <= k < |a| + |m|
    requires forall j :: 0 <= j < |raw| && j != k ==> raw[j] != ','
    ensures forall j :: 0 <= j < |m| && j != k - |a| ==> m[j] != ','
  {
    forall j | 0 <= j < |m| && j != k - |a|
      ensures m[j] != ','
    {
      assert m[j] == raw[|a| + j];
    }
  }

  /** Replacing the only comma of a string turns exactly that one into a point;
      afterwards the string has no comma left. */
  lemma ReplaceSoleComma(m: string, i: nat)
    requires i < |m| && m[i] == ','
    requires forall j :: 0 <= j < |m| && j != i ==> m[j] != ','
    ensures ReplaceFirst(m, ',', '.') == m[i := '.']
    ensures ',' !in m[i := '.']
  {
    assert m[i] in m;
    var dotted := m[i := '.'];
    forall j | 0 <= j < |dotted|
      ensures dotted[j] != ','
    {
    }
  }

  /** The outcome depends on the normalised text alone. */
  lemma ClassifyByNormalise(x: string, y: string)
    requires Normalise(x) == Normalise(y)
    ensures Classify(x) == Classify(y)
  {
    assert ParseInput(x) == ParseInput(y);
  }

  // ---- The pipeline on inputs the grammar describes ----

  /** A rendered literal contains no comma, so normalisation leaves it as it is. */
  lemma RenderHasNoComma(l: Literal)
    requires WellFormed(l)
    ensures ',' !in Render(l)
  {
    match l
    case EmptyLiteral =>
    case InfinityLiteral(sign) =>
    case NonDecimalLiteral(marker, digits) =>
      DigitsHaveNoComma(digits, RadixOf(marker));
      ConcatHasNoComma(['0', marker], digits);
    case DecimalLiteral(sign, whole, point, fraction, exponent) =>
      DigitsHaveNoComma(whole, 10);
      DigitsHaveNoComma(fraction, 10);
      ExponentHasNoComma(exponent);
      var tail := fraction + ExponentText(exponent);
      ConcatHasNoComma(fraction, ExponentText(exponent));
      ConcatHasNoComma(PointText(point), tail);
      ConcatHasNoComma(whole, PointText(point) + tail);
      ConcatHasNoComma(SignText(sign), DecimalBody(whole, point, fraction, exponent));
  }

  lemma ExponentHasNoComma(e: Exponent)
    requires WellFormedExponent(e)
    ensures ',' !in ExponentText(e)
  {
    if e.Exponent? {
      DigitsHaveNoComma(e.digits, 10);
      ConcatHasNoComma([e.marker], SignText(e.sign));
      ConcatHasNoComma([e.marker] + SignText(e.sign), e.digits);
    }
  }

  lemma ConcatHasNoComma(x: string, y: string)
    requires ',' !in x && ',' !in y
    ensures ',' !in x + y
  {
  }

  lemma DigitsHaveNoComma(s: string, base: nat)
    requires AllDigitsOf(s, base)
    ensures ',' !in s
  {
    forall k | 0 <= k < |s|
      ensures s[k] != ','
    {
      assert IsDigitOf(s[k], base);
    }
  }

  /** End to end: a well-formed non-empty literal, with any whitespace around
      it, is decided by the number Number() makes of it: Invalid when that is
      infinite, and otherwise placed by its exact value, both bounds inclusive. */
  lemma ClassifyLiteral(a: string, l: Literal, b: string)
    requires WellFormed(l) && !l.EmptyLiteral?
    requires AllWhitespace(a) && AllWhitespace(b)
    ensures Classify(a + Render(l) + b) == Decide(LiteralToNumber(l))
  {
    NormaliseOfPadded(a, l, b);
    ToNumberOfLiteral(l);
    ClassifyByNumber(a + Render(l) + b);
  }

  /** Normalising a padded rendered literal gives the literal's text back. */
  lemma NormaliseOfPadded(a: string, l: Literal, b: string)
    requires WellFormed(l) && !l.EmptyLiteral?
    requires AllWhitespace(a) && AllWhitespace(b)
    ensures Normalise(a + Render(l) + b) == Render(l)
    ensures !AllWhitespace(a + Render(l) + b)
  {
    var s := Render(l);
    RenderTrimmed(l);
    TrimOfPadded(a, s, b);
    RenderHasNoComma(l);
    assert s != [] by {
      if l.DecimalLiteral? { DecimalBodyStart(l); }
    }
  }

  /** A well-formed literal with a minus sign is never accepted: a finite
      negative or zero value is below the minimum. */
  lemma NegativeLiteralRejected(a: string, l: Literal, b: string)
    requires WellFormed(l) && (l.DecimalLiteral? || l.InfinityLiteral?) && l.sign == Minus
    requires AllWhitespace(a) && AllWhitespace(b)
    ensures !Classify(a + Render(l) + b).Success?
  {
    ClassifyLiteral(a, l, b);
    if l.DecimalLiteral? {
      NegativeDecimalValue(l);
      NonPositiveRejected(MathematicalValue(l));
    }
  }

  lemma NonPositiveRejected(x: real)
    requires x <= 0.0
    ensures !Decide(RoundToNumber(x)).Success?
  {
  }

  lemma NegativeDecimalValue(l: Literal)
    requires WellFormed(l) && l.DecimalLiteral? && l.sign == Minus
    ensures MathematicalValue(l) <= 0.0
  {
    NonNegativeProduct(Significand(l.whole, l.fraction), Scale(ExponentValue(l.exponent) - |l.fraction|));
    assert DecimalMagnitude(l.whole, l.fraction, l.exponent) >= 0.0;
  }

  lemma NonNegativeProduct(n: nat, x: real)
    requires x > 0.0
    ensures (n as real) * x >= 0.0
  {
  }
}
