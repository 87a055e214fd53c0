/** Concrete inputs and the outcome the calculator reaches for each, including
    the boundaries of the accepted range and the inputs on which the live filter
    and the calculation disagree. */
module Scenarios {
  import opened Wrappers
  import opened Text
  import opened NumericLiteral
  import opened NumberConversion
  import opened Intensity
  import opened Display

  // ---- Helpers that keep the concrete cases small ----

  /** The plain decimal literal with the given digits and exponent, no sign and no point. */
  function Plain(whole: string, exponent: Exponent): Literal {
    DecimalLiteral(NoSign, whole, false, "", exponent)
  }

  lemma TrimmedFixed(s: string)
    requires IsTrimmed(s)
    ensures Trim(s) == s
  {
    assert [] + s + [] == s;
    TrimOfPadded([], s, []);
  }

  /** The outcome for the text of a literal, given without padding. */
  lemma ClassifyText(l: Literal, s: string)
    requires WellFormed(l) && !l.EmptyLiteral? && Render(l) == s
    ensures Classify(s) == Decide(LiteralToNumber(l))
  {
    assert [] + s + [] == s;
    ClassifyLiteral([], l, []);
  }

  /** A trimmed text without a comma that renders no well-formed literal is invalid. */
  lemma NoLiteralInvalid(s: string)
    requires IsTrimmed(s) && s != [] && ',' !in s
    requires forall l :: WellFormed(l) ==> Render(l) != s
    ensures Classify(s) == Invalid
  {
    TrimmedFixed(s);
    ToNumberNaN(s);
    ClassifyByNumber(s);
  }

  /** No well-formed literal renders as a text that ends in neither a decimal
      digit, a point nor 'y', unless it starts with '0' and ends in a hex digit. */
  lemma NotRendered(s: string)
    requires s != []
    requires !IsDecimalDigit(s[|s| - 1]) && s[|s| - 1] != '.' && s[|s| - 1] != 'y'
    requires s[0] != '0' || !IsHexDigit(s[|s| - 1])
    ensures forall l :: WellFormed(l) ==> Render(l) != s
  {
    forall l | WellFormed(l)
      ensures Render(l) != s
    {
      if !l.EmptyLiteral? {
        RenderShape(l);
      }
    }
  }

  /** A trimmed text without a comma whose last character no literal ends
      with is invalid. */
  lemma BadEndingInvalid(s: string)
    requires BadEnding(s)
    ensures Classify(s) == Invalid
  {
    NotRendered(s);
    NoLiteralInvalid(s);
  }

  /** A trimmed, non-empty text without a comma whose last character no
      literal ends with: not a decimal digit, a point or the 'y' of Infinity,
      and not a hex digit after a leading '0'. */
  predicate BadEnding(s: string) {
    && IsTrimmed(s) && s != [] && ',' !in s
    && !IsDecimalDigit(s[|s| - 1]) && s[|s| - 1] != '.' && s[|s| - 1] != 'y'
    && (s[0] != '0' || !IsHexDigit(s[|s| - 1]))
  }

  lemma SmallFinite(x: real)
    requires -2.0 <= x <= 2.0
    ensures RoundToNumber(x) == Finite(x)
  {
    assert Pow(2, 1023) == 2 * Pow(2, 1022);
    FiniteWithinRange(x);
  }

  /** The outcome for the text of a literal whose value is known. */
  lemma DecidedText(l: Literal, s: string, v: real)
    requires WellFormed(l) && !l.EmptyLiteral? && !l.InfinityLiteral? && Render(l) == s
    requires MathematicalValue(l) == v && -2.0 <= v <= 2.0
    ensures Classify(s) == Decide(Finite(v))
  {
    SmallFinite(v);
    ClassifyText(l, s);
  }

  /** The value of a one-digit literal with a negative exponent. */
  lemma UnitValue(d: char, m: string, n: nat)
    requires '0' <= d <= '9' && 0 < |m| && AllDigitsOf(m, 10) && DigitsValue(m, 10) == n
    ensures MathematicalValue(Plain([d], Exponent('e', Minus, m))) == (DigitValue(d) as real) * Scale(-(n as int))
  {
    assert [d] + "" == [d];
    assert DigitsValue([d], 10) == DigitValue(d);
  }

  lemma MicroValue()
    ensures MathematicalValue(Plain("1", Exponent('e', Minus, "6"))) == 0.000001
  {
    assert DigitsValue("6", 10) == 6 by { assert "6"[..0] == ""; }
    assert Pow(10, 6) == 1000000;
    UnitValue('1', "6", 6);
  }

  lemma PicoValue()
    ensures MathematicalValue(Plain("1", Exponent('e', Minus, "12"))) == 0.000000000001
  {
    assert DigitsValue("12", 10) == 12 by { assert "12"[..1] == "1"; }
    assert Pow(10, 12) == 1000000000000;
    UnitValue('1', "12", 12);
  }

  lemma SubPicoValue()
    ensures MathematicalValue(Plain("1", Exponent('e', Minus, "13"))) == 0.0000000000001
  {
    assert DigitsValue("13", 10) == 13 by { assert "13"[..1] == "1"; }
    assert Pow(10, 13) == 10000000000000;
    UnitValue('1', "13", 13);
  }

  lemma ThousandthValue()
    ensures MathematicalValue(DecimalLiteral(NoSign, "0", true, "001", NoExponent)) == 0.001
  {
    assert "0" + "001" == "0001";
    assert DigitsValue("0001", 10) == 1 by {
      assert "0001"[..3] == "000" && "000"[..2] == "00" && "00"[..1] == "0";
    }
    assert Pow(10, 3) == 1000;
  }

  /** The value of a one-digit literal without exponent. */
  lemma DigitValueOf(sign: Sign, d: char)
    requires '0' <= d <= '9'
    ensures MathematicalValue(DecimalLiteral(sign, [d], false, "", NoExponent))
      == SignFactor(sign) * (DigitValue(d) as real)
  {
    assert [d] + "" == [d];
    assert DigitsValue([d], 10) == DigitValue(d);
  }

  // ---- The cases ----

  /** "1e-6", the example the invalid-input message gives, is accepted. */
  lemma MicroWattAccepted()
    ensures Classify("1e-6") == Success(0.000001)
  {
    MicroLiteral();
    DecidedText(Plain("1", Exponent('e', Minus, "6")), "1e-6", 0.000001);
  }

  /** "1e-6" is the text of a well-formed literal worth 0.000001. */
  lemma MicroLiteral()
    ensures var l := Plain("1", Exponent('e', Minus, "6"));
      WellFormed(l) && !l.EmptyLiteral? && !l.InfinityLiteral? && Render(l) == "1e-6"
      && MathematicalValue(l) == 0.000001
  {
    var l := Plain("1", Exponent('e', Minus, "6"));
    assert Render(l) == "1e-6";
    MicroValue();
  }


  /** The lower bound is inclusive: "1e-12" succeeds. */
  lemma MinimumAccepted()
    ensures Classify("1e-12") == Success(MinIntensity)
  {
    PicoLiteral();
    DecidedText(Plain("1", Exponent('e', Minus, "12")), "1e-12", 0.000000000001);
  }

  /** "1e-12" is the text of a well-formed literal worth 0.000000000001. */
  lemma PicoLiteral()
    ensures var l := Plain("1", Exponent('e', Minus, "12"));
      WellFormed(l) && !l.EmptyLiteral? && !l.InfinityLiteral? && Render(l) == "1e-12"
      && MathematicalValue(l) == 0.000000000001
  {
    var l := Plain("1", Exponent('e', Minus, "12"));
    assert Render(l) == "1e-12";
    PicoValue();
  }


  /** Just below the lower bound: "1e-13" is BelowMin. */
  lemma BelowMinimum()
    ensures Classify("1e-13") == BelowMin
  {
    SubPicoLiteral();
    DecidedText(Plain("1", Exponent('e', Minus, "13")), "1e-13", 0.0000000000001);
  }

  /** "1e-13" is the text of a well-formed literal worth 0.0000000000001. */
  lemma SubPicoLiteral()
    ensures var l := Plain("1", Exponent('e', Minus, "13"));
      WellFormed(l) && !l.EmptyLiteral? && !l.InfinityLiteral? && Render(l) == "1e-13"
      && MathematicalValue(l) == 0.0000000000001
  {
    var l := Plain("1", Exponent('e', Minus, "13"));
    assert Render(l) == "1e-13";
    SubPicoValue();
  }


  /** The upper bound is inclusive: "1" succeeds. */
  lemma MaximumAccepted()
    ensures Classify("1") == Success(MaxIntensity)
  {
    var l := Plain("1", NoExponent);
    assert Render(l) == "1";
    DigitValueOf(NoSign, '1');
    DecidedText(l, "1", 1.0);
  }

  /** Just above the upper bound: "2" is AboveMax. */
  lemma AboveMaximum()
    ensures Classify("2") == AboveMax
  {
    var l := Plain("2", NoExponent);
    assert Render(l) == "2";
    DigitValueOf(NoSign, '2');
    DecidedText(l, "2", 2.0);
  }

  /** A negative value is BelowMin. */
  lemma NegativeBelowMinimum()
    ensures Classify("-1") == BelowMin
  {
    var l := DecimalLiteral(Minus, "1", false, "", NoExponent);
    assert Render(l) == "-1";
    DigitValueOf(Minus, '1');
    DecidedText(l, "-1", -1.0);
  }

  /** The empty input is Empty. */
  lemma EmptyInput()
    ensures Classify("") == Empty
  {
  }

  /** So is an input of spaces and tabs. */
  lemma BlankInput()
    ensures Classify(" \t ") == Empty
  {
    ClassifyEmpty(" \t ");
  }

  /** Letters are invalid: no literal starts with 'a'. */
  lemma LettersInvalid()
    ensures Classify("abc") == Invalid
  {
    LettersEnding();
    BadEndingInvalid("abc");
  }

  /** The literal facts behind LettersInvalid, proved apart from Classify so that the
      solver evaluates the concrete string without Classify in scope. */
  lemma LettersEnding()
    ensures BadEnding("abc")
  {
  }

  /** A letter after the number is invalid: no literal ends with 'x'. */
  lemma TrailingLetterInvalid()
    ensures Classify("1e-6x") == Invalid
  {
    TrailingLetterEnding();
    BadEndingInvalid("1e-6x");
  }

  /** The literal facts behind TrailingLetterInvalid, proved apart from Classify so that the
      solver evaluates the concrete string without Classify in scope. */
  lemma TrailingLetterEnding()
    ensures BadEnding("1e-6x")
  {
  }

  /** Padding the accepted example with spaces changes nothing. */
  lemma PaddedAccepted()
    ensures Classify("  1e-6 ") == Classify("1e-6")
  {
    assert "  1e-6 " == "  " + "1e-6" + " ";
    PaddingInvariant("  ", "1e-6", " ");
  }

  /** An overflowing magnitude becomes an infinity and is invalid, not AboveMax. */
  lemma OverflowInvalid()
    ensures Classify("1e400") == Invalid
  {
    var l := LargeLiteral();
    LargeLiteralInfinite();
    ClassifyText(l, "1e400");
  }

  /** The literal "1e400". */
  function LargeLiteral(): (l: Literal)
    ensures WellFormed(l) && l.DecimalLiteral? && Render(l) == "1e400"
  {
    Plain("1", Exponent('e', NoSign, "400"))
  }

  lemma LargeLiteralInfinite()
    ensures LiteralToNumber(LargeLiteral()) == PositiveInfinity
  {
    LargeExponentValue();
    LargeLiteralOverflows(LargeLiteral());
  }

  lemma LargeExponentValue()
    ensures Significand("1", "") == 1
    ensures ExponentValue(Exponent('e', NoSign, "400")) == 400
  {
    assert "1" + "" == "1";
    assert DigitsValue("400", 10) == 400 by {
      assert "400"[..2] == "40" && "40"[..1] == "4";
    }
  }

  /** A decimal comma reads as a point ... */
  lemma DecimalComma()
    ensures Classify("0,001") == Classify("0.001")
  {
    CommaToPoint();
    DecimalCommaEquivalence("0,001", 1);
  }

  /** The string update DecimalComma needs, proved apart from Classify so that
      the solver evaluates it on the concrete string alone. */
  lemma CommaToPoint()
    ensures "0,001"[1 := '.'] == "0.001"
  {
  }

  /** ... and "0.001" is accepted as one thousandth. */
  lemma ThousandthAccepted()
    ensures Classify("0.001") == Success(0.001)
  {
    ThousandthLiteral();
    DecidedText(DecimalLiteral(NoSign, "0", true, "001", NoExponent), "0.001", 0.001);
  }

  /** "0.001" is the text of a well-formed literal worth 0.001. */
  lemma ThousandthLiteral()
    ensures var l := DecimalLiteral(NoSign, "0", true, "001", NoExponent);
      WellFormed(l) && !l.EmptyLiteral? && !l.InfinityLiteral? && Render(l) == "0.001"
      && MathematicalValue(l) == 0.001
  {
    var l := DecimalLiteral(NoSign, "0", true, "001", NoExponent);
    assert Render(l) == "0.001";
    ThousandthValue();
  }


  /** Only the first comma becomes a point: "1,0,0" keeps its second comma ... */
  lemma SecondCommaKept()
    ensures Normalise("1,0,0") == "1.0,0"
  {
    FirstCommaReplaced();
    NormaliseTrimmed("1,0,0");
  }

  /** On a text that is already trimmed, normalising only replaces the first comma. */
  lemma NormaliseTrimmed(s: string)
    requires IsTrimmed(s)
    ensures Normalise(s) == ReplaceFirst(s, ',', '.')
  {
    TrimmedFixed(s);
  }

  /** replace(',', '.') on "1,0,0", evaluated apart from Normalise so that the
      solver works on the concrete string alone. */
  lemma FirstCommaReplaced()
    ensures ReplaceFirst("1,0,0", ',', '.') == "1.0,0"
  {
  }

  /** ... and is therefore invalid. */
  lemma SecondCommaInvalid()
    ensures Classify("1,0,0") == Invalid
  {
    SecondCommaKept();
    CommaMakesNaN("1.0,0", 3);
    ClassifyByNumber("1,0,0");
  }

  /** No literal contains a comma, so a text that keeps one is not a number. */
  lemma CommaMakesNaN(s: string, k: nat)
    requires IsTrimmed(s) && k < |s| && s[k] == ','
    ensures ToNumber(s) == NaN
  {
    TrimmedFixed(s);
    NoLiteralWithComma(s, k);
    ToNumberNaN(s);
  }

  lemma NoLiteralWithComma(s: string, k: nat)
    requires k < |s| && s[k] == ','
    ensures forall l :: WellFormed(l) ==> Render(l) != s
  {
    assert s[k] in s;
    forall l | WellFormed(l)
      ensures Render(l) != s
    {
      RenderHasNoComma(l);
    }
  }

  /** The live filter flags "0x1" ... */
  lemma FilterFlagsHex()
    ensures !MatchesAllowedPattern("0x1")
  {
    assert !IsAllowedChar("0x1"[1]);
  }

  /** ... which the calculation accepts as 1. */
  lemma HexAccepted()
    ensures Classify("0x1") == Success(1.0)
  {
    var l := NonDecimalLiteral('x', "1");
    assert Render(l) == "0x1";
    assert DigitsValue("1", 16) == 1;
    SmallFinite(1.0);
    ClassifyText(l, "0x1");
  }

  /** The live filter lets "1e" through ... */
  lemma FilterPassesBareExponent()
    ensures MatchesAllowedPattern("1e")
  {
  }

  /** ... which the calculation rejects: only a decimal literal can start with
      '1', and a decimal literal does not end with 'e'. */
  lemma BareExponentInvalid()
    ensures Classify("1e") == Invalid
  {
    BareExponentEnding();
    BadEndingInvalid("1e");
  }

  /** The literal facts behind BareExponentInvalid, proved apart from Classify so that the
      solver evaluates the concrete string without Classify in scope. */
  lemma BareExponentEnding()
    ensures BadEnding("1e")
  {
  }
}
