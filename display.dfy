/** The two display slots the calculator writes (the message line and the
    result line, each with its text and its CSS class), the helpers that set
    them, the calculation handler and the live character filter. */
module Display {
  import opened Wrappers
  import opened Text
  import opened Intensity
  import NumericLiteral

  /** What the page shows: textContent and className of the message element
      and of the result element. */
  datatype Screen = Screen(messageText: string, messageClass: string, resultText: string, resultClass: string)

  const EmptyInputText: string := "Ingrese nivel de potencia (I)."
  const InvalidInputText: string :=
    "Entrada inválida: ingrese sólo un número (se permite notación científica, por ejemplo 1e-6)."
  /** The template embeds MIN_I, which JavaScript renders as "1e-12". */
  const BelowMinText: string := "El valor no puede ser menor que 1e-12 (1×10⁻¹²)."
  /** The template embeds MAX_I, which JavaScript renders as "1". */
  const AboveMaxText: string := "El valor no puede ser mayor que 1."
  const FilterWarningText: string :=
    "Caracteres inválidos detectados (sólo números y notación científica permitida)."

  const ErrorClass: string := "error"
  const ResultClass: string := "result"
  const SuccessClass: string := "result success"
  const ResultPrefix: string := "Su NIS es de: "
  const ResultSuffix: string := " dB"

  // ---- The helpers, as functions of the screen ----

  /** clearMessages: both texts empty, no message class, the plain result class. */
  function Cleared(): Screen {
    Screen("", "", "", ResultClass)
  }

  /** showError: the message slot shows the text as an error and the result
      text is blanked; the result class is left as it was. */
  function WithError(s: Screen, text: string): Screen {
    s.(messageText := text, messageClass := ErrorClass, resultText := "")
  }

  /** showResult: only the result slot changes. */
  function WithResult(s: Screen, db: string): Screen {
    s.(resultText := ResultLine(db), resultClass := SuccessClass)
  }

  /** The result line for a formatted decibel text. */
  function ResultLine(db: string): string {
    ResultPrefix + db + ResultSuffix
  }

  /** The message each error outcome shows. */
  function ErrorText(o: Outcome): string
    requires !o.Success?
  {
    match o
    case Empty => EmptyInputText
    case Invalid => InvalidInputText
    case BelowMin => BelowMinText
    case AboveMax => AboveMaxText
  }

  /** The screen validateAndCalculate leaves for an outcome. `decibels` stands
      for formatDb(10 * log10(v / I_REF)), the text shown for an accepted v. */
  function ScreenFor(o: Outcome, decibels: real -> string): Screen {
    if o.Success? then WithResult(Cleared(), decibels(o.intensity))
    else WithError(Cleared(), ErrorText(o))
  }

  // ---- Reading a screen back ----

  /** The error outcome a message text reports, if it is one of the four. */
  function ReportedError(text: string): Option<Outcome> {
    if text == EmptyInputText then Some(Empty)
    else if text == InvalidInputText then Some(Invalid)
    else if text == BelowMinText then Some(BelowMin)
    else if text == AboveMaxText then Some(AboveMax)
    else None
  }

  /** The decibel text inside a result line, if the text is one. */
  function ReportedDecibels(text: string): Option<string> {
    if |text| >= |ResultPrefix| + |ResultSuffix|
      && text[..|ResultPrefix|] == ResultPrefix
      && text[|text| - |ResultSuffix|..] == ResultSuffix
    then Some(text[|ResultPrefix|..|text| - |ResultSuffix|])
    else None
  }

  // ---- The live filter ----

  /** The character class [0-9eE+\-.,\s] of allowedPattern. */
  predicate IsAllowedChar(c: char) {
    ('0' <= c <= '9') || c == 'e' || c == 'E' || c == '+' || c == '-'
    || c == '.' || c == ',' || IsWhitespace(c)
  }

  /** Every character of s is in the class. */
  predicate AllAllowed(s: string) {
    forall i :: 0 <= i < |s| ==> IsAllowedChar(s[i])
  }

  /** allowedPattern.test(s) for /^[0-9eE+\-.,\s]*$/: the pattern consumes s
      one character at a time and matches when it reaches the end. */
  function MatchesAllowedPattern(s: string): (r: bool)
    ensures r <==> AllAllowed(s)
  {
    if s == [] then true
    else if !IsAllowedChar(s[0]) then false
    else
      var r := MatchesAllowedPattern(s[1..]);
      assert forall i :: 1 <= i < |s| ==> s[i] == s[1..][i - 1];
      r
  }

  /** The screen after the input handler ran on the value v: a warning in the
      message slot when the pattern fails, an empty message otherwise; the
      result slot is never touched. */
  function Filtered(s: Screen, v: string): Screen {
    if MatchesAllowedPattern(v) then s.(messageText := "", messageClass := "")
    else s.(messageText := FilterWarningText, messageClass := ErrorClass)
  }

  // ---- The page ----

  /** The two DOM elements as four mutable fields. */
  class Page {
    var messageText: string
    var messageClass: string
    var resultText: string
    var resultClass: string

    function View(): Screen
      reads this
    {
      Screen(messageText, messageClass, resultText, resultClass)
    }

    constructor(initial: Screen)
      ensures View() == initial
    {
      messageText := initial.messageText;
      messageClass := initial.messageClass;
      resultText := initial.resultText;
      resultClass := initial.resultClass;
    }

    method ClearMessages()
      modifies this
      ensures View() == Cleared()
    {
      messageText := "";
      resultText := "";
      messageClass := "";
      resultClass := ResultClass;
    }

    method ShowError(text: string)
      modifies this
      ensures View() == WithError(old(View()), text)
    {
      messageText := text;
      messageClass := ErrorClass;
      resultText := "";
    }

    method ShowResult(db: string)
      modifies this
      ensures View() == WithResult(old(View()), db)
    {
      resultText := ResultLine(db);
      resultClass := SuccessClass;
    }

    /** validateAndCalculate on the raw input text: clear, then the early-return
        ladder. Whatever the page showed before, the new screen is fixed by the
        outcome of the input alone. */
    method ValidateAndCalculate(raw: string, decibels: real -> string)
      modifies this
      ensures View() == ScreenFor(Classify(raw), decibels)
    {
      ClearMessages();
      if Trim(raw) == "" {
        ShowError(EmptyInputText);
        return;
      }
      var value := ParseInput(raw);
      ClassifyNonBlank(raw);
      if value.NotANumber? {
        ShowError(InvalidInputText);
        return;
      }
      if Numeric(value) < MinIntensity {
        ShowError(BelowMinText);
        return;
      }
      if Numeric(value) > MaxIntensity {
        ShowError(AboveMaxText);
        return;
      }
      ShowResult(decibels(Numeric(value)));
    }

    /** The `input` event handler for the current value v. */
    method OnInput(v: string)
      modifies this
      ensures View() == Filtered(old(View()), v)
    {
      if !MatchesAllowedPattern(v) {
        messageText := FilterWarningText;
        messageClass := ErrorClass;
      } else {
        messageText := "";
        messageClass := "";
      }
    }
  }

  // ---- Properties of the screens ----

  /** An error shows its text with the error class and leaves the result line
      blank with the plain result class. */
  lemma ErrorScreen(o: Outcome, decibels: real -> string)
    requires !o.Success?
    ensures var s := ScreenFor(o, decibels);
      s.messageText == ErrorText(o) && s.messageClass == ErrorClass
      && s.resultText == "" && s.resultClass == ResultClass
  {
  }

  /** A success leaves the message slot as clearMessages left it and shows the
      decibel text of the accepted intensity in the success style. */
  lemma SuccessScreen(o: Outcome, decibels: real -> string)
    requires o.Success?
    ensures var s := ScreenFor(o, decibels);
      s.messageText == "" && s.messageClass == ""
      && s.resultText == ResultLine(decibels(o.intensity)) && s.resultClass == SuccessClass
  {
  }

  /** The outcome can be read back from the screen: the message names the
      error, and on success the result line gives back the decibel text. */
  lemma ScreenReadBack(o: Outcome, decibels: real -> string)
    ensures var s := ScreenFor(o, decibels);
      && ReportedError(s.messageText) == (if o.Success? then None else Some(o))
      && ReportedDecibels(s.resultText) == (if o.Success? then Some(decibels(o.intensity)) else None)
  {
    var s := ScreenFor(o, decibels);
    if o.Success? {
      ResultLineReadBack(decibels(o.intensity));
    } else {
      ErrorTextReadBack(o);
    }
  }

  /** The four error texts are pairwise distinct (they differ in length). */
  lemma ErrorTextReadBack(o: Outcome)
    requires !o.Success?
    ensures ReportedError(ErrorText(o)) == Some(o)
  {
    assert |EmptyInputText| == 30 && |InvalidInputText| == 92;
    assert |BelowMinText| == 48 && |AboveMaxText| == 34;
  }

  lemma ResultLineReadBack(db: string)
    ensures ReportedDecibels(ResultLine(db)) == Some(db)
  {
    var t := ResultLine(db);
    assert t[..|ResultPrefix|] == ResultPrefix;
    assert t[|t| - |ResultSuffix|..] == ResultSuffix;
    assert t[|ResultPrefix|..|t| - |ResultSuffix|] == db;
  }

  /** Two outcomes that leave the same screen are the same error, or are both
      successes whose decibel texts agree. */
  lemma ScreenDeterminesOutcome(o1: Outcome, o2: Outcome, decibels: real -> string)
    requires ScreenFor(o1, decibels) == ScreenFor(o2, decibels)
    ensures o1.Success? <==> o2.Success?
    ensures !o1.Success? ==> o1 == o2
    ensures o1.Success? ==> decibels(o1.intensity) == decibels(o2.intensity)
  {
    ScreenReadBack(o1, decibels);
    ScreenReadBack(o2, decibels);
  }

  /** A blank input shows the Empty message and nothing in the result line. */
  lemma BlankInputScreen(raw: string, decibels: real -> string)
    requires AllWhitespace(raw)
    ensures ScreenFor(Classify(raw), decibels) == Screen(EmptyInputText, ErrorClass, "", ResultClass)
  {
    ClassifyEmpty(raw);
  }

  // ---- Properties of the live filter ----

  /** The filter only writes the message slot, and what it writes depends on
      the pattern alone: empty when the value matches, the warning otherwise. */
  lemma FilterTouchesOnlyMessage(s: Screen, v: string)
    ensures Filtered(s, v).resultText == s.resultText
    ensures Filtered(s, v).resultClass == s.resultClass
    ensures Filtered(s, v).messageText == "" <==> AllAllowed(v)
  {
  }

  /** Every well-formed decimal literal, with whitespace around it, passes the
      filter: the pattern admits each character such a literal can contain. */
  lemma DecimalLiteralPassesFilter(a: string, l: NumericLiteral.Literal, b: string)
    requires NumericLiteral.WellFormed(l) && l.DecimalLiteral?
    requires AllWhitespace(a) && AllWhitespace(b)
    ensures MatchesAllowedPattern(a + NumericLiteral.Render(l) + b)
  {
    var pt, et := NumericLiteral.PointText(l.point), NumericLiteral.ExponentText(l.exponent);
    var body := NumericLiteral.DecimalBody(l.whole, l.point, l.fraction, l.exponent);
    DigitsAllowed(l.whole);
    DigitsAllowed(l.fraction);
    ExponentAllowed(l.exponent);
    ConcatAllowed(l.fraction, et);
    ConcatAllowed(pt, l.fraction + et);
    ConcatAllowed(l.whole, pt + (l.fraction + et));
    ConcatAllowed(NumericLiteral.SignText(l.sign), body);
    ConcatAllowed(a, NumericLiteral.Render(l));
    ConcatAllowed(a + NumericLiteral.Render(l), b);
  }

  lemma ExponentAllowed(e: NumericLiteral.Exponent)
    requires NumericLiteral.WellFormedExponent(e)
    ensures AllAllowed(NumericLiteral.ExponentText(e))
  {
    if e.Exponent? {
      DigitsAllowed(e.digits);
      ConcatAllowed([e.marker], NumericLiteral.SignText(e.sign));
      ConcatAllowed([e.marker] + NumericLiteral.SignText(e.sign), e.digits);
    }
  }

  lemma ConcatAllowed(x: string, y: string)
    requires AllAllowed(x) && AllAllowed(y)
    ensures AllAllowed(x + y)
  {
  }

  /** Hexadecimal, octal and binary literals are flagged although Number()
      accepts them: the radix letter is outside the character class. */
  lemma NonDecimalLiteralFlagged(a: string, l: NumericLiteral.Literal, b: string)
    requires NumericLiteral.WellFormed(l) && l.NonDecimalLiteral?
    ensures !MatchesAllowedPattern(a + NumericLiteral.Render(l) + b)
  {
    assert (a + NumericLiteral.Render(l) + b)[|a| + 1] == l.marker;
  }

  /** Infinity literals are flagged too (they are invalid inputs anyway). */
  lemma InfinityLiteralFlagged(a: string, l: NumericLiteral.Literal, b: string)
    requires l.InfinityLiteral?
    ensures !MatchesAllowedPattern(a + NumericLiteral.Render(l) + b)
  {
    var t := NumericLiteral.Render(l);
    assert t[|NumericLiteral.SignText(l.sign)|] == 'I';
    assert (a + t + b)[|a| + |NumericLiteral.SignText(l.sign)|] == 'I';
  }

  lemma DigitsAllowed(s: string)
    requires NumericLiteral.AllDigitsOf(s, 10)
    ensures AllAllowed(s)
  {
    forall i | 0 <= i < |s|
      ensures IsAllowedChar(s[i])
    {
      assert NumericLiteral.IsDigitOf(s[i], 10);
    }
  }
}
