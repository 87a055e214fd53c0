/** The syntax Number() accepts once its argument is trimmed: the
    StringNumericLiteral grammar of ECMA-262 (section 7.1.4.1, "ToNumber Applied
    to the String Type"). A parsed string becomes a `Literal` syntax tree, and
    `Render` prints a tree back; the two are inverses on well-formed trees. */
module NumericLiteral {
  import opened Wrappers
  import opened Sequences

  predicate IsDecimalDigit(c: char) {
    '0' <= c <= '9'
  }

  predicate IsHexDigit(c: char) {
    IsDecimalDigit(c) || 'a' <= c <= 'f' || 'A' <= c <= 'F'
  }

  /** Numeric value of a hexadecimal digit (decimal, octal and binary digits
      are hexadecimal digits with small values). */
  function DigitValue(c: char): (n: nat)
    requires IsHexDigit(c)
    ensures n < 16
    ensures IsDecimalDigit(c) <==> n < 10
  {
    if IsDecimalDigit(c) then c as int - '0' as int
    else if 'a' <= c <= 'f' then c as int - 'a' as int + 10
    else c as int - 'A' as int + 10
  }

  predicate IsDigitOf(c: char, base: nat) {
    IsHexDigit(c) && DigitValue(c) < base
  }

  predicate AllDigitsOf(s: string, base: nat) {
    forall i :: 0 <= i < |s| ==> IsDigitOf(s[i], base)
  }

  /** The second character of a non-decimal integer literal: 0x, 0o or 0b. */
  predicate IsRadixMarker(c: char) {
    c == 'x' || c == 'X' || c == 'o' || c == 'O' || c == 'b' || c == 'B'
  }

  function RadixOf(marker: char): (base: nat)
    requires IsRadixMarker(marker)
    ensures base == 2 || base == 8 || base == 16
  {
    if marker == 'x' || marker == 'X' then 16
    else if marker == 'o' || marker == 'O' then 8
    else 2
  }

  datatype Sign = NoSign | Plus | Minus

  datatype Exponent =
    | NoExponent
    | Exponent(marker: char, sign: Sign, digits: string)

  /** The alternatives of StringNumericLiteral. A decimal literal keeps its
      digits as written: the digits before the point, whether there is a point,
      the digits after it and the exponent part. */
  datatype Literal =
    | EmptyLiteral
    | InfinityLiteral(sign: Sign)
    | DecimalLiteral(sign: Sign, whole: string, point: bool, fraction: string, exponent: Exponent)
    | NonDecimalLiteral(marker: char, digits: string)

  predicate WellFormedExponent(e: Exponent) {
    e.NoExponent? ||
    ((e.marker == 'e' || e.marker == 'E') && |e.digits| > 0 && AllDigitsOf(e.digits, 10))
  }

  /** The trees the grammar can produce: decimal literals have at least one digit
      and only decimal digits, a fraction only after a point, and an exponent with
      at least one digit; non-decimal literals have at least one digit of their base. */
  predicate WellFormed(l: Literal) {
    match l
    case EmptyLiteral => true
    case InfinityLiteral(_) => true
    case DecimalLiteral(_, whole, point, fraction, exponent) =>
      && AllDigitsOf(whole, 10) && AllDigitsOf(fraction, 10)
      && |whole| + |fraction| > 0
      && (!point ==> fraction == [])
      && WellFormedExponent(exponent)
    case NonDecimalLiteral(marker, digits) =>
      IsRadixMarker(marker) && |digits| > 0 && AllDigitsOf(digits, RadixOf(marker))
  }

  function SignText(s: Sign): string {
    match s
    case NoSign => ""
    case Plus => "+"
    case Minus => "-"
  }

  function ExponentText(e: Exponent): string {
    match e
    case NoExponent => ""
    case Exponent(marker, sign, digits) => [marker] + SignText(sign) + digits
  }

  function PointText(point: bool): string {
    if point then "." else ""
  }

  /** The unsigned part of a decimal literal as written. */
  function DecimalBody(whole: string, point: bool, fraction: string, exponent: Exponent): string {
    whole + (PointText(point) + (fraction + ExponentText(exponent)))
  }

  /** Prints a literal the way it is written in the input. */
  function Render(l: Literal): string {
    match l
    case EmptyLiteral => ""
    case InfinityLiteral(sign) => SignText(sign) + "Infinity"
    case DecimalLiteral(sign, whole, point, fraction, exponent) =>
      SignText(sign) + DecimalBody(whole, point, fraction, exponent)
    case NonDecimalLiteral(marker, digits) => ['0', marker] + digits
  }

  /** Length of the longest prefix of s made of decimal digits. */
  function LeadingDigits(s: string): (n: nat)
    ensures n <= |s| && forall i :: 0 <= i < n ==> IsDecimalDigit(s[i])
    ensures n == |s| || !IsDecimalDigit(s[n])
  {
    if |s| > 0 && IsDecimalDigit(s[0]) then 1 + LeadingDigits(s[1..]) else 0
  }

  /** The prefix LeadingDigits measures is made of decimal digits. */
  lemma LeadingDigitsPrefix(s: string)
    ensures AllDigitsOf(s[..LeadingDigits(s)], 10)
  {
    var n := LeadingDigits(s);
    forall i | 0 <= i < n
      ensures IsDigitOf(s[..n][i], 10)
    {
      assert s[..n][i] == s[i];
    }
  }

  /** Splits off an optional leading '+' or '-'. */
  function SplitSign(s: string): (Sign, string) {
    if |s| > 0 && s[0] == '+' then (Plus, s[1..])
    else if |s| > 0 && s[0] == '-' then (Minus, s[1..])
    else (NoSign, s)
  }

  /** ExponentPart, or nothing. */
  function ParseExponent(s: string): Option<Exponent> {
    if s == [] then Some(NoExponent)
    else if s[0] == 'e' || s[0] == 'E' then
      var (sign, digits) := SplitSign(s[1..]);
      if |digits| > 0 && AllDigitsOf(digits, 10) then Some(Exponent(s[0], sign, digits))
      else None
    else None
  }

  /** The optional ". digits" part after the whole digits: whether a point is
      there, the digits after it, and what follows them. */
  function SplitFraction(rest: string): (bool, string, string) {
    if |rest| > 0 && rest[0] == '.' then
      var afterPoint := rest[1..];
      var m := LeadingDigits(afterPoint);
      (true, afterPoint[..m], afterPoint[m..])
    else (false, [], rest)
  }

  /** StrUnsignedDecimalLiteral: digits, an optional point with optional digits
      after it, at least one digit in all, and an optional exponent part. */
  function ParseUnsignedDecimal(sign: Sign, s: string): Option<Literal> {
    var n := LeadingDigits(s);
    var whole, rest := s[..n], s[n..];
    var (point, fraction, tail) := SplitFraction(rest);
    if |whole| + |fraction| == 0 then None
    else
      match ParseExponent(tail)
      case None => None
      case Some(e) => Some(DecimalLiteral(sign, whole, point, fraction, e))
  }

  /** StringNumericLiteral on an already trimmed string. */
  function Parse(s: string): Option<Literal> {
    if s == [] then Some(EmptyLiteral)
    else if |s| >= 2 && s[0] == '0' && IsRadixMarker(s[1]) then
      if |s| > 2 && AllDigitsOf(s[2..], RadixOf(s[1])) then Some(NonDecimalLiteral(s[1], s[2..]))
      else None
    else
      var (sign, body) := SplitSign(s);
      if body == "Infinity" then Some(InfinityLiteral(sign))
      else ParseUnsignedDecimal(sign, body)
  }

  // ---- Parse only accepts what Render prints ----

  /** SplitSign removes exactly the sign it reports. */
  lemma SplitSignSound(s: string)
    ensures SignText(SplitSign(s).0) + SplitSign(s).1 == s
    ensures SplitSign(s).0 == NoSign ==> s == [] || (s[0] != '+' && s[0] != '-')
  {
    if |s| > 0 && (s[0] == '+' || s[0] == '-') {
      assert s == [s[0]] + s[1..];
    }
  }

  /** An exponent part ParseExponent accepts is well formed and prints back as
      the text it came from. */
  lemma ParseExponentSound(s: string)
    ensures ParseExponent(s).Some? ==>
      WellFormedExponent(ParseExponent(s).value) && ExponentText(ParseExponent(s).value) == s
  {
    if s != [] && (s[0] == 'e' || s[0] == 'E') {
      var (sign, digits) := SplitSign(s[1..]);
      SplitSignSound(s[1..]);
      assert [s[0]] + SignText(sign) + digits == [s[0]] + (SignText(sign) + digits);
      assert s == [s[0]] + s[1..];
    }
  }

  /** SplitFraction cuts its input into point, digits and remainder, and the
      digits run as far as they can. */
  lemma SplitFractionSound(rest: string)
    ensures var (point, fraction, tail) := SplitFraction(rest);
      && PointText(point) + (fraction + tail) == rest
      && AllDigitsOf(fraction, 10) && (!point ==> fraction == [])
      && (point ==> tail == [] || !IsDecimalDigit(tail[0]))
  {
    if |rest| > 0 && rest[0] == '.' {
      var afterPoint := rest[1..];
      var m := LeadingDigits(afterPoint);
      LeadingDigitsPrefix(afterPoint);
      SplitAt(afterPoint, m);
      SplitAt(rest, 1);
    }
  }

  /** ParseUnsignedDecimal only yields well-formed decimal literals that print
      back, with the sign in front, as the text they came from. */
  lemma ParseUnsignedDecimalSound(sign: Sign, s: string)
    ensures var r := ParseUnsignedDecimal(sign, s);
      r.Some? ==> WellFormed(r.value) && r.value.DecimalLiteral? && Render(r.value) == SignText(sign) + s
  {
    var n := LeadingDigits(s);
    var whole, rest := s[..n], s[n..];
    var (point, fraction, tail) := SplitFraction(rest);
    if |whole| + |fraction| > 0 && ParseExponent(tail).Some? {
      LeadingDigitsPrefix(s);
      SplitFractionSound(rest);
      ParseExponentSound(tail);
      SplitAt(s, n);
      assert s == DecimalBody(whole, point, fraction, ParseExponent(tail).value);
    }
  }

  /** Whatever Parse accepts is a well-formed literal that Render prints as the
      parsed text: Parse never invents a reading. */
  lemma ParseSound(s: string)
    ensures Parse(s).Some? ==> WellFormed(Parse(s).value) && Render(Parse(s).value) == s
  {
    if s != [] {
      if |s| >= 2 && s[0] == '0' && IsRadixMarker(s[1]) {
        assert s == ['0', s[1]] + s[2..];
      } else {
        var (sign, body) := SplitSign(s);
        SplitSignSound(s);
        if body != "Infinity" {
          ParseUnsignedDecimalSound(sign, body);
        }
      }
    }
  }

  // ---- Parse is a left inverse of Render ----

  lemma LeadingDigitsOf(d: string, t: string)
    requires AllDigitsOf(d, 10) && (t == [] || !IsDecimalDigit(t[0]))
    ensures LeadingDigits(d + t) == |d|
  {
    if d != [] {
      assert IsDigitOf(d[0], 10);
      assert (d + t)[0] == d[0];
      assert (d + t)[1..] == d[1..] + t;
      LeadingDigitsOf(d[1..], t);
    } else {
      assert d + t == t;
    }
  }

  lemma SplitSignOf(sign: Sign, body: string)
    requires body == [] || (body[0] != '+' && body[0] != '-')
    ensures SplitSign(SignText(sign) + body) == (sign, body)
  {
    match sign
    case NoSign => assert SignText(sign) + body == body;
    case Plus => assert (SignText(sign) + body)[1..] == body;
    case Minus => assert (SignText(sign) + body)[1..] == body;
  }

  lemma ParseExponentOfText(e: Exponent)
    requires WellFormedExponent(e)
    ensures ParseExponent(ExponentText(e)) == Some(e)
  {
    if e.Exponent? {
      var s := ExponentText(e);
      assert s[1..] == SignText(e.sign) + e.digits;
      assert IsDigitOf(e.digits[0], 10);
      SplitSignOf(e.sign, e.digits);
    }
  }

  /** Every character an exponent part can start with: none is a decimal digit. */
  lemma ExponentTextStart(e: Exponent)
    requires WellFormedExponent(e)
    ensures ExponentText(e) == [] || ExponentText(e)[0] == 'e' || ExponentText(e)[0] == 'E'
  {
  }

  lemma ParseUnsignedDecimalOfText(l: Literal)
    requires WellFormed(l) && l.DecimalLiteral?
    ensures ParseUnsignedDecimal(l.sign, DecimalBody(l.whole, l.point, l.fraction, l.exponent)) == Some(l)
  {
    var pt, et := PointText(l.point), ExponentText(l.exponent);
    var body := DecimalBody(l.whole, l.point, l.fraction, l.exponent);
    ExponentTextStart(l.exponent);
    LeadingDigitsOf(l.whole, pt + (l.fraction + et));
    SlicesOfConcat(l.whole, pt + (l.fraction + et));
    SplitFractionOfText(l.point, l.fraction, et);
    ParseExponentOfText(l.exponent);
  }

  lemma SplitFractionOfText(point: bool, fraction: string, tail: string)
    requires AllDigitsOf(fraction, 10) && (!point ==> fraction == [])
    requires tail == [] || tail[0] == 'e' || tail[0] == 'E'
    ensures SplitFraction(PointText(point) + (fraction + tail)) == (point, fraction, tail)
  {
    var rest := PointText(point) + (fraction + tail);
    if point {
      assert rest[1..] == fraction + tail;
      LeadingDigitsOf(fraction, tail);
      SlicesOfConcat(fraction, tail);
    } else {
      assert rest == tail;
    }
  }

  /** Parse recovers every well-formed literal from its rendering. Together with
      ParseSound: Parse(s) == Some(l) exactly when l is well formed
      and Render(l) == s. */
  lemma ParseRender(l: Literal)
    requires WellFormed(l)
    ensures Parse(Render(l)) == Some(l)
  {
    var s := Render(l);
    match l
    case EmptyLiteral =>
    case InfinityLiteral(sign) =>
      SplitSignOf(sign, "Infinity");
    case NonDecimalLiteral(marker, digits) =>
      assert s[2..] == digits;
    case DecimalLiteral(sign, whole, point, fraction, exponent) =>
      var body := DecimalBody(whole, point, fraction, exponent);
      DecimalBodyStart(l);
      SplitSignOf(sign, body);
      assert body != "Infinity";
      ParseUnsignedDecimalOfText(l);
  }

  /** What the first two characters of a decimal body can be: a digit or a
      point first, and never a radix marker second. */
  lemma DecimalBodyStart(l: Literal)
    requires WellFormed(l) && l.DecimalLiteral?
    ensures var body := DecimalBody(l.whole, l.point, l.fraction, l.exponent);
      && body != []
      && (IsDecimalDigit(body[0]) || body[0] == '.')
      && (|body| >= 2 ==> !IsRadixMarker(body[1]))
  {
    var pt, et := PointText(l.point), ExponentText(l.exponent);
    var body := DecimalBody(l.whole, l.point, l.fraction, l.exponent);
    ExponentTextStart(l.exponent);
    if l.whole != [] {
      assert body[0] == l.whole[0];
      assert IsDigitOf(l.whole[0], 10);
    }
    if |body| >= 2 {
      if |l.whole| >= 2 {
        assert body[1] == l.whole[1];
        assert IsDigitOf(l.whole[1], 10);
      } else if |l.whole| == 1 {
        assert body[1] == (pt + (l.fraction + et))[0];
        if !l.point {
          assert l.fraction == [];
          assert body[1] == et[0];
        }
      } else {
        assert body == pt + (l.fraction + et);
        assert body[1] == (l.fraction + et)[0];
        if l.fraction != [] {
          assert IsDigitOf(l.fraction[0], 10);
        }
      }
    }
  }

  /** Two well-formed literals that print the same are the same literal. */
  lemma RenderInjective(l1: Literal, l2: Literal)
    requires WellFormed(l1) && WellFormed(l2) && Render(l1) == Render(l2)
    ensures l1 == l2
  {
    ParseRender(l1);
    ParseRender(l2);
  }
}
