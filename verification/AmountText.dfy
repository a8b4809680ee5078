/** Parsing and printing of token amounts as decimal text. */
module AmountText {
  import opened Wrappers
  import opened Integers
  import opened Digits

  // ---------- recognising amounts ----------

  /** Length of the longest prefix of digits. */
  function Span(s: string): (k: nat)
    ensures k <= |s| && AllDigits(s[..k])
    ensures k < |s| ==> !IsDigit(s[k])
  {
    if s == [] || !IsDigit(s[0]) then 0
    else
      var k := Span(s[1..]);
      assert forall i :: 0 <= i < k ==> s[1..][..k][i] == s[1 + i];
      1 + k
  }

  /** Whole and fractional digits of `digits`, `digits.` or `digits.digits`; None for anything else. */
  function MatchAmount(text: string): Option<(string, string)> {
    var k := Span(text);
    if k == 0 then None
    else if k == |text| then Some((text, ""))
    else if text[k] == '.' && Span(text[k + 1..]) == |text| - k - 1 then Some((text[..k], text[k + 1..]))
    else None
  }

  /** The shape the amount pattern describes. */
  ghost predicate IsAmount(text: string, whole: string, fraction: string) {
    && |whole| >= 1 && AllDigits(whole) && AllDigits(fraction)
    && (text == whole + "." + fraction || (text == whole && fraction == ""))
  }

  lemma {:induction false} SpanOfDigits(s: string, rest: string)
    requires AllDigits(s) && (rest == "" || !IsDigit(rest[0]))
    ensures Span(s + rest) == |s|
    decreases |s|
  {
    if s == [] {
      assert s + rest == rest;
    } else {
      assert (s + rest)[1..] == s[1..] + rest;
      SpanOfDigits(s[1..], rest);
    }
  }

  /** The matcher accepts exactly the texts of that shape, and splits them the only way possible. */
  lemma MatchIsExact(text: string, whole: string, fraction: string)
    ensures IsAmount(text, whole, fraction) ==> MatchAmount(text) == Some((whole, fraction))
    ensures MatchAmount(text) == Some((whole, fraction)) ==> IsAmount(text, whole, fraction)
  {
    if IsAmount(text, whole, fraction) {
      if text == whole + "." + fraction {
        assert text == whole + ("." + fraction);
        SpanOfDigits(whole, "." + fraction);
        assert text[..|whole|] == whole && text[|whole| + 1..] == fraction;
        SpanOfDigits(fraction, "");
        assert fraction + "" == fraction;
      } else {
        SpanOfDigits(whole, "");
        assert whole + "" == whole;
      }
    }
    if MatchAmount(text) == Some((whole, fraction)) {
      var k := Span(text);
      if k == |text| {
        assert text[..k] == text;
      } else {
        assert text == text[..k] + "." + text[k + 1..];
        assert text[k + 1..][..|text| - k - 1] == text[k + 1..];
      }
    }
  }

  // ---------- parsing ----------

  predicate IsSpace(c: char) {
    c in {' ', '\t', '\n', '\r', '\U{0B}', '\U{0C}', '\U{A0}', '\U{1680}', '\U{2028}', '\U{2029}', '\U{202F}',
          '\U{205F}', '\U{3000}', '\U{FEFF}'} || '\U{2000}' <= c <= '\U{200A}'
  }

  function TrimStart(s: string): string {
    if s != [] && IsSpace(s[0]) then TrimStart(s[1..]) else s
  }

  function TrimEnd(s: string): string {
    if s != [] && IsSpace(s[|s| - 1]) then TrimEnd(s[..|s| - 1]) else s
  }

  function RemoveCommas(s: string): string {
    if s == [] then []
    else (if s[0] == ',' then [] else [s[0]]) + RemoveCommas(s[1..])
  }

  /** Surrounding whitespace goes first, then every thousands separator. */
  function Clean(s: string): string {
    RemoveCommas(TrimEnd(TrimStart(s)))
  }

  /** Fractional digits cut or zero-padded to exactly `decimals` places. */
  function FitFraction(fraction: string, decimals: nat): (f: string)
    ensures |f| == decimals
  {
    if |fraction| > decimals then fraction[..decimals] else fraction + Zeros(decimals - |fraction|)
  }

  /** Base units of a plain decimal text; None where the parser throws. */
  function ParsePlain(text: string, decimals: nat): Option<nat> {
    if text == "" || text == "." then Some(0)
    else
      var (whole, fraction) :- MatchAmount(text);
      Some(Value(whole) * Pow10(decimals) + Value(FitFraction(fraction, decimals)))
  }

  /** What may be passed: nothing, text, or a number given by its shortest decimal text. */
  datatype Input = Missing | Text(text: string) | Number(decimalText: string) | NotFinite

  function ParseStroops(input: Input, decimals: nat): Option<nat> {
    match input
    case Missing => Some(0)
    case NotFinite => None
    case Text(s) => ParsePlain(Clean(s), decimals)
    case Number(s) => ParsePlain(NumberToPlainDecimalString(s), decimals)
  }

  /** `r` is the floor of `digits / p * s`. */
  ghost predicate IsScaledFloor(r: nat, digits: nat, p: nat, s: nat) {
    r * p <= digits * s < (r + 1) * p
  }

  /** `r` is the floor of the decimal `digits / 10^places` scaled by `10^decimals`. */
  ghost predicate IsFloor(r: nat, digits: nat, places: nat, decimals: nat) {
    IsScaledFloor(r, digits, Pow10(places), Pow10(decimals))
  }

  lemma CutFractionIsFloor(whole: string, fraction: string, decimals: nat)
    requires |fraction| > decimals
    ensures IsFloor(Value(whole) * Pow10(decimals) + Value(fraction[..decimals]),
                    Value(whole + fraction), |fraction|, decimals)
  {
    hide Value, Pow10, IsScaledFloor;
    var kept, cut := fraction[..decimals], fraction[decimals..];
    assert whole + fraction == (whole + kept) + cut;
    ValueConcat(whole, kept);
    ValueConcat(whole + kept, cut);
    ValueBound(cut);
    Pow10Sum(decimals, |cut|);
    CutArithmetic(Value(whole + kept), Value(cut), Pow10(|cut|), Pow10(decimals), Value(whole + fraction));
  }

  lemma CutArithmetic(r: nat, c: nat, pc: nat, pd: nat, n: nat)
    requires c < pc && pd >= 1 && n == r * pc + c
    ensures IsScaledFloor(r, n, pd * pc, pd)
  {
    assert (r * pc + c) * pd == r * (pd * pc) + c * pd;
    assert (r + 1) * (pd * pc) == r * (pd * pc) + pd * pc;
    MulMonotone(c + 1, pc, pd);
    MulNonNegative(c, pd);
  }

  lemma PaddedFractionIsExact(whole: string, fraction: string, decimals: nat)
    requires |fraction| <= decimals
    ensures IsFloor(Value(whole) * Pow10(decimals) + Value(fraction + Zeros(decimals - |fraction|)),
                    Value(whole + fraction), |fraction|, decimals)
    ensures Value(fraction + Zeros(decimals - |fraction|)) == Value(fraction) * Pow10(decimals - |fraction|)
  {
    hide Value, Pow10, IsScaledFloor;
    var pad := decimals - |fraction|;
    ValueConcat(fraction, Zeros(pad));
    ValueOfZeros(pad);
    ValueConcat(whole, fraction);
    Pow10Sum(|fraction|, pad);
    PadArithmetic(Value(whole), Value(fraction), Pow10(|fraction|), Pow10(pad),
                  Value(whole) * Pow10(decimals) + Value(fraction + Zeros(pad)), Value(whole + fraction));
  }

  lemma PadArithmetic(w: nat, f: nat, pf: nat, pp: nat, r: nat, n: nat)
    requires pf >= 1 && r == w * (pf * pp) + f * pp && n == w * pf + f
    ensures IsScaledFloor(r, n, pf, pf * pp)
  {
    assert n * (pf * pp) == w * pf * (pf * pp) + f * (pf * pp);
    assert r * pf == w * (pf * pp) * pf + f * pp * pf;
    assert w * (pf * pp) * pf == w * pf * (pf * pp);
    assert f * pp * pf == f * (pf * pp);
    assert (r + 1) * pf == r * pf + pf;
  }

  /** Every accepted amount parses to the floor of the decimal it denotes, never above it. */
  lemma ParsedIsFloor(text: string, decimals: nat)
    requires MatchAmount(text).Some?
    ensures ParsePlain(text, decimals).Some?
    ensures
      var (whole, fraction) := MatchAmount(text).value;
      IsFloor(ParsePlain(text, decimals).value, Value(whole + fraction), |fraction|, decimals)
  {
    hide Value, Pow10, IsFloor, MatchAmount;
    var (whole, fraction) := MatchAmount(text).value;
    MatchIsExact(text, whole, fraction);
    assert IsDigit(text[0]);
    if |fraction| > decimals {
      CutFractionIsFloor(whole, fraction, decimals);
    } else {
      PaddedFractionIsExact(whole, fraction, decimals);
    }
  }

  /** What is accepted: nothing, a lone point, and the amount pattern; nothing else parses. */
  lemma ParsesExactly(text: string, decimals: nat)
    ensures ParsePlain(text, decimals).Some?
            <==> text == "" || text == "." || exists whole, fraction :: IsAmount(text, whole, fraction)
    ensures text == "" || text == "." ==> ParsePlain(text, decimals) == Some(0)
    ensures ParseStroops(Missing, decimals) == Some(0) && ParseStroops(NotFinite, decimals) == None
  {
    if MatchAmount(text).Some? {
      var (whole, fraction) := MatchAmount(text).value;
      MatchIsExact(text, whole, fraction);
    }
    if whole, fraction :| IsAmount(text, whole, fraction) {
      MatchIsExact(text, whole, fraction);
    }
  }

  // ---------- separators and spaces ----------

  /** The characters ECMAScript trims: its white space and its line terminators, by code point. */
  lemma SpacesAreExact(c: char)
    ensures IsSpace(c)
            <==> || c as int in {9, 10, 11, 12, 13, 32, 160, 5760, 8232, 8233, 8239, 8287, 12288, 65279}
                 || 8192 <= c as int <= 8202
  {
  }

  ghost predicate AllSpaces(s: string) {
    forall i :: 0 <= i < |s| ==> IsSpace(s[i])
  }

  /** Text that neither starts nor ends with a space. */
  ghost predicate Bare(s: string) {
    s != "" ==> !IsSpace(s[0]) && !IsSpace(s[|s| - 1])
  }

  lemma {:induction false} LeadingSpacesGo(before: string, s: string)
    requires AllSpaces(before) && (s != "" ==> !IsSpace(s[0]))
    ensures TrimStart(before + s) == s
    decreases |before|
  {
    if before == "" {
      assert before + s == s;
    } else {
      assert (before + s)[1..] == before[1..] + s;
      LeadingSpacesGo(before[1..], s);
    }
  }

  lemma {:induction false} TrailingSpacesGo(s: string, after: string)
    requires AllSpaces(after) && (s != "" ==> !IsSpace(s[|s| - 1]))
    ensures TrimEnd(s + after) == s
    decreases |after|
  {
    if after == "" {
      assert s + after == s;
    } else {
      assert (s + after)[..|s + after| - 1] == s + after[..|after| - 1];
      TrailingSpacesGo(s, after[..|after| - 1]);
    }
  }

  lemma {:induction false} CommasConcat(a: string, b: string)
    ensures RemoveCommas(a + b) == RemoveCommas(a) + RemoveCommas(b)
    decreases |a|
  {
    if a == "" {
      assert a + b == b;
    } else {
      assert (a + b)[1..] == a[1..] + b;
      CommasConcat(a[1..], b);
    }
  }

  lemma {:induction false} WithoutCommas(s: string)
    requires ',' !in s
    ensures RemoveCommas(s) == s
  {
    if s != "" {
      WithoutCommas(s[1..]);
      assert s == [s[0]] + s[1..];
    }
  }

  /** Spaces around an amount do not matter. */
  lemma OuterSpacesDoNotMatter(before: string, s: string, after: string, decimals: nat)
    requires AllSpaces(before) && AllSpaces(after) && Bare(s)
    ensures ParseStroops(Text(before + s + after), decimals) == ParseStroops(Text(s), decimals)
  {
    hide ParsePlain, RemoveCommas;
    assert before + s + after == before + (s + after) && "" + (s + "") == s;
    if s == "" {
      assert before + s + after == before + after;
      SpacesOnly(before + after);
      SpacesOnly("");
    } else {
      LeadingSpacesGo(before, s + after);
      TrailingSpacesGo(s, after);
      LeadingSpacesGo("", s);
      TrailingSpacesGo(s, "");
    }
  }

  lemma SpacesOnly(s: string)
    requires AllSpaces(s)
    ensures TrimEnd(TrimStart(s)) == ""
  {
    LeadingSpacesGo(s, "");
    assert s + "" == s;
  }

  /** A thousands separator inside an amount does not matter, wherever it stands. */
  lemma SeparatorsDoNotMatter(a: string, b: string, decimals: nat)
    requires a != "" && b != "" && Bare(a + b)
    ensures ParseStroops(Text(a + "," + b), decimals) == ParseStroops(Text(a + b), decimals)
  {
    hide ParsePlain, RemoveCommas;
    var s, t := a + "," + b, a + b;
    assert s[0] == t[0] && s[|s| - 1] == t[|t| - 1];
    TrimmedBare(s);
    TrimmedBare(t);
    CommasConcat(a + ",", b);
    CommasConcat(a, ",");
    CommasConcat(a, b);
    OneComma();
    assert RemoveCommas(a) + "" == RemoveCommas(a);
    assert RemoveCommas(s) == RemoveCommas(t);
  }

  lemma OneComma()
    ensures RemoveCommas(",") == ""
  {
  }

  lemma TrimmedBare(s: string)
    requires Bare(s)
    ensures TrimEnd(TrimStart(s)) == s
  {
    LeadingSpacesGo("", s);
    TrailingSpacesGo(s, "");
    assert "" + s == s && s + "" == s;
  }

  /** Text without separators and outer spaces is parsed as it stands. */
  lemma BareTextIsParsed(s: string, decimals: nat)
    requires Bare(s) && ',' !in s
    ensures ParseStroops(Text(s), decimals) == ParsePlain(s, decimals)
  {
    hide ParsePlain;
    TrimmedBare(s);
    WithoutCommas(s);
  }

  // ---------- exponent expansion ----------

  /** A decimal with exponent: `[-]int[.frac]e[+|-]exp`. */
  datatype Exponential = Exponential(negative: bool, intPart: string, fracPart: string, exponent: int)

  function MatchExponent(s: string): Option<int> {
    var signed := s != [] && (s[0] == '+' || s[0] == '-');
    var digits := if signed then s[1..] else s;
    var magnitude: int := Value(digits);
    if digits == [] || Span(digits) != |digits| then None
    else Some(if signed && s[0] == '-' then -magnitude else magnitude)
  }

  /** Integer digits, optional fractional digits, and what follows them. */
  function MatchMantissa(s: string): Option<(string, string, string)> {
    var k := Span(s);
    var m := if k < |s| && s[k] == '.' then Span(s[k + 1..]) else 0;
    if k == 0 then None
    else if m == 0 then Some((s[..k], "", s[k..]))
    else Some((s[..k], s[k + 1..k + 1 + m], s[k + 1 + m..]))
  }

  function MatchExponential(text: string): Option<Exponential> {
    var negative := text != [] && text[0] == '-';
    var (intPart, fracPart, rest) :- MatchMantissa(if negative then text[1..] else text);
    if rest == [] || (rest[0] != 'e' && rest[0] != 'E') then None
    else
      var exponent :- MatchExponent(rest[1..]);
      Some(Exponential(negative, intPart, fracPart, exponent))
  }

  /** The same decimal without an exponent, by moving the point. */
  function Expand(e: Exponential): string {
    var digits := e.intPart + e.fracPart;
    var pointIndex := |e.intPart| + e.exponent;
    var sign := if e.negative then "-" else "";
    if pointIndex <= 0 then sign + "0." + Zeros(-pointIndex) + digits
    else if pointIndex >= |digits| then sign + digits + Zeros(pointIndex - |digits|)
    else sign + digits[..pointIndex] + "." + digits[pointIndex..]
  }

  function NumberToPlainDecimalString(text: string): string {
    match MatchExponential(text)
    case None => text
    case Some(e) => Expand(e)
  }

  /** Digits with an optional sign, and the integer they denote. */
  ghost predicate IsExponent(s: string, exponent: int) {
    exists digits :: AllDigits(digits) && |digits| >= 1 && IsSigned(s, digits, exponent)
  }

  ghost predicate IsSigned(s: string, digits: string, exponent: int) {
    || ((s == digits || s == "+" + digits) && exponent == Value(digits))
    || (s == "-" + digits && exponent + Value(digits) == 0)
  }

  /** The pattern `[-]int[.frac]e[+|-]exp` with the given parts. */
  ghost predicate IsExponential(text: string, e: Exponential, mark: char, exponentText: string) {
    && AllDigits(e.intPart) && |e.intPart| >= 1 && AllDigits(e.fracPart)
    && (mark == 'e' || mark == 'E') && IsExponent(exponentText, e.exponent)
    && text == (if e.negative then "-" else "") + Mantissa(e) + [mark] + exponentText
  }

  function Mantissa(e: Exponential): string {
    e.intPart + if e.fracPart == "" then "" else "." + e.fracPart
  }

  /** The exponent matcher accepts exactly signed digits, with the integer they denote. */
  lemma MatchExponentIsExact(s: string, exponent: int)
    ensures MatchExponent(s) == Some(exponent) <==> IsExponent(s, exponent)
  {
    hide Value;
    if MatchExponent(s) == Some(exponent) {
      var digits := if s[0] == '+' || s[0] == '-' then s[1..] else s;
      assert digits[..|digits|] == digits;
      assert s == (if s[0] == '+' || s[0] == '-' then [s[0]] else "") + digits;
      assert IsSigned(s, digits, exponent);
    }
    if IsExponent(s, exponent) {
      var digits :| AllDigits(digits) && |digits| >= 1 && IsSigned(s, digits, exponent);
      SpanOfDigits(digits, "");
      assert digits + "" == digits && IsDigit(digits[0]);
      assert s != digits ==> s[1..] == digits;
    }
  }

  lemma MantissaParts(s: string)
    requires MatchMantissa(s).Some?
    ensures
      var (intPart, fracPart, rest) := MatchMantissa(s).value;
      && |intPart| >= 1 && AllDigits(intPart) && AllDigits(fracPart)
      && s == intPart + (if fracPart == "" then "" else "." + fracPart) + rest
  {
    var k := Span(s);
    if k < |s| && s[k] == '.' {
      var m := Span(s[k + 1..]);
      assert s[k + 1..][..m] == s[k + 1..k + 1 + m];
    }
  }

  /** Only texts of that pattern are expanded, with exactly those parts. */
  lemma ExponentialParts(text: string)
    requires MatchExponential(text).Some?
    ensures exists mark, exponentText :: IsExponential(text, MatchExponential(text).value, mark, exponentText)
  {
    hide MatchMantissa, MatchExponent;
    var e := MatchExponential(text).value;
    var s := if e.negative then text[1..] else text;
    MantissaParts(s);
    var rest := MatchMantissa(s).value.2;
    assert s == Mantissa(e) + rest;
    assert text == (if e.negative then "-" else "") + (Mantissa(e) + rest);
    Reassemble(if e.negative then "-" else "", Mantissa(e), rest, text);
    MatchExponentIsExact(rest[1..], e.exponent);
    assert IsExponential(text, e, rest[0], rest[1..]);
  }

  /** A mantissa followed by an exponent mark is split into exactly its parts. */
  lemma MantissaIsMatched(e: Exponential, rest: string)
    requires AllDigits(e.intPart) && |e.intPart| >= 1 && AllDigits(e.fracPart)
    requires rest != "" && !IsDigit(rest[0]) && rest[0] != '.'
    ensures MatchMantissa(Mantissa(e) + rest) == Some((e.intPart, e.fracPart, rest))
  {
    if e.fracPart == "" {
      assert Mantissa(e) + rest == e.intPart + rest;
      SpanOfDigits(e.intPart, rest);
      SplitsAt(e.intPart, rest);
    } else {
      var after := e.fracPart + rest;
      assert Mantissa(e) + rest == e.intPart + "." + after;
      FractionIsMatched(e.intPart, e.fracPart, rest);
    }
  }

  lemma SplitsAt(a: string, b: string)
    ensures (a + b)[..|a|] == a && (a + b)[|a|..] == b
  {
  }

  lemma FractionIsMatched(intPart: string, fracPart: string, rest: string)
    requires AllDigits(intPart) && |intPart| >= 1 && AllDigits(fracPart) && fracPart != ""
    requires rest != "" && !IsDigit(rest[0])
    ensures MatchMantissa(intPart + "." + (fracPart + rest)) == Some((intPart, fracPart, rest))
  {
    hide Span;
    var after := fracPart + rest;
    var s := intPart + "." + after;
    assert s == intPart + ("." + after);
    SpanOfDigits(intPart, "." + after);
    SplitsAt(intPart, "." + after);
    assert s[|intPart|] == '.' && s[|intPart| + 1..] == after;
    SpanOfDigits(fracPart, rest);
    SplitsAt(fracPart, rest);
    assert s[|intPart| + 1..|intPart| + 1 + |fracPart|] == after[..|fracPart|];
    assert s[|intPart| + 1 + |fracPart|..] == after[|fracPart|..];
  }

  /** Every text of the pattern is matched, with its own parts. */
  lemma ExponentialIsMatched(text: string, e: Exponential, mark: char, exponentText: string)
    requires IsExponential(text, e, mark, exponentText)
    ensures MatchExponential(text) == Some(e)
  {
    hide MatchMantissa, MatchExponent, IsExponent, Mantissa;
    var sign, rest := if e.negative then "-" else "", [mark] + exponentText;
    assert text == sign + (Mantissa(e) + rest);
    MantissaIsMatched(e, rest);
    MatchExponentIsExact(exponentText, e.exponent);
    MantissaStartsWithDigit(e, rest);
    assert rest[1..] == exponentText;
    assert (if e.negative then text[1..] else text) == Mantissa(e) + rest;
  }

  lemma MantissaStartsWithDigit(e: Exponential, rest: string)
    requires AllDigits(e.intPart) && |e.intPart| >= 1
    ensures Mantissa(e) + rest != "" && IsDigit((Mantissa(e) + rest)[0])
  {
  }

  /** The matcher accepts exactly the texts of the exponent pattern. */
  lemma ExponentialMatchIsExact(text: string, e: Exponential)
    ensures MatchExponential(text) == Some(e) <==> exists mark, x :: IsExponential(text, e, mark, x)
  {
    if MatchExponential(text) == Some(e) {
      ExponentialParts(text);
    }
    if mark, x :| IsExponential(text, e, mark, x) {
      ExponentialIsMatched(text, e, mark, x);
    }
  }

  lemma Reassemble(sign: string, mantissa: string, rest: string, text: string)
    requires text == sign + (mantissa + rest) && rest != ""
    ensures text == sign + mantissa + [rest[0]] + rest[1..]
  {
  }

  /** Numerator of `digits * 10^exponent` written over `10^Places(exponent)`. */
  function Scaled(digits: nat, exponent: int): nat {
    MulNonNegative(digits, Pow10(Max(exponent, 0)));
    digits * Pow10(Max(exponent, 0))
  }

  function Places(exponent: int): nat {
    Max(-exponent, 0)
  }

  /** `digits1 / 10^places1` equals `digits2 * 10^exponent2`. */
  ghost predicate SameDecimal(digits1: nat, places1: nat, digits2: nat, exponent2: int) {
    digits1 * Pow10(Places(exponent2)) == Scaled(digits2, exponent2) * Pow10(places1)
  }

  /** The decimal an amount text denotes is `digits * 10^exponent`. */
  ghost predicate DenotesDecimal(text: string, digits: nat, exponent: int) {
    exists whole, fraction ::
      IsAmount(text, whole, fraction) && SameDecimal(Value(whole + fraction), |fraction|, digits, exponent)
  }

  lemma PointBefore(digits: string, zeros: nat)
    requires AllDigits(digits)
    ensures IsAmount("0." + Zeros(zeros) + digits, "0", Zeros(zeros) + digits)
    ensures Value("0" + (Zeros(zeros) + digits)) == Value(digits)
  {
    hide Value, Pow10;
    var fraction := Zeros(zeros) + digits;
    assert "0." + Zeros(zeros) + digits == "0" + "." + fraction;
    assert "0" + fraction == Zeros(zeros + 1) + digits;
    ValueConcat(Zeros(zeros + 1), digits);
    ValueOfZeros(zeros + 1);
  }

  lemma PointAfter(digits: string, zeros: nat)
    requires AllDigits(digits) && |digits| >= 1
    ensures IsAmount(digits + Zeros(zeros), digits + Zeros(zeros), "")
    ensures Value(digits + Zeros(zeros) + "") == Value(digits) * Pow10(zeros)
  {
    hide Value, Pow10;
    assert digits + Zeros(zeros) + "" == digits + Zeros(zeros);
    ValueConcat(digits, Zeros(zeros));
    ValueOfZeros(zeros);
  }

  lemma Pow10OfZero()
    ensures Pow10(0) == 1
  {
  }

  /** A text with the digits `v` and `places` of them behind the point denotes `v * 10^-places`. */
  lemma PlacesDenote(text: string, whole: string, fraction: string, v: nat)
    requires IsAmount(text, whole, fraction) && Value(whole + fraction) == v
    ensures DenotesDecimal(text, v, -|fraction|)
  {
    hide Value, Pow10, IsAmount;
    Pow10OfZero();
    assert SameDecimal(v, |fraction|, v, -|fraction|);
  }

  /** A text without a point whose digits are `v * 10^zeros` denotes just that. */
  lemma WholeDenotes(text: string, v: nat, zeros: nat)
    requires IsAmount(text, text, "") && Value(text + "") == v * Pow10(zeros)
    ensures DenotesDecimal(text, v, zeros)
  {
    hide Value, Pow10, IsAmount;
    Pow10OfZero();
    assert SameDecimal(Value(text + ""), 0, v, zeros);
  }

  lemma PointInside(digits: string, point: nat)
    requires AllDigits(digits) && 0 < point < |digits|
    ensures IsAmount(digits[..point] + "." + digits[point..], digits[..point], digits[point..])
    ensures digits[..point] + digits[point..] == digits
  {
  }

  /** Moving the point preserves the value in all three positions. */
  lemma ExpansionPreservesValue(e: Exponential)
    requires !e.negative && AllDigits(e.intPart) && |e.intPart| >= 1 && AllDigits(e.fracPart)
    ensures DenotesDecimal(Expand(e), Value(e.intPart + e.fracPart), e.exponent - |e.fracPart|)
  {
    hide Value, Pow10, IsAmount, DenotesDecimal;
    var digits, point := e.intPart + e.fracPart, |e.intPart| + e.exponent;
    if point <= 0 {
      PointBefore(digits, -point);
      PlacesDenote("0." + Zeros(-point) + digits, "0", Zeros(-point) + digits, Value(digits));
      assert "" + "0." + Zeros(-point) + digits == "0." + Zeros(-point) + digits;
    } else if point >= |digits| {
      var text := digits + Zeros(point - |digits|);
      PointAfter(digits, point - |digits|);
      WholeDenotes(text, Value(digits), point - |digits|);
      assert "" + digits + Zeros(point - |digits|) == text;
    } else {
      PointInside(digits, point);
      PlacesDenote(digits[..point] + "." + digits[point..], digits[..point], digits[point..], Value(digits));
      assert "" + digits[..point] + "." + digits[point..] == digits[..point] + "." + digits[point..];
    }
  }

  /** A nonnegative number written with an exponent parses to the floor of its scaled value. */
  lemma NumberParsesToFloor(text: string, e: Exponential, mark: char, exponentText: string, decimals: nat)
    requires IsExponential(text, e, mark, exponentText) && !e.negative
    ensures ParseStroops(Number(text), decimals).Some?
    ensures
      var digits, shift := Value(e.intPart + e.fracPart), e.exponent - |e.fracPart|;
      IsFloor(ParseStroops(Number(text), decimals).value, Scaled(digits, shift), Places(shift), decimals)
  {
    hide IsExponential, Expand, ParsePlain, Value, Scaled, Places, IsFloor, MatchExponential;
    ExponentialIsMatched(text, e, mark, exponentText);
    PartsAreDigits(text, e, mark, exponentText);
    ExpandedParsesToFloor(e, decimals);
  }

  lemma PartsAreDigits(text: string, e: Exponential, mark: char, exponentText: string)
    requires IsExponential(text, e, mark, exponentText)
    ensures AllDigits(e.intPart) && |e.intPart| >= 1 && AllDigits(e.fracPart)
  {
    hide AllDigits, IsExponent, Mantissa;
  }

  lemma ExpandedParsesToFloor(e: Exponential, decimals: nat)
    requires !e.negative && AllDigits(e.intPart) && |e.intPart| >= 1 && AllDigits(e.fracPart)
    ensures ParsePlain(Expand(e), decimals).Some?
    ensures
      var digits, shift := Value(e.intPart + e.fracPart), e.exponent - |e.fracPart|;
      IsFloor(ParsePlain(Expand(e), decimals).value, Scaled(digits, shift), Places(shift), decimals)
  {
    hide Expand, ParsePlain, Value, Scaled, Places, IsFloor, DenotesDecimal;
    ExpansionPreservesValue(e);
    DenotedParsesToFloor(Expand(e), Value(e.intPart + e.fracPart), e.exponent - |e.fracPart|, decimals);
  }

  /** A number written without an exponent is parsed as it stands. */
  lemma PlainNumbersAreKept(text: string, whole: string, fraction: string, decimals: nat)
    requires IsAmount(text, whole, fraction)
    ensures ParseStroops(Number(text), decimals) == ParsePlain(text, decimals)
  {
    assert forall i :: 0 <= i < |text| ==> text[i] != 'e' && text[i] != 'E';
    if MatchExponential(text).Some? {
      ExponentialHasMark(text);
      assert false;
    }
  }

  lemma ExponentialHasMark(text: string)
    requires MatchExponential(text).Some?
    ensures exists i :: 0 <= i < |text| && (text[i] == 'e' || text[i] == 'E')
  {
    ExponentialParts(text);
    var e := MatchExponential(text).value;
    var mark, x :| IsExponential(text, e, mark, x);
    assert text[|if e.negative then "-" else ""| + |Mantissa(e)|] == mark;
  }

  lemma DenotedParsesToFloor(text: string, digits: nat, exponent: int, decimals: nat)
    requires DenotesDecimal(text, digits, exponent)
    ensures ParsePlain(text, decimals).Some?
    ensures IsFloor(ParsePlain(text, decimals).value, Scaled(digits, exponent), Places(exponent), decimals)
  {
    hide Value, Pow10, ParsePlain, Scaled, Places, MatchAmount, IsScaledFloor;
    var whole, fraction :|
      IsAmount(text, whole, fraction) && SameDecimal(Value(whole + fraction), |fraction|, digits, exponent);
    MatchIsExact(text, whole, fraction);
    ParsedIsFloor(text, decimals);
    FloorOfSameDecimal(ParsePlain(text, decimals).value, Value(whole + fraction), Pow10(|fraction|),
                       Scaled(digits, exponent), Pow10(Places(exponent)), Pow10(decimals));
  }

  /** Equal fractions have equal floors: `a/p == b/q` scaled by `s`. */
  lemma FloorOfSameDecimal(r: nat, a: nat, p: nat, b: nat, q: nat, s: nat)
    requires p >= 1 && q >= 1 && a * q == b * p && IsScaledFloor(r, a, p, s)
    ensures IsScaledFloor(r, b, q, s)
  {
    SameScaled(a, p, b, q, s);
    FloorAtMost(a * s, b * s, r, p, q);
    FloorAtLeast(a * s, b * s, r, p, q);
  }

  lemma SameScaled(a: int, p: int, b: int, q: int, s: int)
    requires a * q == b * p
    ensures a * s * q == b * s * p
  {
    SwapFactors(a, s, q);
    SwapFactors(b, s, p);
  }

  lemma FloorAtMost(x: int, y: int, r: int, p: int, q: int)
    requires p >= 1 && q >= 1 && x * q == y * p && r * p <= x
    ensures r * q <= y
  {
    MulMonotone(r * p, x, q);
    SwapFactors(r, p, q);
    CancelFactor(r * q, y, p);
  }

  lemma FloorAtLeast(x: int, y: int, r: int, p: int, q: int)
    requires p >= 1 && q >= 1 && x * q == y * p && x < (r + 1) * p
    ensures y < (r + 1) * q
  {
    MulMonotone(x + 1, (r + 1) * p, q);
    assert (x + 1) * q == x * q + q;
    SwapFactors(r + 1, p, q);
    CancelFactorStrictly(y, (r + 1) * q, p);
  }

  /** A negative number never parses, with or without an exponent: the expanded text keeps its sign. */
  lemma NegativeNumbersAreRejected(text: string, decimals: nat)
    requires text != "" && text[0] == '-'
    ensures ParseStroops(Number(text), decimals) == None
  {
    hide MatchMantissa, MatchExponent;
    var plain := NumberToPlainDecimalString(text);
    assert plain != "" && plain[0] == '-';
    assert Span(plain) == 0;
  }

  // ---------- printing ----------

  function PadStart(s: string, width: nat): string {
    if |s| >= width then s else Zeros(width - |s|) + s
  }

  function TrimZeros(s: string): string {
    if s != [] && s[|s| - 1] == '0' then TrimZeros(s[..|s| - 1]) else s
  }

  /** Quotient and remainder of a magnitude by the unit. */
  function DivMod(n: nat, unit: nat): (r: (nat, nat))
    requires unit >= 1
    ensures n == r.0 * unit + r.1 && r.1 < unit
  {
    QuotientAtLeast(n, unit, 0);
    (n / unit, n % unit)
  }

  function FormatAmount(amount: int, decimals: nat): string {
    var magnitude: nat := if amount < 0 then -amount else amount;
    var (whole, rest) := DivMod(magnitude, Pow10(decimals));
    var fractional := TrimZeros(PadStart(ToText(rest), decimals));
    var sign := if amount < 0 then "-" else "";
    if |fractional| > 0 then sign + ToText(whole) + "." + fractional else sign + ToText(whole)
  }

  lemma {:induction false} TrimmedZeros(s: string)
    ensures |TrimZeros(s)| <= |s| && s == TrimZeros(s) + Zeros(|s| - |TrimZeros(s)|)
    ensures TrimZeros(s) != [] ==> TrimZeros(s)[|TrimZeros(s)| - 1] != '0'
    decreases |s|
  {
    if s != [] && s[|s| - 1] == '0' {
      var init := s[..|s| - 1];
      TrimmedZeros(init);
      assert Zeros(|s| - |TrimZeros(s)|) == Zeros(|init| - |TrimZeros(init)|) + "0";
      assert s == init + "0";
    } else {
      assert Zeros(0) == [];
    }
  }

  /** The zero-padded remainder: exactly `decimals` digits denoting it, or a lone zero for no decimals. */
  lemma PaddedRemainder(rem: nat, decimals: nat)
    requires rem < Pow10(decimals)
    ensures
      var p := PadStart(ToText(rem), decimals);
      && AllDigits(p) && Value(p) == rem && (|p| == decimals || (decimals == 0 && p == "0"))
  {
    TextDenotes(rem);
    if decimals == 0 {
      assert ToText(0) == "0";
    } else {
      TextFits(rem, decimals);
      var pad := decimals - |ToText(rem)|;
      ValueConcat(Zeros(pad), ToText(rem));
      ValueOfZeros(pad);
    }
  }

  /** The printed fraction, padded again on the right, denotes the remainder. */
  lemma PrintedFraction(rem: nat, decimals: nat)
    requires rem < Pow10(decimals)
    ensures
      var f := TrimZeros(PadStart(ToText(rem), decimals));
      && AllDigits(f) && |f| <= decimals && Value(FitFraction(f, decimals)) == rem
      && (f != [] ==> f[|f| - 1] != '0')
  {
    hide Value, Pow10, ToText, PadStart, TrimZeros;
    var p := PadStart(ToText(rem), decimals);
    PaddedRemainder(rem, decimals);
    if |p| == decimals {
      TrimThenFit(p);
    } else {
      LoneZero();
    }
  }

  /** Trimming zeros and padding back to the same width changes nothing. */
  lemma TrimThenFit(p: string)
    requires AllDigits(p)
    ensures
      var f := TrimZeros(p);
      && AllDigits(f) && |f| <= |p| && FitFraction(f, |p|) == p
      && (f != [] ==> f[|f| - 1] != '0')
  {
    hide TrimZeros;
    TrimmedZeros(p);
    var f := TrimZeros(p);
    assert forall i :: 0 <= i < |f| ==> f[i] == p[i];
  }

  lemma LoneZero()
    ensures TrimZeros("0") == "" && Value("0") == 0 && Value("") == 0
    ensures FitFraction("", 0) == ""
  {
    assert "0"[..0] == "";
  }

  predicate Plain(c: char) {
    IsDigit(c) || c == '.' || c == '-'
  }

  /** Cleaning leaves text of digits, points and signs alone. */
  lemma {:induction false} CleaningKeepsPlain(s: string)
    requires forall i :: 0 <= i < |s| ==> Plain(s[i])
    ensures TrimStart(s) == s && TrimEnd(s) == s && RemoveCommas(s) == s
    decreases |s|
  {
    if s != [] {
      CleaningKeepsPlain(s[1..]);
      assert s == [s[0]] + s[1..];
      assert Plain(s[|s| - 1]);
    }
  }

  lemma PlainIsClean(s: string)
    requires forall i :: 0 <= i < |s| ==> Plain(s[i])
    ensures Clean(s) == s
  {
    CleaningKeepsPlain(s);
  }

  /** What is printed for a nonnegative amount: the whole units and the trimmed fraction. */
  lemma PrintedParts(amount: nat, decimals: nat) returns (whole: string, fraction: string)
    ensures IsAmount(FormatAmount(amount, decimals), whole, fraction)
    ensures Value(whole) * Pow10(decimals) + Value(FitFraction(fraction, decimals)) == amount
    ensures forall i :: 0 <= i < |FormatAmount(amount, decimals)| ==> Plain(FormatAmount(amount, decimals)[i])
  {
    hide Value, Pow10, ToText, PadStart, TrimZeros, DivMod, FitFraction;
    var (q, rest) := DivMod(amount, Pow10(decimals));
    whole, fraction := ToText(q), TrimZeros(PadStart(ToText(rest), decimals));
    TextDenotes(q);
    PrintedFraction(rest, decimals);
    assert "" + whole == whole;
    assert FormatAmount(amount, decimals) == if |fraction| > 0 then whole + "." + fraction else whole;
  }

  lemma PrintedNegative(amount: int, decimals: nat)
    requires amount < 0
    ensures FormatAmount(amount, decimals) == "-" + FormatAmount(-amount, decimals)
  {
    hide Pow10, ToText, PadStart, TrimZeros, DivMod;
    var (q, rest) := DivMod(-amount, Pow10(decimals));
    var whole, fraction := ToText(q), TrimZeros(PadStart(ToText(rest), decimals));
    assert "" + whole == whole;
    assert "-" + (whole + "." + fraction) == "-" + whole + "." + fraction;
  }

  /** Printing a nonnegative amount and parsing it back gives the amount, for every number of decimals. */
  lemma RoundTrip(amount: nat, decimals: nat)
    ensures ParseStroops(Text(FormatAmount(amount, decimals)), decimals) == Some(amount)
  {
    hide Value, Pow10, FormatAmount, FitFraction, Clean, MatchAmount;
    var text := FormatAmount(amount, decimals);
    var whole, fraction := PrintedParts(amount, decimals);
    MatchIsExact(text, whole, fraction);
    PlainIsClean(text);
    assert IsDigit(text[0]);
  }

  /** A printed negative amount is always rejected. */
  lemma NegativePrintIsRejected(amount: int, decimals: nat)
    requires amount < 0
    ensures ParseStroops(Text(FormatAmount(amount, decimals)), decimals) == None
  {
    hide FormatAmount, Clean;
    var text := FormatAmount(amount, decimals);
    var _, _ := PrintedParts(-amount, decimals);
    PrintedNegative(amount, decimals);
    PlainIsClean(text);
    assert text[0] == '-' && |text| > 1;
    assert Span(text) == 0;
  }

  /** Hence printing is injective, negative amounts included. */
  lemma FormatIsInjective(a: int, b: int, decimals: nat)
    requires FormatAmount(a, decimals) == FormatAmount(b, decimals)
    ensures a == b
  {
    hide FormatAmount, ParseStroops;
    if a >= 0 { RoundTrip(a, decimals); } else { NegativePrintIsRejected(a, decimals); RoundTrip(-a, decimals); }
    if b >= 0 { RoundTrip(b, decimals); } else { NegativePrintIsRejected(b, decimals); RoundTrip(-b, decimals); }
    if a < 0 && b < 0 {
      PrintedNegative(a, decimals);
      PrintedNegative(b, decimals);
      assert ("-" + FormatAmount(-a, decimals))[1..] == FormatAmount(-a, decimals);
      assert ("-" + FormatAmount(-b, decimals))[1..] == FormatAmount(-b, decimals);
    }
  }

  /** Text in normal form: no leading or trailing zeros, and no more digits than the token has. */
  ghost predicate Normal(text: string, whole: string, fraction: string, decimals: nat) {
    && IsAmount(text, whole, fraction)
    && (|whole| > 1 ==> whole[0] != '0')
    && |fraction| <= decimals
    && (if fraction == "" then text == whole else fraction[|fraction| - 1] != '0')
  }

  lemma NormalPlainRoundTrips(text: string, whole: string, fraction: string, decimals: nat)
    requires Normal(text, whole, fraction, decimals)
    ensures ParsePlain(text, decimals).Some?
    ensures FormatAmount(ParsePlain(text, decimals).value, decimals) == text
  {
    var fit := FitFraction(fraction, decimals);
    MatchIsExact(text, whole, fraction);
    assert text != "." by { assert IsDigit(text[0]); }
    ValueBound(fit);
    CanonicalText(whole);
    PrintedFractionOfNormal(fraction, decimals);
    var n := ParsePlain(text, decimals).value;
    hide Value, Pow10, ToText, PadStart, TrimZeros, DivMod, FitFraction, ParsePlain;
    UniqueDivMod(DivMod(n, Pow10(decimals)), Value(whole), Value(fit), Pow10(decimals));
    assert "" + whole == whole;
  }

  /** Parsing text in normal form and printing the amount gives the text back. */
  lemma NormalTextRoundTrips(text: string, whole: string, fraction: string, decimals: nat)
    requires Normal(text, whole, fraction, decimals)
    ensures ParseStroops(Text(text), decimals).Some?
    ensures FormatAmount(ParseStroops(Text(text), decimals).value, decimals) == text
  {
    PlainIsClean(text);
    hide Clean, ParsePlain, FormatAmount;
    NormalPlainRoundTrips(text, whole, fraction, decimals);
  }

  lemma PrintedFractionOfNormal(fraction: string, decimals: nat)
    requires AllDigits(fraction) && |fraction| <= decimals
    requires fraction != "" ==> fraction[|fraction| - 1] != '0'
    ensures TrimZeros(PadStart(ToText(Value(FitFraction(fraction, decimals))), decimals)) == fraction
  {
    hide ToText, PadStart, Value, Pow10, TrimZeros;
    var fit := FitFraction(fraction, decimals);
    ValueBound(fit);
    PaddedRemainder(Value(fit), decimals);
    var p := PadStart(ToText(Value(fit)), decimals);
    if |p| == decimals {
      SameLengthSameText(p, fit);
      TrimOfPadded(fraction, decimals - |fraction|);
    } else {
      LoneZero();
    }
  }

  lemma UniqueDivMod(qr: (nat, nat), q: nat, r: nat, unit: nat)
    requires qr.1 < unit && r < unit && qr.0 * unit + qr.1 == q * unit + r
    ensures qr == (q, r)
  {
    if qr.0 < q {
      MulMonotone(qr.0 + 1, q, unit);
    } else if qr.0 > q {
      MulMonotone(q + 1, qr.0, unit);
    }
  }

  lemma {:induction false} TrimOfPadded(s: string, pad: nat)
    requires s == "" || s[|s| - 1] != '0'
    ensures TrimZeros(s + Zeros(pad)) == s
    decreases pad
  {
    if pad == 0 {
      assert s + Zeros(0) == s;
    } else {
      var t := s + Zeros(pad);
      assert t[..|t| - 1] == s + Zeros(pad - 1);
      TrimOfPadded(s, pad - 1);
    }
  }
}
