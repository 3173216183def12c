/** The per-cell work of `clean_shot_data`: `astype(str)`, `str.replace("'", "")` and
    `astype(float)`, the last modelled as Python's `float()` on a string, parsed exactly
    into a `Decimal` instead of rounded to a binary double. */
module FloatText {
  import opened Text
  import opened Frames

  /** `s.replace("'", "")`: every apostrophe removed, everything else kept in order. */
  function StripQuotes(s: string): (r: string)
    ensures '\'' !in r
    ensures |r| <= |s|
  {
    if s == [] then []
    else if s[0] == '\'' then StripQuotes(s[1..])
    else [s[0]] + StripQuotes(s[1..])
  }

  lemma {:induction false} StripQuotesAppend(a: string, b: string)
    ensures StripQuotes(a + b) == StripQuotes(a) + StripQuotes(b)
    decreases |a|
  {
    if a != [] {
      assert (a + b)[1..] == a[1..] + b;
      StripQuotesAppend(a[1..], b);
    } else {
      assert a + b == b;
    }
  }

  /** Text without apostrophes is left as it is. */
  lemma {:induction false} StripQuotesUnquoted(s: string)
    requires '\'' !in s
    ensures StripQuotes(s) == s
    decreases |s|
  {
    if s != [] {
      assert s == [s[0]] + s[1..];
      StripQuotesUnquoted(s[1..]);
    }
  }

  /** An apostrophe anywhere in a cell makes no difference to what is left after stripping. */
  lemma QuoteInsensitive(a: string, b: string)
    ensures StripQuotes(a + "'" + b) == StripQuotes(a + b)
  {
    StripQuotesAppend(a + "'", b);
    StripQuotesAppend(a, "'");
    StripQuotesAppend(a, b);
  }

  /** A quote-wrapped value strips to the bare value: `'0.42'` becomes `0.42`. */
  lemma QuoteWrapped(s: string)
    requires '\'' !in s
    ensures StripQuotes("'" + s + "'") == s
  {
    StripQuotesAppend("'" + s, "'");
    StripQuotesAppend("'", s);
    StripQuotesUnquoted(s);
  }

  function Abs(n: int): nat {
    if n < 0 then -n else n
  }

  function Signed(negative: bool, n: int): int {
    if negative then -n else n
  }

  /** An optional leading `+` or `-`: whether it was `-`, and the text after it. */
  function SplitSign(s: string): (bool, string) {
    if s != [] && (s[0] == '+' || s[0] == '-') then (s[0] == '-', s[1..]) else (false, s)
  }

  predicate IsExponentMark(c: char) {
    c == 'e' || c == 'E'
  }

  /** Index of the first `e` or `E` in `s`, or `|s|`. */
  function FindExponentMark(s: string): (r: nat)
    ensures r <= |s|
    ensures r < |s| ==> IsExponentMark(s[r])
    ensures forall i | 0 <= i < r :: !IsExponentMark(s[i])
  {
    if s == [] then 0 else if IsExponentMark(s[0]) then 0 else 1 + FindExponentMark(s[1..])
  }

  /** An exponent: optional sign, then at least one digit. */
  function ParseInteger(s: string): Option<int> {
    var (negative, digits) := SplitSign(s);
    if digits == [] || !AllDigits(digits) then None
    else Some(Signed(negative, DigitsValue(digits)))
  }

  /** The digits of a mantissa, those before the point followed by those after it, and
      how many of them follow the point. */
  datatype Mantissa = Mantissa(digits: string, fractionDigits: nat)

  /** The part of a literal before its exponent: digits with at most one point and at
      least one digit. Gives the digits read as one number and how many follow the point. */
  function ParseMantissa(m: string): Option<Mantissa> {
    var dot := FindChar(m, '.');
    MantissaParts(m[..dot], if dot < |m| then m[dot + 1..] else "")
  }

  /** The digits before and after the point, read together. */
  function MantissaParts(whole: string, fraction: string): Option<Mantissa> {
    if !AllDigits(whole) || !AllDigits(fraction) || |whole| + |fraction| == 0 then None
    else Some(Mantissa(whole + fraction, |fraction|))
  }

  /** A decimal literal as `float()` reads it:
      [sign] (digits [`.` [digits]] | `.` digits) [(`e`|`E`) [sign] digits].
      Each digit after the point lowers the exponent by one. */
  function ParseDecimal(s: string): Option<Decimal> {
    var (negative, body) := SplitSign(s);
    var e := FindExponentMark(body);
    var exponent := if e == |body| then Some(0) else ParseInteger(body[e + 1..]);
    Assemble(negative, ParseMantissa(body[..e]), exponent)
  }

  function Assemble(negative: bool, mantissa: Option<Mantissa>, exponent: Option<int>): Option<Decimal> {
    if mantissa.None? || exponent.None? then None
    else Some(Decimal(Signed(negative, DigitsValue(mantissa.value.digits)),
                      exponent.value - mantissa.value.fractionDigits))
  }

  /** The characters a decimal literal is made of. */
  predicate NumericChar(c: char) {
    IsDigit(c) || c == '+' || c == '-' || c == '.' || IsExponentMark(c)
  }

  function SignText(negative: bool): string {
    if negative then "-" else ""
  }

  /** A string such as `1234e-3`, which `ParseDecimal` reads back as the same `Decimal`. */
  function Render(d: Decimal): string {
    SignText(d.mantissa < 0)
      + (Digits(Abs(d.mantissa)) + ("e" + (SignText(d.exponent < 0) + Digits(Abs(d.exponent)))))
  }

  /** ASCII lower-casing, for the case-insensitive words `nan`, `inf` and `infinity`. */
  function Lower(c: char): char {
    if 'A' <= c <= 'Z' then (c as int + 32) as char else c
  }

  predicate SameWordIgnoringCase(s: string, word: string) {
    |s| == |word| && forall i | 0 <= i < |s| :: Lower(s[i]) == word[i]
  }

  /** Python's `float(s)` for a str: blanks at either end ignored (see `Trim`), then `nan`,
      `inf` or `infinity` (any case, optional sign), or a decimal literal; anything else
      raises. */
  function ToFloat(s: string): (r: Result<Value>)
    ensures r.Ok? ==> !r.value.Str?
    ensures r.Err? ==> r.error == NotAFloat(s)
  {
    var t := Trim(s);
    var (negative, word) := SplitSign(t);
    if SameWordIgnoringCase(word, "nan") then Ok(NaN)
    else if SameWordIgnoringCase(word, "inf") || SameWordIgnoringCase(word, "infinity")
    then Ok(Inf(negative))
    else match ParseDecimal(t)
      case Some(d) => Ok(Num(d))
      case None => Err(NotAFloat(s))
  }

  /** `str(v)` for a cell, as `astype(str)` writes it. A number is written in the
      scientific form of `Render`, which reads back as the same number. */
  function AsText(v: Value): string {
    match v
    case Str(s) => s
    case Num(d) => Render(d)
    case NaN => "nan"
    case Inf(negative) => SignText(negative) + "inf"
  }

  lemma {:induction false} FindExponentMarkAt(a: string, b: string)
    requires forall i | 0 <= i < |a| :: !IsExponentMark(a[i])
    requires b != [] && IsExponentMark(b[0])
    ensures FindExponentMark(a + b) == |a|
    decreases |a|
  {
    if a != [] {
      assert (a + b)[1..] == a[1..] + b;
      FindExponentMarkAt(a[1..], b);
    }
  }

  /** A mantissa without a point is an integer. */
  lemma MantissaOfDigits(m: string)
    requires AllDigits(m) && m != []
    ensures ParseMantissa(m) == Some(Mantissa(m, 0))
  {
    var r := FindChar(m, '.');
    assert r < |m| ==> IsDigit(m[r]);
    assert m[..|m|] + "" == m;
  }

  /** A mantissa with a point: the digits on both sides read as one number. */
  lemma MantissaOfPoint(whole: string, fraction: string)
    requires AllDigits(whole) && AllDigits(fraction) && |whole| + |fraction| > 0
    ensures ParseMantissa(whole + "." + fraction)
      == Some(Mantissa(whole + fraction, |fraction|))
  {
    var m := whole + "." + fraction;
    assert '.' !in whole by {
      forall i | 0 <= i < |whole| ensures whole[i] != '.' { assert IsDigit(whole[i]); }
    }
    assert m == whole + ['.'] + fraction;
    FindCharAt(whole, '.', fraction);
    assert m[..|whole|] == whole;
    assert m[|whole| + 1..] == fraction;
    assert ParseMantissa(m) == MantissaParts(whole, fraction);
    MantissaPartsValue(whole, fraction);
  }

  lemma MantissaPartsValue(whole: string, fraction: string)
    requires AllDigits(whole) && AllDigits(fraction) && |whole| + |fraction| > 0
    ensures MantissaParts(whole, fraction)
      == Some(Mantissa(whole + fraction, |fraction|))
  {
  }

  lemma SplitSignOf(negative: bool, body: string)
    requires body != [] ==> body[0] != '+' && body[0] != '-'
    ensures SplitSign(SignText(negative) + body) == (negative, body)
  {
    if negative { assert (SignText(negative) + body)[1..] == body; }
    else { assert SignText(negative) + body == body; }
  }

  /** How `ParseDecimal` splits a literal with an exponent into its parts. */
  lemma DecimalWithExponent(negative: bool, mantissa: string, exponent: string)
    requires mantissa != [] ==> mantissa[0] != '+' && mantissa[0] != '-'
    requires forall i | 0 <= i < |mantissa| :: !IsExponentMark(mantissa[i])
    ensures ParseDecimal(SignText(negative) + (mantissa + ("e" + exponent)))
      == Assemble(negative, ParseMantissa(mantissa), ParseInteger(exponent))
  {
    var body := mantissa + ("e" + exponent);
    SplitSignOf(negative, body);
    FindExponentMarkAt(mantissa, "e" + exponent);
    assert body[..|mantissa|] == mantissa;
    assert body[|mantissa| + 1..] == exponent;
    DecimalParts(SignText(negative) + body, negative, body);
  }

  /** `ParseDecimal` on text whose sign and exponent mark have been located. */
  lemma DecimalParts(s: string, negative: bool, body: string)
    requires SplitSign(s) == (negative, body) && FindExponentMark(body) < |body|
    ensures ParseDecimal(s) == Assemble(negative, ParseMantissa(body[..FindExponentMark(body)]),
      ParseInteger(body[FindExponentMark(body) + 1..]))
  {
  }

  /** How `ParseDecimal` reads a literal without an exponent. */
  lemma DecimalWithoutExponent(negative: bool, mantissa: string)
    requires mantissa != [] ==> mantissa[0] != '+' && mantissa[0] != '-'
    requires forall i | 0 <= i < |mantissa| :: !IsExponentMark(mantissa[i])
    ensures ParseDecimal(SignText(negative) + mantissa) == Assemble(negative, ParseMantissa(mantissa), Some(0))
  {
    SplitSignOf(negative, mantissa);
    assert mantissa[..|mantissa|] == mantissa;
  }

  /** An exponent as `Render` writes it. */
  lemma IntegerOfDigits(negative: bool, x: string)
    requires AllDigits(x) && x != []
    ensures ParseInteger(SignText(negative) + x) == Some(Signed(negative, DigitsValue(x)))
  {
    assert IsDigit(x[0]);
    SplitSignOf(negative, x);
  }

  /** The round trip `float(str(x)) == x` for the numbers of this model. */
  lemma RenderRoundTrip(d: Decimal)
    ensures ParseDecimal(Render(d)) == Some(d)
  {
    RenderParts(d);
    RenderPartsValue(d);
  }

  /** `Render` writes a sign, the mantissa digits, `e` and the exponent. */
  lemma RenderParts(d: Decimal)
    ensures ParseDecimal(Render(d)) == Assemble(d.mantissa < 0, ParseMantissa(Digits(Abs(d.mantissa))),
      ParseInteger(SignText(d.exponent < 0) + Digits(Abs(d.exponent))))
  {
    var m := Digits(Abs(d.mantissa));
    assert IsDigit(m[0]);
    assert forall i | 0 <= i < |m| :: !IsExponentMark(m[i]) by {
      forall i | 0 <= i < |m| ensures !IsExponentMark(m[i]) { assert IsDigit(m[i]); }
    }
    DecimalWithExponent(d.mantissa < 0, m, SignText(d.exponent < 0) + Digits(Abs(d.exponent)));
  }

  /** Each part of a rendered number reads back as the number's own part. */
  lemma RenderPartsValue(d: Decimal)
    ensures Assemble(d.mantissa < 0, ParseMantissa(Digits(Abs(d.mantissa))),
      ParseInteger(SignText(d.exponent < 0) + Digits(Abs(d.exponent)))) == Some(d)
  {
    var m := Digits(Abs(d.mantissa));
    MantissaOfDigits(m);
    DigitsRoundTrip(Abs(d.mantissa));
    assert Signed(d.mantissa < 0, DigitsValue(m)) == d.mantissa;
    IntegerOfDigits(d.exponent < 0, Digits(Abs(d.exponent)));
    DigitsRoundTrip(Abs(d.exponent));
    assert Signed(d.exponent < 0, Abs(d.exponent)) == d.exponent;
  }

  /** What a plain literal such as `0.42` means: the digits before the point, plus those
      after it divided by a power of ten. */
  lemma PlainDecimal(whole: string, fraction: string)
    requires AllDigits(whole) && AllDigits(fraction) && |whole| + |fraction| > 0
    ensures ParseDecimal(whole + "." + fraction).Some?
    ensures RealValue(ParseDecimal(whole + "." + fraction).value)
      == DigitsValue(whole) as real + DigitsValue(fraction) as real / Pow10(|fraction|) as real
  {
    PlainLiteral(whole, fraction);
    var d := ParseDecimal(whole + "." + fraction).value;
    DigitsValueAppend(whole, fraction);
    DecimalValue(d, DigitsValue(whole), DigitsValue(fraction), |fraction|);
  }

  /** A plain literal is read as its digits with the exponent lowered once per digit after
      the point. */
  lemma PlainLiteral(whole: string, fraction: string)
    requires AllDigits(whole) && AllDigits(fraction) && |whole| + |fraction| > 0
    ensures ParseDecimal(whole + "." + fraction)
      == Some(Decimal(DigitsValue(whole + fraction), -|fraction|))
  {
    PlainLiteralParts(whole, fraction);
    MantissaOfPoint(whole, fraction);
  }

  lemma PlainLiteralParts(whole: string, fraction: string)
    requires AllDigits(whole) && AllDigits(fraction)
    ensures ParseDecimal(whole + "." + fraction) == Assemble(false, ParseMantissa(whole + "." + fraction), Some(0))
  {
    var s := whole + "." + fraction;
    assert forall i | 0 <= i < |s| :: !IsExponentMark(s[i]) && s[i] != '+' && s[i] != '-' by {
      forall i | 0 <= i < |s| ensures !IsExponentMark(s[i]) && s[i] != '+' && s[i] != '-' {
        if i < |whole| { assert s[i] == whole[i]; }
        else if i > |whole| { assert s[i] == fraction[i - |whole| - 1]; }
      }
    }
    assert SignText(false) + s == s;
    DecimalWithoutExponent(false, s);
  }

  /** The arithmetic of `PlainDecimal`. */
  lemma DecimalValue(d: Decimal, w: nat, f: nat, k: nat)
    requires d.mantissa == w * Pow10(k) + f && d.exponent == -(k as int)
    ensures RealValue(d) == w as real + f as real / Pow10(k) as real
  {
    var p := Pow10(k);
    if k == 0 {
      assert p == 1;
    } else {
      assert RealValue(d) == (w * p + f) as real / p as real;
      assert (w * p + f) as real / p as real == w as real + f as real / p as real;
    }
  }

  /** Whatever `ParseMantissa` accepts is digits and at most a point. */
  lemma MantissaIsNumeric(m: string)
    requires ParseMantissa(m).Some?
    ensures forall i | 0 <= i < |m| :: NumericChar(m[i])
  {
    var dot := FindChar(m, '.');
    var whole := m[..dot];
    var fraction := if dot < |m| then m[dot + 1..] else "";
    forall i | 0 <= i < |m| ensures NumericChar(m[i]) {
      if i < dot { assert m[i] == whole[i]; }
      else if i > dot { assert m[i] == fraction[i - dot - 1]; }
    }
  }

  /** Whatever `ParseInteger` accepts is a sign and digits. */
  lemma IntegerIsNumeric(s: string)
    requires ParseInteger(s).Some?
    ensures forall i | 0 <= i < |s| :: NumericChar(s[i])
  {
    var digits := SplitSign(s).1;
    forall i | 0 <= i < |s| ensures NumericChar(s[i]) {
      if s != digits { if i > 0 { assert s[i] == digits[i - 1]; } }
      else { assert s[i] == digits[i]; }
    }
  }

  /** Whatever `ParseDecimal` accepts is made of digits, signs, a point and exponent marks:
      text holding any other character is rejected. */
  lemma ParsedIsNumeric(s: string)
    requires ParseDecimal(s).Some?
    ensures forall i | 0 <= i < |s| :: NumericChar(s[i])
  {
    var body := SplitSign(s).1;
    var e := FindExponentMark(body);
    MantissaIsNumeric(body[..e]);
    if e < |body| {
      IntegerIsNumeric(body[e + 1..]);
    }
    assert forall i | 0 <= i < |body| :: NumericChar(body[i]) by {
      forall i | 0 <= i < |body| ensures NumericChar(body[i]) {
        if i < e { assert body[i] == body[..e][i]; }
        else if i > e { assert body[i] == body[e + 1..][i - e - 1]; }
      }
    }
    forall i | 0 <= i < |s| ensures NumericChar(s[i]) {
      if s != body { if i > 0 { assert s[i] == body[i - 1]; } }
      else { assert s[i] == body[i]; }
    }
  }

  /** The letters of `nan`, `inf` and `infinity`. */
  predicate WordLetter(c: char) {
    var l := Lower(c);
    l == 'n' || l == 'a' || l == 'i' || l == 'f' || l == 't' || l == 'y'
  }

  /** A string holding a character outside the letters of nan/inf/infinity is none of
      those words. */
  lemma NonLetterNotWord(w: string, i: nat)
    requires i < |w| && !WordLetter(w[i])
    ensures !SameWordIgnoringCase(w, "nan") && !SameWordIgnoringCase(w, "inf")
    ensures !SameWordIgnoringCase(w, "infinity")
  {
    if |w| == 3 {
      assert WordLetter("nan"[0]) && WordLetter("nan"[1]) && WordLetter("nan"[2]);
      assert WordLetter("inf"[0]) && WordLetter("inf"[1]) && WordLetter("inf"[2]);
      assert Lower(w[i]) != "nan"[i] && Lower(w[i]) != "inf"[i];
    }
    if |w| == 8 {
      assert forall k | 0 <= k < 8 :: WordLetter("infinity"[k]);
      assert Lower(w[i]) != "infinity"[i];
    }
  }

  /** `float()` succeeds only on numbers and the words nan/inf/infinity: once the blanks at
      either end are trimmed, a cell holding any other character (`abc`, `0.5x`, `1,5`)
      raises. */
  lemma ToFloatRejectsOtherText(s: string, i: nat)
    requires i < |Trim(s)| && !NumericChar(Trim(s)[i]) && !WordLetter(Trim(s)[i])
    ensures ToFloat(s) == Err(NotAFloat(s))
  {
    var t := Trim(s);
    var word := SplitSign(t).1;
    var j := if t != word then i - 1 else i;
    assert t[i] == word[j];
    NonLetterNotWord(word, j);
    if ParseDecimal(t).Some? {
      ParsedIsNumeric(t);
      assert false;
    }
  }

  /** The information separators 0x1C-0x1F are whitespace to `str.isspace()` but not to
      `float()`: a cell that starts with one raises. */
  lemma ToFloatKeepsSeparators(s: string)
    requires s != [] && 28 <= s[0] as int <= 31
    ensures ToFloat(s) == Err(NotAFloat(s))
  {
    TrimKeepsFirst(s);
    ToFloatRejectsOtherText(s, 0);
  }

  /** Text made only of numeric characters is none of the words nan/inf/infinity. */
  lemma NotAWord(t: string)
    requires t != [] && forall i | 0 <= i < |t| :: NumericChar(t[i])
    ensures var word := SplitSign(t).1;
      !SameWordIgnoringCase(word, "nan") && !SameWordIgnoringCase(word, "inf")
      && !SameWordIgnoringCase(word, "infinity")
  {
    var word := SplitSign(t).1;
    if word != [] {
      assert word[0] == t[if t != word then 1 else 0];
      NonLetterNotWord(word, 0);
    }
  }

  /** Numeric text holds no apostrophe. */
  lemma NumericUnquoted(t: string)
    requires forall i | 0 <= i < |t| :: NumericChar(t[i])
    ensures StripQuotes(t) == t
  {
    assert forall i | 0 <= i < |t| :: t[i] != '\'';
    StripQuotesUnquoted(t);
  }

  /** On text made of digits, signs, points and exponent marks, `float()` is the decimal
      parse alone. */
  lemma ToFloatOfNumeric(t: string)
    requires t != [] && forall i | 0 <= i < |t| :: NumericChar(t[i])
    ensures ToFloat(t) == match ParseDecimal(t) case Some(d) => Ok(Num(d)) case None => Err(NotAFloat(t))
  {
    assert !IsBlank(t[0]) && !IsBlank(t[|t| - 1]);
    TrimUnpadded(t);
    NotAWord(t);
  }

  /** A quote-wrapped literal coerces to the same number as the bare literal. */
  lemma QuotedLiteral(whole: string, fraction: string)
    requires AllDigits(whole) && AllDigits(fraction) && |whole| + |fraction| > 0
    ensures ToFloat(StripQuotes("'" + whole + "." + fraction + "'")) == ToFloat(whole + "." + fraction)
    ensures ToFloat(whole + "." + fraction) == Ok(Num(Decimal(DigitsValue(whole + fraction), -|fraction|)))
  {
    QuotedLiteralText(whole, fraction);
    LiteralToFloat(whole, fraction);
  }

  lemma QuotedLiteralText(whole: string, fraction: string)
    requires AllDigits(whole) && AllDigits(fraction) && |whole| + |fraction| > 0
    ensures StripQuotes("'" + whole + "." + fraction + "'") == whole + "." + fraction
  {
    var s := whole + "." + fraction;
    assert forall i | 0 <= i < |s| :: NumericChar(s[i]) by {
      forall i | 0 <= i < |s| ensures NumericChar(s[i]) {
        if i < |whole| { assert s[i] == whole[i]; }
        else if i > |whole| { assert s[i] == fraction[i - |whole| - 1]; }
      }
    }
    assert "'" + whole + "." + fraction + "'" == "'" + s + "'";
    NumericQuoted(s);
  }

  lemma LiteralToFloat(whole: string, fraction: string)
    requires AllDigits(whole) && AllDigits(fraction) && |whole| + |fraction| > 0
    ensures ToFloat(whole + "." + fraction) == Ok(Num(Decimal(DigitsValue(whole + fraction), -|fraction|)))
  {
    var s := whole + "." + fraction;
    PlainLiteral(whole, fraction);
    ParsedIsNumeric(s);
    ToFloatOfNumeric(s);
  }

  /** Apostrophes around numeric text are all that stripping removes. */
  lemma NumericQuoted(t: string)
    requires forall i | 0 <= i < |t| :: NumericChar(t[i])
    ensures StripQuotes("'" + t + "'") == t
  {
    NumericUnquoted(t);
    QuoteWrapped(t);
  }

  /** A number written by `AsText` reads back as the same number, apostrophes or not. */
  lemma NumTextRoundTrip(d: Decimal)
    ensures StripQuotes(Render(d)) == Render(d)
    ensures ToFloat(Render(d)) == Ok(Num(d))
  {
    RenderRoundTrip(d);
    ParsedIsNumeric(Render(d));
    NumericUnquoted(Render(d));
    ToFloatOfNumeric(Render(d));
  }

  /** Converting a cleaned cell back to text and through `float()` again gives the same
      cell: `float(str(x)) == x`. */
  lemma AsTextRoundTrip(v: Value)
    requires !v.Str?
    ensures StripQuotes(AsText(v)) == AsText(v)
    ensures ToFloat(AsText(v)) == Ok(v)
  {
    match v {
      case Num(d) => NumTextRoundTrip(d);
      case NaN => WordRoundTrip(false, "nan");
      case Inf(negative) => WordRoundTrip(negative, "inf");
    }
  }

  /** `nan` and `inf`, signed or not, read back as themselves. */
  lemma WordRoundTrip(negative: bool, word: string)
    requires word == "nan" || word == "inf"
    ensures StripQuotes(SignText(negative) + word) == SignText(negative) + word
    ensures ToFloat(SignText(negative) + word)
      == if word == "nan" then Ok(NaN) else Ok(Inf(negative))
  {
    WordUnquoted(negative, word);
    WordToFloat(negative, word);
  }

  lemma WordUnquoted(negative: bool, word: string)
    requires word == "nan" || word == "inf"
    ensures StripQuotes(SignText(negative) + word) == SignText(negative) + word
  {
    var t := SignText(negative) + word;
    assert '\'' !in t by {
      assert forall i | 0 <= i < |t| :: t[i] != '\'';
    }
    StripQuotesUnquoted(t);
  }

  lemma WordToFloat(negative: bool, word: string)
    requires word == "nan" || word == "inf"
    ensures ToFloat(SignText(negative) + word)
      == if word == "nan" then Ok(NaN) else Ok(Inf(negative))
  {
    var t := SignText(negative) + word;
    TrimUnpadded(t);
    SplitSignOf(negative, word);
    WordIgnoringCase(word);
    if word == "nan" {
      NanWord(t, negative);
    } else {
      InfWord(t, negative);
    }
  }

  lemma NanWord(t: string, negative: bool)
    requires Trim(t) == t && SplitSign(t) == (negative, "nan")
    requires SameWordIgnoringCase("nan", "nan")
    ensures ToFloat(t) == Ok(NaN)
  {
  }

  lemma InfWord(t: string, negative: bool)
    requires Trim(t) == t && SplitSign(t) == (negative, "inf")
    requires !SameWordIgnoringCase("inf", "nan") && SameWordIgnoringCase("inf", "inf")
    ensures ToFloat(t) == Ok(Inf(negative))
  {
  }

  /** The lower-case words compare equal to themselves ignoring case. */
  lemma WordIgnoringCase(word: string)
    requires word == "nan" || word == "inf"
    ensures SameWordIgnoringCase(word, word)
    ensures word == "nan" <==> !SameWordIgnoringCase(word, "inf")
    ensures !SameWordIgnoringCase(word, "infinity")
  {
    assert Lower('n') == 'n' && Lower('a') == 'a' && Lower('i') == 'i' && Lower('f') == 'f';
    assert forall i | 0 <= i < |word| :: Lower(word[i]) == word[i];
    if word == "nan" {
      assert Lower(word[0]) != "inf"[0];
    }
  }
}
