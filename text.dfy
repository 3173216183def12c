/** Character classes and digit strings shared by the datetime and float parsers.
    Only ASCII digits and ASCII whitespace are modelled (see README, "Left out"). */
module Text {

  predicate IsDigit(c: char) {
    '0' <= c <= '9'
  }

  predicate AllDigits(s: string) {
    forall i | 0 <= i < |s| :: IsDigit(s[i])
  }

  /** The ASCII characters CPython treats as whitespace in `str.isspace` and in the `\s`
      of a str regular expression: TAB, LF, VT, FF, CR, the four information separators
      0x1C-0x1F, and SPACE. */
  predicate IsSpace(c: char) {
    c == ' ' || 9 <= c as int <= 13 || 28 <= c as int <= 31
  }

  /** The characters `float()` trims from both ends of its argument (`Py_ISSPACE`): TAB,
      LF, VT, FF, CR and SPACE. The information separators 0x1C-0x1F are not among them. */
  predicate IsBlank(c: char) {
    c == ' ' || 9 <= c as int <= 13
  }

  /** The value of a digit character; other characters count as zero (the parsers check
      for digits before reading a value). */
  function DigitValue(c: char): (d: nat)
    ensures d < 10
  {
    if IsDigit(c) then c as int - '0' as int else 0
  }

  function DigitChar(d: nat): (c: char)
    requires d < 10
    ensures IsDigit(c) && DigitValue(c) == d
  {
    ('0' as int + d) as char
  }

  function Pow10(n: nat): (p: nat)
    ensures p >= 1
  {
    if n == 0 then 1 else 10 * Pow10(n - 1)
  }

  /** The number a string of decimal digits denotes (leading zeros allowed). */
  function DigitsValue(s: string): nat
    decreases |s|
  {
    if s == [] then 0 else DigitsValue(s[..|s| - 1]) * 10 + DigitValue(s[|s| - 1])
  }

  /** The shortest decimal spelling of `n`, as Python's `str(int)` writes it. */
  function Digits(n: nat): (s: string)
    ensures AllDigits(s) && 0 < |s|
    ensures n < 10 <==> |s| == 1
    decreases n
  {
    if n < 10 then [DigitChar(n)] else Digits(n / 10) + [DigitChar(n % 10)]
  }

  /** `Digits` followed by `DigitsValue` gives the number back. */
  lemma {:induction false} DigitsRoundTrip(n: nat)
    ensures DigitsValue(Digits(n)) == n
    decreases n
  {
    if n >= 10 {
      var s := Digits(n);
      assert s[..|s| - 1] == Digits(n / 10);
      DigitsRoundTrip(n / 10);
    }
  }

  /** Reading `a + b` as one number shifts `a` left by the length of `b`. */
  lemma {:induction false} DigitsValueAppend(a: string, b: string)
    ensures DigitsValue(a + b) == DigitsValue(a) * Pow10(|b|) + DigitsValue(b)
    decreases |b|
  {
    if b != [] {
      var b' := b[..|b| - 1];
      var d := DigitValue(b[|b| - 1]);
      assert (a + b)[..|a + b| - 1] == a + b';
      DigitsValueAppend(a, b');
      assert DigitsValue(a + b) == DigitsValue(a + b') * 10 + d;
      assert DigitsValue(b) == DigitsValue(b') * 10 + d;
      ShiftStep(DigitsValue(a), Pow10(|b'|), DigitsValue(b'), d);
    } else {
      assert a + b == a;
    }
  }

  /** The arithmetic step of `DigitsValueAppend`: appending one digit multiplies by ten. */
  lemma ShiftStep(x: nat, p: nat, y: nat, d: nat)
    ensures (x * p + y) * 10 + d == x * (10 * p) + (y * 10 + d)
  {
  }

  /** Index of the first `c` in `s`, or `|s|` when there is none. */
  function FindChar(s: string, c: char): (r: nat)
    ensures r <= |s|
    ensures r < |s| ==> s[r] == c
    ensures forall i | 0 <= i < r :: s[i] != c
  {
    if s == [] then 0 else if s[0] == c then 0 else 1 + FindChar(s[1..], c)
  }

  /** Index of the first whitespace character in `s`, or `|s|`. */
  function FindSpace(s: string): (r: nat)
    ensures r <= |s|
    ensures r < |s| ==> IsSpace(s[r])
    ensures forall i | 0 <= i < r :: !IsSpace(s[i])
  {
    if s == [] then 0 else if IsSpace(s[0]) then 0 else 1 + FindSpace(s[1..])
  }

  /** Length of the run of whitespace that starts `s`. */
  function LeadingSpace(s: string): (r: nat)
    ensures r <= |s|
    ensures r < |s| ==> !IsSpace(s[r])
    ensures forall i | 0 <= i < r :: IsSpace(s[i])
  {
    if s == [] then 0 else if IsSpace(s[0]) then 1 + LeadingSpace(s[1..]) else 0
  }

  /** Length of the run of blanks that starts `s`. */
  function LeadingBlank(s: string): (r: nat)
    ensures r <= |s|
    ensures r < |s| ==> !IsBlank(s[r])
    ensures forall i | 0 <= i < r :: IsBlank(s[i])
  {
    if s == [] then 0 else if IsBlank(s[0]) then 1 + LeadingBlank(s[1..]) else 0
  }

  /** Length of the run of blanks that ends `s`. */
  function TrailingBlank(s: string): (r: nat)
    ensures r <= |s|
    ensures r < |s| ==> !IsBlank(s[|s| - 1 - r])
    ensures forall i | |s| - r <= i < |s| :: IsBlank(s[i])
    decreases |s|
  {
    if s == [] then 0
    else if IsBlank(s[|s| - 1]) then 1 + TrailingBlank(s[..|s| - 1])
    else 0
  }

  /** The trimming `float()` does before it parses: blanks removed from both ends. */
  function Trim(s: string): (t: string)
    ensures |t| <= |s|
    ensures t != [] ==> !IsBlank(t[0]) && !IsBlank(t[|t| - 1])
  {
    var lead := LeadingBlank(s);
    var rest := s[lead..];
    var t := rest[..|rest| - TrailingBlank(rest)];
    assert forall i | 0 <= i < |t| :: t[i] == s[lead + i];
    t
  }

  /** A string with no blank at either end is left as it is by `Trim`. */
  lemma TrimUnpadded(s: string)
    requires s != [] ==> !IsBlank(s[0]) && !IsBlank(s[|s| - 1])
    ensures Trim(s) == s
  {
  }

  /** A string that starts with a character other than a blank keeps it in first place. */
  lemma TrimKeepsFirst(s: string)
    requires s != [] && !IsBlank(s[0])
    ensures Trim(s) != [] && Trim(s)[0] == s[0]
  {
    assert s[0..] == s;
  }

  /** `FindChar` stops at the first `c` even when more text follows it. */
  lemma {:induction false} FindCharAt(a: string, c: char, b: string)
    requires c !in a
    ensures FindChar(a + [c] + b, c) == |a|
    decreases |a|
  {
    if a != [] {
      assert (a + [c] + b)[1..] == a[1..] + [c] + b;
      FindCharAt(a[1..], c, b);
    }
  }

  /** `FindSpace` stops at the first whitespace character. */
  lemma {:induction false} FindSpaceAt(a: string, b: string)
    requires forall i | 0 <= i < |a| :: !IsSpace(a[i])
    requires b != [] && IsSpace(b[0])
    ensures FindSpace(a + b) == |a|
    decreases |a|
  {
    if a != [] {
      assert (a + b)[1..] == a[1..] + b;
      FindSpaceAt(a[1..], b);
    }
  }

  /** `LeadingSpace` counts exactly the whitespace before the first other character. */
  lemma {:induction false} LeadingSpaceAt(a: string, b: string)
    requires forall i | 0 <= i < |a| :: IsSpace(a[i])
    requires b != [] && !IsSpace(b[0])
    ensures LeadingSpace(a + b) == |a|
    decreases |a|
  {
    if a != [] {
      assert (a + b)[1..] == a[1..] + b;
      LeadingSpaceAt(a[1..], b);
    }
  }
}
