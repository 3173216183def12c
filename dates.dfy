/** `datetime.strptime(text, '%Y-%m-%d %H:%M:%S')`, the naive `datetime` it builds, and the
    `<` that compares two of them.

    CPython turns the format into a regular expression, one group per directive:
      %Y  four digits
      %m  `1[0-2]|0[1-9]|[1-9]`        a month 1..12, one or two digits
      %d  `3[01]|[12]\d|0[1-9]|[1-9]| [1-9]`  a day 1..31, or a space and one digit
      ' ' one or more whitespace characters
      %H  `2[0-3]|[0-1]\d|\d`           an hour 0..23, one or two digits
      %M  `[0-5]\d|\d`                  a minute 0..59, one or two digits
      %S  `6[0-1]|[0-5]\d|\d`           a second 0..61, one or two digits
    The whole text must match ("unconverted data remains" otherwise), and the `datetime`
    constructor then rejects year 0, a day past the end of its month and seconds 60 and 61.
    Every one of these failures is a `ValueError`. */
module Dates {
  import opened Text
  import opened Frames

  /** A naive `datetime`. Parsed values have no microseconds; `datetime.today()` has. */
  datatype DateTime = DateTime(year: int, month: int, day: int,
                               hour: int, minute: int, second: int, microsecond: int)

  predicate IsLeap(year: int) {
    year % 4 == 0 && (year % 100 != 0 || year % 400 == 0)
  }

  function DaysInMonth(year: int, month: int): (n: int)
    requires 1 <= month <= 12
    ensures 28 <= n <= 31
    ensures n == 29 <==> month == 2 && IsLeap(year)
  {
    if month == 2 then (if IsLeap(year) then 29 else 28)
    else if month == 4 || month == 6 || month == 9 || month == 11 then 30
    else 31
  }

  /** The values the `datetime` constructor accepts (MINYEAR 1 to MAXYEAR 9999). */
  predicate Valid(dt: DateTime) {
    && 1 <= dt.year <= 9999
    && 1 <= dt.month <= 12
    && 1 <= dt.day <= DaysInMonth(dt.year, dt.month)
    && 0 <= dt.hour <= 23
    && 0 <= dt.minute <= 59
    && 0 <= dt.second <= 59
    && 0 <= dt.microsecond <= 999999
  }

  /** `a < b` on naive datetimes: field by field, most significant first. */
  predicate Before(a: DateTime, b: DateTime) {
    if a.year != b.year then a.year < b.year
    else if a.month != b.month then a.month < b.month
    else if a.day != b.day then a.day < b.day
    else if a.hour != b.hour then a.hour < b.hour
    else if a.minute != b.minute then a.minute < b.minute
    else if a.second != b.second then a.second < b.second
    else a.microsecond < b.microsecond
  }

  /** The pieces of the regular expression `_strptime` compiles a format into. */
  datatype FieldKind = Year | Month | Day | Hour | Minute | Second
  datatype Directive =
    | Field(kind: FieldKind)     // a `%` directive, captured as a group
    | Literal(c: char)           // a character of the format standing for itself
    | Whitespace                 // whitespace in the format: `\s+`

  /** `'%Y-%m-%d %H:%M:%S'` compiled. */
  const FORMAT: seq<Directive> := [Field(Year), Literal('-'), Field(Month), Literal('-'),
    Field(Day), Whitespace, Field(Hour), Literal(':'), Field(Minute), Literal(':'), Field(Second)]

  function FieldCount(dirs: seq<Directive>): nat {
    if dirs == [] then 0 else (if dirs[0].Field? then 1 else 0) + FieldCount(dirs[1..])
  }

  /** Where the text of a field ends. Every alternative of a field's group is made of
      digits (and, for `%d`, a leading space), so a field runs up to the character the
      next directive needs, or to the end of the input. */
  function FieldEnd(s: string, next: Option<Directive>): (n: nat)
    ensures n <= |s|
  {
    match next
    case Some(Literal(c)) => FindChar(s, c)
    case Some(Whitespace) => FindSpace(s)
    case _ => |s|
  }

  function Prepend(text: string, r: Option<seq<string>>): Option<seq<string>> {
    match r
    case None => None
    case Some(texts) => Some([text] + texts)
  }

  /** Matches `s` against the compiled directives and returns the text each field group
      captured. Text left over once the last directive has matched is an error
      ("unconverted data remains"). The `%d` alternative ` [1-9]` is a space and one digit;
      its digit is what is kept. */
  function Match(dirs: seq<Directive>, s: string): (r: Option<seq<string>>)
    ensures r.Some? ==> |r.value| == FieldCount(dirs)
    decreases |dirs|
  {
    if dirs == [] then (if s == [] then Some([]) else None)
    else
      match dirs[0]
      case Literal(c) => if s != [] && s[0] == c then Match(dirs[1..], s[1..]) else None
      case Whitespace =>
        var w := LeadingSpace(s);
        if w == 0 then None else Match(dirs[1..], s[w..])
      case Field(kind) =>
        if kind == Day && s != [] && s[0] == ' ' then
          var end := if |s| < 2 then |s| else 2;
          Prepend(s[1..end], Match(dirs[1..], s[end..]))
        else
          var end := FieldEnd(s, if |dirs| > 1 then Some(dirs[1]) else None);
          Prepend(s[..end], Match(dirs[1..], s[end..]))
  }

  /** The text each directive of `FORMAT` captured. */
  datatype DateText = DateText(year: string, month: string, day: string,
                               hour: string, minute: string, second: string)

  /** A one- or two-digit directive whose value lies in `lo..hi`. */
  function FieldValue(text: string, lo: nat, hi: nat): (r: Option<nat>)
    ensures r.Some? <==> 1 <= |text| <= 2 && AllDigits(text) && lo <= DigitsValue(text) <= hi
    ensures r.Some? ==> lo <= r.value <= hi
  {
    if 1 <= |text| <= 2 && AllDigits(text) && lo <= DigitsValue(text) <= hi
    then Some(DigitsValue(text)) else None
  }

  /** The numbers the directives denote, and the `datetime` constructor's own checks. */
  function Interpret(t: DateText): Option<DateTime> {
    var month := FieldValue(t.month, 1, 12);
    var day := FieldValue(t.day, 1, 31);
    var hour := FieldValue(t.hour, 0, 23);
    var minute := FieldValue(t.minute, 0, 59);
    var second := FieldValue(t.second, 0, 61);
    if |t.year| != 4 || !AllDigits(t.year) || month.None? || day.None? || hour.None?
      || minute.None? || second.None?
    then None
    else Construct(DigitsValue(t.year), month.value, day.value, hour.value, minute.value, second.value)
  }

  /** `datetime(year, month, day, hour, minute, second)` */
  function Construct(year: nat, month: nat, day: nat, hour: nat, minute: nat, second: nat): Option<DateTime>
    requires 1 <= month <= 12
  {
    if year < 1 || day > DaysInMonth(year, month) || second > 59 then None
    else Some(DateTime(year, month, day, hour, minute, second, 0))
  }

  /** `datetime.strptime(s, '%Y-%m-%d %H:%M:%S')` on a str. */
  function ParseDatetime(s: string): (r: Result<DateTime>)
    ensures r.Err? ==> r.error == BadDatetime(s)
  {
    match Match(FORMAT, s)
    case None => Err(BadDatetime(s))
    case Some(texts) =>
      assert |texts| == 6 by { assert FieldCount(FORMAT) == 6; }
      match Interpret(DateText(texts[0], texts[1], texts[2], texts[3], texts[4], texts[5]))
      case None => Err(BadDatetime(s))
      case Some(dt) => Ok(dt)
  }

  /** `n` in exactly `width` digits, with leading zeros. */
  function Pad(n: nat, width: nat): (s: string)
    ensures |s| == width && AllDigits(s)
  {
    if width == 0 then [] else Pad(n / 10, width - 1) + [DigitChar(n % 10)]
  }

  /** Six numbers written `YYYY-MM-DD HH:MM:SS`, each with leading zeros to its width. */
  function Layout(year: nat, month: nat, day: nat, hour: nat, minute: nat, second: nat): (s: string)
    ensures |s| == 19
  {
    Pad(year, 4) + ("-" + (Pad(month, 2) + ("-" + (Pad(day, 2)
      + (" " + (Pad(hour, 2) + (":" + (Pad(minute, 2) + (":" + Pad(second, 2))))))))))
  }

  /** `str(dt)` for a datetime without microseconds: `YYYY-MM-DD HH:MM:SS`, the form the
      provider sends. */
  function Format(dt: DateTime): string
    requires Valid(dt)
  {
    Layout(dt.year, dt.month, dt.day, dt.hour, dt.minute, dt.second)
  }

  // ---------------------------------------------------------------------------------
  // What a successful parse means.

  /** Whatever `strptime` accepts is a real date and time, with no microseconds. */
  lemma ParsedIsValid(s: string)
    requires ParseDatetime(s).Ok?
    ensures Valid(ParseDatetime(s).value) && ParseDatetime(s).value.microsecond == 0
  {
    AcceptedTexts(s);
    var texts := Match(FORMAT, s).value;
    InterpretIsValid(DateText(texts[0], texts[1], texts[2], texts[3], texts[4], texts[5]));
  }

  lemma InterpretIsValid(t: DateText)
    requires Interpret(t).Some?
    ensures Valid(Interpret(t).value) && Interpret(t).value.microsecond == 0
  {
    DigitsBelow(t.year);
  }

  // ---------------------------------------------------------------------------------
  // What `strptime` rejects.

  /** Accepted text holds nothing but digits, whitespace, `-` and `:`: an ISO `T` between
      date and time, a `Z` or a named time zone raises `ValueError`. (A numeric offset such
      as `-05:00` is made of these characters; `TrailingRejected` covers it.) */
  lemma ParsedText(s: string)
    requires ParseDatetime(s).Ok?
    ensures forall i | 0 <= i < |s| :: IsDigit(s[i]) || IsSpace(s[i]) || s[i] == '-' || s[i] == ':'
  {
    AcceptedTexts(s);
    var texts := Match(FORMAT, s).value;
    InterpretedDigits(DateText(texts[0], texts[1], texts[2], texts[3], texts[4], texts[5]));
    SixDigits(texts);
    FormatChars(s);
  }

  /** Accepted text matched the format, and its six captured texts passed the
      constructor's checks. */
  lemma AcceptedTexts(s: string)
    requires ParseDatetime(s).Ok?
    ensures Match(FORMAT, s).Some? && |Match(FORMAT, s).value| == 6
    ensures var t := Match(FORMAT, s).value;
      Interpret(DateText(t[0], t[1], t[2], t[3], t[4], t[5])).Some?
  {
    assert FieldCount(FORMAT) == 6;
  }

  lemma SixDigits(texts: seq<string>)
    requires |texts| == 6
    requires AllDigits(texts[0]) && AllDigits(texts[1]) && AllDigits(texts[2])
    requires AllDigits(texts[3]) && AllDigits(texts[4]) && AllDigits(texts[5])
    ensures forall k | 0 <= k < |texts| :: AllDigits(texts[k])
  {
    forall k | 0 <= k < |texts| ensures AllDigits(texts[k]) {
      assert k in {0, 1, 2, 3, 4, 5};
    }
  }

  lemma FormatChars(s: string)
    requires Match(FORMAT, s).Some?
    requires forall k | 0 <= k < |Match(FORMAT, s).value| :: AllDigits(Match(FORMAT, s).value[k])
    ensures forall i | 0 <= i < |s| :: IsDigit(s[i]) || IsSpace(s[i]) || s[i] == '-' || s[i] == ':'
  {
    MatchedChars(FORMAT, s);
    FormatLiterals();
  }

  /** Every text the constructor accepts is made of digits. */
  lemma InterpretedDigits(t: DateText)
    requires Interpret(t).Some?
    ensures AllDigits(t.year) && AllDigits(t.month) && AllDigits(t.day)
    ensures AllDigits(t.hour) && AllDigits(t.minute) && AllDigits(t.second)
  {
  }

  /** The only characters `FORMAT` matches literally are `-` and `:`. */
  lemma FormatLiterals()
    ensures forall c | Literal(c) in FORMAT :: c == '-' || c == ':'
  {
    forall c | Literal(c) in FORMAT ensures c == '-' || c == ':' {
      var k :| 0 <= k < |FORMAT| && FORMAT[k] == Literal(c);
    }
  }

  /** When every captured text is digits, each character of the input is a digit,
      whitespace, or a literal character of the format. */
  lemma {:induction false} MatchedChars(dirs: seq<Directive>, s: string)
    requires Match(dirs, s).Some?
    requires forall k | 0 <= k < |Match(dirs, s).value| :: AllDigits(Match(dirs, s).value[k])
    ensures forall i | 0 <= i < |s| :: IsDigit(s[i]) || IsSpace(s[i]) || Literal(s[i]) in dirs
    decreases |dirs|
  {
    if dirs != [] {
      var rest := dirs[1..];
      assert forall d | d in rest :: d in dirs;
      match dirs[0]
      case Literal(c) =>
        MatchedChars(rest, s[1..]);
        forall i | 0 < i < |s| ensures IsDigit(s[i]) || IsSpace(s[i]) || Literal(s[i]) in dirs {
          assert s[i] == s[1..][i - 1];
        }
      case Whitespace =>
        var w := LeadingSpace(s);
        MatchedChars(rest, s[w..]);
        forall i | w <= i < |s| ensures IsDigit(s[i]) || IsSpace(s[i]) || Literal(s[i]) in dirs {
          assert s[i] == s[w..][i - w];
        }
      case Field(kind) =>
        var start, end :=
          if kind == Day && s != [] && s[0] == ' ' then 1 else 0,
          if kind == Day && s != [] && s[0] == ' ' then (if |s| < 2 then |s| else 2)
          else FieldEnd(s, if |dirs| > 1 then Some(dirs[1]) else None);
        var texts := Match(dirs, s).value;
        var restTexts := Match(rest, s[end..]).value;
        assert texts == [s[start..end]] + restTexts;
        assert AllDigits(texts[0]);
        assert forall k | 0 <= k < |restTexts| :: restTexts[k] == texts[k + 1];
        MatchedChars(rest, s[end..]);
        forall i | 0 <= i < |s| ensures IsDigit(s[i]) || IsSpace(s[i]) || Literal(s[i]) in dirs {
          if i < start {
            assert s[i] == ' ';
          } else if i < end {
            assert s[i] == texts[0][i - start];
          } else {
            assert s[i] == s[end..][i - end];
          }
        }
    }
  }

  /** Four digits denote less than 10000. */
  lemma {:induction false} DigitsBelow(s: string)
    ensures DigitsValue(s) < Pow10(|s|)
    decreases |s|
  {
    if s != [] {
      DigitsBelow(s[..|s| - 1]);
    }
  }

  /** `Pad` reads back as the number it was given, when that number fits. */
  lemma {:induction false} PadValue(n: nat, width: nat)
    requires n < Pow10(width)
    ensures DigitsValue(Pad(n, width)) == n
    decreases width
  {
    if width > 0 {
      var s := Pad(n, width);
      assert s[..|s| - 1] == Pad(n / 10, width - 1);
      PadValue(n / 10, width - 1);
    }
  }

  // ---------------------------------------------------------------------------------
  // The round trip: the provider's `YYYY-MM-DD HH:MM:SS` strings are read back exactly.

  /** A field followed by a literal character captures everything up to that character. */
  lemma FieldThenLiteral(dirs: seq<Directive>, text: string, c: char, rest: string)
    requires |dirs| >= 2 && dirs[0].Field? && dirs[1] == Literal(c)
    requires c !in text && text != [] && text[0] != ' '
    ensures Match(dirs, text + ([c] + rest)) == Prepend(text, Match(dirs[2..], rest))
  {
    var s := text + ([c] + rest);
    assert s == text + [c] + rest;
    FindCharAt(text, c, rest);
    assert s[0] == text[0];
    assert s[..|text|] == text;
    assert s[|text|..] == [c] + rest;
    assert ([c] + rest)[1..] == rest;
    assert dirs[1..][1..] == dirs[2..];
  }

  /** A field followed by whitespace in the format captures everything up to the first
      whitespace character. */
  lemma FieldThenSpace(dirs: seq<Directive>, text: string, rest: string)
    requires |dirs| >= 2 && dirs[0].Field? && dirs[1] == Whitespace
    requires text != [] && forall i | 0 <= i < |text| :: !IsSpace(text[i])
    requires rest != [] && IsSpace(rest[0])
    ensures Match(dirs, text + rest) == Prepend(text, Match(dirs[1..], rest))
  {
    var s := text + rest;
    FindSpaceAt(text, rest);
    assert s[0] == text[0];
    assert s[..|text|] == text;
    assert s[|text|..] == rest;
  }

  /** One space before text that does not start with whitespace. */
  lemma SpaceThen(dirs: seq<Directive>, rest: string)
    requires dirs != [] && dirs[0] == Whitespace
    requires rest != [] && !IsSpace(rest[0])
    ensures Match(dirs, " " + rest) == Match(dirs[1..], rest)
  {
    LeadingSpaceAt(" ", rest);
    assert (" " + rest)[1..] == rest;
  }

  /** The last field captures all that is left. */
  lemma LastField(dirs: seq<Directive>, text: string)
    requires |dirs| == 1 && dirs[0].Field?
    requires text != [] && text[0] != ' '
    ensures Match(dirs, text) == Some([text])
  {
    assert text[..|text|] == text;
    assert text[|text|..] == [];
    assert dirs[1..] == [];
    assert [text] + [] == [text];
  }

  /** Digits, with none of the characters the format uses as separators. */
  predicate Plain(text: string) {
    text != [] && AllDigits(text)
  }

  lemma PlainHasNoSeparator(text: string)
    requires Plain(text)
    ensures '-' !in text && ':' !in text && text[0] != ' '
    ensures forall i | 0 <= i < |text| :: !IsSpace(text[i])
  {
    assert forall i | 0 <= i < |text| :: IsDigit(text[i]);
  }

  /** `HH:MM:SS` as the last three directives of `FORMAT` read it. */
  lemma MatchOfClock(h: string, mi: string, se: string)
    requires Plain(h) && Plain(mi) && se != [] && se[0] != ' '
    ensures Match(FORMAT[6..], h + (":" + (mi + (":" + se)))) == Some([h, mi, se])
  {
    PlainHasNoSeparator(h);
    PlainHasNoSeparator(mi);
    assert FORMAT[6..][2..] == FORMAT[8..];
    assert FORMAT[8..][2..] == FORMAT[10..];
    LastField(FORMAT[10..], se);
    FieldThenLiteral(FORMAT[8..], mi, ':', se);
    JoinFields(h, h, h, h, mi, se);
    FieldThenLiteral(FORMAT[6..], h, ':', mi + (":" + se));

  }

  /** `DD ` followed by a clock reading as `MatchOfClock` reads it. */
  lemma MatchOfDay(d: string, clock: string, fields: seq<string>)
    requires Plain(d)
    requires clock != [] && IsDigit(clock[0]) && Match(FORMAT[6..], clock) == Some(fields)
    ensures Match(FORMAT[4..], d + (" " + clock)) == Some([d] + fields)
  {
    PlainHasNoSeparator(d);
    assert FORMAT[4..][1..] == FORMAT[5..];
    assert FORMAT[5..][1..] == FORMAT[6..];
    SpaceThen(FORMAT[5..], clock);
    FieldThenSpace(FORMAT[4..], d, " " + clock);
  }

  /** `YYYY-MM-` followed by what `MatchOfDay` reads. */
  lemma MatchOfDate(y: string, mo: string, rest: string, fields: seq<string>)
    requires Plain(y) && Plain(mo)
    requires Match(FORMAT[4..], rest) == Some(fields)
    ensures Match(FORMAT, y + ("-" + (mo + ("-" + rest)))) == Some([y, mo] + fields)
  {
    PlainHasNoSeparator(y);
    PlainHasNoSeparator(mo);
    assert FORMAT[2..][2..] == FORMAT[4..];
    FieldThenLiteral(FORMAT[2..], mo, '-', rest);
    FieldThenLiteral(FORMAT, y, '-', mo + ("-" + rest));
    PrependPair(y, mo, fields);
  }

  /** Digit strings laid out as `Format` lays them out are read back field by field. The
      last field takes everything after the second colon. */
  lemma MatchOfFields(y: string, mo: string, d: string, h: string, mi: string, se: string)
    requires Plain(y) && Plain(mo) && Plain(d) && Plain(h) && Plain(mi) && se != [] && se[0] != ' '
    ensures Match(FORMAT, y + ("-" + (mo + ("-" + (d + (" " + (h + (":" + (mi + (":" + se))))))))))
      == Some([y, mo, d, h, mi, se])
  {
    var rest := d + (" " + (h + (":" + (mi + (":" + se)))));
    MatchOfTime(d, h, mi, se);
    MatchOfDate(y, mo, rest, [d, h, mi, se]);
    JoinFields(y, mo, d, h, mi, se);
  }

  /** `DD HH:MM:SS` as the last eight directives of `FORMAT` read it. */
  lemma MatchOfTime(d: string, h: string, mi: string, se: string)
    requires Plain(d) && Plain(h) && Plain(mi) && se != [] && se[0] != ' '
    ensures Match(FORMAT[4..], d + (" " + (h + (":" + (mi + (":" + se)))))) == Some([d, h, mi, se])
  {
    MatchOfClock(h, mi, se);
    var clock := h + (":" + (mi + (":" + se)));
    assert clock[0] == h[0];
    MatchOfDay(d, clock, [h, mi, se]);
    JoinFields(d, d, d, h, mi, se);
  }

  /** Two captured texts put in front of the rest. */
  lemma PrependPair<T>(a: T, b: T, rest: seq<T>)
    ensures [a] + ([b] + rest) == [a, b] + rest
  {
  }

  /** How the captured texts are joined into the six fields. */
  lemma JoinFields<T>(a: T, b: T, c: T, d: T, e: T, f: T)
    ensures [a, b] + [c, d, e, f] == [a, b, c, d, e, f]
    ensures [c] + [d, e, f] == [c, d, e, f]
    ensures [e] + [f] == [e, f] && [d] + [e, f] == [d, e, f]
  {
  }

  /** `Format` writes each field where the matcher looks for it. */
  lemma MatchOfFormat(dt: DateTime)
    requires Valid(dt)
    ensures Match(FORMAT, Format(dt)) == Some([Pad(dt.year, 4), Pad(dt.month, 2),
      Pad(dt.day, 2), Pad(dt.hour, 2), Pad(dt.minute, 2), Pad(dt.second, 2)])
  {
    MatchOfFields(Pad(dt.year, 4), Pad(dt.month, 2), Pad(dt.day, 2),
      Pad(dt.hour, 2), Pad(dt.minute, 2), Pad(dt.second, 2));
  }

  /** The padded fields denote the datetime's own numbers. */
  lemma InterpretOfFormat(dt: DateTime)
    requires Valid(dt) && dt.microsecond == 0
    ensures Interpret(DateText(Pad(dt.year, 4), Pad(dt.month, 2), Pad(dt.day, 2),
      Pad(dt.hour, 2), Pad(dt.minute, 2), Pad(dt.second, 2))) == Some(dt)
  {
    var t := DateText(Pad(dt.year, 4), Pad(dt.month, 2), Pad(dt.day, 2),
      Pad(dt.hour, 2), Pad(dt.minute, 2), Pad(dt.second, 2));
    assert Pow10(4) == 10000;
    PadValue(dt.year, 4);
    FieldOfPad(dt.month, 1, 12);
    FieldOfPad(dt.day, 1, 31);
    FieldOfPad(dt.hour, 0, 23);
    FieldOfPad(dt.minute, 0, 59);
    FieldOfPad(dt.second, 0, 61);
    InterpretFields(t, dt.year, dt.month, dt.day, dt.hour, dt.minute, dt.second);
  }

  /** Once every directive has its number, the constructor decides. */
  lemma InterpretFields(t: DateText, year: nat, month: nat, day: nat, hour: nat, minute: nat, second: nat)
    requires |t.year| == 4 && AllDigits(t.year) && DigitsValue(t.year) == year
    requires FieldValue(t.month, 1, 12) == Some(month) && FieldValue(t.day, 1, 31) == Some(day)
    requires FieldValue(t.hour, 0, 23) == Some(hour) && FieldValue(t.minute, 0, 59) == Some(minute)
    requires FieldValue(t.second, 0, 61) == Some(second)
    ensures 1 <= month <= 12
    ensures Interpret(t) == Construct(year, month, day, hour, minute, second)
  {
  }

  /** A two-digit field reads back as its number. */
  lemma FieldOfPad(n: nat, lo: nat, hi: nat)
    requires n < 100
    ensures FieldValue(Pad(n, 2), lo, hi) == if lo <= n <= hi then Some(n) else None
  {
    assert Pow10(2) == 100;
    PadValue(n, 2);
  }

  /** `strptime(str(dt), '%Y-%m-%d %H:%M:%S') == dt` for every datetime without
      microseconds. */
  lemma FormatRoundTrip(dt: DateTime)
    requires Valid(dt) && dt.microsecond == 0
    ensures ParseDatetime(Format(dt)) == Ok(dt)
  {
    MatchOfFormat(dt);
    InterpretOfFormat(dt);
  }

  /** `strptime` on six numbers laid out as `YYYY-MM-DD HH:MM:SS` returns exactly when they
      make a valid datetime, and then returns that datetime: `2023-02-29 00:00:00`,
      `2024-13-01 00:00:00` and `2024-01-01 00:00:60` all raise. */
  lemma LayoutParses(year: nat, month: nat, day: nat, hour: nat, minute: nat, second: nat)
    requires year < 10000 && month < 100 && day < 100 && hour < 100 && minute < 100 && second < 100
    ensures ParseDatetime(Layout(year, month, day, hour, minute, second)).Ok?
      <==> Valid(DateTime(year, month, day, hour, minute, second, 0))
    ensures ParseDatetime(Layout(year, month, day, hour, minute, second)).Ok? ==>
      ParseDatetime(Layout(year, month, day, hour, minute, second)).value
        == DateTime(year, month, day, hour, minute, second, 0)
  {
    MatchOfFields(Pad(year, 4), Pad(month, 2), Pad(day, 2), Pad(hour, 2), Pad(minute, 2), Pad(second, 2));
    InterpretOfPads(year, month, day, hour, minute, second);
  }

  /** The constructor's verdict on six padded numbers. */
  lemma InterpretOfPads(year: nat, month: nat, day: nat, hour: nat, minute: nat, second: nat)
    requires year < 10000 && month < 100 && day < 100 && hour < 100 && minute < 100 && second < 100
    ensures Interpret(DateText(Pad(year, 4), Pad(month, 2), Pad(day, 2), Pad(hour, 2),
      Pad(minute, 2), Pad(second, 2)))
      == if Valid(DateTime(year, month, day, hour, minute, second, 0))
         then Some(DateTime(year, month, day, hour, minute, second, 0)) else None
  {
    assert Pow10(4) == 10000;
    PadValue(year, 4);
    FieldOfPad(month, 1, 12);
    FieldOfPad(day, 1, 31);
    FieldOfPad(hour, 0, 23);
    FieldOfPad(minute, 0, 59);
    FieldOfPad(second, 0, 61);
  }

  /** Nothing may follow the seconds ("unconverted data remains"): a `Z`, a `-05:00`
      offset or a fraction of a second after a valid `YYYY-MM-DD HH:MM:SS` raises. */
  lemma TrailingRejected(dt: DateTime, z: string)
    requires Valid(dt) && z != []
    ensures ParseDatetime(Format(dt) + z).Err?
  {
    var y, mo, d := Pad(dt.year, 4), Pad(dt.month, 2), Pad(dt.day, 2);
    var h, mi, se := Pad(dt.hour, 2), Pad(dt.minute, 2), Pad(dt.second, 2);
    LayoutThen(dt.year, dt.month, dt.day, dt.hour, dt.minute, dt.second, z);
    MatchOfFields(y, mo, d, h, mi, se + z);
    LongSecondRejected(Format(dt) + z);
  }

  /** Text appended to a layout joins its seconds. */
  lemma LayoutThen(year: nat, month: nat, day: nat, hour: nat, minute: nat, second: nat, z: string)
    ensures Layout(year, month, day, hour, minute, second) + z
      == Pad(year, 4) + ("-" + (Pad(month, 2) + ("-" + (Pad(day, 2) + (" " + (Pad(hour, 2)
        + (":" + (Pad(minute, 2) + (":" + (Pad(second, 2) + z))))))))))
  {
  }

  /** Seconds written with more than two characters raise. */
  lemma LongSecondRejected(s: string)
    requires Match(FORMAT, s).Some? && |Match(FORMAT, s).value| == 6
    requires |Match(FORMAT, s).value[5]| > 2
    ensures ParseDatetime(s).Err?
  {
  }

  /** The datetime a successful parse returns holds the numbers written in the text, one
      per directive. */
  lemma ParsedFields(s: string)
    requires ParseDatetime(s).Ok?
    ensures Match(FORMAT, s).Some? && |Match(FORMAT, s).value| == 6
    ensures var t := Match(FORMAT, s).value;
      ParseDatetime(s).value == DateTime(DigitsValue(t[0]), DigitsValue(t[1]), DigitsValue(t[2]),
        DigitsValue(t[3]), DigitsValue(t[4]), DigitsValue(t[5]), 0)
  {
    AcceptedTexts(s);
    var t := Match(FORMAT, s).value;
    InterpretedValue(DateText(t[0], t[1], t[2], t[3], t[4], t[5]));
  }

  lemma InterpretedValue(t: DateText)
    requires Interpret(t).Some?
    ensures Interpret(t).value == DateTime(DigitsValue(t.year), DigitsValue(t.month),
      DigitsValue(t.day), DigitsValue(t.hour), DigitsValue(t.minute), DigitsValue(t.second), 0)
  {
  }

  // ---------------------------------------------------------------------------------
  // The order.

  /** `high * base + low`: one step of writing a number in mixed radix. */
  function Radix(high: int, low: int, base: nat): int {
    high * base + low
  }

  /** A point in time as a count of microseconds: the day, then the time of day. */
  function Ordinal(dt: DateTime): int {
    Radix(DayNumber(dt), ClockTime(dt), 86400000000)
  }

  /** The day as a count of days. Every month is given 31 days, which leaves gaps after the
      shorter months but never puts two dates out of order. */
  function DayNumber(dt: DateTime): int {
    Radix(Radix(dt.year, dt.month - 1, 12), dt.day - 1, 31)
  }

  /** The time of day in microseconds. */
  function ClockTime(dt: DateTime): int {
    Radix(Radix(Radix(dt.hour, dt.minute, 60), dt.second, 60), dt.microsecond, 1000000)
  }

  /** With digits in range, mixed-radix numbers compare by their high parts first. */
  lemma RadixOrder(h1: int, l1: int, h2: int, l2: int, base: nat)
    requires 0 <= l1 < base && 0 <= l2 < base
    ensures Radix(h1, l1, base) < Radix(h2, l2, base) <==> h1 < h2 || (h1 == h2 && l1 < l2)
    ensures Radix(h1, l1, base) == Radix(h2, l2, base) <==> h1 == h2 && l1 == l2
  {
    if h1 < h2 {
      MultipleAtLeast(h2 - h1, base);
      assert h2 * base - h1 * base == (h2 - h1) * base;
    } else if h2 < h1 {
      MultipleAtLeast(h1 - h2, base);
      assert h1 * base - h2 * base == (h1 - h2) * base;
    }
  }

  lemma {:induction false} MultipleAtLeast(d: int, base: nat)
    requires d >= 1
    ensures d * base >= base
    decreases d
  {
    if d > 1 {
      MultipleAtLeast(d - 1, base);
      assert d * base == (d - 1) * base + base;
    }
  }

  /** `game_date < today` compares the two instants: the field-by-field order is the order
      of `Ordinal`. */
  lemma BeforeIsOrdinal(a: DateTime, b: DateTime)
    requires Valid(a) && Valid(b)
    ensures Before(a, b) <==> Ordinal(a) < Ordinal(b)
  {
    DayOrder(a, b);
    ClockOrder(a, b);
    ClockTimeRange(a);
    ClockTimeRange(b);
    RadixOrder(DayNumber(a), ClockTime(a), DayNumber(b), ClockTime(b), 86400000000);
  }

  lemma ClockTimeRange(dt: DateTime)
    requires Valid(dt)
    ensures 0 <= ClockTime(dt) < 86400000000
  {
  }

  /** Day numbers compare as year, month and day do, most significant first. */
  lemma DayOrder(a: DateTime, b: DateTime)
    requires Valid(a) && Valid(b)
    ensures DayNumber(a) < DayNumber(b) <==>
      a.year < b.year || (a.year == b.year && (a.month < b.month || (a.month == b.month && a.day < b.day)))
    ensures DayNumber(a) == DayNumber(b) <==> a.year == b.year && a.month == b.month && a.day == b.day
  {
    RadixOrder(a.year, a.month - 1, b.year, b.month - 1, 12);
    RadixOrder(Radix(a.year, a.month - 1, 12), a.day - 1, Radix(b.year, b.month - 1, 12), b.day - 1, 31);
  }

  /** Times of day compare as hour, minute, second and microsecond do. */
  lemma ClockOrder(a: DateTime, b: DateTime)
    requires Valid(a) && Valid(b)
    ensures ClockTime(a) < ClockTime(b) <==>
      a.hour < b.hour || (a.hour == b.hour && (a.minute < b.minute || (a.minute == b.minute
        && (a.second < b.second || (a.second == b.second && a.microsecond < b.microsecond)))))
    ensures ClockTime(a) == ClockTime(b) <==>
      a.hour == b.hour && a.minute == b.minute && a.second == b.second && a.microsecond == b.microsecond
  {
    var ma := Radix(a.hour, a.minute, 60);
    var mb := Radix(b.hour, b.minute, 60);
    RadixOrder(a.hour, a.minute, b.hour, b.minute, 60);
    RadixOrder(ma, a.second, mb, b.second, 60);
    RadixOrder(Radix(ma, a.second, 60), a.microsecond, Radix(mb, b.second, 60), b.microsecond, 1000000);
  }

  lemma BeforeIsStrict(a: DateTime, b: DateTime, c: DateTime)
    ensures !Before(a, a)
    ensures Before(a, b) ==> !Before(b, a)
    ensures Before(a, b) && Before(b, c) ==> Before(a, c)
    ensures a == b || Before(a, b) || Before(b, a)
  {
  }
}
