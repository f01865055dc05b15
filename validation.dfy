/**
 * Input checks of the contact store: the phone-number shape check, the
 * `DD.MM.YYYY` birthday text (parsed as `strptime('%d.%m.%Y')` does and printed
 * as `strftime('%d.%m.%Y')` does), and the two-step guard in front of
 * `Record.add_birthday`.
 */
module Validation {
  import opened Wrappers
  import opened Calendar

  predicate IsDigit(c: char) {
    '0' <= c <= '9'
  }

  /** A character that regular expressions count as part of a word (`\w`). */
  predicate IsWordChar(c: char) {
    IsDigit(c) || 'a' <= c <= 'z' || 'A' <= c <= 'Z' || c == '_'
  }

  /** `str.isdigit()`: false on the empty string, otherwise every character is a digit. */
  function IsDigitString(s: string): (b: bool)
    ensures b <==> |s| > 0 && forall i :: 0 <= i < |s| ==> IsDigit(s[i])
  {
    if |s| == 0 then false
    else if |s| == 1 then IsDigit(s[0])
    else IsDigit(s[0]) && IsDigitString(s[1..])
  }

  /** `phone_validation`: ten characters, all of them digits. */
  function PhoneValidation(phone: string): (ok: bool)
    ensures ok <==> |phone| == 10 && forall i :: 0 <= i < |phone| ==> IsDigit(phone[i])
  {
    |phone| == 10 && IsDigitString(phone)
  }

  /** The ten characters of `s` from position `i` on read `\d{2}\.\d{2}\.\d{4}`. */
  predicate ShapedAt(s: string, i: int)
    requires 0 <= i && i + 10 <= |s|
  {
    IsDigit(s[i]) && IsDigit(s[i + 1]) && s[i + 2] == '.'
    && IsDigit(s[i + 3]) && IsDigit(s[i + 4]) && s[i + 5] == '.'
    && IsDigit(s[i + 6]) && IsDigit(s[i + 7]) && IsDigit(s[i + 8]) && IsDigit(s[i + 9])
  }

  /** A match of `\b\d{2}\.\d{2}\.\d{4}` starts at `i`: the shape, preceded by the start of the text or a non-word character. */
  predicate MatchesAt(s: string, i: int)
    requires 0 <= i && i + 10 <= |s|
  {
    ShapedAt(s, i) && (i == 0 || !IsWordChar(s[i - 1]))
  }

  /** `re.search(r'\b\d{2}\.\d{2}\.\d{4}', s)` finds a match. */
  predicate HasDateShape(s: string) {
    exists i :: 0 <= i && i + 10 <= |s| && MatchesAt(s, i)
  }

  function DigitValue(c: char): int {
    c as int - '0' as int
  }

  function DigitChar(n: int): char
    requires 0 <= n < 10
  {
    ('0' as int + n) as char
  }

  function Pad2(n: int): string
    requires 0 <= n < 100
  {
    [DigitChar(n / 10), DigitChar(n % 10)]
  }

  function Pad4(n: int): string
    requires 0 <= n < 10000
  {
    Pad2(n / 100) + Pad2(n % 100)
  }

  /** Day and month zero-padded to two digits and the year to four, separated by dots. */
  function FormatFields(day: int, month: int, year: int): (s: string)
    requires 0 <= day < 100 && 0 <= month < 100 && 0 <= year < 10000
    ensures |s| == 10 && ShapedAt(s, 0)
  {
    Pad2(day) + "." + Pad2(month) + "." + Pad4(year)
  }

  /** `Birthday.__str__`: `strftime('%d.%m.%Y')`. */
  function FormatDate(d: Date): (s: string)
    requires ValidDate(d)
    ensures |s| == 10 && ShapedAt(s, 0)
  {
    FormatFields(d.day, d.month, d.year)
  }

  /** The day, month and year a `DD.MM.YYYY` text spells, before any range check. */
  function FieldsOf(s: string): Date
    requires |s| == 10
  {
    Date(10 * DigitValue(s[0]) + DigitValue(s[1]),
         10 * DigitValue(s[3]) + DigitValue(s[4]),
         1000 * DigitValue(s[6]) + 100 * DigitValue(s[7]) + 10 * DigitValue(s[8]) + DigitValue(s[9]))
  }

  /**
   * `datetime.strptime(s, '%d.%m.%Y')` on a text that has a date-shaped match:
   * the whole text must be `DD.MM.YYYY` and name a day that exists.
   */
  function ParseDate(s: string): (r: Option<Date>)
    ensures r.Some? ==> ValidDate(r.value) && FormatDate(r.value) == s
  {
    if |s| == 10 && ShapedAt(s, 0) then
      var d := FieldsOf(s);
      if ValidDate(d) then
        FormatParsed(s);
        Some(d)
      else None
    else None
  }

  /** Reprinting the fields of a `DD.MM.YYYY` text gives the text back. */
  lemma FormatParsed(s: string)
    requires |s| == 10 && ShapedAt(s, 0)
    ensures var d := FieldsOf(s); FormatFields(d.day, d.month, d.year) == s
  {
    var d := FieldsOf(s);
    PadTwoDigits(s[0], s[1]);
    PadTwoDigits(s[3], s[4]);
    PadFourDigits(s[6], s[7], s[8], s[9]);
    assert FormatFields(d.day, d.month, d.year) == [s[0], s[1], '.', s[3], s[4], '.', s[6], s[7], s[8], s[9]];
  }

  lemma PadTwoDigits(a: char, b: char)
    requires IsDigit(a) && IsDigit(b)
    ensures Pad2(10 * DigitValue(a) + DigitValue(b)) == [a, b]
  {
  }

  lemma PadFourDigits(a: char, b: char, c: char, e: char)
    requires IsDigit(a) && IsDigit(b) && IsDigit(c) && IsDigit(e)
    ensures Pad4(1000 * DigitValue(a) + 100 * DigitValue(b) + 10 * DigitValue(c) + DigitValue(e)) == [a, b, c, e]
  {
    var hi := 10 * DigitValue(a) + DigitValue(b);
    var lo := 10 * DigitValue(c) + DigitValue(e);
    PadTwoDigits(a, b);
    PadTwoDigits(c, e);
    var y := 100 * hi + lo;
    assert y / 100 == hi && y % 100 == lo;
  }

  /** Printing a birthday and reading it back gives the same date. */
  lemma ParseFormat(d: Date)
    requires ValidDate(d)
    ensures ParseDate(FormatDate(d)) == Some(d)
  {
    FieldsRead(d.day, d.month, d.year);
  }

  /** The fields of printed numbers are those numbers. */
  lemma FieldsRead(day: int, month: int, year: int)
    requires 0 <= day < 100 && 0 <= month < 100 && 0 <= year < 10000
    ensures FieldsOf(FormatFields(day, month, year)) == Date(day, month, year)
  {
    var s := FormatFields(day, month, year);
    ReadPad2(day);
    ReadPad2(month);
    ReadPad4(year);
    assert s[0..2] == Pad2(day) && s[3..5] == Pad2(month) && s[6..10] == Pad4(year);
  }

  lemma ReadPad2(n: int)
    requires 0 <= n < 100
    ensures var p := Pad2(n); IsDigit(p[0]) && IsDigit(p[1]) && 10 * DigitValue(p[0]) + DigitValue(p[1]) == n
  {
  }

  lemma ReadPad4(n: int)
    requires 0 <= n < 10000
    ensures var p := Pad4(n);
      IsDigit(p[0]) && IsDigit(p[1]) && IsDigit(p[2]) && IsDigit(p[3])
      && 1000 * DigitValue(p[0]) + 100 * DigitValue(p[1]) + 10 * DigitValue(p[2]) + DigitValue(p[3]) == n
  {
    ReadPad2(n / 100);
    ReadPad2(n % 100);
    assert Pad4(n) == Pad2(n / 100) + Pad2(n % 100);
  }

  /** The three outcomes of the `birthday_error_check` guard. */
  datatype Guard = BadFormat | InvalidDate | Accepted(date: Date)

  /**
   * `birthday_error_check`: no date-shaped match is a format error; a match that
   * `strptime` rejects is an invalid date; otherwise the wrapped call goes ahead.
   */
  function BirthdayGuard(text: string): (g: Guard)
    ensures g.BadFormat? <==> !HasDateShape(text)
    ensures g.Accepted? <==> ParseDate(text).Some?
    ensures g.Accepted? ==> ValidDate(g.date) && FormatDate(g.date) == text
  {
    if !HasDateShape(text) then
      ParsedIsShaped(text);
      BadFormat
    else
      match ParseDate(text)
      case None => InvalidDate
      case Some(d) => Accepted(d)
  }

  /** Every text the whole-text `DD.MM.YYYY` parse accepts also passes the regular-expression search. */
  lemma ParsedIsShaped(s: string)
    ensures ParseDate(s).Some? ==> HasDateShape(s)
  {
    if ParseDate(s).Some? {
      assert MatchesAt(s, 0);
    }
  }

  /** The search finds a date anywhere in a text, as long as no word character runs into its first digit. */
  lemma ShapeAfterBoundary(pre: string, date: string, post: string)
    requires |date| == 10 && ShapedAt(date, 0)
    requires pre == [] || !IsWordChar(pre[|pre| - 1])
    ensures HasDateShape(pre + date + post)
  {
    var t := pre + date + post;
    forall j | 0 <= j < 10
      ensures t[|pre| + j] == date[j]
    {
    }
    assert MatchesAt(t, |pre|);
  }

  /** `\b`: a word character right before the digits hides the date from the search. */
  lemma WordBeforeDate()
    ensures !HasDateShape("a01.02.2020")
  {
    var t := "a01.02.2020";
    forall i | 0 <= i && i + 10 <= |t|
      ensures !MatchesAt(t, i)
    {
      if i == 0 {
        assert !IsDigit(t[0]);
      } else {
        assert i == 1 && IsWordChar(t[0]);
      }
    }
  }

  /** The text the guard returns instead of calling `add_birthday`; the two rejections read differently. */
  function GuardMessage(g: Guard): (m: string)
    requires !g.Accepted?
    ensures m == "Enter a valid date!" <==> g == InvalidDate
    ensures m == "Enter birthday as DD.MM.YYYY!" <==> g == BadFormat
  {
    if g.BadFormat? then "Enter birthday as DD.MM.YYYY!" else "Enter a valid date!"
  }

  /**
   * The search is stricter than `strptime`: a one-digit day or a day padded
   * with a space names a real date, yet the guard answers with the format hint.
   */
  lemma ShortFieldsHidden()
    ensures BirthdayGuard("1.2.2020") == BadFormat
    ensures BirthdayGuard(" 1.02.2020") == BadFormat
  {
    var t := " 1.02.2020";
    assert !IsDigit(t[0]) && !MatchesAt(t, 0);
  }

  /** 31 February 2020 has the right shape but no such day exists. */
  lemma ThirtyFirstOfFebruary()
    ensures BirthdayGuard("31.02.2020") == InvalidDate
  {
    assert MatchesAt("31.02.2020", 0);
  }
}
