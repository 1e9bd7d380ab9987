/**
  The timestamp the header shows (`nowString`): `YYYY-MM-DD HH:MM:SS` in local
  time, every field but the year padded to two digits.  The clock is not part
  of the model: its readings are parameters.
 */
module Timestamp {

  import opened JsString
  import opened HeaderScan

  predicate IsDigit(c: char)
  {
    '0' <= c <= '9'
  }

  /** The character of a decimal digit. */
  function DigitChar(d: nat): (c: char)
    requires d < 10
    ensures IsDigit(c) && DigitValue(c) == d
  {
    ('0' as int + d) as char
  }

  /** The value of a decimal digit character. */
  function DigitValue(c: char): (d: nat)
    requires IsDigit(c)
    ensures d < 10
  {
    c as int - '0' as int
  }

  predicate AllDigits(s: string)
  {
    forall k :: 0 <= k < |s| ==> IsDigit(s[k])
  }

  /** The value a string of decimal digits denotes. */
  function DigitsValue(s: string): nat
    requires AllDigits(s)
  {
    if s == [] then 0 else DigitsValue(s[..|s| - 1]) * 10 + DigitValue(s[|s| - 1])
  }

  /** `n.toString()` for a non-negative integer: its decimal digits, without leading zeros. */
  function DecimalString(n: nat): (s: string)
    ensures s != [] && AllDigits(s)
    decreases n
  {
    if n < 10 then [DigitChar(n)] else DecimalString(n / 10) + [DigitChar(n % 10)]
  }

  /** The decimal digits denote the number they were written from. */
  lemma {:induction false} DecimalStringValue(n: nat)
    ensures DigitsValue(DecimalString(n)) == n
    decreases n
  {
    var s := DecimalString(n);
    if n >= 10 {
      DecimalStringValue(n / 10);
      assert s[..|s| - 1] == DecimalString(n / 10);
    }
  }

  /** A number below 10^w has at most `w` digits, and one of at least 10^(w-1)
      has at least `w`: a year from 1000 to 9999 has exactly four. */
  lemma {:induction false} DecimalStringLength(n: nat, w: nat)
    requires 1 <= w
    ensures n < Pow10(w) ==> |DecimalString(n)| <= w
    ensures n >= Pow10(w - 1) ==> |DecimalString(n)| >= w
    decreases n
  {
    if n >= 10 {
      if w > 1 {
        DecimalStringLength(n / 10, w - 1);
      } else {
        assert n >= Pow10(w - 1);
      }
    }
  }

  function Pow10(w: nat): (p: nat)
    ensures p >= 1
  {
    if w == 0 then 1 else 10 * Pow10(w - 1)
  }

  /** `pad(n)`: the digits of `n` with a leading `0` when there is only one. */
  function Pad2(n: nat): (s: string)
    ensures |s| >= 2 && AllDigits(s)
  {
    PadStart(DecimalString(n), 2, '0')
  }

  /** Below 100, `pad` gives the tens and the units digit, which read back as `n`. */
  lemma Pad2Digits(n: nat)
    requires n < 100
    ensures Pad2(n) == [DigitChar(n / 10), DigitChar(n % 10)]
    ensures DigitsValue(Pad2(n)) == n
  {
    var s := Pad2(n);
    if n >= 10 {
      assert DecimalString(n / 10) == [DigitChar(n / 10)];
    } else {
      assert DigitChar(0) == '0';
    }
    assert s[..1] == [DigitChar(n / 10)];
    assert DigitsValue(s[..1]) == n / 10;
  }

  /** The template `nowString` fills: date, space, time. */
  function Layout(year: string, month: string, day: string, hours: string, minutes: string,
                  seconds: string): string
  {
    year + "-" + month + "-" + day + " " + hours + ":" + minutes + ":" + seconds
  }

  /** `nowString()` for the clock's readings: the full year, the month counted
      from 0, the day of the month and the time of day. */
  function NowString(year: nat, month0: nat, day: nat, hours: nat, minutes: nat, seconds: nat): string
  {
    Layout(DecimalString(year), Pad2(month0 + 1), Pad2(day), Pad2(hours), Pad2(minutes), Pad2(seconds))
  }

  /** Characters a timestamp may hold: of the `Created:` class, no asterisk, no newline. */
  predicate StampChars(s: string)
  {
    forall k :: 0 <= k < |s| ==> InStampClass(s[k]) && s[k] != '*' && s[k] != '\n'
  }

  /** Digit fields laid out by the template give a timestamp the `Created:`
      pattern gives back whole. */
  lemma LayoutIsStamp(y: string, mo: string, d: string, h: string, mi: string, sec: string)
    requires y != [] && sec != []
    requires AllDigits(y) && AllDigits(mo) && AllDigits(d) && AllDigits(h) && AllDigits(mi) && AllDigits(sec)
    ensures var s := Layout(y, mo, d, h, mi, sec);
            StampChars(s) && s[0] == y[0] && s[|s| - 1] == sec[|sec| - 1]
  {
  }

  /** Whatever the clock reads, the timestamp is one the `Created:` pattern
      gives back whole, with no asterisk and no newline in it. */
  lemma NowStringIsStamp(year: nat, month0: nat, day: nat, hours: nat, minutes: nat, seconds: nat)
    ensures var s := NowString(year, month0, day, hours, minutes, seconds);
            StampField(s) && '*' !in s && '\n' !in s
  {
    var y, sec := DecimalString(year), Pad2(seconds);
    var s := NowString(year, month0, day, hours, minutes, seconds);
    LayoutIsStamp(y, Pad2(month0 + 1), Pad2(day), Pad2(hours), Pad2(minutes), sec);
    assert IsDigit(s[0]) && IsDigit(s[|s| - 1]) by {
      assert IsDigit(y[0]) && IsDigit(sec[|sec| - 1]);
    }
    assert forall k :: 0 <= k < |s| ==> InStampClass(s[k]) && s[k] != '*' && s[k] != '\n';
  }

  /** With a four-character year and two-character fields the template puts
      every field at a fixed column of a 19-character line. */
  lemma LayoutColumns(y: string, mo: string, d: string, h: string, mi: string, sec: string)
    requires |y| == 4 && |mo| == 2 && |d| == 2 && |h| == 2 && |mi| == 2 && |sec| == 2
    ensures var s := Layout(y, mo, d, h, mi, sec);
            |s| == 19 && s[4] == '-' && s[7] == '-' && s[10] == ' ' && s[13] == ':' && s[16] == ':'
            && s[0..4] == y && s[5..7] == mo && s[8..10] == d && s[11..13] == h && s[14..16] == mi
            && s[17..19] == sec
  {
    var s := Layout(y, mo, d, h, mi, sec);
    var date := y + "-" + mo + "-" + d;
    var time := h + ":" + mi + ":" + sec;
    assert s == date + " " + time;
    assert date[4] == '-' && date[7] == '-' && date[0..4] == y && date[5..7] == mo && date[8..10] == d;
    assert time[2] == ':' && time[5] == ':' && time[0..2] == h && time[3..5] == mi && time[6..8] == sec;
    assert s[0..10] == date && s[11..19] == time;
  }

  /** Readings the calendar and the clock can give. */
  predicate ValidReading(year: nat, month0: nat, day: nat, hours: nat, minutes: nat, seconds: nat)
  {
    1000 <= year <= 9999 && month0 < 12 && 1 <= day <= 31 && hours < 24 && minutes < 60 && seconds < 60
  }

  /** For a four-digit year the timestamp is 19 characters wide, its fields sit
      at fixed columns, and each field reads back as the reading it shows, the
      month counted from 1. */
  lemma NowStringFields(year: nat, month0: nat, day: nat, hours: nat, minutes: nat, seconds: nat)
    requires ValidReading(year, month0, day, hours, minutes, seconds)
    ensures var s := NowString(year, month0, day, hours, minutes, seconds);
            |s| == 19 && s[4] == '-' && s[7] == '-' && s[10] == ' ' && s[13] == ':' && s[16] == ':'
            && AllDigits(s[0..4]) && DigitsValue(s[0..4]) == year
            && AllDigits(s[5..7]) && DigitsValue(s[5..7]) == month0 + 1
            && AllDigits(s[8..10]) && DigitsValue(s[8..10]) == day
            && AllDigits(s[11..13]) && DigitsValue(s[11..13]) == hours
            && AllDigits(s[14..16]) && DigitsValue(s[14..16]) == minutes
            && AllDigits(s[17..19]) && DigitsValue(s[17..19]) == seconds
  {
    var y, mo, d := DecimalString(year), Pad2(month0 + 1), Pad2(day);
    var h, mi, sec := Pad2(hours), Pad2(minutes), Pad2(seconds);
    DecimalStringLength(year, 4);
    DecimalStringValue(year);
    Pad2Digits(month0 + 1);
    Pad2Digits(day);
    Pad2Digits(hours);
    Pad2Digits(minutes);
    Pad2Digits(seconds);
    LayoutFields(y, mo, d, h, mi, sec, year, month0 + 1, day, hours, minutes, seconds);
  }

  /** Digit fields of the template's widths sit at fixed columns and read back
      as the values they show. */
  lemma LayoutFields(y: string, mo: string, d: string, h: string, mi: string, sec: string,
                     vy: nat, vmo: nat, vd: nat, vh: nat, vmi: nat, vsec: nat)
    requires |y| == 4 && |mo| == 2 && |d| == 2 && |h| == 2 && |mi| == 2 && |sec| == 2
    requires AllDigits(y) && DigitsValue(y) == vy && AllDigits(mo) && DigitsValue(mo) == vmo
    requires AllDigits(d) && DigitsValue(d) == vd && AllDigits(h) && DigitsValue(h) == vh
    requires AllDigits(mi) && DigitsValue(mi) == vmi && AllDigits(sec) && DigitsValue(sec) == vsec
    ensures var s := Layout(y, mo, d, h, mi, sec);
            |s| == 19 && s[4] == '-' && s[7] == '-' && s[10] == ' ' && s[13] == ':' && s[16] == ':'
            && AllDigits(s[0..4]) && DigitsValue(s[0..4]) == vy
            && AllDigits(s[5..7]) && DigitsValue(s[5..7]) == vmo
            && AllDigits(s[8..10]) && DigitsValue(s[8..10]) == vd
            && AllDigits(s[11..13]) && DigitsValue(s[11..13]) == vh
            && AllDigits(s[14..16]) && DigitsValue(s[14..16]) == vmi
            && AllDigits(s[17..19]) && DigitsValue(s[17..19]) == vsec
  {
    LayoutColumns(y, mo, d, h, mi, sec);
  }
}
