/**
 The sounding time stamp of the Skew-T tool
 (courses/python-workshop-master/failing_notebooks/skewt.py): the date and
 hour arguments are joined and parsed with the format `%Y%m%d%H` (line 102),
 and written back with `%Y%m%d_%HZ` when the figure file is named (line 110).
 */
module Timestamp {
  import opened Wrappers
  import opened Digits

  /** A calendar date and hour, as a `datetime` with zero minutes. */
  datatype Stamp = Stamp(year: nat, month: nat, day: nat, hour: nat)

  /** The Gregorian leap-year rule the calendar uses. */
  predicate IsLeapYear(year: nat)
  {
    year % 4 == 0 && (year % 100 != 0 || year % 400 == 0)
  }

  function DaysInMonth(year: nat, month: nat): (days: nat)
    requires 1 <= month <= 12
  {
    if month == 2 then (if IsLeapYear(year) then 29 else 28)
    else if month == 4 || month == 6 || month == 9 || month == 11 then 30
    else 31
  }

  /** The stamps a `datetime` can hold: years 1 to 9999, real calendar days, hours 0 to 23. */
  predicate ValidStamp(st: Stamp)
  {
    && 1 <= st.year <= 9999
    && 1 <= st.month <= 12
    && 1 <= st.day <= DaysInMonth(st.year, st.month)
    && st.hour <= 23
  }

  /** The `%Y%m%d%H` rendering: four year digits, then two each for month, day and hour. */
  function StampDigits(st: Stamp): (text: string)
    ensures |text| == 10 && AllDigits(text)
  {
    Pad(st.year, 4) + Pad(st.month, 2) + Pad(st.day, 2) + Pad(st.hour, 2)
  }

  /** Ten ASCII digits: the joined date and hour the parse is modelled on. */
  predicate TenDigits(text: string)
  {
    |text| == 10 && AllDigits(text)
  }

  /**
   Ten digits whose month, day and hour fields fall in the ranges the `%m`,
   `%d` and `%H` patterns accept at full width. The four fields are at most
   4, 2, 2 and 2 characters wide, so on ten characters only the full-width
   split can cover the whole text; any other match leaves data unconverted.
   */
  predicate WellFormedText(text: string)
  {
    && TenDigits(text)
    && 1 <= Decimal(text[4..6]) <= 12
    && 1 <= Decimal(text[6..8]) <= 31
    && Decimal(text[8..10]) <= 23
  }

  /** `ValueError` raised by the parser. */
  datatype ParseError =
    | FormatMismatch  // the `%Y%m%d%H` pattern does not cover the whole text
    | DateOutOfRange  // the fields match but name no calendar day: year 0, or a day past the month's end

  /** `datetime.strptime(text, '%Y%m%d%H')` on ten digits. */
  function ParseStamp(text: string): (r: Result<Stamp, ParseError>)
    requires TenDigits(text)
    ensures r.Success? ==> ValidStamp(r.value) && StampDigits(r.value) == text
    ensures r == Failure(FormatMismatch) <==> !WellFormedText(text)
  {
    if !WellFormedText(text) then Failure(FormatMismatch)
    else
      var year := Decimal(text[..4]);
      var month := Decimal(text[4..6]);
      var day := Decimal(text[6..8]);
      var hour := Decimal(text[8..10]);
      if year == 0 || DaysInMonth(year, month) < day then Failure(DateOutOfRange)
      else
        FieldsRenderText(text);
        Success(Stamp(year, month, day, hour))
  }

  /** Re-rendering the four fields read from well-formed text gives the text. */
  lemma FieldsRenderText(text: string)
    requires WellFormedText(text)
    ensures Decimal(text[..4]) <= 9999
    ensures StampDigits(Stamp(Decimal(text[..4]), Decimal(text[4..6]), Decimal(text[6..8]), Decimal(text[8..10]))) == text
  {
    var y, m, d, h := text[..4], text[4..6], text[6..8], text[8..10];
    assert Decimal(y) <= 9999 by {
      assert Pow10(|y|) == 10000;
    }
    assert Pad(Decimal(y), 4) == y by { PadDecimal(y); }
    assert Pad(Decimal(m), 2) == m by { PadDecimal(m); }
    assert Pad(Decimal(d), 2) == d by { PadDecimal(d); }
    assert Pad(Decimal(h), 2) == h by { PadDecimal(h); }
    assert text == y + m + d + h;
  }

  /** `datetime.strftime(stamp, '%Y%m%d_%HZ')`. */
  function FormatStamp(st: Stamp): (r: string)
    ensures |r| == 12 && r[8] == '_' && r[11] == 'Z'
    ensures r[..8] + r[9..11] == StampDigits(st)
  {
    var r := Pad(st.year, 4) + Pad(st.month, 2) + Pad(st.day, 2) + "_" + Pad(st.hour, 2) + "Z";
    assert r[..8] == Pad(st.year, 4) + Pad(st.month, 2) + Pad(st.day, 2);
    assert r[9..11] == Pad(st.hour, 2);
    r
  }

  /** Every valid stamp is rendered as well-formed text, and parsing that text gives the stamp back. */
  lemma {:induction false} ParseStampDigits(st: Stamp)
    requires ValidStamp(st)
    ensures WellFormedText(StampDigits(st))
    ensures ParseStamp(StampDigits(st)) == Success(st)
  {
    var y, m, d, h := Pad(st.year, 4), Pad(st.month, 2), Pad(st.day, 2), Pad(st.hour, 2);
    var text := StampDigits(st);
    assert text[..4] == y && text[4..6] == m && text[6..8] == d && text[8..10] == h;
  }

  /** Two valid stamps with the same `%Y%m%d%H` rendering are the same stamp. */
  lemma StampDigitsInjective(a: Stamp, b: Stamp)
    requires ValidStamp(a) && ValidStamp(b) && StampDigits(a) == StampDigits(b)
    ensures a == b
  {
    ParseStampDigits(a);
    ParseStampDigits(b);
  }

  /** Parsing fails exactly when no valid stamp is rendered as the text. */
  lemma ParseFailsOnlyOffCalendar(text: string)
    requires TenDigits(text)
    ensures ParseStamp(text).Failure? <==> forall st :: ValidStamp(st) ==> StampDigits(st) != text
  {
    if ParseStamp(text).Failure? {
      forall st | ValidStamp(st)
        ensures StampDigits(st) != text
      {
        if StampDigits(st) == text {
          ParseStampDigits(st);
        }
      }
    }
  }

  /** Line 102 then line 110: an 8-digit date and a 2-digit hour come back verbatim around `_` and `Z`. */
  lemma StampRoundTrip(date: string, hour: string)
    requires |date| == 8 && |hour| == 2 && TenDigits(date + hour)
    requires ParseStamp(date + hour).Success?
    ensures FormatStamp(ParseStamp(date + hour).value) == date + "_" + hour + "Z"
  {
    var text := date + hour;
    var r := FormatStamp(ParseStamp(text).value);
    assert r[..8] + r[9..11] == text;
    assert r[..8] == date && r[9..11] == hour;
    assert r == r[..8] + [r[8]] + r[9..11] + [r[11]];
  }
}
