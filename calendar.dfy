/**
 * Calendar date-times as the ingestion scripts use them: what
 * `datetime.strptime(t, "%Y-%m-%d %H:%M:%S")` accepts, the order SQL uses on
 * `created_at`, and truncation to the minute (`strftime("%Y-%m-%d %H:%M")`).
 */
module Calendar {
  import opened Wrappers
  import opened Text

  datatype DateTime = DateTime(year: int, month: int, day: int, hour: int, minute: int, second: int)

  /** Gregorian leap years, as Python's `calendar.isleap`. */
  predicate IsLeapYear(y: int) {
    y % 4 == 0 && (y % 100 != 0 || y % 400 == 0)
  }

  function DaysInMonth(year: int, month: int): int
    requires 1 <= month <= 12
  {
    if month == 2 then (if IsLeapYear(year) then 29 else 28)
    else if month == 4 || month == 6 || month == 9 || month == 11 then 30
    else 31
  }

  /**
   * The values Python's `datetime` constructor admits: years 1 to 9999, a real day
   * of the month, hours 0-23, minutes and seconds 0-59.
   */
  predicate IsValid(dt: DateTime) {
    && 1 <= dt.year <= 9999
    && 1 <= dt.month <= 12
    && 1 <= dt.day <= DaysInMonth(dt.year, dt.month)
    && 0 <= dt.hour <= 23
    && 0 <= dt.minute <= 59
    && 0 <= dt.second <= 59
  }

  /** The fixed-width text `DDDD-DD-DD DD:DD:DD` (digits `\d` at the D positions). */
  predicate TimestampShape(t: string) {
    && |t| == 19
    && DigitText(t[0..4]) && t[4] == '-'
    && DigitText(t[5..7]) && t[7] == '-'
    && DigitText(t[8..10]) && t[10] == ' '
    && DigitText(t[11..13]) && t[13] == ':'
    && DigitText(t[14..16]) && t[16] == ':'
    && DigitText(t[17..19])
  }

  /** The six numbers written in a text of that shape, whether or not they form a date. */
  function FieldsOf(t: string): DateTime
    requires TimestampShape(t)
  {
    DateTime(DigitsValue(t[0..4]), DigitsValue(t[5..7]), DigitsValue(t[8..10]),
             DigitsValue(t[11..13]), DigitsValue(t[14..16]), DigitsValue(t[17..19]))
  }

  /**
   * `datetime.strptime(t, "%Y-%m-%d %H:%M:%S")` on a text of the fixed-width shape:
   * `None` stands for the `ValueError` it raises on month 13, day 31 of a 30-day
   * month, 29 February of a common year, hour 24, second 60 or year 0000.
   */
  function Strptime(t: string): (r: Option<DateTime>)
    requires TimestampShape(t)
    ensures r.Some? ==> IsValid(r.value)
    ensures r.Some? <==> IsValid(FieldsOf(t))
  {
    if IsValid(FieldsOf(t)) then Some(FieldsOf(t)) else None
  }

  /** `dt.strftime("%Y-%m-%d %H:%M:%S")` for a valid date-time. */
  function Format(dt: DateTime): (t: string)
    requires IsValid(dt)
  {
    PadDigits(dt.year, 4) + "-" + PadDigits(dt.month, 2) + "-" + PadDigits(dt.day, 2) + " "
    + PadDigits(dt.hour, 2) + ":" + PadDigits(dt.minute, 2) + ":" + PadDigits(dt.second, 2)
  }

  /** `y-mo-d h:mi:se` with fields of widths 4, 2, 2, 2, 2, 2 puts each field at its fixed place. */
  lemma {:induction false} Layout(y: string, mo: string, d: string, h: string, mi: string, se: string)
    requires |y| == 4 && |mo| == 2 && |d| == 2 && |h| == 2 && |mi| == 2 && |se| == 2
    ensures var t := y + "-" + mo + "-" + d + " " + h + ":" + mi + ":" + se;
      && |t| == 19
      && t[0..4] == y && t[4] == '-' && t[5..7] == mo && t[7] == '-' && t[8..10] == d && t[10] == ' '
      && t[11..13] == h && t[13] == ':' && t[14..16] == mi && t[16] == ':' && t[17..19] == se
  {
    var p1 := y + "-" + mo + "-" + d;
    assert p1[0..4] == y && p1[4] == '-' && p1[5..7] == mo && p1[7] == '-' && p1[8..10] == d;
    var p2 := p1 + " " + h + ":" + mi;
    assert p2[..10] == p1;
    assert p2[10] == ' ' && p2[11..13] == h && p2[13] == ':' && p2[14..16] == mi;
    var t := p2 + ":" + se;
    assert t[..16] == p2;
    assert t[16] == ':' && t[17..19] == se;
    assert t[0..4] == p2[0..4] == p1[0..4];
    assert t[5..7] == p2[5..7] == p1[5..7];
    assert t[8..10] == p2[8..10] == p1[8..10];
    assert t[11..13] == p2[11..13];
    assert t[14..16] == p2[14..16];
  }

  /** Formatting a valid date-time and parsing it back gives the date-time. */
  lemma FormatThenStrptime(dt: DateTime)
    requires IsValid(dt)
    ensures TimestampShape(Format(dt))
    ensures Strptime(Format(dt)) == Some(dt)
  {
    Layout(PadDigits(dt.year, 4), PadDigits(dt.month, 2), PadDigits(dt.day, 2),
           PadDigits(dt.hour, 2), PadDigits(dt.minute, 2), PadDigits(dt.second, 2));
    assert Pow10(2) == 100 && Pow10(4) == 10000;
    PadDigitsValue(dt.year, 4);
    PadDigitsValue(dt.month, 2);
    PadDigitsValue(dt.day, 2);
    PadDigitsValue(dt.hour, 2);
    PadDigitsValue(dt.minute, 2);
    PadDigitsValue(dt.second, 2);
  }

  /** What `Strptime` accepts formats back to exactly the text it read. */
  lemma StrptimeThenFormat(t: string)
    requires TimestampShape(t) && Strptime(t).Some?
    ensures Format(Strptime(t).value) == t
  {
    DigitsValuePad(t[0..4]);
    DigitsValuePad(t[5..7]);
    DigitsValuePad(t[8..10]);
    DigitsValuePad(t[11..13]);
    DigitsValuePad(t[14..16]);
    DigitsValuePad(t[17..19]);
    var u := Format(Strptime(t).value);
    Layout(t[0..4], t[5..7], t[8..10], t[11..13], t[14..16], t[17..19]);
    SameLayout(u, t);
  }

  /** Two texts of the fixed-width shape with the same six fields are the same text. */
  lemma SameLayout(u: string, t: string)
    requires TimestampShape(u) && TimestampShape(t)
    requires u[0..4] == t[0..4] && u[5..7] == t[5..7] && u[8..10] == t[8..10]
    requires u[11..13] == t[11..13] && u[14..16] == t[14..16] && u[17..19] == t[17..19]
    ensures u == t
  {
    forall k | 0 <= k < 19
      ensures u[k] == t[k]
    {
      if k < 4 {
        assert u[k] == u[0..4][k] && t[k] == t[0..4][k];
      } else if 4 < k < 7 {
        assert u[k] == u[5..7][k - 5] && t[k] == t[5..7][k - 5];
      } else if 7 < k < 10 {
        assert u[k] == u[8..10][k - 8] && t[k] == t[8..10][k - 8];
      } else if 10 < k < 13 {
        assert u[k] == u[11..13][k - 11] && t[k] == t[11..13][k - 11];
      } else if 13 < k < 16 {
        assert u[k] == u[14..16][k - 14] && t[k] == t[14..16][k - 14];
      } else if 16 < k {
        assert u[k] == u[17..19][k - 17] && t[k] == t[17..19][k - 17];
      }
    }
  }

  /** The fields read from a text assembled from digit runs of the right widths. */
  lemma FieldsOfLayout(y: string, mo: string, d: string, h: string, mi: string, se: string)
    requires |y| == 4 && |mo| == 2 && |d| == 2 && |h| == 2 && |mi| == 2 && |se| == 2
    requires DigitText(y) && DigitText(mo) && DigitText(d) && DigitText(h) && DigitText(mi) && DigitText(se)
    ensures var t := y + "-" + mo + "-" + d + " " + h + ":" + mi + ":" + se;
      && TimestampShape(t)
      && FieldsOf(t) == DateTime(DigitsValue(y), DigitsValue(mo), DigitsValue(d),
                                 DigitsValue(h), DigitsValue(mi), DigitsValue(se))
  {
    Layout(y, mo, d, h, mi, se);
  }

  lemma TwoDigitsValue(a: char, b: char)
    requires IsDigit(a) && IsDigit(b)
    ensures DigitText([a, b]) && DigitsValue([a, b]) == DigitValue(a) * 10 + DigitValue(b)
  {
    assert [a, b][..1] == [a] && [a][..0] == [];
    assert DigitsValue([a]) == DigitValue(a);
  }

  lemma FourDigitsValue(a: char, b: char, c: char, d: char)
    requires IsDigit(a) && IsDigit(b) && IsDigit(c) && IsDigit(d)
    ensures DigitText([a, b, c, d])
    ensures DigitsValue([a, b, c, d]) == ((DigitValue(a) * 10 + DigitValue(b)) * 10 + DigitValue(c)) * 10 + DigitValue(d)
  {
    assert [a, b, c, d][..3] == [a, b, c] && [a, b, c][..2] == [a, b];
    TwoDigitsValue(a, b);
  }

  /** `2025-07-01 10:15:00` is read as that date-time. */
  lemma ExampleAccepted()
    ensures var t := "2025" + "-" + "07" + "-" + "01" + " " + "10" + ":" + "15" + ":" + "00";
      TimestampShape(t) && Strptime(t) == Some(DateTime(2025, 7, 1, 10, 15, 0))
  {
    FourDigitsValue('2', '0', '2', '5');
    TwoDigitsValue('0', '7');
    TwoDigitsValue('0', '1');
    TwoDigitsValue('1', '0');
    TwoDigitsValue('1', '5');
    TwoDigitsValue('0', '0');
    assert "2025" == ['2', '0', '2', '5'];
    assert "07" == ['0', '7'] && "01" == ['0', '1'] && "10" == ['1', '0'] && "15" == ['1', '5'] && "00" == ['0', '0'];
    FieldsOfLayout("2025", "07", "01", "10", "15", "00");
  }

  /** 29 February of a year from 1 to 9999 is accepted exactly when the year is a leap year. */
  lemma Feb29Iff(y: string)
    requires |y| == 4 && DigitText(y) && DigitsValue(y) >= 1
    ensures var t := y + "-" + "02" + "-" + "29" + " " + "00" + ":" + "00" + ":" + "00";
      TimestampShape(t) && (Strptime(t).Some? <==> IsLeapYear(DigitsValue(y)))
  {
    TwoDigitsValue('0', '2');
    assert "02" == ['0', '2'];
    TwoDigitsValue('2', '9');
    assert "29" == ['2', '9'];
    TwoDigitsValue('0', '0');
    assert "00" == ['0', '0'];
    FieldsOfLayout(y, "02", "29", "00", "00", "00");
    DigitsValuePad(y);
    assert Pow10(4) == 10000;
    var t := y + "-" + "02" + "-" + "29" + " " + "00" + ":" + "00" + ":" + "00";
    assert FieldsOf(t) == DateTime(DigitsValue(y), 2, 29, 0, 0, 0);
    assert IsValid(FieldsOf(t)) <==> IsLeapYear(DigitsValue(y));
  }

  /**
   * The Gregorian leap rule: 29 February exists in 2024 and in 2000 (divisible by
   * 400), and not in 2023 nor in 1900 (a century not divisible by 400).
   */
  lemma ExampleLeapYears()
    ensures var t := "2024" + "-" + "02" + "-" + "29" + " " + "00" + ":" + "00" + ":" + "00";
      TimestampShape(t) && Strptime(t).Some?
    ensures var t := "2023" + "-" + "02" + "-" + "29" + " " + "00" + ":" + "00" + ":" + "00";
      TimestampShape(t) && Strptime(t) == None
    ensures var t := "2000" + "-" + "02" + "-" + "29" + " " + "00" + ":" + "00" + ":" + "00";
      TimestampShape(t) && Strptime(t).Some?
    ensures var t := "1900" + "-" + "02" + "-" + "29" + " " + "00" + ":" + "00" + ":" + "00";
      TimestampShape(t) && Strptime(t) == None
  {
    FourDigitsValue('2', '0', '2', '4');
    assert "2024" == ['2', '0', '2', '4'];
    assert DigitsValue("2024") == 2024;
    Feb29Iff("2024");
    FourDigitsValue('2', '0', '2', '3');
    assert "2023" == ['2', '0', '2', '3'];
    assert DigitsValue("2023") == 2023;
    Feb29Iff("2023");
    FourDigitsValue('2', '0', '0', '0');
    assert "2000" == ['2', '0', '0', '0'];
    assert DigitsValue("2000") == 2000;
    Feb29Iff("2000");
    FourDigitsValue('1', '9', '0', '0');
    assert "1900" == ['1', '9', '0', '0'];
    assert DigitsValue("1900") == 1900;
    Feb29Iff("1900");
  }

  /** Month 13 and 31 April are refused. */
  lemma ExampleBadDate()
    ensures var t := "2025" + "-" + "13" + "-" + "01" + " " + "00" + ":" + "00" + ":" + "00";
      TimestampShape(t) && Strptime(t) == None
    ensures var t := "2025" + "-" + "04" + "-" + "31" + " " + "00" + ":" + "00" + ":" + "00";
      TimestampShape(t) && Strptime(t) == None
  {
    FourDigitsValue('2', '0', '2', '5');
    assert "2025" == ['2', '0', '2', '5'];
    TwoDigitsValue('1', '3');
    assert "13" == ['1', '3'];
    TwoDigitsValue('0', '1');
    assert "01" == ['0', '1'];
    TwoDigitsValue('0', '0');
    assert "00" == ['0', '0'];
    TwoDigitsValue('0', '4');
    assert "04" == ['0', '4'];
    TwoDigitsValue('3', '1');
    assert "31" == ['3', '1'];
    FieldsOfLayout("2025", "13", "01", "00", "00", "00");
    FieldsOfLayout("2025", "04", "31", "00", "00", "00");
  }

  /** Hour 24 and second 60 are refused. */
  lemma ExampleBadTime()
    ensures var t := "2025" + "-" + "01" + "-" + "01" + " " + "24" + ":" + "00" + ":" + "00";
      TimestampShape(t) && Strptime(t) == None
    ensures var t := "2025" + "-" + "01" + "-" + "01" + " " + "00" + ":" + "00" + ":" + "60";
      TimestampShape(t) && Strptime(t) == None
  {
    FourDigitsValue('2', '0', '2', '5');
    assert "2025" == ['2', '0', '2', '5'];
    TwoDigitsValue('0', '1');
    assert "01" == ['0', '1'];
    TwoDigitsValue('2', '4');
    assert "24" == ['2', '4'];
    TwoDigitsValue('0', '0');
    assert "00" == ['0', '0'];
    TwoDigitsValue('6', '0');
    assert "60" == ['6', '0'];
    FieldsOfLayout("2025", "01", "01", "24", "00", "00");
    FieldsOfLayout("2025", "01", "01", "00", "00", "60");
  }

  /** Year 0000 is refused. */
  lemma ExampleYearZero()
    ensures var t := "0000" + "-" + "01" + "-" + "01" + " " + "00" + ":" + "00" + ":" + "00";
      TimestampShape(t) && Strptime(t) == None
  {
    FourDigitsValue('0', '0', '0', '0');
    assert "0000" == ['0', '0', '0', '0'];
    TwoDigitsValue('0', '1');
    assert "01" == ['0', '1'];
    TwoDigitsValue('0', '0');
    assert "00" == ['0', '0'];
    FieldsOfLayout("0000", "01", "01", "00", "00", "00");
  }

  // ---------------------------------------------------------------- order

  /** `a < b` in the order a SQL engine compares DATETIME values. */
  predicate Before(a: DateTime, b: DateTime) {
    || a.year < b.year
    || (a.year == b.year && a.month < b.month)
    || (a.year == b.year && a.month == b.month && a.day < b.day)
    || (a.year == b.year && a.month == b.month && a.day == b.day && a.hour < b.hour)
    || (a.year == b.year && a.month == b.month && a.day == b.day && a.hour == b.hour && a.minute < b.minute)
    || (a.year == b.year && a.month == b.month && a.day == b.day && a.hour == b.hour && a.minute == b.minute
        && a.second < b.second)
  }

  /** `Before` is a strict total order. */
  lemma BeforeIsStrictTotalOrder(a: DateTime, b: DateTime, c: DateTime)
    ensures !Before(a, a)
    ensures Before(a, b) && Before(b, c) ==> Before(a, c)
    ensures a == b || Before(a, b) || Before(b, a)
    ensures !(Before(a, b) && Before(b, a))
  {
  }

  /**
   * `strftime("%Y-%m-%d %H:%M")` as the source database reads it back: the same
   * date-time with the seconds set to zero.
   */
  function TruncateToMinute(dt: DateTime): (r: DateTime)
    ensures r.second == 0
    ensures (r.year, r.month, r.day, r.hour, r.minute) == (dt.year, dt.month, dt.day, dt.hour, dt.minute)
  {
    dt.(second := 0)
  }

  /**
   * Comparing against the truncated watermark: `x` is after `TruncateToMinute(w)`
   * exactly when it is after `w`, or falls in `w`'s minute at or before `w` with a
   * non-zero second.
   */
  lemma AfterTruncated(w: DateTime, x: DateTime)
    requires 0 <= w.second && 0 <= x.second
    ensures Before(TruncateToMinute(w), x) <==>
      Before(w, x) || (TruncateToMinute(x) == TruncateToMinute(w) && 0 < x.second <= w.second)
  {
  }
}
