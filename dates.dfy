/**
 * Publication dates and their `yyyy-MM-dd` text form, as written by
 * `DateTimeFormatter.ofPattern("yyyy-MM-dd")` and read back by `LocalDate.parse`
 * with the same formatter (strict field widths, the SMART resolver).
 */
module Dates {
  import opened Wrappers

  function Pow10(n: nat): (r: nat)
    ensures r >= 1
  {
    if n == 0 then 1 else 10 * Pow10(n - 1)
  }

  predicate IsDigit(c: char)
  {
    '0' <= c <= '9'
  }

  predicate AllDigits(s: string)
  {
    forall i :: 0 <= i < |s| ==> IsDigit(s[i])
  }

  function DigitChar(d: nat): (c: char)
    requires d < 10
    ensures IsDigit(c)
  {
    ('0' as int + d) as char
  }

  /** The number written by a string of decimal digits. */
  function DigitsValue(s: string): (r: nat)
    requires AllDigits(s)
    ensures r < Pow10(|s|)
  {
    if s == [] then 0
    else DigitsValue(s[..|s| - 1]) * 10 + (s[|s| - 1] as int - '0' as int)
  }

  /** `n` written with exactly `width` digits, zero-padded on the left. */
  function Padded(n: nat, width: nat): (r: string)
    requires n < Pow10(width)
    ensures |r| == width && AllDigits(r)
  {
    if width == 0 then ""
    else Padded(n / 10, width - 1) + [DigitChar(n % 10)]
  }

  /** Reading back a zero-padded number gives the number. */
  lemma {:induction false} ValueOfPadded(n: nat, width: nat)
    requires n < Pow10(width)
    ensures DigitsValue(Padded(n, width)) == n
  {
    if width > 0 {
      var s := Padded(n, width);
      assert s[..width - 1] == Padded(n / 10, width - 1);
      ValueOfPadded(n / 10, width - 1);
    }
  }

  /** Padding the value of a digit string to its own width gives the string back. */
  lemma {:induction false} PaddedOfValue(s: string)
    requires AllDigits(s)
    ensures Padded(DigitsValue(s), |s|) == s
  {
    if s != [] {
      var n := DigitsValue(s);
      var init := s[..|s| - 1];
      assert n / 10 == DigitsValue(init) && n % 10 == s[|s| - 1] as int - '0' as int;
      PaddedOfValue(init);
      assert init + [s[|s| - 1]] == s;
    }
  }

  /** A calendar date in the proleptic Gregorian calendar. */
  datatype CalendarDate = CalendarDate(year: int, month: int, day: int)

  predicate IsLeapYear(year: int)
  {
    year % 4 == 0 && (year % 100 != 0 || year % 400 == 0)
  }

  function DaysInMonth(year: int, month: int): (r: int)
    ensures 28 <= r <= 31
  {
    if month == 2 then (if IsLeapYear(year) then 29 else 28)
    else if month == 4 || month == 6 || month == 9 || month == 11 then 30
    else 31
  }

  /** A real date whose year has four digits. */
  predicate IsValidDate(d: CalendarDate)
  {
    1 <= d.year <= 9999 && 1 <= d.month <= 12 && 1 <= d.day <= DaysInMonth(d.year, d.month)
  }

  type Date = d: CalendarDate | IsValidDate(d) witness CalendarDate(2000, 1, 1)

  /** `date.format(ofPattern("yyyy-MM-dd"))`. */
  function FormatDate(d: Date): (r: string)
    ensures |r| == 10 && r[4] == '-' && r[7] == '-'
    ensures forall i :: 0 <= i < |r| && i != 4 && i != 7 ==> IsDigit(r[i])
  {
    Padded(d.year, 4) + "-" + Padded(d.month, 2) + "-" + Padded(d.day, 2)
  }

  /** The shape `dddd-dd-dd` that the strict formatter accepts. */
  predicate HasDateShape(s: string)
  {
    |s| == 10 && s[4] == '-' && s[7] == '-' &&
    AllDigits(s[..4]) && AllDigits(s[5..7]) && AllDigits(s[8..])
  }

  /**
   * `LocalDate.parse(s, ofPattern("yyyy-MM-dd"))`: `None` where Java throws. The year of
   * era must be at least 1, the month 1..12 and the day 1..31; a day past the end of its
   * month is moved back to the month's last day, as the SMART resolver does.
   */
  function ParseDate(s: string): (r: Option<Date>)
    ensures r.Some? <==>
      (HasDateShape(s) && 1 <= DigitsValue(s[..4]) &&
       1 <= DigitsValue(s[5..7]) <= 12 && 1 <= DigitsValue(s[8..]) <= 31)
    ensures r.Some? ==> r.value.year == DigitsValue(s[..4]) && r.value.month == DigitsValue(s[5..7])
    ensures r.Some? ==> 1 <= r.value.day <= DigitsValue(s[8..])
  {
    if !HasDateShape(s) then None
    else
      var year, month, day := DigitsValue(s[..4]), DigitsValue(s[5..7]), DigitsValue(s[8..]);
      if year < 1 || month < 1 || 12 < month || day < 1 || 31 < day then None
      else
        var last := DaysInMonth(year, month);
        Some(CalendarDate(year, month, if day <= last then day else last))
  }

  /** Every date reads back from its own text. */
  lemma ParseFormat(d: Date)
    ensures ParseDate(FormatDate(d)) == Some(d)
  {
    var s := FormatDate(d);
    assert s[..4] == Padded(d.year, 4);
    assert s[5..7] == Padded(d.month, 2);
    assert s[8..] == Padded(d.day, 2);
    ValueOfPadded(d.year, 4);
    ValueOfPadded(d.month, 2);
    ValueOfPadded(d.day, 2);
  }

  /** A string of the date shape is its three digit fields joined by dashes. */
  lemma DateShapeFields(s: string)
    requires HasDateShape(s)
    ensures s == s[..4] + "-" + s[5..7] + "-" + s[8..]
  {
  }

  /**
   * Text that parses is the formatted form of its date unless its day was clamped to the
   * end of a shorter month (`2023-02-30` reads as 28 February 2023).
   */
  lemma FormatParse(s: string, d: Date)
    requires ParseDate(s) == Some(d)
    ensures FormatDate(d) == s <==> d.day == DigitsValue(s[8..])
  {
    var y, m, dd := s[..4], s[5..7], s[8..];
    DateShapeFields(s);
    PaddedOfValue(y);
    PaddedOfValue(m);
    assert FormatDate(d) == y + "-" + m + "-" + Padded(d.day, 2);
    if d.day == DigitsValue(dd) {
      PaddedOfValue(dd);
    } else {
      ValueOfPadded(d.day, 2);
      assert (y + "-" + m + "-" + Padded(d.day, 2))[8..] == Padded(d.day, 2);
    }
  }

  /** The SMART resolver clamps an impossible day instead of failing. */
  lemma ClampedDay()
    ensures ParseDate("2023-02-30") == Some(CalendarDate(2023, 2, 28))
  {
    var s := "2023-02-30";
    assert s[..4] == "2023" && s[5..7] == "02" && s[8..] == "30";
    assert DigitsValue("2023") == 2023 by {
      assert "2023"[..3] == "202" && "202"[..2] == "20" && "20"[..1] == "2" && "2"[..0] == "";
    }
    assert DigitsValue("02") == 2 by {
      assert "02"[..1] == "0" && "0"[..0] == "";
    }
    assert DigitsValue("30") == 30 by {
      assert "30"[..1] == "3" && "3"[..0] == "";
    }
  }

  /** Year zero and month thirteen are refused. */
  lemma RefusedFields()
    ensures ParseDate("0000-01-01") == None
    ensures ParseDate("2023-13-01") == None
  {
    assert "0000-01-01"[..4] == "0000";
    assert DigitsValue("0000") == 0 by {
      assert "0000"[..3] == "000" && "000"[..2] == "00" && "00"[..1] == "0" && "0"[..0] == "";
    }
    assert "2023-13-01"[5..7] == "13";
    assert DigitsValue("13") == 13 by {
      assert "13"[..1] == "1" && "1"[..0] == "";
    }
  }
}
