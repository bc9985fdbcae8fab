/** `formatted_version`: `datetime.strptime(version, "%Y%m%d")`, then
    `strftime("%Y-%m-%d")`, with `"0000-00-00"` for any text `strptime` refuses.

    `strptime` turns `%Y%m%d` into the regular expression

      (\d\d\d\d)(1[0-2]|0[1-9]|[1-9])(3[01]|[12]\d|0[1-9]|[1-9]| [1-9])

    matched at the start of the text with the usual backtracking order: the first
    alternative of the month that lets the day match at all wins, then the first
    alternative of the day. If the match does not reach the end of the text the
    call fails ("unconverted data remains"), and so it does when the fields do not
    make a date (year 0, month out of range, a day the month does not have). */
module Dates {
  import opened Wrappers
  import opened Strings
  import opened Numbers
  import Grammar

  datatype Date = Date(year: nat, month: nat, day: nat)

  predicate IsLeap(year: nat)
  {
    year % 4 == 0 && (year % 100 != 0 || year % 400 == 0)
  }

  function DaysInMonth(year: nat, month: nat): (n: nat)
    requires 1 <= month <= 12
    ensures 28 <= n <= 31
    ensures n == 29 <==> month == 2 && IsLeap(year)
  {
    if month == 2 then (if IsLeap(year) then 29 else 28)
    else if month == 4 || month == 6 || month == 9 || month == 11 then 30
    else 31
  }

  /** What the `date` constructor accepts: years 1 to 9999, and a day the month has. */
  predicate ValidDate(d: Date)
  {
    1 <= d.year <= 9999 && 1 <= d.month <= 12 && 1 <= d.day <= DaysInMonth(d.year, d.month)
  }

  /** The length that alternative `alt` of the month group matches at the start
      of `s`, 0 when it does not match. */
  function MonthAlt(s: string, alt: nat): (n: nat)
    requires alt < 3
    ensures n <= 2 && n <= |s|
  {
    if alt == 0 then (if |s| >= 2 && s[0] == '1' && '0' <= s[1] <= '2' then 2 else 0)
    else if alt == 1 then (if |s| >= 2 && s[0] == '0' && '1' <= s[1] <= '9' then 2 else 0)
    else (if |s| >= 1 && '1' <= s[0] <= '9' then 1 else 0)
  }

  /** The same for the day group. */
  function DayAlt(s: string, alt: nat): (n: nat)
    requires alt < 5
    ensures n <= 2 && n <= |s|
  {
    if alt == 0 then (if |s| >= 2 && s[0] == '3' && (s[1] == '0' || s[1] == '1') then 2 else 0)
    else if alt == 1 then (if |s| >= 2 && (s[0] == '1' || s[0] == '2') && IsDigit(s[1]) then 2 else 0)
    else if alt == 2 then (if |s| >= 2 && s[0] == '0' && '1' <= s[1] <= '9' then 2 else 0)
    else if alt == 3 then (if |s| >= 1 && '1' <= s[0] <= '9' then 1 else 0)
    else (if |s| >= 2 && s[0] == ' ' && '1' <= s[1] <= '9' then 2 else 0)
  }

  /** The length the day group matches: its first alternative, from `alt` on,
      that matches; 0 when none does. */
  function FirstDay(s: string, alt: nat): (n: nat)
    requires alt <= 5
    ensures n <= 2 && n <= |s|
    decreases 5 - alt
  {
    if alt == 5 then 0
    else if DayAlt(s, alt) > 0 then DayAlt(s, alt)
    else FirstDay(s, alt + 1)
  }

  /** The lengths of the month and the day: the first month alternative, from
      `alt` on, after which the day group matches. */
  function FirstMonthDay(s: string, alt: nat): (r: Option<(nat, nat)>)
    requires alt <= 3
    ensures r.Some? ==> 1 <= r.value.0 <= 2 && 1 <= r.value.1 <= 2 && r.value.0 + r.value.1 <= |s|
    decreases 3 - alt
  {
    if alt == 3 then None
    else
      var m := MonthAlt(s, alt);
      if m > 0 && FirstDay(s[m..], 0) > 0 then Some((m, FirstDay(s[m..], 0)))
      else FirstMonthDay(s, alt + 1)
  }

  /** `datetime.strptime(s, "%Y%m%d")`; every refusal is a ValueError. */
  function StrpTime(s: string): (r: Result<Date, PyError>)
    ensures r.Success? ==> ValidDate(r.value)
    ensures r.Failure? ==> r.error == ValueError
  {
    if |s| < 4 || !AllDigits(s[..4]) then Failure(ValueError)
    else
      match FirstMonthDay(s[4..], 0)
      case None => Failure(ValueError)
      case Some((m, n)) =>
        if 4 + m + n != |s| then Failure(ValueError)
        else
          var d := Date(DigitsValue(s[..4]), DigitsValue(s[4..4 + m]), DigitsValue(s[4 + m..]));
          if ValidDate(d) then Success(d) else Failure(ValueError)
  }

  /** `d.strftime("%Y-%m-%d")`. */
  function StrfTime(d: Date): (s: string)
    requires ValidDate(d)
    ensures |s| == 10 && s[4] == '-' && s[7] == '-'
  {
    Pad(d.year, 4) + "-" + Pad(d.month, 2) + "-" + Pad(d.day, 2)
  }

  /** `formatted_version` of a stored version. A missing version (`None`, which
      `load` stores when the document has none) makes `strptime` raise TypeError,
      which is not caught. */
  function FormattedVersion(v: Option<string>): (r: Result<string, PyError>)
    ensures r.Failure? <==> v.None?
    ensures r.Failure? ==> r.error == TypeError
    ensures r.Success? ==> r.value == "0000-00-00" || (|r.value| == 10 && r.value[4] == '-' && r.value[7] == '-')
  {
    match v
    case None => Failure(TypeError)
    case Some(s) =>
      match StrpTime(s)
      case Success(d) => Success(StrfTime(d))
      case Failure(_) => Success("0000-00-00")
  }

  /** The date an eight-digit text names when cut into 4, 2 and 2 digits. */
  function Split422(v: string): Date
    requires |v| == 8
  {
    Date(DigitsValue(v[..4]), DigitsValue(v[4..6]), DigitsValue(v[6..]))
  }

  lemma TwoDigits(s: string)
    requires |s| == 2 && AllDigits(s)
    ensures DigitsValue(s) == 10 * DigitValue(s[0]) + DigitValue(s[1])
  {
    var init := s[..1];
    assert init[..|init| - 1] == [];
    assert DigitsValue(init) == DigitValue(s[0]);
  }

  /** A two-digit day from 1 to 31 is matched whole by the day group. */
  lemma DayOfTwoDigits(s: string)
    requires |s| == 2 && AllDigits(s) && 1 <= DigitsValue(s) <= 31
    ensures FirstDay(s, 0) == 2
  {
    TwoDigits(s);
  }

  /** A two-digit month from 1 to 12 followed by a two-digit day from 1 to 31 is
      matched as 2 and 2 digits. */
  lemma MonthDayOfValid(t: string)
    requires |t| == 4 && AllDigits(t)
    requires 1 <= DigitsValue(t[..2]) <= 12 && 1 <= DigitsValue(t[2..]) <= 31
    ensures FirstMonthDay(t, 0) == Some((2, 2))
  {
    TwoDigits(t[..2]);
    DayOfTwoDigits(t[2..]);
    if t[0] == '1' {
      assert MonthAlt(t, 0) == 2;
    } else {
      assert MonthAlt(t, 0) == 0 && MonthAlt(t, 1) == 2;
    }
  }

  /** On eight digits, `strptime` succeeds exactly when the 4/2/2 cut names a
      valid date, and then it gives that date. */
  lemma StrpTimeEightDigits(v: string)
    requires |v| == 8 && AllDigits(v)
    ensures StrpTime(v) == (if ValidDate(Split422(v)) then Success(Split422(v)) else Failure(ValueError))
  {
    var t := v[4..];
    assert v[..4][0] == v[0];
    assert t[..2] == v[4..6] && t[2..] == v[6..];
    if ValidDate(Split422(v)) {
      MonthDayOfValid(t);
    }
    match FirstMonthDay(t, 0)
    case None =>
    case Some((m, n)) =>
      if 4 + m + n == |v| {
        assert m == 2 && n == 2;
        assert v[4..4 + m] == v[4..6];
      }
  }

  /** `formatted_version` of an eight-digit version: the digits with dashes when
      they name a valid date, `"0000-00-00"` otherwise. */
  lemma FormattedEightDigits(v: string)
    requires |v| == 8 && AllDigits(v)
    ensures FormattedVersion(Some(v)) ==
            Success(if ValidDate(Split422(v)) then v[..4] + "-" + v[4..6] + "-" + v[6..] else "0000-00-00")
  {
    StrpTimeEightDigits(v);
    PadDigitsValue(v[..4]);
    PadDigitsValue(v[4..6]);
    PadDigitsValue(v[6..]);
  }

  /** The version an import stores formats as its digits with dashes, or as
      `"0000-00-00"` when the text has no version marker or names no valid date. */
  lemma FormattedImportedVersion(text: string)
    ensures var v := Grammar.ExtractVersion(text);
            FormattedVersion(Some(v)) ==
            Success(if v != "" && ValidDate(Split422(v)) then v[..4] + "-" + v[4..6] + "-" + v[6..]
                    else "0000-00-00")
  {
    var v := Grammar.ExtractVersion(text);
    if v != "" {
      FormattedEightDigits(v);
    }
  }
}
