/**
 * The evaluation-date validator `is_valid_date`: a string is accepted when it
 * matches the pattern `^\d{4}-\d{2}-\d{2}$` and `datetime.strptime(s, '%Y-%m-%d')`
 * succeeds. Digits are ASCII digits.
 */
module Dates {
  import opened Wrappers

  predicate IsDigit(c: char)
  {
    '0' <= c <= '9'
  }

  function DigitValue(c: char): nat
    requires IsDigit(c)
  {
    (c as int) - ('0' as int)
  }

  predicate AllDigits(s: string)
  {
    forall i :: 0 <= i < |s| ==> IsDigit(s[i])
  }

  /** Decimal value of a digit string (`int(s)` on ASCII digits). */
  function Number(s: string): (n: nat)
    requires AllDigits(s)
    ensures |s| == 0 ==> n == 0
  {
    if |s| == 0 then 0 else Number(s[..|s| - 1]) * 10 + DigitValue(s[|s| - 1])
  }

  /** The Gregorian leap-year rule. */
  predicate IsLeapYear(y: int)
  {
    y % 4 == 0 && (y % 100 != 0 || y % 400 == 0)
  }

  function DaysInMonth(y: int, m: int): (d: int)
    requires 1 <= m <= 12
    ensures 28 <= d <= 31
    ensures d == 28 <==> m == 2 && !IsLeapYear(y)
    ensures d == 29 <==> m == 2 && IsLeapYear(y)
    ensures d == 30 <==> m in {4, 6, 9, 11}
  {
    if m == 2 then (if IsLeapYear(y) then 29 else 28)
    else if m == 4 || m == 6 || m == 9 || m == 11 then 30
    else 31
  }

  datatype Date = Date(year: int, month: int, day: int)

  // ---------------------------------------------------------------------------
  // Reference definition: what a valid evaluation date is.
  // ---------------------------------------------------------------------------

  /** `YYYY-MM-DD`: four digits, a hyphen, two digits, a hyphen, two digits. */
  predicate HasDateShape(s: string)
  {
    && |s| == 10
    && AllDigits(s[..4]) && s[4] == '-'
    && AllDigits(s[5..7]) && s[7] == '-'
    && AllDigits(s[8..])
  }

  /** Reference definition: an ISO 8601 calendar date of a year from 1 on. */
  predicate IsCalendarDate(s: string)
  {
    && HasDateShape(s)
    && var y, m, d := Number(s[..4]), Number(s[5..7]), Number(s[8..]);
    && y >= 1
    && 1 <= m <= 12
    && 1 <= d <= DaysInMonth(y, m)
  }

  // ---------------------------------------------------------------------------
  // The implementation, step by step as the source performs it.
  // ---------------------------------------------------------------------------

  /**
   * `re.match(r'^\d{4}-\d{2}-\d{2}$', s)`. In Python `$` also matches just
   * before a final newline, so one trailing "\n" passes the pattern.
   */
  predicate MatchesDatePattern(s: string)
  {
    || HasDateShape(s)
    || (|s| == 11 && HasDateShape(s[..10]) && s[10] == '\n')
  }

  /**
   * The alternatives `strptime` tries for `%m`, in order, at the start of `s`:
   * `1[0-2]`, `0[1-9]`, `[1-9]`. Each is a (value, length) pair.
   */
  function MonthCandidates(s: string): (r: seq<(int, nat)>)
    ensures forall i :: 0 <= i < |r| ==> 1 <= r[i].0 <= 12 && 1 <= r[i].1 <= 2 && r[i].1 <= |s|
  {
    var ten := if |s| >= 2 && s[0] == '1' && '0' <= s[1] <= '2' then [(10 + DigitValue(s[1]), 2 as nat)] else [];
    var zero := if |s| >= 2 && s[0] == '0' && '1' <= s[1] <= '9' then [(DigitValue(s[1]), 2 as nat)] else [];
    var one := if |s| >= 1 && '1' <= s[0] <= '9' then [(DigitValue(s[0]), 1 as nat)] else [];
    ten + zero + one
  }

  /**
   * The first alternative of `%d` that matches at the start of `s`:
   * `3[01]`, `[12]\d`, `0[1-9]`, `[1-9]`, ` [1-9]`, as (value, length).
   */
  function DayMatch(s: string): (r: Option<(int, nat)>)
    ensures r.Some? ==> 1 <= r.value.0 <= 31 && 1 <= r.value.1 <= 2 && r.value.1 <= |s|
  {
    if |s| >= 2 && s[0] == '3' && '0' <= s[1] <= '1' then Some((30 + DigitValue(s[1]), 2))
    else if |s| >= 2 && '1' <= s[0] <= '2' && IsDigit(s[1]) then Some((DigitValue(s[0]) * 10 + DigitValue(s[1]), 2))
    else if |s| >= 2 && s[0] == '0' && '1' <= s[1] <= '9' then Some((DigitValue(s[1]), 2))
    else if |s| >= 1 && '1' <= s[0] <= '9' then Some((DigitValue(s[0]), 1))
    else if |s| >= 2 && s[0] == ' ' && '1' <= s[1] <= '9' then Some((DigitValue(s[1]), 2))
    else None
  }

  /**
   * The regex match of `-%m-%d` after the year: the first month alternative
   * followed by `-` and a day, with backtracking over the month alternatives.
   * Yields (month, day, characters consumed).
   */
  function MonthDayMatch(s: string, cands: seq<(int, nat)>): (r: Option<(int, int, nat)>)
    requires forall i :: 0 <= i < |cands| ==> 1 <= cands[i].0 <= 12 && cands[i].1 <= |s|
    ensures r.Some? ==> 1 <= r.value.0 <= 12 && 1 <= r.value.1 <= 31 && r.value.2 <= |s|
  {
    if |cands| == 0 then None
    else
      var (m, k) := cands[0];
      if k < |s| && s[k] == '-' && DayMatch(s[k + 1..]).Some? then
        var (d, l) := DayMatch(s[k + 1..]).value;
        Some((m, d, k + 1 + l))
      else MonthDayMatch(s, cands[1..])
  }

  /**
   * `datetime.strptime(s, '%Y-%m-%d')`: the format's regex must match a prefix,
   * the whole string must be consumed, and the fields must form a real date
   * (year 0 is out of range).
   */
  function Strptime(s: string): (r: Option<Date>)
    ensures r.Some? ==> r.value.year >= 1 && 1 <= r.value.month <= 12
                        && 1 <= r.value.day <= DaysInMonth(r.value.year, r.value.month)
  {
    if |s| < 5 || !AllDigits(s[..4]) || s[4] != '-' then None
    else
      var rest := s[5..];
      match MonthDayMatch(rest, MonthCandidates(rest))
      case None => None
      case Some((m, d, used)) =>
        var y := Number(s[..4]);
        if 5 + used != |s| then None
        else if y < 1 || d > DaysInMonth(y, m) then None
        else Some(Date(y, m, d))
  }

  /** `is_valid_date(s)`: non-empty, matches the pattern, and `strptime` succeeds. */
  predicate IsValidDate(s: string)
  {
    |s| > 0 && MatchesDatePattern(s) && Strptime(s).Some?
  }

  /** `is_valid_date` applied to a CSV field that may be missing (`None`). */
  predicate IsValidDateField(f: Option<string>)
  {
    f.Some? && IsValidDate(f.value)
  }

  // ---------------------------------------------------------------------------
  // The validator agrees with the reference definition.
  // ---------------------------------------------------------------------------

  lemma TwoDigits(s: string)
    requires |s| == 2 && AllDigits(s)
    ensures Number(s) == DigitValue(s[0]) * 10 + DigitValue(s[1])
  {
    assert s[..1][..0] == [];
  }

  lemma FourDigits(s: string)
    requires |s| == 4 && AllDigits(s)
    ensures Number(s) == DigitValue(s[0]) * 1000 + DigitValue(s[1]) * 100 + DigitValue(s[2]) * 10 + DigitValue(s[3])
  {
    assert s[..3][..2] == s[..2];
    TwoDigits(s[..2]);
  }

  /** The fields of a well-shaped date string, digit by digit. */
  lemma DateFields(s: string)
    requires HasDateShape(s)
    ensures Number(s[..4]) == DigitValue(s[0]) * 1000 + DigitValue(s[1]) * 100 + DigitValue(s[2]) * 10 + DigitValue(s[3])
    ensures Number(s[5..7]) == DigitValue(s[5]) * 10 + DigitValue(s[6])
    ensures Number(s[8..]) == DigitValue(s[8]) * 10 + DigitValue(s[9])
  {
    FourDigits(s[..4]);
    TwoDigits(s[5..7]);
    TwoDigits(s[8..]);
  }

  /** On a well-shaped string, `strptime` yields exactly the written fields when they form a date. */
  lemma {:induction false} StrptimeOnShape(s: string)
    requires HasDateShape(s)
    ensures Strptime(s).Some? <==> IsCalendarDate(s)
    ensures Strptime(s).Some? ==> Strptime(s).value == Date(Number(s[..4]), Number(s[5..7]), Number(s[8..]))
  {
    var rest := s[5..];
    assert rest[..2] == s[5..7];
    assert rest[3..] == s[8..];
    TwoDigits(s[5..7]);
    TwoDigits(s[8..]);
    var mm := Number(s[5..7]);
    var dd := Number(s[8..]);
    var cands := MonthCandidates(rest);
    var tail := rest[3..];
    // The two-character month alternatives are the only ones followed by '-'.
    if 1 <= mm <= 12 {
      assert cands[0] == (mm, 2);
      assert rest[2] == '-';
      assert rest[2 + 1..] == tail;
      assert forall i :: 1 <= i < |cands| ==> cands[i].1 == 1;
      MonthDayFails(rest, cands[1..]);
      if 1 <= dd <= 31 {
        assert DayMatch(tail) == Some((dd, 2));
      } else {
        assert DayMatch(tail).None? || DayMatch(tail).value.1 == 1;
      }
    } else {
      assert forall i :: 0 <= i < |cands| ==> cands[i].1 == 1;
      MonthDayFails(rest, cands);
    }
  }

  lemma {:induction false} MonthDayFails(s: string, cands: seq<(int, nat)>)
    requires forall i :: 0 <= i < |cands| ==> 1 <= cands[i].0 <= 12 && cands[i].1 <= |s|
    requires forall i :: 0 <= i < |cands| ==> cands[i].1 < |s| && s[cands[i].1] != '-'
    ensures MonthDayMatch(s, cands) == None
  {
    if |cands| > 0 {
      MonthDayFails(s, cands[1..]);
    }
  }

  /** A string with a trailing newline passes the pattern but never `strptime`. */
  lemma NewlineRejected(s: string)
    requires |s| == 11 && HasDateShape(s[..10]) && s[10] == '\n'
    ensures Strptime(s).None?
  {
    var rest := s[5..];
    var r := MonthDayMatch(rest, MonthCandidates(rest));
    if r.Some? {
      MonthDayShort(rest, MonthCandidates(rest));
    }
  }

  /** After a two-digit month, a day consumes at most two characters. */
  lemma {:induction false} MonthDayShort(s: string, cands: seq<(int, nat)>)
    requires |s| == 6 && s[5] == '\n' && s[2] == '-'
    requires forall i :: 0 <= i < |cands| ==> 1 <= cands[i].0 <= 12 && cands[i].1 <= |s|
    ensures MonthDayMatch(s, cands).Some? ==> MonthDayMatch(s, cands).value.2 <= 5
  {
    if |cands| > 0 {
      MonthDayShort(s, cands[1..]);
    }
  }

  /** `is_valid_date` accepts exactly the calendar dates in `YYYY-MM-DD` form. */
  lemma IsValidDateCorrect(s: string)
    ensures IsValidDate(s) <==> IsCalendarDate(s)
  {
    if HasDateShape(s) {
      StrptimeOnShape(s);
    } else if |s| == 11 && HasDateShape(s[..10]) && s[10] == '\n' {
      NewlineRejected(s);
    }
  }

  /** The dates the repository's tests accept. */
  lemma TestedValidDates()
    ensures IsValidDate("2024-01-20") && IsValidDate("2024-12-31")
  {
    IsValidDateCorrect("2024-01-20");
    IsValidDateCorrect("2024-12-31");
  }

  /** The strings the repository's tests reject: month 13, day 32, slashes, empty, NULL. */
  lemma TestedInvalidDates()
    ensures !IsValidDate("2024-13-01") && !IsValidDate("2024-01-32")
    ensures !IsValidDate("2024/01/20") && !IsValidDate("")
    ensures !IsValidDateField(None)
  {
    IsValidDateCorrect("2024-13-01");
    IsValidDateCorrect("2024-01-32");
  }

  /** Leap days: 29 February exists in 2024 and 2000 but not in 1900 or 2023. */
  lemma LeapDay2024()
    ensures IsValidDate("2024-02-29")
  {
    IsValidDateCorrect("2024-02-29");
    DateFields("2024-02-29");
  }

  lemma LeapDay2000()
    ensures IsValidDate("2000-02-29")
  {
    IsValidDateCorrect("2000-02-29");
    DateFields("2000-02-29");
  }

  lemma NoLeapDay1900()
    ensures !IsValidDate("1900-02-29")
  {
    IsValidDateCorrect("1900-02-29");
    DateFields("1900-02-29");
  }

  lemma NoLeapDay2023()
    ensures !IsValidDate("2023-02-29")
  {
    IsValidDateCorrect("2023-02-29");
    DateFields("2023-02-29");
  }

  lemma NoYearZero()
    ensures !IsValidDate("0000-01-01")
  {
    var s := "0000-01-01";
    IsValidDateCorrect(s);
    DateFields(s);
    assert Number(s[..4]) == 0;
  }
}
