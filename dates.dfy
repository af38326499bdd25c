/** `Date`: a calendar date restricted to the years 1500..2500, with its text
    form, weekday and order. */
module Dates {
  import opened Errors
  import opened Calendar
  import opened Text
  import opened Weekdays

  /** `Date._min_year` and `Date._max_year`. */
  const MinYear: int := 1500
  const MaxYear: int := 2500

  datatype Date = Date(year: int, month: int, day: int) {
    predicate Valid() {
      MinYear <= year <= MaxYear && 1 <= month <= 12 && 1 <= day <= DaysInMonth(year, month)
    }
  }

  /** `Date._init`: checks the year, then the month, then the day against the
      length of that month, and raises for the first one out of range. */
  function MakeDate(y: int, m: int, d: int): (r: Result<Date>)
    ensures r.Ok? <==> Date(y, m, d).Valid()
    ensures r.Ok? ==> r.value == Date(y, m, d)
    ensures !(MinYear <= y <= MaxYear) ==> r == Err(InvalidYear(y))
    ensures MinYear <= y <= MaxYear && !(1 <= m <= 12) ==> r == Err(InvalidMonth(m))
    ensures MinYear <= y <= MaxYear && 1 <= m <= 12 && !(1 <= d <= DaysInMonth(y, m)) ==> r == Err(InvalidDay(d, DaysInMonth(y, m)))
  {
    if y < MinYear || y > MaxYear then Err(InvalidYear(y))
    else if m < 1 || m > 12 then Err(InvalidMonth(m))
    else if d < 1 || d > DaysInMonth(y, m) then Err(InvalidDay(d, DaysInMonth(y, m)))
    else Ok(Date(y, m, d))
  }

  /** `Date(d)` for a Date `d`: re-validates the fields of a valid date. */
  function CopyDate(d: Date): (r: Result<Date>)
    requires d.Valid()
    ensures r == Ok(d)
  {
    MakeDate(d.year, d.month, d.day)
  }

  /** The first and last dates the type admits. */
  lemma DateLimits()
    ensures MakeDate(1500, 1, 1) == Ok(Date(1500, 1, 1))
    ensures MakeDate(2500, 12, 31) == Ok(Date(2500, 12, 31))
    ensures MakeDate(1499, 12, 31) == Err(InvalidYear(1499))
    ensures MakeDate(2501, 1, 1) == Err(InvalidYear(2501))
    ensures MakeDate(2015, 2, 29) == Err(InvalidDay(29, 28))
    ensures MakeDate(2016, 2, 29) == Ok(Date(2016, 2, 29))
    ensures MakeDate(2015, 13, 1) == Err(InvalidMonth(13))
  {
  }

  // ---------------------------------------------------------------------------
  // Text form

  /** Four digits, then two groups of one or two digits. */
  predicate IsDateGroups(g: (string, string, string)) {
    |g.0| == 4 && 1 <= |g.1| <= 2 && 1 <= |g.2| <= 2
    && AllDigits(g.0) && AllDigits(g.1) && AllDigits(g.2)
  }

  /** The pattern `^(\d{4})-(\d{1,2})-(\d{1,2})` on ASCII digits: the three
      greedy groups, or None when `s` does not start with the pattern. */
  function MatchDate(s: string): (r: Option<(string, string, string)>)
    ensures r.Some? ==> IsDateGroups(r.value)
  {
    match Field(s, 4, 4, "-")
    case None => None
    case Some((g1, t)) =>
      match Field(t, 1, 2, "-")
      case None => None
      case Some((g2, u)) =>
        match Field(u, 1, 2, "")
        case None => None
        case Some((g3, _)) => Some((g1, g2, g3))
  }

  /** A match is a prefix of the text: the groups with dashes between them. */
  lemma MatchDateSound(s: string, g: (string, string, string))
    requires MatchDate(s) == Some(g)
    ensures exists rest :: s == g.0 + "-" + g.1 + "-" + g.2 + rest
  {
    var r1 := Field(s, 4, 4, "-");
    var t := r1.value.1;
    var r2 := Field(t, 1, 2, "-");
    var u := r2.value.1;
    var r3 := Field(u, 1, 2, "");
    var rest := r3.value.1;
    assert g == (r1.value.0, r2.value.0, r3.value.0);
    assert u == g.2 + "" + rest;
    assert "" + rest == rest;
    ConcatAssoc(g.0, "-", g.1, "-", g.2, rest);
  }

  /** Every string that starts with the pattern matches it, with the greedy
      groups. */
  lemma MatchDateOf(g1: string, g2: string, g3: string, rest: string)
    requires IsDateGroups((g1, g2, g3))
    requires |g3| == 1 && rest != [] ==> !IsDigit(rest[0])
    ensures MatchDate(g1 + "-" + g2 + "-" + g3 + rest) == Some((g1, g2, g3))
  {
    var u := g3 + rest;
    var t := g2 + "-" + u;
    assert g1 + "-" + g2 + "-" + g3 + rest == g1 + "-" + t;
    assert u == g3 + "" + rest;
    FieldOf(g1, 4, 4, "-", t);
    FieldOf(g2, 1, 2, "-", u);
    FieldOf(g3, 1, 2, "", rest);
  }

  /** `Date(s)` for a string: `s` must start with the pattern; the groups are
      then checked as numbers. */
  function ParseDate(s: string): (r: Result<Date>)
    ensures r.Ok? ==> r.value.Valid()
    ensures r.Err? ==> r.error.InvalidDate? || r.error.InvalidYear? || r.error.InvalidMonth? || r.error.InvalidDay?
  {
    match MatchDate(s)
    case None => Err(InvalidDate(s))
    case Some(g) => MakeDate(NumberValue(g.0), NumberValue(g.1), NumberValue(g.2))
  }

  /** `YYYY-MM-DD`, zero-padded: what `str(d)` evidently means to produce. */
  function FormatDate(d: Date): (s: string)
    requires d.Valid()
    ensures |s| == 10
  {
    Pad4(d.year) + "-" + Pad2(d.month) + "-" + Pad2(d.day)
  }

  /** Zero-padded fields parse to their values, which `Date._init` then checks. */
  lemma ParsePadded(y: int, m: int, d: int, rest: string)
    requires 0 <= y <= 9999 && 0 <= m <= 99 && 0 <= d <= 99
    requires rest != [] ==> !IsDigit(rest[0])
    ensures ParseDate(Pad4(y) + "-" + Pad2(m) + "-" + Pad2(d) + rest) == MakeDate(y, m, d)
  {
    MatchDateOf(Pad4(y), Pad2(m), Pad2(d), rest);
  }

  /** Parsing the text form of a valid date, with or without text after it
      that does not continue the day, gives the date back. */
  lemma ParseFormatDate(d: Date, rest: string)
    requires d.Valid()
    requires rest != [] ==> !IsDigit(rest[0])
    ensures ParseDate(FormatDate(d) + rest) == Ok(d)
  {
    ParsePadded(d.year, d.month, d.day, rest);
  }

  /** `str(d)` as written: the format string lacks its `f` prefix (the `f` sits
      inside the quotes), so every date yields the same literal text. */
  function DateStrAsWritten(d: Date): string {
    "f" + "{self.year:04}-{self.month:02}-{self.day:02}"
  }

  /** As written, distinct dates have the same text, and that text does not
      parse as a date. */
  lemma DateStrIsConstant(a: Date, b: Date)
    ensures DateStrAsWritten(a) == DateStrAsWritten(b)
    ensures ParseDate(DateStrAsWritten(a)).Err?
  {
    var s := DateStrAsWritten(a);
    assert !IsDigit(s[0]);
    assert DigitRun(s, 0, 4) == 0;
  }

  /** The corrected text form separates distinct valid dates. */
  lemma FormatDateInjective(a: Date, b: Date)
    requires a.Valid() && b.Valid()
    ensures FormatDate(a) == FormatDate(b) <==> a == b
  {
    if FormatDate(a) == FormatDate(b) {
      ParseFormatDate(a, "");
      ParseFormatDate(b, "");
      assert FormatDate(a) + "" == FormatDate(b) + "";
    }
  }

  /** Text the pattern rejects, from the library's tests. */
  lemma ParseDateRejects(s: string)
    requires s == "invalid"
    ensures ParseDate(s) == Err(InvalidDate(s))
  {
    assert DigitRun(s, 0, 4) == 0 by { assert !IsDigit(s[0]); }
  }

  /** Groups of one digit are accepted, from the library's tests. */
  lemma ParseDateUnpadded(s: string)
    requires s == "2010-1-1"
    ensures ParseDate(s) == Ok(Date(2010, 1, 1))
  {
    var g1: string, g2: string, g3: string, rest: string := "2010", "1", "1", "";
    assert g1 + "-" + g2 + "-" + g3 + rest == s;
    assert IsDateGroups((g1, g2, g3));
    assert NumberValue(g1) == 2010 && NumberValue(g2) == 1 by {
      NumberValueDigits(g1);
      NumberValueDigits(g2);
    }
    MatchDateOf(g1, g2, g3, rest);
  }

  /** A date from the library's tests parses to its fields. */
  lemma ParseDateAccepts()
    ensures ParseDate("2015-05-17") == Ok(Date(2015, 5, 17))
  {
    var d := Date(2015, 5, 17);
    assert FormatDate(d) == "2015-05-17";
    ParseFormatDate(d, "");
    assert "2015-05-17" + "" == "2015-05-17";
  }

  /** The pattern is not anchored at the end: text after the day is ignored. */
  lemma ParseDateIgnoresRest(s: string)
    requires s == "2015-05-17-15"
    ensures ParseDate(s) == Ok(Date(2015, 5, 17))
  {
    var d := Date(2015, 5, 17);
    var f, r: string := FormatDate(d), "-15";
    assert f + r == s by { assert f == "2015-05-17"; }
    ParseFormatDate(d, r);
  }

  /** A year of two digits does not match the pattern: the date part of a
      date-time text from the library's tests. */
  lemma ParseDateShortYear(s: string)
    requires s == "15-05-17"
    ensures ParseDate(s) == Err(InvalidDate(s))
  {
    assert DigitRun(s, 0, 4) == 2;
  }

  /** A year of two digits, from the library's tests of `Date(s)`. */
  lemma ParseDateTwoDigitYear(s: string)
    requires s == "10-01-01"
    ensures ParseDate(s) == Err(InvalidDate(s))
  {
    assert DigitRun(s, 0, 4) == 2;
  }

  /** Dates from the library's tests in their zero-padded form. */
  lemma FormatDateExamples()
    ensures FormatDate(Date(2015, 3, 5)) == "2015-03-05"
    ensures FormatDate(Date(2015, 3, 15)) == "2015-03-15"
  {
  }

  /** A day beyond the end of its month is rejected by the field checks. */
  lemma ParseDateChecksDay(s: string)
    requires s == "2015-02-29"
    ensures ParseDate(s) == Err(InvalidDay(29, 28))
  {
    var y, m, d := Pad4(2015), Pad2(2), Pad2(29);
    assert y + "-" + m + "-" + d + "" == s by {
      assert y == "2015" && m == "02" && d == "29";
    }
    assert DaysInMonth(2015, 2) == 28;
    ParsePadded(2015, 2, 29, "");
  }

  // ---------------------------------------------------------------------------
  // Day number, weekday and order

  /** The host's day number of a valid date. */
  function Ordinal(d: Date): (n: int)
    requires d.Valid()
    ensures 1 <= n <= MaxOrdinal
  {
    OrdinalRange(d.year, d.month, d.day);
    ToOrdinal(d.year, d.month, d.day)
  }

  /** A valid date is determined by its day number. */
  lemma OrdinalInjective(a: Date, b: Date)
    requires a.Valid() && b.Valid()
    ensures Ordinal(a) == Ordinal(b) <==> a == b
  {
    OrdinalOrder(a.year, a.month, a.day, b.year, b.month, b.day);
  }

  /** `d.weekday.value`: the host's weekday number, Monday = 0. */
  function WeekdayNumber(d: Date): (v: int)
    requires d.Valid()
    ensures 0 <= v <= 6
  {
    WeekdayValue(d.year, d.month, d.day)
  }

  /** `d.weekday`. */
  function WeekdayOf(d: Date): (w: Weekday)
    requires d.Valid()
    ensures w.Value() == WeekdayNumber(d) == (Ordinal(d) + 6) % 7
  {
    At(WeekdayNumber(d))
  }

  /** `d.isweekend`: the weekday is Saturday or Sunday. */
  predicate IsWeekend(d: Date)
    requires d.Valid()
  {
    WeekdayOf(d) in {Saturday, Sunday}
  }

  /** Weekend days are those with canonical value 5 or 6, whatever the first
      day of the week is. */
  lemma IsWeekendValue(d: Date)
    requires d.Valid()
    ensures IsWeekend(d) <==> (Ordinal(d) + 6) % 7 >= 5
  {
    var w := WeekdayOf(d);
    if w.Value() >= 5 {
      assert w == Saturday || w == Sunday;
    }
  }

  /** `a < b`: lexicographic on (year, month, day). */
  predicate Less(a: Date, b: Date) {
    a.year < b.year
    || (a.year == b.year && a.month < b.month)
    || (a.year == b.year && a.month == b.month && a.day < b.day)
  }

  /** `a <= b`. */
  predicate LessEq(a: Date, b: Date) {
    a == b || Less(a, b)
  }

  /** On valid dates, Less is the order of day numbers: a strict total order. */
  lemma LessIsOrdinalOrder(a: Date, b: Date)
    requires a.Valid() && b.Valid()
    ensures Less(a, b) <==> Ordinal(a) < Ordinal(b)
    ensures LessEq(a, b) <==> Ordinal(a) <= Ordinal(b)
    ensures LessEq(a, b) || Less(b, a)
  {
    OrdinalOrder(a.year, a.month, a.day, b.year, b.month, b.day);
  }

  /** The weekday of a date from the library's tests. */
  lemma DateExamples()
    ensures WeekdayOf(Date(2015, 6, 2)) == Tuesday
    ensures Less(Date(2015, 5, 17), Date(2015, 5, 18)) && !Less(Date(2015, 5, 18), Date(2015, 5, 17))
  {
    assert Ordinal(Date(2015, 6, 2)) == 735751;
  }

  /** The weekend checks of the library's tests. */
  lemma WeekendExamples()
    ensures !IsWeekend(Date(2015, 6, 5)) && IsWeekend(Date(2015, 6, 6))
    ensures IsWeekend(Date(2015, 6, 7)) && !IsWeekend(Date(2015, 6, 8))
  {
    var fri, sat, sun, mon := Date(2015, 6, 5), Date(2015, 6, 6), Date(2015, 6, 7), Date(2015, 6, 8);
    IsWeekendValue(fri);
    IsWeekendValue(sat);
    IsWeekendValue(sun);
    IsWeekendValue(mon);
    assert Ordinal(fri) == 735754;
    assert Ordinal(mon) == 735757;
  }
}
