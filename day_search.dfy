/** `Date.find_day(year, month, weekday, n)`: the n-th given weekday of a
    month, found by stepping one day at a time. */
module DaySearch {
  import opened Errors
  import opened Calendar
  import opened Weekdays
  import opened Dates
  import opened DateArith

  /** Day of the month of the `j`-th `w` in a month whose first day has
      weekday number `w1` (it may lie beyond the end of the month). */
  function TargetDay(w1: int, w: Weekday, j: int): (day: int)
    ensures 7 * (j - 1) < day <= 7 * j
  {
    1 + (w.Value() - w1) % 7 + 7 * (j - 1)
  }

  /** What `find_day` returns: more than five occurrences are refused; the
      first of the month is validated; `n <= 0` gives the first of the month;
      otherwise the n-th occurrence if it lies in the month. Stepping past
      2500-12-31 fails on the year 2501 before the month is checked. */
  function FindDaySpec(year: int, month: int, w: Weekday, n: int): (r: Result<Date>)
    ensures r.Ok? ==> r.value.Valid() && r.value.year == year && r.value.month == month
  {
    if n > 5 then Err(CannotFindDay)
    else
      match MakeDate(year, month, 1)
      case Err(e) => Err(e)
      case Ok(first) =>
        if n <= 0 then Ok(first)
        else
          var day := TargetDay(WeekdayNumber(first), w, n);
          if day <= DaysInMonth(year, month) then Ok(Date(year, month, day))
          else if year == MaxYear && month == 12 then Err(InvalidYear(MaxYear + 1))
          else Err(CannotFindDay)
  }

  lemma ShiftMod(a: int, b: int, j: int)
    requires 0 <= a <= 6 && 0 <= b <= 6
    ensures (a + (b - a) % 7 + 7 * j) % 7 == b
  {
    var t := a + (b - a) % 7;
    assert t % 7 == b by {
      if b < a {
        assert (b - a) % 7 == b - a + 7;
      }
    }
    assert (t + 7 * j) % 7 == t % 7;
  }

  /** The date at day position `pos` counted from the first of a month:
      positions past the month's end continue into the next month. */
  function PositionDay(year: int, month: int, pos: int): Date
    requires 1 <= month <= 12
  {
    var dim := DaysInMonth(year, month);
    if pos <= dim then Date(year, month, pos)
    else if month < 12 then Date(year, month + 1, pos - dim)
    else Date(year + 1, 1, pos - dim)
  }

  /** Positions the search can reach: five weeks from the first, and not past
      2500-12-31. */
  predicate Reachable(year: int, month: int, pos: int) {
    1 <= pos <= 35 && (year == MaxYear && month == 12 ==> pos <= 31)
  }

  /** A reachable position is a valid date. */
  lemma PositionValid(year: int, month: int, pos: int)
    requires Date(year, month, 1).Valid() && Reachable(year, month, pos)
    ensures PositionDay(year, month, pos).Valid()
  {
  }

  /** A reachable position's ordinal is `pos - 1` days after the first of the
      month. */
  lemma PositionOrdinal(year: int, month: int, pos: int)
    requires Date(year, month, 1).Valid() && Reachable(year, month, pos)
    ensures PositionDay(year, month, pos).Valid()
    ensures Ordinal(PositionDay(year, month, pos)) == Ordinal(Date(year, month, 1)) + pos - 1
  {
    PositionValid(year, month, pos);
    var dim := DaysInMonth(year, month);
    if pos > dim {
      if month < 12 {
        DaysBeforeNextMonth(year, month);
      } else {
        DaysBeforeNextYear(year);
        DaysBeforeMonthEnd(year);
      }
    }
  }

  /** The calendar successor of a position is the next position, except at
      2500-12-31. */
  lemma PositionSuccessor(year: int, month: int, pos: int)
    requires Date(year, month, 1).Valid() && Reachable(year, month, pos) && pos < 35
    ensures PositionDay(year, month, pos).Valid()
    ensures var d := PositionDay(year, month, pos);
            var t := Successor(d.year, d.month, d.day);
            if year == MaxYear && month == 12 && pos == 31 then t == (MaxYear + 1, 1, 1)
            else Reachable(year, month, pos + 1) && Date(t.0, t.1, t.2) == PositionDay(year, month, pos + 1)
  {
    PositionValid(year, month, pos);
  }

  /** One step of `d.next()` from a reachable position: it fails exactly at
      2500-12-31, with the error of the year 2501. */
  lemma StepPosition(year: int, month: int, pos: int)
    requires Date(year, month, 1).Valid() && Reachable(year, month, pos) && pos < 35
    ensures PositionDay(year, month, pos).Valid()
    ensures year == MaxYear && month == 12 && pos == 31 ==> Next(PositionDay(year, month, pos), 1, Day) == Err(InvalidYear(MaxYear + 1))
    ensures !(year == MaxYear && month == 12 && pos == 31) ==> Reachable(year, month, pos + 1) && Next(PositionDay(year, month, pos), 1, Day) == Ok(PositionDay(year, month, pos + 1))
  {
    var d := PositionDay(year, month, pos);
    PositionSuccessor(year, month, pos);
    if !(year == MaxYear && month == 12 && pos == 31) {
      PositionValid(year, month, pos + 1);
    }
    assert Next(d, 1, Day) == MoveDays(d, 1);
    NextIsSuccessor(d);
  }

  /** Positions between two consecutive targets: only the later one has the
      target's residue. */
  lemma TargetResidue(w1: int, b: int, j: int, pos: int)
    requires 0 <= w1 <= 6 && 0 <= b <= 6
    requires 1 + (b - w1) % 7 + 7 * (j - 1) < pos <= 1 + (b - w1) % 7 + 7 * j
    ensures (w1 + pos - 1) % 7 == b <==> pos == 1 + (b - w1) % 7 + 7 * j
  {
    ShiftMod(w1, b, j);
  }

  /** A date k days after another is k weekdays after it, cyclically. */
  lemma WeekdayAfter(first: Date, d: Date, k: int)
    requires first.Valid() && d.Valid() && Ordinal(d) == Ordinal(first) + k
    ensures WeekdayNumber(d) == (WeekdayNumber(first) + k) % 7
  {
    assert WeekdayNumber(first) == (Ordinal(first) + 6) % 7 == WeekdayOf(first).Value();
    assert WeekdayNumber(d) == (Ordinal(d) + 6) % 7 == WeekdayOf(d).Value();
    ModShift(Ordinal(first) + 6, k);
  }

  /** The weekday of the date at position `pos`: between two consecutive
      targets, only the later one has the requested weekday. */
  lemma WeekdayAtPosition(year: int, month: int, pos: int, w: Weekday, t1: int, j: int)
    requires Date(year, month, 1).Valid() && Reachable(year, month, pos)
    requires t1 == TargetDay(WeekdayNumber(Date(year, month, 1)), w, 1)
    requires t1 + 7 * (j - 1) < pos <= t1 + 7 * j
    ensures PositionDay(year, month, pos).Valid()
    ensures WeekdayOf(PositionDay(year, month, pos)) == w <==> pos == t1 + 7 * j
  {
    var first := Date(year, month, 1);
    var d := PositionDay(year, month, pos);
    var w1 := WeekdayNumber(first);
    PositionOrdinal(year, month, pos);
    WeekdayAfter(first, d, pos - 1);
    TargetResidue(w1, w.Value(), j, pos);
    ValueInjective(WeekdayOf(d), w);
  }

  /** The found day has the requested weekday and is its n-th occurrence in
      the month: exactly n - 1 earlier days of the month share its weekday. */
  lemma FindDaySpecSound(year: int, month: int, w: Weekday, n: int)
    requires 1 <= n && FindDaySpec(year, month, w, n).Ok?
    ensures var d := FindDaySpec(year, month, w, n).value;
            && d.Valid() && d.year == year && d.month == month
            && WeekdayOf(d) == w
            && 7 * (n - 1) < d.day <= 7 * n
  {
    var d := FindDaySpec(year, month, w, n).value;
    var t1 := TargetDay(WeekdayNumber(Date(year, month, 1)), w, 1);
    assert d == Date(year, month, t1 + 7 * (n - 1));
    WeekdayAtPosition(year, month, d.day, w, t1, n - 1);
  }

  /** Conversely, the n-th occurrence of a weekday in a month is what
      find_day returns. */
  lemma FindDaySpecComplete(year: int, month: int, w: Weekday, n: int, e: Date)
    requires 1 <= n <= 5 && e.Valid() && e.year == year && e.month == month
    requires WeekdayOf(e) == w && 7 * (n - 1) < e.day <= 7 * n
    ensures FindDaySpec(year, month, w, n) == Ok(e)
  {
    var t1 := TargetDay(WeekdayNumber(Date(year, month, 1)), w, 1);
    var t := t1 + 7 * (n - 1);
    if e.day != t {
      if e.day < t {
        WeekdayAtPosition(year, month, e.day, w, t1, n - 1);
      } else {
        WeekdayAtPosition(year, month, e.day, w, t1, n);
      }
    }
  }

  /** When the n-th occurrence is not in the month, find_day refuses. */
  lemma FindDaySpecMissing(year: int, month: int, w: Weekday, n: int)
    requires 1 <= n <= 5 && MakeDate(year, month, 1).Ok?
    requires forall e: Date :: e.Valid() && e.year == year && e.month == month && WeekdayOf(e) == w ==> e.day <= 7 * (n - 1)
    ensures FindDaySpec(year, month, w, n) == (if year == MaxYear && month == 12 then Err(InvalidYear(MaxYear + 1)) else Err(CannotFindDay))
  {
    var r := FindDaySpec(year, month, w, n);
    if r.Ok? {
      FindDaySpecSound(year, month, w, n);
    }
  }

  /** `d.next()` at a reachable position of the search. */
  method NextDay(year: int, month: int, ghost pos: int, d: Date) returns (r: Result<Date>)
    requires Date(year, month, 1).Valid() && Reachable(year, month, pos) && pos < 35
    requires d == PositionDay(year, month, pos)
    ensures year == MaxYear && month == 12 && pos == 31 ==> r == Err(InvalidYear(MaxYear + 1))
    ensures !(year == MaxYear && month == 12 && pos == 31) ==> Reachable(year, month, pos + 1) && r == Ok(PositionDay(year, month, pos + 1))
  {
    StepPosition(year, month, pos);
    r := Next(d, 1, Day);
  }

  /** The inner loop of `Date.find_day`: step to the next day until the
      weekday matches. From a position after the (j-1)-th occurrence it stops
      on the j-th, or fails stepping past 2500-12-31 on the way. */
  method SkipToWeekday(year: int, month: int, w: Weekday, d: Date, ghost t1: int, ghost j: int, ghost pos: int)
    returns (r: Result<Date>, ghost found: int)
    requires Date(year, month, 1).Valid() && t1 == TargetDay(WeekdayNumber(Date(year, month, 1)), w, 1)
    requires 1 <= j <= 5 && Reachable(year, month, pos) && d == PositionDay(year, month, pos)
    requires t1 + 7 * (j - 2) < pos <= t1 + 7 * (j - 1)
    ensures found == t1 + 7 * (j - 1)
    ensures r.Ok? ==> Reachable(year, month, found) && r.value == PositionDay(year, month, found)
    ensures r.Err? ==> r == Err(InvalidYear(MaxYear + 1)) && year == MaxYear && month == 12 && 31 < found
  {
    var e := d;
    found := pos;
    while WeekdayOf(e) != w
      invariant Reachable(year, month, found) && e == PositionDay(year, month, found)
      invariant t1 + 7 * (j - 2) < found <= t1 + 7 * (j - 1)
      decreases t1 + 7 * (j - 1) - found
    {
      WeekdayAtPosition(year, month, found, w, t1, j - 1);
      var next := NextDay(year, month, found, e);
      if next.Err? {
        return next, t1 + 7 * (j - 1);
      }
      e := next.value;
      found := found + 1;
    }
    WeekdayAtPosition(year, month, found, w, t1, j - 1);
    return Ok(e), found;
  }

  /** `Date.find_day` as written: from the first of the month, step to the
      next day until the weekday matches, n times, stepping once more between
      occurrences; then check the month. */
  method FindDay(year: int, month: int, w: Weekday, n: int) returns (r: Result<Date>)
    ensures r == FindDaySpec(year, month, w, n)
  {
    if n > 5 {
      return Err(CannotFindDay);
    }
    var start := MakeDate(year, month, 1);
    if start.Err? {
      return Err(start.error);
    }
    var d := start.value;
    // Day of the month of the first occurrence; the j-th is 7 * (j - 1) later.
    ghost var t1 := TargetDay(WeekdayNumber(d), w, 1);
    ghost var pos := 1;
    var k := n;
    while k > 0
      invariant Reachable(year, month, pos) && d == PositionDay(year, month, pos)
      invariant k == n || 0 <= k < n
      invariant k == n ==> pos == 1
      invariant 0 < k < n ==> pos == t1 + 7 * (n - k - 1) + 1
      invariant k <= 0 && n >= 1 ==> pos == t1 + 7 * (n - 1)
      decreases k
    {
      var found;
      found, pos := SkipToWeekday(year, month, w, d, t1, n - k + 1, pos);
      if found.Err? {
        return found;
      }
      d := found.value;
      k := k - 1;
      if k > 0 {
        // Cannot fail: a later occurrence lies within the five weeks.
        var next := NextDay(year, month, pos, d);
        d := next.value;
        pos := pos + 1;
      }
    }
    FindDayOutcome(year, month, w, n, d, t1, pos);
    if d.month != month {
      return Err(CannotFindDay);
    }
    return Ok(d);
  }

  /** Where the search stops, the month check gives find_day's outcome. */
  lemma FindDayOutcome(year: int, month: int, w: Weekday, n: int, d: Date, t1: int, pos: int)
    requires n <= 5 && Date(year, month, 1).Valid()
    requires t1 == TargetDay(WeekdayNumber(Date(year, month, 1)), w, 1)
    requires Reachable(year, month, pos) && d == PositionDay(year, month, pos)
    requires n < 1 ==> pos == 1
    requires n >= 1 ==> pos == t1 + 7 * (n - 1)
    ensures FindDaySpec(year, month, w, n) == if d.month != month then Err(CannotFindDay) else Ok(d)
  {
    if n >= 1 {
      SpecByTarget(year, month, w, n, Date(year, month, 1), t1);
    }
  }

  /** find_day's outcome for `1 <= n <= 5` in terms of the first target day. */
  lemma SpecByTarget(year: int, month: int, w: Weekday, n: int, first: Date, t1: int)
    requires 1 <= n <= 5 && first == Date(year, month, 1) && first.Valid()
    requires t1 == TargetDay(WeekdayNumber(first), w, 1)
    ensures FindDaySpec(year, month, w, n) ==
              if t1 + 7 * (n - 1) <= DaysInMonth(year, month) then Ok(Date(year, month, t1 + 7 * (n - 1)))
              else if year == MaxYear && month == 12 then Err(InvalidYear(MaxYear + 1))
              else Err(CannotFindDay)
  {
  }

  /** The dates the library's tests and the daylight-saving rule rely on. */
  lemma FindDayExamples()
    ensures FindDaySpec(2015, 2, Sunday, 10) == Err(CannotFindDay)
    ensures FindDaySpec(2015, 2, Sunday, 5) == Err(CannotFindDay)
    ensures FindDaySpec(2015, 3, Sunday, 1) == Ok(Date(2015, 3, 1))
    ensures FindDaySpec(2015, 3, Sunday, 2) == Ok(Date(2015, 3, 8))
    ensures FindDaySpec(2015, 3, Tuesday, 5) == Ok(Date(2015, 3, 31))
    ensures FindDaySpec(2015, 11, Sunday, 1) == Ok(Date(2015, 11, 1))
  {
    assert WeekdayNumber(Date(2015, 2, 1)) == 6;
    assert WeekdayNumber(Date(2015, 3, 1)) == 6;
    assert WeekdayNumber(Date(2015, 11, 1)) == 6;
  }
}
