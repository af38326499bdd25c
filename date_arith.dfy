/** Date arithmetic: `move`/`next`/`prev`, `envelope`, `diff`, `length`,
    `isleap` and `range`. Day moves go through the host's day numbers, which
    stop at 9999-12-31 (`Overflow`); every result is then re-validated by
    `Date._init`, which stops at the years 1500..2500. */
module DateArith {
  import opened Errors
  import opened Calendar
  import opened Weekdays
  import opened Dates

  /** The first and last valid dates. */
  const FirstDay: Date := Date(1500, 1, 1)
  const LastDay: Date := Date(2500, 12, 31)

  /** Python's `int(a / b)` for b > 0: division truncated toward zero. */
  function TruncDiv(a: int, b: int): (q: int)
    requires b > 0
    ensures a >= 0 ==> 0 <= a - q * b < b
    ensures a < 0 ==> -b < a - q * b <= 0
  {
    if a >= 0 then a / b else -((-a) / b)
  }

  function Min(a: int, b: int): int {
    if a <= b then a else b
  }

  // ---------------------------------------------------------------------------
  // Moving by days

  /** `move(n, Period.Day)`: the host adds `n` days (raising outside its
      calendar) and the result is re-validated as a Date. */
  function MoveDays(d: Date, n: int): (r: Result<Date>)
    requires d.Valid()
    ensures r.Ok? ==> r.value.Valid() && Ordinal(r.value) == Ordinal(d) + n
  {
    var o := Ordinal(d) + n;
    if o < 1 || o > MaxOrdinal then Err(Overflow)
    else
      var t := FromOrdinal(o);
      MakeDate(t.0, t.1, t.2)
  }

  /** A day move succeeds exactly when its target lies between the first and
      last valid dates. */
  lemma MoveDaysOk(d: Date, n: int)
    requires d.Valid()
    ensures MoveDays(d, n).Ok? <==> Ordinal(FirstDay) <= Ordinal(d) + n <= Ordinal(LastDay)
  {
    var o := Ordinal(d) + n;
    if 1 <= o <= MaxOrdinal {
      var t := FromOrdinal(o);
      OrdinalOrder(t.0, t.1, t.2, 1500, 1, 1);
      OrdinalOrder(t.0, t.1, t.2, 2500, 12, 31);
    }
    if MoveDays(d, n).Ok? {
      LessIsOrdinalOrder(FirstDay, MoveDays(d, n).value);
      LessIsOrdinalOrder(MoveDays(d, n).value, LastDay);
    }
  }

  /** The date with the target day number is the result of the move. */
  lemma MoveDaysTo(d: Date, n: int, e: Date)
    requires d.Valid() && e.Valid() && Ordinal(e) == Ordinal(d) + n
    ensures MoveDays(d, n) == Ok(e)
  {
    FromToOrdinal(e.year, e.month, e.day);
  }

  /** Moving back by the same number of days undoes a day move. */
  lemma MoveDaysRoundTrip(d: Date, n: int)
    requires d.Valid() && MoveDays(d, n).Ok?
    ensures MoveDays(MoveDays(d, n).value, -n) == Ok(d)
  {
    var e := MoveDays(d, n).value;
    assert Ordinal(d) == Ordinal(e) + -n;
    MoveDaysTo(e, -n, d);
  }

  /** One day forward is the calendar successor. */
  lemma NextIsSuccessor(d: Date)
    requires d.Valid()
    ensures MoveDays(d, 1) == MakeDate(Successor(d.year, d.month, d.day).0, Successor(d.year, d.month, d.day).1, Successor(d.year, d.month, d.day).2)
  {
    var s := Successor(d.year, d.month, d.day);
    SuccessorOrdinal(d.year, d.month, d.day);
    var e := Date(s.0, s.1, s.2);
    if e.Valid() {
      MoveDaysTo(d, 1, e);
    } else {
      FromToOrdinal(s.0, s.1, s.2);
    }
  }

  /** Day numbers of the first and last valid dates; 1500-01-01 is a Monday
      and 2500-12-31 a Friday. */
  lemma DayLimits()
    ensures Ordinal(FirstDay) == 547499 && Ordinal(LastDay) == 913106
    ensures WeekdayOf(FirstDay) == Monday && WeekdayOf(LastDay) == Friday
  {
    assert DaysBeforeYear(1500) == 547498;
    assert DaysBeforeYear(2500) == 912741;
  }

  /** Every valid date lies between the first and the last day. */
  lemma OrdinalBounds(x: Date)
    requires x.Valid()
    ensures Ordinal(FirstDay) <= Ordinal(x) <= Ordinal(LastDay)
  {
    LessIsOrdinalOrder(FirstDay, x);
    LessIsOrdinalOrder(x, LastDay);
  }

  /** Moving past 2500-12-31 by less than a year stops at year 2501. */
  lemma MoveDaysPastEnd(d: Date, n: int)
    requires d.Valid()
    requires Ordinal(LastDay) < Ordinal(d) + n <= Ordinal(LastDay) + 365
    ensures MoveDays(d, n) == Err(InvalidYear(2501))
  {
    DayLimits();
    var o := Ordinal(d) + n;
    var t := FromOrdinal(o);
    OrdinalOrder(t.0, t.1, t.2, 2500, 12, 31);
    OrdinalInYear(t.0, t.1, t.2);
    assert DaysBeforeYear(2501) == 913106;
    if t.0 > 2501 {
      DaysBeforeYearMonotone(2501, t.0);
    }
  }

  /** Moving before 1500-01-01 by less than a year stops at year 1499. */
  lemma MoveDaysBeforeStart(d: Date, n: int)
    requires d.Valid()
    requires Ordinal(FirstDay) - 365 <= Ordinal(d) + n < Ordinal(FirstDay)
    ensures MoveDays(d, n) == Err(InvalidYear(1499))
  {
    DayLimits();
    var o := Ordinal(d) + n;
    var t := FromOrdinal(o);
    OrdinalOrder(t.0, t.1, t.2, 1500, 1, 1);
    OrdinalInYear(t.0, t.1, t.2);
    assert DaysBeforeYear(1499) == 547133;
    if t.0 < 1499 {
      DaysBeforeYearMonotone(t.0, 1499);
    }
  }

  // ---------------------------------------------------------------------------
  // Moving by months and years

  /** `move(n, Period.Month)`: the year is adjusted by the number of whole years
      in `month + n` (with Python's truncating `int(a / b)`), the month is
      `month + n` modulo 12 in 1..12, the day is clamped to the length of the
      target month, and the result is re-validated. */
  function MoveMonths(d: Date, n: int): (r: Result<Date>)
    ensures r.Ok? ==> r.value.Valid() && r.value.day <= d.day
  {
    var t := d.month + n;
    var year := d.year + (if t < 1 then TruncDiv(t - 12, 12) else TruncDiv(t - 1, 12));
    var month := if t % 12 < 1 then t % 12 + 12 else t % 12;
    MakeDate(year, month, Min(d.day, DaysInMonth(year, month)))
  }

  /** The year and month of a month move are those of month number
      `12 * year + (month - 1) + n`, and the day is clamped to the target
      month. */
  lemma MoveMonthsFormula(d: Date, n: int)
    requires 1 <= d.month <= 12
    ensures var k := d.year * 12 + (d.month - 1) + n;
            MoveMonths(d, n) == MakeDate(k / 12, k % 12 + 1, Min(d.day, DaysInMonth(k / 12, k % 12 + 1)))
  {
    MonthNumber(d.year, d.month, n);
  }

  /** The year and month arithmetic of `move` on plain integers. */
  lemma MonthNumber(y: int, m: int, n: int)
    requires 1 <= m <= 12
    ensures var t := m + n;
            var k := y * 12 + (m - 1) + n;
            && y + (if t < 1 then TruncDiv(t - 12, 12) else TruncDiv(t - 1, 12)) == k / 12
            && (if t % 12 < 1 then t % 12 + 12 else t % 12) == k % 12 + 1
  {
    var t := m + n;
    var k := y * 12 + (m - 1) + n;
    assert k / 12 == y + (t - 1) / 12 && k % 12 == (t - 1) % 12;
    if t < 1 {
      var j := 1 - t;
      assert (t - 1) / 12 == -((j + 11) / 12);
    }
    if t % 12 == 0 {
      assert (t - 1) % 12 == 11;
    } else {
      assert (t - 1) % 12 == t % 12 - 1;
    }
  }

  /** A month move succeeds exactly when the target year is valid; it moves by
      exactly `n` months, keeps the day when the target month has it and
      otherwise gives that month's last day. */
  lemma MoveMonthsProperties(d: Date, n: int)
    requires d.Valid()
    ensures var k := d.year * 12 + (d.month - 1) + n;
            MoveMonths(d, n).Ok? <==> MinYear <= k / 12 <= MaxYear
    ensures MoveMonths(d, n).Ok? ==>
              var e := MoveMonths(d, n).value;
              && e.Valid()
              && DiffMonths(d, e) == n
              && e.day == Min(d.day, DaysInMonth(e.year, e.month))
              && (d.day <= DaysInMonth(e.year, e.month) ==> e.day == d.day)
  {
    MoveMonthsFormula(d, n);
  }

  /** Moving back by `n` months undoes a move by `n` months whenever the day
      exists in the target month. */
  lemma MoveMonthsRoundTrip(d: Date, n: int)
    requires d.Valid() && MoveMonths(d, n).Ok?
    requires d.day <= DaysInMonth(MoveMonths(d, n).value.year, MoveMonths(d, n).value.month)
    ensures MoveMonths(MoveMonths(d, n).value, -n) == Ok(d)
  {
    var e := MoveMonths(d, n).value;
    MoveMonthsProperties(d, n);
    MoveMonthsFormula(e, -n);
    var k := e.year * 12 + (e.month - 1) - n;
    assert k == d.year * 12 + (d.month - 1);
    assert k / 12 == d.year && k % 12 + 1 == d.month;
  }

  /** Month moves back from the library's tests: one and two months before
      2015-01-01, one month before 2014-12-31 (clamped to 30 November) and
      before 2014-02-28; and a clamp forward, 2015-01-31 plus one month. */
  lemma MoveMonthsClamps()
    ensures MoveMonths(Date(2015, 1, 1), -1) == Ok(Date(2014, 12, 1))
    ensures MoveMonths(Date(2015, 1, 1), -2) == Ok(Date(2014, 11, 1))
    ensures MoveMonths(Date(2014, 12, 31), -1) == Ok(Date(2014, 11, 30))
    ensures MoveMonths(Date(2014, 2, 28), -1) == Ok(Date(2014, 1, 28))
    ensures MoveMonths(Date(2015, 1, 31), 1) == Ok(Date(2015, 2, 28))
  {
  }

  /** `move(n, Period.Year)`: the same month and day `n` years away,
      re-validated (so February 29 moved to a common year raises). */
  function MoveYears(d: Date, n: int): Result<Date> {
    MakeDate(d.year + n, d.month, d.day)
  }

  /** A year move succeeds exactly when the target year is valid and the day
      exists in it; it moves by exactly `n` years and can be undone. */
  lemma MoveYearsProperties(d: Date, n: int)
    requires d.Valid()
    ensures MoveYears(d, n).Ok? <==>
              MinYear <= d.year + n <= MaxYear && !(d.month == 2 && d.day == 29 && !IsLeap(d.year + n))
    ensures MoveYears(d, n).Ok? ==> DiffYears(d, MoveYears(d, n).value) == n
    ensures MoveYears(d, n).Ok? ==> MoveYears(MoveYears(d, n).value, -n) == Ok(d)
    ensures (MinYear <= d.year + n <= MaxYear && d.month == 2 && d.day == 29 && !IsLeap(d.year + n))
            ==> MoveYears(d, n) == Err(InvalidDay(29, 28))
  {
  }

  // ---------------------------------------------------------------------------
  // move, next and prev

  /** `d.move(n, period)`. */
  function Move(d: Date, n: int, p: Period): (r: Result<Date>)
    requires d.Valid()
    ensures r.Ok? ==> r.value.Valid()
    ensures p == Day && r.Ok? ==> DiffDays(d, r.value) == n
    ensures p == Week && r.Ok? ==> DiffDays(d, r.value) == 7 * n && WeekdayOf(r.value) == WeekdayOf(d)
    ensures p == Month && r.Ok? ==> DiffMonths(d, r.value) == n
    ensures p == Year && r.Ok? ==> DiffYears(d, r.value) == n
    decreases p.Rank()
  {
    match p
    case Day => MoveDays(d, n)
    case Week =>
      var r := Move(d, n * 7, Day);
      if r.Ok? then SameWeekday(d, r.value, n); r else r
    case Month => MoveMonthsProperties(d, n); MoveMonths(d, n)
    case Year => MoveYearsProperties(d, n); MoveYears(d, n)
  }

  lemma ModWeek(x: int, k: int)
    ensures (x + 7 * k) % 7 == x % 7
  {
  }

  /** A day number `7k + r` past a week boundary has weekday position `r`. */
  lemma WeekRemainder(x: int, k: int, r: int)
    requires x == 7 * k + r && 0 <= r < 7
    ensures x % 7 == r
  {
    ModWeek(r, k);
  }

  /** Dates a whole number of weeks apart fall on the same weekday. */
  lemma SameWeekday(a: Date, b: Date, k: int)
    requires a.Valid() && b.Valid() && Ordinal(b) == Ordinal(a) + 7 * k
    ensures WeekdayOf(b) == WeekdayOf(a)
  {
    ModWeek(Ordinal(a) + 6, k);
    ValueInjective(WeekdayOf(a), WeekdayOf(b));
  }

  /** `d.next(n, period)`. */
  function Next(d: Date, n: int, p: Period): Result<Date>
    requires d.Valid()
  {
    Move(d, n, p)
  }

  /** `d.prev(n, period)`. */
  function Prev(d: Date, n: int, p: Period): Result<Date>
    requires d.Valid()
  {
    Move(d, -n, p)
  }

  /** A move by `n` weeks is undone by a move by `-n` weeks. */
  lemma WeekRoundTrip(d: Date, n: int)
    requires d.Valid() && Move(d, n, Week).Ok?
    ensures Move(Move(d, n, Week).value, -n, Week) == Ok(d)
  {
    var m := n * 7;
    assert -n * 7 == -m;
    assert Move(d, n, Week) == MoveDays(d, m);
    MoveDaysRoundTrip(d, m);
    var e := MoveDays(d, m).value;
    assert Move(e, -n, Week) == MoveDays(e, -m);
  }

  /** `prev` undoes `next` by days, weeks and years, and by months when the
      day is kept. */
  lemma NextPrevRoundTrip(d: Date, n: int, p: Period)
    requires d.Valid() && Next(d, n, p).Ok?
    requires p == Month ==> d.day <= DaysInMonth(Next(d, n, p).value.year, Next(d, n, p).value.month)
    ensures Prev(Next(d, n, p).value, n, p) == Ok(d)
  {
    match p
    case Day =>
      assert Next(d, n, p) == MoveDays(d, n);
      MoveDaysRoundTrip(d, n);
    case Week =>
      WeekRoundTrip(d, n);
    case Month =>
      assert Next(d, n, p) == MoveMonths(d, n);
      MoveMonthsRoundTrip(d, n);
    case Year =>
      assert Next(d, n, p) == MoveYears(d, n);
      MoveYearsProperties(d, n);
  }

  // ---------------------------------------------------------------------------
  // Differences

  /** `a.diff(b, Period.Day)`: difference of the host's day numbers. */
  function DiffDays(a: Date, b: Date): int
    requires a.Valid() && b.Valid()
  {
    Ordinal(b) - Ordinal(a)
  }

  /** `a.diff(b, Period.Month)`. */
  function DiffMonths(a: Date, b: Date): int {
    (b.year - a.year) * 12 + (b.month - a.month)
  }

  /** `a.diff(b, Period.Year)`. */
  function DiffYears(a: Date, b: Date): int {
    b.year - a.year
  }

  /** Week number of a date counted from the week of 0001-01-01 (a Monday):
      its Monday has day number 7 * WeekIndex - 6 and its Sunday 7 * WeekIndex. */
  function WeekIndex(d: Date): int
    requires d.Valid()
  {
    (Ordinal(d) + 6) / 7
  }

  // ---------------------------------------------------------------------------
  // Envelopes

  /** The pair of two results computed in order: the first error wins. */
  function Both(a: Result<Date>, b: Result<Date>): (r: Result<(Date, Date)>)
    ensures r.Ok? <==> a.Ok? && b.Ok?
    ensures r.Ok? ==> r.value == (a.value, b.value)
    ensures r.Err? ==> r.error == if a.Err? then a.error else b.error
  {
    match a
    case Err(e) => Err(e)
    case Ok(x) =>
      match b
      case Err(e) => Err(e)
      case Ok(y) => Ok((x, y))
  }

  /** `d.envelope(period, to)` (with `to` = `d` when no end date is given):
      the first and last day of the periods holding `d` and `to`. The week is
      always Monday to Sunday, whatever the first day of the week is set to. */
  /** The week envelope: `d` moved back to its Monday and `to` moved ahead to
      its Sunday. */
  function WeekEnvelope(d: Date, to: Date): (r: Result<(Date, Date)>)
    requires d.Valid() && to.Valid()
    ensures r.Ok? ==> r.value.0.Valid() && r.value.1.Valid()
  {
    Both(MoveDays(d, -WeekdayNumber(d)), MoveDays(to, 6 - WeekdayNumber(to)))
  }

  function Envelope(d: Date, p: Period, to: Date): (r: Result<(Date, Date)>)
    requires d.Valid() && to.Valid()
    ensures r.Ok? ==> r.value.0.Valid() && r.value.1.Valid()
  {
    match p
    case Day => if Less(to, d) then Err(ToDateBeforeDate) else Ok((d, to))
    case Week => WeekEnvelope(d, to)
    case Month => Ok((Date(d.year, d.month, 1), Date(to.year, to.month, DaysInMonth(to.year, to.month))))
    case Year => Ok((Date(d.year, 1, 1), Date(to.year, 12, 31)))
  }

  lemma WeekdayZero(w: Weekday)
    ensures w.Value() == 0 <==> w == Monday
    ensures w.Value() == 6 <==> w == Sunday
  {
  }

  lemma WeekSplit(x: int)
    ensures x - x % 7 == 7 * (x / 7)
    ensures (7 * (x / 7)) % 7 == 0
  {
  }

  /** Moving a date back to its Monday always succeeds, since 1500-01-01 is a
      Monday. */
  lemma WeekStart(d: Date)
    requires d.Valid()
    ensures MoveDays(d, -WeekdayNumber(d)).Ok?
    ensures var first := MoveDays(d, -WeekdayNumber(d)).value;
            Ordinal(first) == 7 * WeekIndex(d) - 6 && WeekdayOf(first) == Monday
  {
    var n, k := WeekdayNumber(d), WeekIndex(d);
    assert Ordinal(d) - n == 7 * k - 6 by { WeekSplit(Ordinal(d) + 6); }
    assert Ordinal(FirstDay) <= Ordinal(d) - n <= Ordinal(LastDay) by {
      DayLimits();
      LessIsOrdinalOrder(FirstDay, d);
      LessIsOrdinalOrder(d, LastDay);
      assert k >= 78215;
    }
    MoveDaysOk(d, -n);
    var first := MoveDays(d, -n).value;
    WeekRemainder(Ordinal(first) + 6, k, 0);
    WeekdayZero(WeekdayOf(first));
  }

  /** Moving a date forward to its Sunday succeeds exactly when that Sunday is
      not after 2500-12-31, and otherwise fails with year 2501. */
  lemma WeekEnd(d: Date)
    requires d.Valid()
    ensures MoveDays(d, 6 - WeekdayNumber(d)).Ok? <==> 7 * WeekIndex(d) <= Ordinal(LastDay)
    ensures MoveDays(d, 6 - WeekdayNumber(d)).Err? ==> MoveDays(d, 6 - WeekdayNumber(d)) == Err(InvalidYear(2501))
    ensures MoveDays(d, 6 - WeekdayNumber(d)).Ok? ==>
              var last := MoveDays(d, 6 - WeekdayNumber(d)).value;
              Ordinal(last) == 7 * WeekIndex(d) && WeekdayOf(last) == Sunday
  {
    var n, k := 6 - WeekdayNumber(d), WeekIndex(d);
    assert Ordinal(d) + n == 7 * k by { WeekSplit(Ordinal(d) + 6); }
    OrdinalBounds(d);
    MoveDaysOk(d, n);
    if 7 * k > Ordinal(LastDay) {
      MoveDaysPastEnd(d, n);
    } else {
      var last := MoveDays(d, n).value;
      WeekRemainder(Ordinal(last) + 6, k, 6);
      WeekdayZero(WeekdayOf(last));
    }
  }

  /** The week envelope is the pair of the two day moves, with the offsets
      named. */
  lemma WeekEnvelopeShape(d: Date, to: Date, back: int, ahead: int)
    requires d.Valid() && to.Valid()
    requires back == -WeekdayNumber(d) && ahead == 6 - WeekdayNumber(to)
    ensures WeekEnvelope(d, to) == Both(MoveDays(d, back), MoveDays(to, ahead))
  {
  }

  lemma EnvelopeIsWeek(d: Date, to: Date)
    requires d.Valid() && to.Valid()
    ensures Envelope(d, Week, to) == WeekEnvelope(d, to)
  {
  }

  /** The week envelope runs from the Monday of the week of `d` to the Sunday
      of the week of `to`; it fails, with year 2501, exactly when that Sunday
      is after 2500-12-31. */
  lemma EnvelopeWeek(d: Date, to: Date)
    requires d.Valid() && to.Valid()
    ensures Envelope(d, Week, to).Ok? <==> 7 * WeekIndex(to) <= Ordinal(LastDay)
    ensures Envelope(d, Week, to).Err? ==> Envelope(d, Week, to).error == InvalidYear(2501)
    ensures Envelope(d, Week, to).Ok? ==>
              var (first, last) := Envelope(d, Week, to).value;
              && Ordinal(first) == 7 * WeekIndex(d) - 6 && Ordinal(last) == 7 * WeekIndex(to)
              && WeekdayOf(first) == Monday && WeekdayOf(last) == Sunday
  {
    EnvelopeIsWeek(d, to);
    WeekEnvelopeShape(d, to, -WeekdayNumber(d), 6 - WeekdayNumber(to));
    WeekStart(d);
    WeekEnd(to);
  }

  /** Every envelope holds `d` and `to`: it starts on or before `d` and ends
      on or after `to`, and for a day envelope it fails exactly when `to` is
      before `d`. */
  lemma EnvelopeCovers(d: Date, p: Period, to: Date)
    requires d.Valid() && to.Valid()
    ensures p == Day ==> (Envelope(d, p, to).Ok? <==> LessEq(d, to))
    ensures p == Day && Envelope(d, p, to).Err? ==> Envelope(d, p, to).error == ToDateBeforeDate
    ensures p != Week ==> (p == Day || Envelope(d, p, to).Ok?)
    ensures Envelope(d, p, to).Ok? ==>
              var (first, last) := Envelope(d, p, to).value;
              LessEq(first, d) && LessEq(to, last)
  {
    LessIsOrdinalOrder(d, to);
    LessIsOrdinalOrder(to, d);
    if p == Week && Envelope(d, p, to).Ok? {
      EnvelopeWeek(d, to);
      var (first, last) := Envelope(d, p, to).value;
      LessIsOrdinalOrder(first, d);
      LessIsOrdinalOrder(to, last);
    }
  }

  /** Month and year envelopes are aligned: they start on the earliest date of
      the month (year) of `d` and end on the latest date of the month (year)
      of `to`. */
  lemma EnvelopeAligned(d: Date, to: Date)
    requires d.Valid() && to.Valid()
    ensures Envelope(d, Month, to).Ok?
    ensures var (first, last) := Envelope(d, Month, to).value;
            && first.year == d.year && first.month == d.month
            && last.year == to.year && last.month == to.month
            && (forall e: Date :: e.Valid() && e.year == d.year && e.month == d.month ==> LessEq(first, e))
            && (forall e: Date :: e.Valid() && e.year == to.year && e.month == to.month ==> LessEq(e, last))
    ensures Envelope(d, Year, to).Ok?
    ensures var (first, last) := Envelope(d, Year, to).value;
            && first.year == d.year && last.year == to.year
            && (forall e: Date :: e.Valid() && e.year == d.year ==> LessEq(first, e))
            && (forall e: Date :: e.Valid() && e.year == to.year ==> LessEq(e, last))
  {
  }

  // ---------------------------------------------------------------------------
  // Differences in weeks, length, isleap

  /** `a.diff(b, Period.Week)`: the week envelope of the earlier and the later
      date, its length in days divided by 7 (Python's `int(x / 7)`), negated
      when `b` is before `a`. */
  function DiffWeeks(a: Date, b: Date): Result<int>
    requires a.Valid() && b.Valid()
  {
    if LessEq(a, b) then
      match Envelope(a, Week, b)
      case Err(e) => Err(e)
      case Ok((first, last)) => Ok(TruncDiv(DiffDays(first, last), 7))
    else
      match Envelope(b, Week, a)
      case Err(e) => Err(e)
      case Ok((first, last)) => Ok(-TruncDiv(DiffDays(first, last), 7))
  }

  /** The week difference is the difference of the week numbers; it fails
      exactly when the Sunday after the later date is beyond 2500-12-31. */
  lemma DiffWeeksFormula(a: Date, b: Date)
    requires a.Valid() && b.Valid()
    ensures DiffWeeks(a, b).Ok? <==> 7 * WeekIndex(a) <= Ordinal(LastDay) && 7 * WeekIndex(b) <= Ordinal(LastDay)
    ensures DiffWeeks(a, b).Ok? ==> DiffWeeks(a, b).value == WeekIndex(b) - WeekIndex(a)
  {
    LessIsOrdinalOrder(a, b);
    EnvelopeWeek(a, b);
    EnvelopeWeek(b, a);
    assert LessEq(a, b) ==> WeekIndex(a) <= WeekIndex(b);
    assert !LessEq(a, b) ==> WeekIndex(b) <= WeekIndex(a);
  }

  /** Swapping the dates negates the week difference (or gives the same error). */
  lemma DiffWeeksAntisymmetric(a: Date, b: Date)
    requires a.Valid() && b.Valid()
    ensures DiffWeeks(b, a).Ok? <==> DiffWeeks(a, b).Ok?
    ensures DiffWeeks(a, b).Ok? ==> DiffWeeks(b, a).value == -DiffWeeks(a, b).value
  {
    DiffWeeksFormula(a, b);
    DiffWeeksFormula(b, a);
  }

  /** `a.diff(b, period)`. */
  function Diff(a: Date, b: Date, p: Period): Result<int>
    requires a.Valid() && b.Valid()
  {
    match p
    case Day => Ok(DiffDays(a, b))
    case Week => DiffWeeks(a, b)
    case Month => Ok(DiffMonths(a, b))
    case Year => Ok(DiffYears(a, b))
  }

  /** Every difference is antisymmetric, and zero from a date to itself. */
  lemma DiffAntisymmetric(a: Date, b: Date, p: Period)
    requires a.Valid() && b.Valid()
    ensures Diff(b, a, p).Ok? <==> Diff(a, b, p).Ok?
    ensures Diff(a, b, p).Ok? ==> Diff(b, a, p).value == -Diff(a, b, p).value
    ensures Diff(a, a, p).Ok? ==> Diff(a, a, p).value == 0
  {
    DiffWeeksAntisymmetric(a, b);
    DiffWeeksFormula(a, a);
  }

  /** `d.length(period)`: the number of days of the envelope of `d`. */
  function Length(d: Date, p: Period): Result<int>
    requires d.Valid()
  {
    match Envelope(d, p, d)
    case Err(e) => Err(e)
    case Ok((first, last)) => Ok(DiffDays(first, last) + 1)
  }

  /** A day envelope has one day. */
  lemma LengthDay(d: Date)
    requires d.Valid()
    ensures Length(d, Day) == Ok(1)
  {
  }

  /** A week has seven days, unless it ends after 2500-12-31. */
  lemma LengthWeek(d: Date)
    requires d.Valid()
    ensures Length(d, Week).Ok? <==> 7 * WeekIndex(d) <= Ordinal(LastDay)
    ensures Length(d, Week).Ok? ==> Length(d, Week) == Ok(7)
    ensures Length(d, Week).Err? ==> Length(d, Week) == Err(InvalidYear(2501))
  {
    EnvelopeWeek(d, d);
  }

  /** A month has its number of days, a year 365 or 366. */
  lemma LengthMonthYear(d: Date)
    requires d.Valid()
    ensures Length(d, Month) == Ok(DaysInMonth(d.year, d.month))
    ensures Length(d, Year) == Ok(YearLength(d.year))
  {
    DaysBeforeMonthEnd(d.year);
  }

  /** `d.isleap`: the year of `d` has 366 days. */
  predicate IsLeapDate(d: Date)
    requires d.Valid()
  {
    Length(d, Year) == Ok(366)
  }

  /** isleap holds exactly for the dates of Gregorian leap years. */
  lemma IsLeapDateIff(d: Date)
    requires d.Valid()
    ensures IsLeapDate(d) <==> IsLeap(d.year)
  {
    LengthMonthYear(d);
  }

  // ---------------------------------------------------------------------------
  // Ranges

  /** Signed offset of the `j`-th element of a range. */
  function Offset(forward: bool, j: int): int {
    if forward then j else -j
  }

  /** The dates `d` moved by the offsets of elements `i` .. `count - 1`, in
      order; the first move that fails stops the list with its error. */
  function Collect(d: Date, forward: bool, i: nat, count: nat): (r: Result<seq<Date>>)
    requires d.Valid() && i <= count
    ensures r.Ok? ==> |r.value| == count - i
    decreases count - i
  {
    if i == count then Ok([])
    else
      match MoveDays(d, Offset(forward, i))
      case Err(e) => Err(e)
      case Ok(x) =>
        match Collect(d, forward, i + 1, count)
        case Err(e) => Err(e)
        case Ok(rest) => Ok([x] + rest)
  }

  /** `d.range(n=n)`: `d` moved by 0, 1, ..., n days (or 0, -1, ..., n for a
      negative `n`). */
  function Range(d: Date, n: int): Result<seq<Date>>
    requires d.Valid()
  {
    var m := if n >= 0 then n + 1 else n - 1;
    var forward := m >= 1;
    Collect(d, forward, 0, if m >= 0 then m else -m)
  }

  /** `d.range(to_date)`: the range over the day difference. */
  function RangeTo(d: Date, to: Date): Result<seq<Date>>
    requires d.Valid() && to.Valid()
  {
    Range(d, DiffDays(d, to))
  }

  /** Element `k` of a collected list is `d` moved by offset `i + k`. */
  lemma {:induction false} CollectDays(d: Date, forward: bool, i: nat, count: nat)
    requires d.Valid() && i <= count && Collect(d, forward, i, count).Ok?
    ensures var r := Collect(d, forward, i, count).value;
            forall k :: 0 <= k < |r| ==> r[k].Valid() && Ordinal(r[k]) == Ordinal(d) + Offset(forward, i + k)
    decreases count - i
  {
    if i < count {
      CollectDays(d, forward, i + 1, count);
    }
  }

  /** One successful move in front of a successful rest is a successful list. */
  lemma CollectStep(d: Date, forward: bool, i: nat, count: nat)
    requires d.Valid() && i < count
    requires MoveDays(d, Offset(forward, i)).Ok? && Collect(d, forward, i + 1, count).Ok?
    ensures Collect(d, forward, i, count).Ok?
  {
  }

  /** Every move of the list succeeds when its first and last moves stay
      within the valid dates. */
  lemma {:induction false} CollectOk(d: Date, forward: bool, i: nat, count: nat)
    requires d.Valid() && i < count
    requires 547499 <= Ordinal(d) + Offset(forward, i) <= 913106
    requires 547499 <= Ordinal(d) + Offset(forward, count - 1) <= 913106
    ensures Collect(d, forward, i, count).Ok?
    decreases count - i
  {
    DayLimits();
    MoveDaysOk(d, Offset(forward, i));
    if i + 1 < count {
      CollectOk(d, forward, i + 1, count);
    }
    CollectStep(d, forward, i, count);
  }

  /** The call to Collect that Range makes: the count and direction of `n`. */
  lemma RangeCollect(d: Date, n: int)
    requires d.Valid()
    ensures var count := if n >= 0 then n + 1 else 1 - n;
            && Range(d, n) == Collect(d, n >= 0, 0, count)
            && Offset(n >= 0, count - 1) == n
  {
  }

  /** A range of `n` days exists exactly when its last day is a valid date. */
  lemma RangeOk(d: Date, n: int)
    requires d.Valid()
    ensures Range(d, n).Ok? <==> Ordinal(FirstDay) <= Ordinal(d) + n <= Ordinal(LastDay)
  {
    var count := if n >= 0 then n + 1 else 1 - n;
    RangeCollect(d, n);
    var r := Collect(d, n >= 0, 0, count);
    if Ordinal(FirstDay) <= Ordinal(d) + n <= Ordinal(LastDay) {
      OrdinalBounds(d);
      DayLimits();
      CollectOk(d, n >= 0, 0, count);
    } else if r.Ok? {
      CollectDays(d, n >= 0, 0, count);
      OrdinalBounds(r.value[count - 1]);
      assert false;
    }
  }

  /** A range of `n` days has |n| + 1 days, starting at `d` and ending `n`
      days away, one day apart. */
  lemma RangeShape(d: Date, n: int)
    requires d.Valid() && Range(d, n).Ok?
    ensures var r := Range(d, n).value;
            && |r| == (if n >= 0 then n else -n) + 1
            && (forall k :: 0 <= k < |r| ==> r[k].Valid())
            && r[0] == d
            && Ordinal(r[|r| - 1]) == Ordinal(d) + n
            && forall k :: 0 <= k < |r| - 1 ==> DiffDays(r[k], r[k + 1]) == (if n >= 0 then 1 else -1)
  {
    var count := if n >= 0 then n + 1 else 1 - n;
    RangeCollect(d, n);
    CollectDays(d, n >= 0, 0, count);
    var r := Range(d, n).value;
    OrdinalInjective(r[0], d);
  }

  /** The range to a date always exists and runs from `d` to `to`. */
  lemma RangeToProperties(d: Date, to: Date)
    requires d.Valid() && to.Valid()
    ensures RangeTo(d, to).Ok?
    ensures var r := RangeTo(d, to).value;
            && (forall k :: 0 <= k < |r| ==> r[k].Valid())
            && |r| == (if LessEq(d, to) then DiffDays(d, to) else -DiffDays(d, to)) + 1
            && r[0] == d && r[|r| - 1] == to
            && forall k :: 0 <= k < |r| - 1 ==> DiffDays(r[k], r[k + 1]) == (if LessEq(d, to) then 1 else -1)
  {
    LessIsOrdinalOrder(FirstDay, to);
    LessIsOrdinalOrder(to, LastDay);
    LessIsOrdinalOrder(d, to);
    RangeOk(d, DiffDays(d, to));
    RangeShape(d, DiffDays(d, to));
    var r := RangeTo(d, to).value;
    OrdinalInjective(r[|r| - 1], to);
  }
}
