/** The proleptic Gregorian calendar primitives the library takes from the host:
    the leap rule and month lengths (`calendar.monthrange`), the day ordinal
    with 0001-01-01 = 1 (`date.toordinal`) and its inverse, and the weekday
    with Monday = 0 (`calendar.weekday`). Dates here are plain triples
    (year, month, day); years 1..9999 are the host's range. */
module Calendar {

  /** Leap-year rule of the Gregorian calendar (RFC 3339, Appendix C). */
  predicate IsLeap(y: int) {
    y % 4 == 0 && (y % 100 != 0 || y % 400 == 0)
  }

  function YearLength(y: int): int {
    if IsLeap(y) then 366 else 365
  }

  /** Number of days of month `m` of year `y`. */
  function DaysInMonth(y: int, m: int): (n: int)
    requires 1 <= m <= 12
    ensures 28 <= n <= 31
    ensures n == 29 <==> m == 2 && IsLeap(y)
    ensures n == 28 <==> m == 2 && !IsLeap(y)
  {
    if m == 2 then (if IsLeap(y) then 29 else 28)
    else if m == 4 || m == 6 || m == 9 || m == 11 then 30
    else 31
  }

  function DaysBeforeMonth(y: int, m: int): int
    requires 1 <= m <= 12
  {
    [0, 31, 59, 90, 120, 151, 181, 212, 243, 273, 304, 334][m - 1]
      + (if m > 2 && IsLeap(y) then 1 else 0)
  }

  function DaysBeforeYear(y: int): int
    requires y >= 1
  {
    var p := y - 1;
    365 * p + p / 4 - p / 100 + p / 400
  }

  /** A triple the host's date type accepts (years 1..9999 are checked through ordinals). */
  predicate IsProleptic(y: int, m: int, d: int) {
    1 <= y && 1 <= m <= 12 && 1 <= d <= DaysInMonth(y, m)
  }

  /** Day number with 0001-01-01 = 1. */
  function ToOrdinal(y: int, m: int, d: int): int
    requires y >= 1 && 1 <= m <= 12
  {
    DaysBeforeYear(y) + DaysBeforeMonth(y, m) + d
  }

  /** Ordinal of 9999-12-31, the last day of the host's date type. */
  const MaxOrdinal: int := 3652059

  /** Weekday of a date, Monday = 0 ... Sunday = 6. */
  function WeekdayValue(y: int, m: int, d: int): (w: int)
    requires y >= 1 && 1 <= m <= 12
    ensures 0 <= w <= 6
  {
    (ToOrdinal(y, m, d) + 6) % 7
  }

  /** The day after a valid triple, counted in the calendar. */
  function Successor(y: int, m: int, d: int): (int, int, int)
    requires IsProleptic(y, m, d)
  {
    if d < DaysInMonth(y, m) then (y, m, d + 1)
    else if m < 12 then (y, m + 1, 1)
    else (y + 1, 1, 1)
  }

  // ---------------------------------------------------------------------------
  // Year and month arithmetic

  lemma DivStep(p: int)
    requires p >= 0
    ensures (p + 1) / 4 - p / 4 == (if (p + 1) % 4 == 0 then 1 else 0)
    ensures (p + 1) / 100 - p / 100 == (if (p + 1) % 100 == 0 then 1 else 0)
    ensures (p + 1) / 400 - p / 400 == (if (p + 1) % 400 == 0 then 1 else 0)
  {
  }

  /** The closed form of DaysBeforeYear adds one year length per year. */
  lemma DaysBeforeNextYear(y: int)
    requires y >= 1
    ensures DaysBeforeYear(y + 1) == DaysBeforeYear(y) + YearLength(y)
  {
    var p := y - 1;
    DivStep(p);
    LeapDivisors(y);
    assert DaysBeforeYear(y + 1) - DaysBeforeYear(y)
        == 365 + ((p + 1) / 4 - p / 4) - ((p + 1) / 100 - p / 100) + ((p + 1) / 400 - p / 400);
  }

  /** A multiple of 400 is a multiple of 100, and a multiple of 100 one of 4. */
  lemma LeapDivisors(y: int)
    ensures y % 400 == 0 ==> y % 100 == 0
    ensures y % 100 == 0 ==> y % 4 == 0
  {
    var q, c := y / 400, y / 100;
    if y % 400 == 0 {
      assert y == 400 * q;
      assert y / 100 == 4 * q;
    }
    if y % 100 == 0 {
      assert y == 100 * c;
      assert y / 4 == 25 * c;
    }
  }

  /** Month m + 1 starts where month m ends. */
  lemma DaysBeforeNextMonth(y: int, m: int)
    requires 1 <= m < 12
    ensures DaysBeforeMonth(y, m + 1) == DaysBeforeMonth(y, m) + DaysInMonth(y, m)
  {
  }

  lemma {:induction false} DaysBeforeYearMonotone(a: int, b: int)
    requires 1 <= a < b
    ensures DaysBeforeYear(a) + YearLength(a) <= DaysBeforeYear(b)
    decreases b - a
  {
    DaysBeforeNextYear(a);
    if a + 1 < b {
      DaysBeforeYearMonotone(a + 1, b);
    }
  }

  lemma DaysBeforeMonthEnd(y: int)
    ensures DaysBeforeMonth(y, 12) + DaysInMonth(y, 12) == YearLength(y)
  {
  }

  lemma {:induction false} DaysBeforeMonthMonotone(y: int, a: int, b: int)
    requires 1 <= a < b <= 12
    ensures DaysBeforeMonth(y, a) + DaysInMonth(y, a) <= DaysBeforeMonth(y, b)
    decreases b - a
  {
    DaysBeforeNextMonth(y, a);
    if a + 1 < b {
      DaysBeforeMonthMonotone(y, a + 1, b);
    }
  }

  lemma DaysBeforeMonthBounds(y: int, m: int)
    requires 1 <= m <= 12
    ensures 0 <= DaysBeforeMonth(y, m)
    ensures DaysBeforeMonth(y, m) + DaysInMonth(y, m) <= YearLength(y)
  {
    DaysBeforeMonthEnd(y);
    if m < 12 {
      DaysBeforeMonthMonotone(y, m, 12);
    }
    if m > 1 {
      DaysBeforeMonthMonotone(y, 1, m);
    }
  }

  /** The ordinal of a valid triple lies inside its year. */
  lemma OrdinalInYear(y: int, m: int, d: int)
    requires IsProleptic(y, m, d)
    ensures DaysBeforeYear(y) < ToOrdinal(y, m, d) <= DaysBeforeYear(y + 1)
  {
    DaysBeforeMonthBounds(y, m);
    DaysBeforeNextYear(y);
  }

  // ---------------------------------------------------------------------------
  // Inverse of ToOrdinal

  function MonthSearch(y: int, doy: int, m: int): (r: int)
    requires 1 <= m <= 12 && DaysBeforeMonth(y, m) < doy <= YearLength(y)
    ensures m <= r <= 12
    ensures DaysBeforeMonth(y, r) < doy <= DaysBeforeMonth(y, r) + DaysInMonth(y, r)
    decreases 12 - m
  {
    DaysBeforeMonthEnd(y);
    if doy <= DaysBeforeMonth(y, m) + DaysInMonth(y, m) then m else MonthSearch(y, doy, m + 1)
  }

  /** The triple of day number `n`, searching the years from `y` on. */
  function SearchFromYear(n: int, y: int): (r: (int, int, int))
    requires 1 <= y && DaysBeforeYear(y) < n
    ensures IsProleptic(r.0, r.1, r.2)
    ensures ToOrdinal(r.0, r.1, r.2) == n
    decreases n - DaysBeforeYear(y)
  {
    DaysBeforeNextYear(y);
    if n <= DaysBeforeYear(y + 1) then
      var doy := n - DaysBeforeYear(y);
      var m := MonthSearch(y, doy, 1);
      (y, m, doy - DaysBeforeMonth(y, m))
    else
      SearchFromYear(n, y + 1)
  }

  /** The triple of day number `n` (`date.fromordinal`). */
  function FromOrdinal(n: int): (r: (int, int, int))
    requires n >= 1
    ensures IsProleptic(r.0, r.1, r.2)
    ensures ToOrdinal(r.0, r.1, r.2) == n
  {
    SearchFromYear(n, 1)
  }

  // ---------------------------------------------------------------------------
  // Ordinals agree with the calendar order

  predicate LexLess(y1: int, m1: int, d1: int, y2: int, m2: int, d2: int) {
    y1 < y2 || (y1 == y2 && m1 < m2) || (y1 == y2 && m1 == m2 && d1 < d2)
  }

  lemma LexLessOrdinal(y1: int, m1: int, d1: int, y2: int, m2: int, d2: int)
    requires IsProleptic(y1, m1, d1) && IsProleptic(y2, m2, d2)
    requires LexLess(y1, m1, d1, y2, m2, d2)
    ensures ToOrdinal(y1, m1, d1) < ToOrdinal(y2, m2, d2)
  {
    OrdinalInYear(y1, m1, d1);
    OrdinalInYear(y2, m2, d2);
    if y1 < y2 {
      DaysBeforeYearMonotone(y1, y2);
      DaysBeforeNextYear(y1);
    } else if m1 < m2 {
      DaysBeforeMonthMonotone(y1, m1, m2);
    }
  }

  /** Lexicographic order of triples is the order of their ordinals. */
  lemma OrdinalOrder(y1: int, m1: int, d1: int, y2: int, m2: int, d2: int)
    requires IsProleptic(y1, m1, d1) && IsProleptic(y2, m2, d2)
    ensures LexLess(y1, m1, d1, y2, m2, d2) <==> ToOrdinal(y1, m1, d1) < ToOrdinal(y2, m2, d2)
    ensures (y1, m1, d1) == (y2, m2, d2) <==> ToOrdinal(y1, m1, d1) == ToOrdinal(y2, m2, d2)
  {
    if LexLess(y1, m1, d1, y2, m2, d2) {
      LexLessOrdinal(y1, m1, d1, y2, m2, d2);
    } else if LexLess(y2, m2, d2, y1, m1, d1) {
      LexLessOrdinal(y2, m2, d2, y1, m1, d1);
    }
  }

  /** FromOrdinal inverts ToOrdinal on valid triples. */
  lemma FromToOrdinal(y: int, m: int, d: int)
    requires IsProleptic(y, m, d)
    ensures ToOrdinal(y, m, d) >= 1
    ensures FromOrdinal(ToOrdinal(y, m, d)) == (y, m, d)
  {
    OrdinalInYear(y, m, d);
    var r := FromOrdinal(ToOrdinal(y, m, d));
    OrdinalOrder(y, m, d, r.0, r.1, r.2);
  }

  /** The triple with day number `n` is what FromOrdinal finds. */
  lemma FromOrdinalOf(y: int, m: int, d: int, n: int)
    requires IsProleptic(y, m, d) && ToOrdinal(y, m, d) == n
    ensures FromOrdinal(n) == (y, m, d)
  {
    FromToOrdinal(y, m, d);
  }

  /** Successor is the next day number. */
  lemma SuccessorOrdinal(y: int, m: int, d: int)
    requires IsProleptic(y, m, d)
    ensures IsProleptic(Successor(y, m, d).0, Successor(y, m, d).1, Successor(y, m, d).2)
    ensures ToOrdinal(Successor(y, m, d).0, Successor(y, m, d).1, Successor(y, m, d).2) == ToOrdinal(y, m, d) + 1
  {
    if d == DaysInMonth(y, m) && m == 12 {
      DaysBeforeNextYear(y);
      DaysBeforeMonthEnd(y);
    }
  }

  /** Day numbers of 0001-01-01 and 9999-12-31. */
  lemma OrdinalLimits()
    ensures ToOrdinal(1, 1, 1) == 1
    ensures ToOrdinal(9999, 12, 31) == MaxOrdinal
  {
    assert DaysBeforeYear(9999) == 3651694;
    assert DaysBeforeMonth(9999, 12) == 334;
  }

  /** Every triple of the host's range has a day number in 1..MaxOrdinal. */
  lemma OrdinalRange(y: int, m: int, d: int)
    requires IsProleptic(y, m, d) && y <= 9999
    ensures 1 <= ToOrdinal(y, m, d) <= MaxOrdinal
  {
    OrdinalInYear(y, m, d);
    if y > 1 {
      DaysBeforeYearMonotone(1, y);
    }
    if y < 9999 {
      DaysBeforeYearMonotone(y + 1, 10000);
    }
    assert DaysBeforeYear(10000) == MaxOrdinal;
  }

  /** 0001-01-01 is a Monday (weekday number 0), and the weekday advances by
      one, cyclically, from each calendar day to the next. */
  lemma WeekdayStep(y: int, m: int, d: int, y': int, m': int, d': int)
    requires IsProleptic(y, m, d) && (y', m', d') == Successor(y, m, d)
    ensures WeekdayValue(1, 1, 1) == 0
    ensures WeekdayValue(y', m', d') == (WeekdayValue(y, m, d) + 1) % 7
  {
    SuccessorOrdinal(y, m, d);
    CyclicStep(ToOrdinal(y, m, d) + 6);
  }

  lemma CyclicStep(x: int)
    ensures (x + 1) % 7 == (x % 7 + 1) % 7
  {
    var q := x / 7;
    assert x + 1 == 7 * q + (x % 7 + 1);
  }
}
