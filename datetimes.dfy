/** `DateTime`: a date and a time of day in the library's only time zone,
    EST5EDT, and `Timezone.offset`, its daylight-saving rule. */
module DateTimes {
  import opened Errors
  import opened Calendar
  import opened Text
  import opened Weekdays
  import Dates
  import Times
  import DaySearch

  type Date = Dates.Date
  type Time = Times.Time

  /** The pair `(date, time)` a DateTime holds; `DateTime((d, t))` builds one
      from a pair without checking it. */
  datatype DateTime = DateTime(date: Date, time: Time) {
    predicate Valid() {
      date.Valid() && time.Valid()
    }
  }

  /** Name of the time zone, `Timezone.EST5EDT.value`. */
  const ZoneName: string := "EST"


  // ---------------------------------------------------------------------------
  // Construction

  /** `DateTime(d)` for a Date: midnight at the start of `d`. */
  function FromDate(d: Date): (r: DateTime)
    requires d.Valid()
    ensures r.Valid() && r.date == d
    ensures forall t: Time :: t.Valid() ==> LessEq(r, DateTime(d, t))
  {
    StartOfDayFirst(d);
    DateTime(d, Times.StartOfDay)
  }

  lemma StartOfDayFirst(d: Date)
    ensures forall t: Time :: t.Valid() ==> LessEq(DateTime(d, Times.StartOfDay), DateTime(d, t))
  {
    forall t: Time | t.Valid() ensures LessEq(DateTime(d, Times.StartOfDay), DateTime(d, t)) {
      Times.LessIsLexicographic(Times.StartOfDay, t);
    }
  }

  /** `DateTime(dt)` for a DateTime: re-validates both parts. */
  function CopyDateTime(dt: DateTime): (r: Result<DateTime>)
    requires dt.Valid()
    ensures r == Ok(dt)
  {
    match Dates.CopyDate(dt.date)
    case Err(e) => Err(e)
    case Ok(d) =>
      match Times.CopyTime(dt.time)
      case Err(e) => Err(e)
      case Ok(t) => Ok(DateTime(d, t))
  }

  // ---------------------------------------------------------------------------
  // Text form

  predicate IsDateChar(c: char) {
    IsDigit(c) || c == '-'
  }

  predicate IsTimeChar(c: char) {
    IsDigit(c) || c == ':'
  }

  /** One character of `[ .,@:T]`. */
  predicate IsSeparator(c: char) {
    c == ' ' || c == '.' || c == ',' || c == '@' || c == ':' || c == 'T'
  }

  /** `DateTime(s)` for a string: `^([\d-]*)[ .,@:T]([\d:]*)` on ASCII digits,
      then the date group as a Date and the time group as a Time. No match, or
      any failure of the two parts, is the one error `Invalid date/time`. The
      first group is greedy and the separator is never in its class, so a
      backtracking matcher finds no other match. */
  function ParseDateTime(s: string): (r: Result<DateTime>)
    ensures r.Err? ==> r == Err(InvalidDateTime(s))
    ensures r.Ok? ==> r.value.Valid()
  {
    var i := Span(s, 0, IsDateChar);
    if i == |s| || !IsSeparator(s[i]) then Err(InvalidDateTime(s))
    else
      var j := Span(s, i + 1, IsTimeChar);
      match Dates.ParseDate(s[..i])
      case Err(_) => Err(InvalidDateTime(s))
      case Ok(d) =>
        match Times.ParseTime(s[i + 1..j])
        case Err(_) => Err(InvalidDateTime(s))
        case Ok(t) => Ok(DateTime(d, t))
  }

  /** How a string made of a date group, a separator, a time group and a tail
      that does not continue the time group is read. */
  lemma ParseParts(a: string, sep: char, b: string, rest: string)
    requires forall k :: 0 <= k < |a| ==> IsDateChar(a[k])
    requires IsSeparator(sep)
    requires forall k :: 0 <= k < |b| ==> IsTimeChar(b[k])
    requires rest != [] ==> !IsTimeChar(rest[0])
    ensures var s := a + [sep] + b + rest;
            ParseDateTime(s) ==
              match Dates.ParseDate(a)
              case Err(_) => Err(InvalidDateTime(s))
              case Ok(d) =>
                match Times.ParseTime(b)
                case Err(_) => Err(InvalidDateTime(s))
                case Ok(t) => Ok(DateTime(d, t))
  {
    var s := a + [sep] + b + rest;
    var i := |a|;
    assert forall k :: 0 <= k < i ==> s[k] == a[k];
    SpanOf(s, 0, i, IsDateChar);
    var j := i + 1 + |b|;
    assert forall k :: i + 1 <= k < j ==> s[k] == b[k - i - 1];
    if j < |s| {
      assert s[j] == rest[0];
    }
    SpanOf(s, i + 1, j, IsTimeChar);
    assert s[..i] == a;
    assert s[i + 1..j] == b;
  }

  /** The characters of a formatted date are digits and dashes. */
  lemma FormatDateChars(d: Date)
    requires d.Valid()
    ensures forall k :: 0 <= k < |Dates.FormatDate(d)| ==> IsDateChar(Dates.FormatDate(d)[k])
  {
    var y, m, dd := Pad4(d.year), Pad2(d.month), Pad2(d.day);
    assert Dates.FormatDate(d) == y + "-" + m + "-" + dd;
    forall k | 0 <= k < 10 ensures IsDateChar(Dates.FormatDate(d)[k]) {
      if k < 4 {
        assert Dates.FormatDate(d)[k] == y[k];
      } else if 5 <= k < 7 {
        assert Dates.FormatDate(d)[k] == m[k - 5];
      } else if 8 <= k {
        assert Dates.FormatDate(d)[k] == dd[k - 8];
      }
    }
  }

  /** The characters of a formatted time are digits and colons. */
  lemma FormatTimeChars(t: Time)
    requires t.Valid()
    ensures forall k :: 0 <= k < |Times.Format(t)| ==> IsTimeChar(Times.Format(t)[k])
  {
    var h, m, sec := Pad2(t.hour), Pad2(t.minute), Pad2(t.second);
    assert Times.Format(t) == h + ":" + m + ":" + sec;
    forall k | 0 <= k < 8 ensures IsTimeChar(Times.Format(t)[k]) {
      if k < 2 {
        assert Times.Format(t)[k] == h[k];
      } else if 3 <= k < 5 {
        assert Times.Format(t)[k] == m[k - 3];
      } else if 6 <= k {
        assert Times.Format(t)[k] == sec[k - 6];
      }
    }
  }

  /** Both text forms read back as the same date and time. */
  lemma ParseFormatted(dt: DateTime, sep: char, rest: string)
    requires dt.Valid() && IsSeparator(sep)
    requires rest != [] ==> !IsTimeChar(rest[0])
    ensures ParseDateTime(Dates.FormatDate(dt.date) + [sep] + Times.Format(dt.time) + rest) == Ok(dt)
  {
    FormatDateChars(dt.date);
    FormatTimeChars(dt.time);
    ParseParts(Dates.FormatDate(dt.date), sep, Times.Format(dt.time), rest);
    Dates.ParseFormatDate(dt.date, "");
    assert Dates.FormatDate(dt.date) + "" == Dates.FormatDate(dt.date);
    Times.ParseFormat(dt.time);
  }

  /** `str(dt)`: `YYYY-MM-DD hh:mm:ss EST`. */
  function ToString(dt: DateTime): (s: string)
    requires dt.Valid()
    ensures |s| == 23
    ensures ParseDateTime(s) == Ok(dt)
  {
    ParseFormatted(dt, ' ', " " + ZoneName);
    Dates.FormatDate(dt.date) + " " + Times.Format(dt.time) + (" " + ZoneName)
  }

  /** `dt.isostr()`: `YYYY-MM-DDThh:mm:ss.000000-0H:00` with the offset of
      the date. */
  function IsoStr(dt: DateTime): (s: string)
    requires dt.Valid()
    ensures |s| == 32
    ensures ParseDateTime(s) == Ok(dt)
  {
    ParseFormatted(dt, 'T', ".000000-" + Pad2(Offset(dt)) + ":00");
    Dates.FormatDate(dt.date) + "T" + Times.Format(dt.time) + (".000000-" + Pad2(Offset(dt)) + ":00")
  }

  /** Text from the library's tests: a comma separates the date from the time. */
  lemma ParseCommaExample(s: string)
    requires s == "2015-05-17,15:33:26"
    ensures ParseDateTime(s) == Ok(DateTime(Dates.Date(2015, 5, 17), Times.Time(15, 33, 26)))
  {
    var a: string, b: string := "2015-05-17", "15:33:26";
    assert a + [','] + b + "" == s;
    assert forall k :: 0 <= k < |a| ==> IsDateChar(a[k]);
    assert forall k :: 0 <= k < |b| ==> IsTimeChar(b[k]);
    Dates.ParseDateAccepts();
    Times.ParseTimeAccepts(b);
    ParseParts(a, ',', b, "");
  }

  /** A dash is a date character, so the date group runs on to "-15" and the
      time group "33:26" has hour 33: the whole text is rejected. */
  lemma ParseDashExample(s: string)
    requires s == "2015-05-17-15:33:26"
    ensures ParseDateTime(s) == Err(InvalidDateTime(s))
  {
    var a: string, b: string := "2015-05-17-15", "33:26";
    assert a + [':'] + b + "" == s;
    assert forall k :: 0 <= k < |a| ==> IsDateChar(a[k]);
    assert forall k :: 0 <= k < |b| ==> IsTimeChar(b[k]);
    Dates.ParseDateIgnoresRest(a);
    Times.ParseTimeChecksHour(b);
    ParseParts(a, ':', b, "");
  }

  /** A year of two digits is rejected. */
  lemma ParseShortYearExample(s: string)
    requires s == "15-05-17 15:33:26"
    ensures ParseDateTime(s) == Err(InvalidDateTime(s))
  {
    var a: string, b: string := "15-05-17", "15:33:26";
    assert a + [' '] + b + "" == s;
    assert forall k :: 0 <= k < |a| ==> IsDateChar(a[k]);
    assert forall k :: 0 <= k < |b| ==> IsTimeChar(b[k]);
    Dates.ParseDateShortYear(a);
    ParseParts(a, ' ', b, "");
  }

  // ---------------------------------------------------------------------------
  // Time zone

  /** The daylight-saving period of a year runs from the second Sunday of
      March to the first Sunday of November; both always exist. */
  lemma DstBounds(year: int)
    requires Dates.MinYear <= year <= Dates.MaxYear
    ensures var start := DaySearch.FindDaySpec(year, 3, Sunday, 2);
            && start.Ok? && start.value.Valid()
            && start.value.year == year && start.value.month == 3
            && Dates.WeekdayOf(start.value) == Sunday && 7 < start.value.day <= 14
    ensures var end := DaySearch.FindDaySpec(year, 11, Sunday, 1);
            && end.Ok? && end.value.Valid()
            && end.value.year == year && end.value.month == 11
            && Dates.WeekdayOf(end.value) == Sunday && end.value.day <= 7
  {
    var first := Dates.Date(year, 3, 1);
    DaySearch.SpecByTarget(year, 3, Sunday, 2, first, DaySearch.TargetDay(Dates.WeekdayNumber(first), Sunday, 1));
    DaySearch.FindDaySpecSound(year, 3, Sunday, 2);
    var first' := Dates.Date(year, 11, 1);
    DaySearch.SpecByTarget(year, 11, Sunday, 1, first', DaySearch.TargetDay(Dates.WeekdayNumber(first'), Sunday, 1));
    DaySearch.FindDaySpecSound(year, 11, Sunday, 1);
  }

  /** `Timezone.offset(dt)`: hours behind UTC, 4 from the start to the end of
      daylight saving (both days included), 5 otherwise. */
  function Offset(dt: DateTime): (o: int)
    requires dt.date.Valid()
    ensures o == 4 || o == 5
  {
    DstBounds(dt.date.year);
    var start := DaySearch.FindDaySpec(dt.date.year, 3, Sunday, 2).value;
    var end := DaySearch.FindDaySpec(dt.date.year, 11, Sunday, 1).value;
    if Dates.LessEq(start, dt.date) && Dates.LessEq(dt.date, end) then 4 else 5
  }

  /** The offset by month: summer time all of April to October, in March from
      the second Sunday on, in November up to the first Sunday. */
  lemma OffsetByMonth(dt: DateTime)
    requires dt.date.Valid()
    ensures var d := dt.date;
            var start := DaySearch.FindDaySpec(d.year, 3, Sunday, 2).value;
            var end := DaySearch.FindDaySpec(d.year, 11, Sunday, 1).value;
            Offset(dt) == 4 <==>
              || 3 < d.month < 11
              || (d.month == 3 && start.day <= d.day)
              || (d.month == 11 && d.day <= end.day)
  {
    DstBounds(dt.date.year);
  }

  /** Offsets around the 2015 start of daylight saving, 8 March. */
  lemma OffsetMarchExamples()
    ensures Offset(DateTime(Dates.Date(2015, 3, 5), Times.Time(14, 22, 0))) == 5
    ensures Offset(DateTime(Dates.Date(2015, 3, 8), Times.StartOfDay)) == 4
    ensures Offset(DateTime(Dates.Date(2015, 3, 15), Times.Time(14, 22, 0))) == 4
  {
    DaySearch.FindDayExamples();
    OffsetByMonth(DateTime(Dates.Date(2015, 3, 5), Times.Time(14, 22, 0)));
    OffsetByMonth(DateTime(Dates.Date(2015, 3, 8), Times.StartOfDay));
    OffsetByMonth(DateTime(Dates.Date(2015, 3, 15), Times.Time(14, 22, 0)));
  }

  /** Offsets around the 2015 end of daylight saving, 1 November. */
  lemma OffsetNovemberExamples()
    ensures Offset(DateTime(Dates.Date(2015, 11, 1), Times.EndOfDay)) == 4
    ensures Offset(DateTime(Dates.Date(2015, 11, 2), Times.StartOfDay)) == 5
  {
    DaySearch.FindDayExamples();
    OffsetByMonth(DateTime(Dates.Date(2015, 11, 1), Times.EndOfDay));
    OffsetByMonth(DateTime(Dates.Date(2015, 11, 2), Times.StartOfDay));
  }

  /** `str` of a date-time from the library's tests. */
  lemma ToStringExample(dt: DateTime)
    requires dt == DateTime(Dates.Date(2015, 3, 5), Times.Time(14, 22, 0))
    ensures ToString(dt) == "2015-03-05 14:22:00 EST"
  {
    var date: string, time: string := "2015-03-05", "14:22:00";
    assert date + " " + time + (" " + ZoneName) == "2015-03-05 14:22:00 EST";
    assert Dates.FormatDate(dt.date) == date && Times.Format(dt.time) == time by {
      Dates.FormatDateExamples();
      Times.TimeExamples();
    }
  }

  /** `isostr` of a winter date-time from the library's tests: offset 5. */
  lemma IsoStrWinterExample(dt: DateTime)
    requires dt == DateTime(Dates.Date(2015, 3, 5), Times.Time(14, 22, 0))
    ensures IsoStr(dt) == "2015-03-05T14:22:00.000000-05:00"
  {
    var date: string, time: string, off: string := "2015-03-05", "14:22:00", "05";
    assert date + "T" + time + (".000000-" + off + ":00") == "2015-03-05T14:22:00.000000-05:00";
    assert Dates.FormatDate(dt.date) == date && Times.Format(dt.time) == time by {
      Dates.FormatDateExamples();
      Times.TimeExamples();
    }
    assert Pad2(Offset(dt)) == off by { OffsetMarchExamples(); }
  }

  /** `isostr` of a summer date-time from the library's tests: offset 4. */
  lemma IsoStrSummerExample(dt: DateTime)
    requires dt == DateTime(Dates.Date(2015, 3, 15), Times.Time(14, 22, 0))
    ensures IsoStr(dt) == "2015-03-15T14:22:00.000000-04:00"
  {
    var date: string, time: string, off: string := "2015-03-15", "14:22:00", "04";
    assert date + "T" + time + (".000000-" + off + ":00") == "2015-03-15T14:22:00.000000-04:00";
    assert Dates.FormatDate(dt.date) == date && Times.Format(dt.time) == time by {
      Dates.FormatDateExamples();
      Times.TimeExamples();
    }
    assert Pad2(Offset(dt)) == off by { OffsetMarchExamples(); }
  }

  // ---------------------------------------------------------------------------
  // Differences and moves

  /** Seconds from 0001-01-01 00:00:00 (the host's first instant) to `dt`. */
  function Seconds(dt: DateTime): int
    requires dt.Valid()
  {
    (Dates.Ordinal(dt.date) - 1) * 86400 + Times.SecondsOfDay(dt.time)
  }

  /** Seconds is a bijection from valid date-times onto the seconds of the
      host's range that fall in years 1500 to 2500. */
  lemma SecondsInjective(a: DateTime, b: DateTime)
    requires a.Valid() && b.Valid()
    ensures 0 <= Seconds(a) < MaxOrdinal * 86400
    ensures Seconds(a) == Seconds(b) <==> a == b
  {
    Times.SecondsOfDayInverse(a.time);
    Times.SecondsOfDayInverse(b.time);
    if Seconds(a) == Seconds(b) {
      SplitSeconds(Dates.Ordinal(a.date) - 1, Times.SecondsOfDay(a.time), Dates.Ordinal(b.date) - 1, Times.SecondsOfDay(b.time));
      Dates.OrdinalInjective(a.date, b.date);
      assert a.time == Times.FromSeconds(Times.SecondsOfDay(a.time));
    }
  }

  lemma SplitSeconds(q: int, r: int, q': int, r': int)
    requires 0 <= r < 86400 && 0 <= r' < 86400
    requires q * 86400 + r == q' * 86400 + r'
    ensures q == q' && r == r'
  {
    DivideSeconds(q, r);
    DivideSeconds(q', r');
  }

  /** `dt.diff(other)`: seconds from `dt` to `other` (positive when `other`
      is later), computed as the host's datetime difference. */
  function Diff(dt: DateTime, other: DateTime): (n: int)
    requires dt.Valid() && other.Valid()
    ensures n == Seconds(other) - Seconds(dt)
  {
    (Dates.Ordinal(other.date) - Dates.Ordinal(dt.date)) * 86400 + Times.Diff(dt.time, other.time)
  }

  /** The date-time `total` seconds after 0001-01-01 00:00:00, as the host's
      datetime (which overflows outside years 1 to 9999) rebuilt as a
      DateTime (whose Date rejects years outside 1500 to 2500). */
  function AtSecond(total: int): (r: Result<DateTime>)
    ensures r.Ok? ==> r.value.Valid() && Seconds(r.value) == total
    ensures r.Err? ==> r == Err(Overflow) || r.error.InvalidYear?
  {
    if total < 0 || total >= MaxOrdinal * 86400 then Err(Overflow)
    else
      var t := FromOrdinal(total / 86400 + 1);
      match Dates.MakeDate(t.0, t.1, t.2)
      case Err(e) => Err(e)
      case Ok(d) =>
        Times.FromSecondsInverse(total % 86400);
        Ok(DateTime(d, Times.FromSeconds(total % 86400)))
  }

  /** The second of a valid date-time splits into its day and its second of
      the day. */
  lemma SecondsOfDateTime(b: DateTime, q: int, r: int)
    requires b.Valid() && q == Dates.Ordinal(b.date) - 1 && r == Times.SecondsOfDay(b.time)
    ensures 0 <= Seconds(b) < MaxOrdinal * 86400
    ensures Seconds(b) / 86400 == q && Seconds(b) % 86400 == r
  {
    Times.SecondsOfDayInverse(b.time);
    SecondsInjective(b, b);
    DivideSeconds(q, r);
  }

  /** Every valid date-time is found at its own second. */
  lemma AtSecondOf(b: DateTime)
    requires b.Valid()
    ensures AtSecond(Seconds(b)) == Ok(b)
  {
    var q := Dates.Ordinal(b.date) - 1;
    var r := Times.SecondsOfDay(b.time);
    SecondsOfDateTime(b, q, r);
    assert FromOrdinal(q + 1) == (b.date.year, b.date.month, b.date.day) by {
      FromOrdinalOf(b.date.year, b.date.month, b.date.day, q + 1);
    }
    assert Times.FromSeconds(r) == b.time by {
      Times.SecondsOfDayInverse(b.time);
    }
  }

  /** `dt.to(seconds)`: the date-time `seconds` later (earlier when negative). */
  function To(dt: DateTime, seconds: int): (r: Result<DateTime>)
    requires dt.Valid()
    ensures r.Ok? ==> r.value.Valid() && Seconds(r.value) == Seconds(dt) + seconds
    ensures r.Err? ==> r == Err(Overflow) || r.error.InvalidYear?
  {
    AtSecond(Seconds(dt) + seconds)
  }

  /** Moving by the difference reaches the other date-time. */
  lemma ToDiff(a: DateTime, b: DateTime)
    requires a.Valid() && b.Valid()
    ensures To(a, Diff(a, b)) == Ok(b)
  {
    AtSecondOf(b);
  }

  /** The day and the second of the day of an instant. */
  lemma DivideSeconds(q: int, r: int)
    requires 0 <= r < 86400
    ensures (q * 86400 + r) / 86400 == q && (q * 86400 + r) % 86400 == r
  {
  }

  /** The difference to a moved date-time is the move. */
  lemma DiffTo(a: DateTime, seconds: int)
    requires a.Valid() && To(a, seconds).Ok?
    ensures Diff(a, To(a, seconds).value) == seconds
  {
  }

  const FirstDate: Date := Dates.Date(Dates.MinYear, 1, 1)
  const LastDate: Date := Dates.Date(Dates.MaxYear, 12, 31)
  const FirstMoment: DateTime := DateTime(FirstDate, Times.StartOfDay)
  const LastMoment: DateTime := DateTime(LastDate, Times.EndOfDay)

  /** Seconds of 1500-01-01 00:00:00, and one past 2500-12-31 23:59:59. */
  const FirstSecond: int := 547498 * 86400
  const EndSecond: int := 913106 * 86400

  lemma OrdinalLimits()
    ensures Dates.Ordinal(FirstDate) == 547499 && Dates.Ordinal(LastDate) == 913106
  {
    assert DaysBeforeYear(1500) == 547498;
    assert DaysBeforeYear(2500) == 912741;
  }

  /** The first valid moment is second FirstSecond. */
  lemma FirstMomentSeconds()
    ensures Seconds(FirstMoment) == FirstSecond
  {
    OrdinalLimits();
    Times.StartOfDaySeconds();
  }

  /** The last valid moment is the second before EndSecond. */
  lemma LastMomentSeconds()
    ensures Seconds(LastMoment) == EndSecond - 1
  {
    OrdinalLimits();
  }

  /** Every valid date-time lies between the first and the last moment. */
  lemma SecondsBounds(a: DateTime)
    requires a.Valid()
    ensures FirstSecond <= Seconds(a) < EndSecond
  {
    OrdinalLimits();
    Dates.LessIsOrdinalOrder(FirstDate, a.date);
    Dates.LessIsOrdinalOrder(a.date, LastDate);
    Times.SecondsOfDayInverse(a.time);
  }

  /** A move fails exactly when it leaves 1500-01-01 00:00:00 ..
      2500-12-31 23:59:59. */
  lemma ToOk(a: DateTime, seconds: int)
    requires a.Valid()
    ensures To(a, seconds).Ok? <==> FirstSecond <= Seconds(a) + seconds < EndSecond
  {
    AtSecondOk(Seconds(a) + seconds);
  }

  /** The seconds that are valid date-times are those from FirstSecond up to
      EndSecond. */
  lemma AtSecondOk(total: int)
    ensures AtSecond(total).Ok? <==> FirstSecond <= total < EndSecond
  {
    if AtSecond(total).Ok? {
      SecondsBounds(AtSecond(total).value);
    } else if FirstSecond <= total < EndSecond {
      InRangeSecondOk(total);
    }
  }

  lemma InRangeSecondOk(total: int)
    requires FirstSecond <= total < EndSecond
    ensures AtSecond(total).Ok?
  {
    var o := total / 86400 + 1;
    assert 547499 <= o <= 913106;
    OrdinalLimits();
    var t := FromOrdinal(o);
    OrdinalOrder(t.0, t.1, t.2, 1500, 1, 1);
    OrdinalOrder(t.0, t.1, t.2, 2500, 12, 31);
  }

  // ---------------------------------------------------------------------------
  // Order

  /** `dt < other`: by date, then by time. */
  predicate Less(dt: DateTime, other: DateTime) {
    Dates.Less(dt.date, other.date) || (dt.date == other.date && Times.Less(dt.time, other.time))
  }

  /** `dt <= other`. */
  predicate LessEq(dt: DateTime, other: DateTime) {
    dt == other || Less(dt, other)
  }

  /** The order is the order of the instants: Less holds exactly when the
      difference is positive, and any two date-times are comparable. */
  lemma LessIsDiffOrder(a: DateTime, b: DateTime)
    requires a.Valid() && b.Valid()
    ensures Less(a, b) <==> Diff(a, b) > 0
    ensures LessEq(a, b) <==> Diff(a, b) >= 0
    ensures LessEq(a, b) || Less(b, a)
  {
    Dates.LessIsOrdinalOrder(a.date, b.date);
    Dates.LessIsOrdinalOrder(b.date, a.date);
    Dates.OrdinalInjective(a.date, b.date);
    Times.DiffProperties(a.time, b.time);
    Times.SecondsOfDayInverse(a.time);
    Times.SecondsOfDayInverse(b.time);
    SecondsInjective(a, b);
  }

  /** A move from the library's tests: ten hours and one second after
      2015-05-17 15:33:26 is 2015-05-18 01:33:27. */
  lemma ToExample()
    ensures To(DateTime(Dates.Date(2015, 5, 17), Times.Time(15, 33, 26)), 36001)
         == Ok(DateTime(Dates.Date(2015, 5, 18), Times.Time(1, 33, 27)))
  {
    var a := DateTime(Dates.Date(2015, 5, 17), Times.Time(15, 33, 26));
    var b := DateTime(Dates.Date(2015, 5, 18), Times.Time(1, 33, 27));
    assert Dates.Ordinal(b.date) == Dates.Ordinal(a.date) + 1;
    ToDiff(a, b);
  }

  /** A move back from the library's tests: ten hours and one second before
      2015-05-17 15:33:26 is 05:33:25 the same day. */
  lemma ToBackExample()
    ensures To(DateTime(Dates.Date(2015, 5, 17), Times.Time(15, 33, 26)), -36001)
         == Ok(DateTime(Dates.Date(2015, 5, 17), Times.Time(5, 33, 25)))
  {
    var a := DateTime(Dates.Date(2015, 5, 17), Times.Time(15, 33, 26));
    var b := DateTime(Dates.Date(2015, 5, 17), Times.Time(5, 33, 25));
    assert Diff(a, b) == -36001;
    ToDiff(a, b);
  }

  /** The same time of day on consecutive days is 86400 seconds apart, from
      the library's tests. */
  lemma DiffExample(a: DateTime, b: DateTime)
    requires a == DateTime(Dates.Date(2015, 2, 1), Times.Time(9, 30, 0))
    requires b == DateTime(Dates.Date(2015, 2, 2), Times.Time(9, 30, 0))
    ensures Diff(a, b) == 86400
  {
    var oa, ob := Dates.Ordinal(a.date), Dates.Ordinal(b.date);
    assert ob == oa + 1;
    assert Times.Diff(a.time, b.time) == 0;
  }

  /** One second later is later, from the library's tests. */
  lemma LessExample(a: DateTime, b: DateTime)
    requires a == DateTime(Dates.Date(2015, 5, 17), Times.Time(15, 33, 26))
    requires b == DateTime(Dates.Date(2015, 5, 17), Times.Time(15, 33, 27))
    ensures a != b && Less(a, b) && LessEq(a, b) && !Less(b, a) && !LessEq(b, a)
  {
  }
}
