/** `Time`: a time of day with second precision. */
module Times {
  import opened Errors
  import opened Text

  datatype Time = Time(hour: int, minute: int, second: int) {
    predicate Valid() {
      0 <= hour <= 23 && 0 <= minute <= 59 && 0 <= second <= 59
    }
  }

  /** `Time.start_of_day()` and `Time.end_of_day()`. */
  const StartOfDay: Time := Time(0, 0, 0)
  const EndOfDay: Time := Time(23, 59, 59)

  /** `Time._init`: checks the hour, then the minute, then the second, and
      raises for the first one out of range. */
  function MakeTime(h: int, m: int, s: int): (r: Result<Time>)
    ensures r.Ok? <==> Time(h, m, s).Valid()
    ensures r.Ok? ==> r.value == Time(h, m, s)
    ensures !(0 <= h <= 23) ==> r == Err(InvalidHour(h))
    ensures 0 <= h <= 23 && !(0 <= m <= 59) ==> r == Err(InvalidMinute(m))
    ensures 0 <= h <= 23 && 0 <= m <= 59 && !(0 <= s <= 59) ==> r == Err(InvalidSecond(s))
  {
    if h < 0 || h > 23 then Err(InvalidHour(h))
    else if m < 0 || m > 59 then Err(InvalidMinute(m))
    else if s < 0 || s > 59 then Err(InvalidSecond(s))
    else Ok(Time(h, m, s))
  }

  /** `Time(t)` for a Time `t`: re-validates the fields of a valid time. */
  function CopyTime(t: Time): (r: Result<Time>)
    requires t.Valid()
    ensures r == Ok(t)
  {
    MakeTime(t.hour, t.minute, t.second)
  }

  // ---------------------------------------------------------------------------
  // Text form

  /** Three groups of one or two digits. */
  predicate IsTimeGroups(g: (string, string, string)) {
    1 <= |g.0| <= 2 && 1 <= |g.1| <= 2 && 1 <= |g.2| <= 2
    && AllDigits(g.0) && AllDigits(g.1) && AllDigits(g.2)
  }

  /** The pattern `^(\d{1,2}):(\d{1,2}):(\d{1,2})` on ASCII digits: the three
      greedy groups, or None when `s` does not start with the pattern. */
  function MatchTime(s: string): (r: Option<(string, string, string)>)
    ensures r.Some? ==> IsTimeGroups(r.value)
  {
    match Field(s, 1, 2, ":")
    case None => None
    case Some((g1, t)) =>
      match Field(t, 1, 2, ":")
      case None => None
      case Some((g2, u)) =>
        match Field(u, 1, 2, "")
        case None => None
        case Some((g3, _)) => Some((g1, g2, g3))
  }

  /** A match is a prefix of the text: the groups with colons between them. */
  lemma MatchTimeSound(s: string, g: (string, string, string))
    requires MatchTime(s) == Some(g)
    ensures exists rest :: s == g.0 + ":" + g.1 + ":" + g.2 + rest
  {
    var r1 := Field(s, 1, 2, ":");
    var t := r1.value.1;
    var r2 := Field(t, 1, 2, ":");
    var u := r2.value.1;
    var r3 := Field(u, 1, 2, "");
    var rest := r3.value.1;
    assert g == (r1.value.0, r2.value.0, r3.value.0);
    assert u == g.2 + "" + rest;
    assert "" + rest == rest;
    ConcatAssoc(g.0, ":", g.1, ":", g.2, rest);
  }

  /** Every string that starts with the pattern matches it, with the greedy
      groups. */
  lemma MatchTimeOf(g1: string, g2: string, g3: string, rest: string)
    requires IsTimeGroups((g1, g2, g3))
    requires |g3| == 1 && rest != [] ==> !IsDigit(rest[0])
    ensures MatchTime(g1 + ":" + g2 + ":" + g3 + rest) == Some((g1, g2, g3))
  {
    var u := g3 + rest;
    var t := g2 + ":" + u;
    assert g1 + ":" + g2 + ":" + g3 + rest == g1 + ":" + t;
    assert u == g3 + "" + rest;
    FieldOf(g1, 1, 2, ":", t);
    FieldOf(g2, 1, 2, ":", u);
    FieldOf(g3, 1, 2, "", rest);
  }

  /** `Time(s)` for a string: `s + ':00'` must start with the pattern; the
      groups are then checked as numbers. */
  function ParseTime(s: string): (r: Result<Time>)
    ensures r.Ok? ==> r.value.Valid()
    ensures r.Err? ==> r.error.InvalidTime? || r.error.InvalidHour? || r.error.InvalidMinute? || r.error.InvalidSecond?
  {
    match MatchTime(s + ":00")
    case None => Err(InvalidTime(s))
    case Some(g) => MakeTime(NumberValue(g.0), NumberValue(g.1), NumberValue(g.2))
  }

  /** `str(t)`: zero-padded `HH:MM:SS`. */
  function Format(t: Time): (s: string)
    requires t.Valid()
    ensures |s| == 8
  {
    Pad2(t.hour) + ":" + Pad2(t.minute) + ":" + Pad2(t.second)
  }

  /** `Time(str(t)) == t`. */
  lemma ParseFormat(t: Time)
    requires t.Valid()
    ensures ParseTime(Format(t)) == Ok(t)
  {
    assert Format(t) + ":00" == Pad2(t.hour) + ":" + Pad2(t.minute) + ":" + Pad2(t.second) + ":00";
    MatchTimeOf(Pad2(t.hour), Pad2(t.minute), Pad2(t.second), ":00");
  }

  /** `hh:mm` parses with the seconds set to 0. */
  lemma ParseHourMinute(g1: string, g2: string)
    requires IsTimeGroups((g1, g2, "00"))
    ensures ParseTime(g1 + ":" + g2) == MakeTime(NumberValue(g1), NumberValue(g2), 0)
  {
    assert g1 + ":" + g2 + ":00" == g1 + ":" + g2 + ":" + "00" + "";
    MatchTimeOf(g1, g2, "00", "");
    assert NumberValue("00") == 0 by {
      assert "00"[..1] == "0" && "0"[..0] == "";
    }
  }

  /** Text the pattern rejects, from the library's tests. */
  lemma ParseTimeRejects()
    ensures ParseTime("invalid") == Err(InvalidTime("invalid"))
    ensures ParseTime("123:10:00") == Err(InvalidTime("123:10:00"))
  {
    var u: string := "invalid" + ":00";
    assert DigitRun(u, 0, 2) == 0 by { assert !IsDigit(u[0]); }
    assert Field(u, 1, 2, ":") == None;
    var v: string := "123:10:00" + ":00";
    assert DigitRun(v, 0, 2) == 2 by {
      assert AllDigits(v[0..2]);
      DigitRunOf(v, 0, 2, 2);
    }
    assert v[2] == '3' && v[2..3] == [v[2]];
    assert Field(v, 1, 2, ":") == None;
  }

  /** A time from the library's tests parses to its fields. */
  lemma ParseTimeAccepts(s: string)
    requires s == "15:33:26"
    ensures ParseTime(s) == Ok(Time(15, 33, 26))
  {
    var t := Time(15, 33, 26);
    assert Format(t) == s;
    ParseFormat(t);
  }

  /** A well-formed `hh:mm` whose hour is out of range fails the field check. */
  lemma ParseTimeChecksHour(s: string)
    requires s == "33:26"
    ensures ParseTime(s) == Err(InvalidHour(33))
  {
    var g1: string, g2: string := "33", "26";
    assert g1 + ":" + g2 == s;
    assert IsTimeGroups((g1, g2, "00"));
    assert NumberValue(g1) == 33 by { NumberValueDigits(g1); }
    ParseHourMinute(g1, g2);
  }

  // ---------------------------------------------------------------------------
  // Differences and order

  /** Seconds since midnight. */
  function SecondsOfDay(t: Time): int {
    t.hour * 3600 + t.minute * 60 + t.second
  }

  /** The valid time `n` seconds after midnight. */
  function FromSeconds(n: int): (t: Time)
    requires 0 <= n < 86400
    ensures t.Valid()
  {
    Time(n / 3600, n % 3600 / 60, n % 60)
  }

  /** SecondsOfDay maps valid times into 0..86399, and FromSeconds undoes it. */
  lemma SecondsOfDayInverse(t: Time)
    requires t.Valid()
    ensures 0 <= SecondsOfDay(t) < 86400
    ensures FromSeconds(SecondsOfDay(t)) == t
  {
    var k := SecondsOfDay(t);
    assert k / 3600 == t.hour;
    assert k % 3600 == t.minute * 60 + t.second;
  }

  /** SecondsOfDay undoes FromSeconds: the two are a bijection between valid
      times and 0..86399. */
  lemma FromSecondsInverse(n: int)
    requires 0 <= n < 86400
    ensures SecondsOfDay(FromSeconds(n)) == n
  {
    var h, r := n / 3600, n % 3600;
    assert n == 60 * (60 * h) + r;
    assert r == 60 * (r / 60) + r % 60;
    assert n % 60 == r % 60;
  }

  /** Midnight is second 0 of the day. */
  lemma StartOfDaySeconds()
    ensures SecondsOfDay(StartOfDay) == 0
  {
  }

  /** `t.diff(other)`: seconds from `t` to `other`, positive if `other` is later. */
  function Diff(t: Time, other: Time): int {
    (other.hour - t.hour) * 3600 + (other.minute - t.minute) * 60 + (other.second - t.second)
  }

  /** Diff is the difference of the seconds since midnight: antisymmetric,
      zero exactly on equal times, and within one day. */
  lemma DiffProperties(a: Time, b: Time)
    requires a.Valid() && b.Valid()
    ensures Diff(a, b) == SecondsOfDay(b) - SecondsOfDay(a)
    ensures Diff(b, a) == -Diff(a, b)
    ensures -86399 <= Diff(a, b) <= 86399
    ensures Diff(a, b) == 0 <==> a == b
  {
    LessIsLexicographic(a, b);
    LessIsLexicographic(b, a);
  }

  /** `t < other`: `t.diff(other) > 0`. */
  predicate Less(t: Time, other: Time) {
    Diff(t, other) > 0
  }

  /** `t <= other`. */
  predicate LessEq(t: Time, other: Time) {
    t == other || Less(t, other)
  }

  /** On valid times, Less is the lexicographic order of (hour, minute, second). */
  lemma LessIsLexicographic(a: Time, b: Time)
    requires a.Valid() && b.Valid()
    ensures Less(a, b) <==>
              || a.hour < b.hour
              || (a.hour == b.hour && a.minute < b.minute)
              || (a.hour == b.hour && a.minute == b.minute && a.second < b.second)
  {
    if a.hour < b.hour {
      assert Diff(a, b) >= 3600 - 59 * 60 - 59;
    } else if a.hour > b.hour {
      assert Diff(a, b) <= -3600 + 59 * 60 + 59;
    }
  }

  /** The values the library's tests pin down. */
  lemma TimeExamples()
    ensures Diff(Time(12, 0, 0), Time(13, 0, 0)) == 3600
    ensures Diff(StartOfDay, Time(23, 59, 59)) == 86399
    ensures Diff(EndOfDay, StartOfDay) == -86399
    ensures Less(Time(12, 0, 0), Time(12, 0, 1)) && !Less(Time(12, 0, 1), Time(12, 0, 0))
    ensures Format(Time(13, 0, 0)) == "13:00:00" && Format(Time(0, 10, 20)) == "00:10:20"
    ensures Format(Time(14, 22, 0)) == "14:22:00"
  {
  }
}
