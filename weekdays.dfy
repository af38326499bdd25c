/** `Period`, `Weekday` and the process-wide week rotation (`Weekday._order`,
    rebuilt by `set_first_day_of_week`). */
module Weekdays {
  import opened Errors

  /** Periods, ordered by duration (`Period.__lt__`). */
  datatype Period = Day | Week | Month | Year {
    function Rank(): nat {
      match this
      case Day => 0
      case Week => 1
      case Month => 2
      case Year => 3
    }

    predicate Less(other: Period) {
      Rank() < other.Rank()
    }
  }

  /** `Period.__lt__` is a strict total order with Day < Week < Month < Year. */
  lemma PeriodOrder(p: Period, q: Period, r: Period)
    ensures Day.Less(Week) && Week.Less(Month) && Month.Less(Year)
    ensures !p.Less(p)
    ensures p != q ==> p.Less(q) || q.Less(p)
    ensures p.Less(q) && q.Less(r) ==> p.Less(r)
  {
  }

  datatype Weekday = Monday | Tuesday | Wednesday | Thursday | Friday | Saturday | Sunday {
    /** The canonical value, Monday = 0 ... Sunday = 6. */
    function Value(): (v: int)
      ensures 0 <= v <= 6
    {
      match this
      case Monday => 0
      case Tuesday => 1
      case Wednesday => 2
      case Thursday => 3
      case Friday => 4
      case Saturday => 5
      case Sunday => 6
    }
  }

  /** The weekday with canonical value `v`. */
  function At(v: int): (w: Weekday)
    requires 0 <= v <= 6
    ensures w.Value() == v
  {
    [Monday, Tuesday, Wednesday, Thursday, Friday, Saturday, Sunday][v]
  }

  /** A weekday is determined by its canonical value. */
  lemma ValueInjective(a: Weekday, b: Weekday)
    ensures a.Value() == b.Value() <==> a == b
  {
  }

  /** `Weekday(v)`: raises for a value outside 0..6. */
  function FromValue(v: int): (r: Result<Weekday>)
    ensures r.Ok? <==> 0 <= v <= 6
    ensures r.Ok? ==> r.value.Value() == v
    ensures r.Err? ==> r.error == InvalidWeekday(v)
  {
    if 0 <= v <= 6 then Ok(At(v)) else Err(InvalidWeekday(v))
  }

  // ---------------------------------------------------------------------------
  // Weekday arithmetic

  /** `w + n` as written: the value is not reduced after the addition, so the
      result exists only when value + n mod 7 <= 6. */
  function Plus(w: Weekday, n: int): (r: Result<Weekday>)
    ensures r.Ok? <==> w.Value() + n % 7 <= 6
    ensures r.Ok? ==> r.value == Add(w, n)
  {
    FromValue(w.Value() + n % 7)
  }

  /** `w - n` for an integer `n`, as written: exists only when
      value + (7 - n) mod 7 <= 6. */
  function Minus(w: Weekday, n: int): (r: Result<Weekday>)
    ensures r.Ok? <==> w.Value() + (7 - n) % 7 <= 6
    ensures r.Ok? ==> r.value == Sub(w, n)
  {
    FromValue(w.Value() + (7 - n) % 7)
  }

  /** `w - other` for two weekdays: the difference of the canonical values. */
  function Difference(w: Weekday, other: Weekday): (d: int)
    ensures -6 <= d <= 6
    ensures Add(other, d) == w
    ensures d == 0 <==> w == other
  {
    w.Value() - other.Value()
  }

  /** Weekday `n` days after `w`, wrapping around the week. */
  function Add(w: Weekday, n: int): Weekday {
    At((w.Value() + n) % 7)
  }

  /** Weekday `n` days before `w`, wrapping around the week. */
  function Sub(w: Weekday, n: int): Weekday {
    At((w.Value() - n) % 7)
  }

  /** Add is an action of the integers on the week: it has period 7,
      composes additively, and Sub undoes it. */
  lemma AddIsCyclic(w: Weekday, a: int, b: int)
    ensures Add(w, 0) == w && Add(w, 7) == w
    ensures Add(Add(w, a), b) == Add(w, a + b)
    ensures Sub(w, a) == Add(w, -a)
    ensures Sub(Add(w, a), a) == w
  {
    var v := w.Value();
    ModShift(v + a, b);
    ModShift(v + a, -a);
  }

  /** Reducing modulo 7 before adding does not change the remainder. */
  lemma ModShift(x: int, b: int)
    ensures ((x % 7) + b) % 7 == (x + b) % 7
  {
    var q := x / 7;
    assert (x % 7) + b + 7 * q == x + b;
  }

  lemma ModBack(a: int, b: int)
    requires 0 <= a <= 6 && 0 <= b <= 6
    ensures (a + (b - a) % 7) % 7 == b
  {
    if b < a {
      assert (b - a) % 7 == b - a + 7;
    }
  }

  /** Plus and Minus do not wrap: Sunday + 1 and Sunday - 1 raise, where the
      wrapping Add and Sub give Monday and Saturday. */
  lemma PlusMinusDoNotWrap()
    ensures Plus(Sunday, 1) == Err(InvalidWeekday(7))
    ensures Minus(Sunday, 1) == Err(InvalidWeekday(12))
    ensures Add(Sunday, 1) == Monday && Sub(Sunday, 1) == Saturday
  {
  }

  /** From Monday, Plus and Minus never raise. */
  lemma PlusMinusFromMonday(n: int)
    ensures Plus(Monday, n) == Ok(Add(Monday, n))
    ensures Minus(Monday, n) == Ok(Sub(Monday, n))
  {
  }

  /** The additions the library's tests pin down. */
  lemma PlusExamples()
    ensures Plus(Monday, 1) == Ok(Tuesday) && Plus(Monday, 7) == Ok(Monday) && Plus(Monday, 8) == Ok(Tuesday)
  {
    assert Plus(Monday, 8) == FromValue(1);
  }

  /** The subtractions and differences the library's tests pin down. */
  lemma MinusExamples()
    ensures Minus(Monday, 1) == Ok(Sunday) && Minus(Monday, 7) == Ok(Monday) && Minus(Monday, 8) == Ok(Sunday)
    ensures Difference(Sunday, Sunday) == 0 && Difference(Sunday, Monday) == 6 && Difference(Monday, Sunday) == -6
  {
    assert Minus(Monday, 1) == FromValue(6);
    assert Minus(Monday, 8) == FromValue(6);
  }

  // ---------------------------------------------------------------------------
  // The week rotation

  /** The seven weekdays in cyclic order starting at `first`. */
  function Rotation(first: Weekday): (r: seq<Weekday>)
    ensures |r| == 7
  {
    seq(7, i requires 0 <= i < 7 => At((first.Value() + i) % 7))
  }

  /** Offsets within one week reach distinct weekdays. */
  lemma AddInjective(w: Weekday, i: int, j: int)
    requires 0 <= i < 7 && 0 <= j < 7 && Add(w, i) == Add(w, j)
    ensures i == j
  {
    var v := w.Value();
    assert (v + i) % 7 == if v + i < 7 then v + i else v + i - 7;
    assert (v + j) % 7 == if v + j < 7 then v + j else v + j - 7;
  }

  lemma RotationAt(first: Weekday, i: int)
    requires 0 <= i < 7
    ensures Rotation(first)[i] == Add(first, i)
    ensures Rotation(first)[0] == first
  {
    ValueInjective(Rotation(first)[0], first);
  }

  /** The rotation table `Weekday._order`: its keys in insertion order, the
      position of a weekday being its index. Comparisons and `range()` read it;
      `set_first_day_of_week` replaces it. */
  class WeekOrder {
    var order: seq<Weekday>

    ghost predicate Valid()
      reads this
    {
      |order| == 7 && order == Rotation(order[0])
    }

    /** Module initialisation: `set_first_day_of_week(Weekday.Monday)`. */
    constructor ()
      ensures Valid() && order == Rotation(Monday)
    {
      order := Rotation(Monday);
      RotationAt(Monday, 0);
    }

    /** `set_first_day_of_week(w)`. */
    method SetFirstDayOfWeek(w: Weekday)
      modifies this
      ensures Valid() && order == Rotation(w)
      ensures FirstDayOfWeek() == w && LastDayOfWeek() == Add(w, 6)
    {
      order := Rotation(w);
      RotationAt(w, 0);
      RotationAt(w, 6);
    }

    /** `Weekday._order[w]`. */
    function Position(w: Weekday): (p: nat)
      reads this
      requires Valid()
      ensures p < 7 && order[p] == w
    {
      var p := (w.Value() - order[0].Value()) % 7;
      ModBack(order[0].Value(), w.Value());
      assert order[p] == Rotation(order[0])[p] == At((order[0].Value() + p) % 7);
      ValueInjective(order[p], w);
      p
    }

    /** `a < b` on weekdays: compares positions in the rotation. */
    predicate Less(a: Weekday, b: Weekday)
      reads this
      requires Valid()
    {
      Position(a) < Position(b)
    }

    /** `Weekday.range()`: the seven weekdays, each once, in cyclic order from
        the first day of the week and strictly increasing under Less. */
    function Range(): (r: seq<Weekday>)
      reads this
      requires Valid()
      ensures |r| == 7
      ensures forall x: Weekday :: x in r
      ensures forall i :: 0 <= i < 7 ==> r[i] == Add(order[0], i)
      ensures forall i, j :: 0 <= i < j < 7 ==> Less(r[i], r[j])
    {
      forall i | 0 <= i < 7
        ensures order[i] == Add(order[0], i)
      {
        RotationAt(order[0], i);
      }
      forall x: Weekday
        ensures x in order
      {
        var p := Position(x);
      }
      forall i, j | 0 <= i < j < 7
        ensures Less(order[i], order[j])
      {
        PositionOfIndex(i);
        PositionOfIndex(j);
      }
      order
    }

    lemma PositionOfIndex(i: int)
      requires Valid() && 0 <= i < 7
      ensures Position(order[i]) == i
    {
      var p := Position(order[i]);
      RotationAt(order[0], i);
      RotationAt(order[0], p);
      AddInjective(order[0], i, p);
    }

    /** `Weekday.first_day_of_week()`: the least weekday under Less. */
    function FirstDayOfWeek(): (w: Weekday)
      reads this
      requires Valid()
      ensures forall x: Weekday :: x != w ==> Less(w, x)
    {
      var r := Range();
      assert forall x: Weekday :: x != r[0] ==> Position(x) > 0 by {
        forall x: Weekday | x != r[0]
          ensures Position(x) > 0
        {
        }
      }
      PositionOfIndex(0);
      r[0]
    }

    /** `Weekday.last_day_of_week()`: the greatest weekday under Less. */
    function LastDayOfWeek(): (w: Weekday)
      reads this
      requires Valid()
      ensures forall x: Weekday :: x != w ==> Less(x, w)
    {
      var r := Range();
      PositionOfIndex(6);
      r[6]
    }
  }

  /** Under the default rotation, Less is the order of canonical values; after
      `set_first_day_of_week(Sunday)`, Sunday is least and Monday < Friday still. */
  lemma RotationExamples(o: WeekOrder)
    requires o.Valid()
    ensures o.order == Rotation(Monday) ==> forall a, b :: o.Less(a, b) <==> a.Value() < b.Value()
    ensures o.order == Rotation(Sunday) ==> o.Less(Sunday, Monday) && o.Less(Monday, Friday)
  {
    if o.order == Rotation(Monday) {
      RotationAt(Monday, 0);
      forall a: Weekday
        ensures o.Position(a) == a.Value()
      {
      }
    }
    if o.order == Rotation(Sunday) {
      RotationAt(Sunday, 0);
      assert o.Position(Sunday) == 0 && o.Position(Monday) == 1 && o.Position(Friday) == 5;
    }
  }
}
