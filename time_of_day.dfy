/** Times of day as Python's `datetime.time` holds them (without microseconds). */
module TimeOfDay {

  /** An hour, minute and second; `Valid` says each is in range. */
  datatype Time = Time(hour: int, minute: int, second: int)

  predicate Valid(t: Time)
  {
    0 <= t.hour < 24 && 0 <= t.minute < 60 && 0 <= t.second < 60
  }

  /** Seconds since midnight. */
  function Seconds(t: Time): int
  {
    t.hour * 3600 + t.minute * 60 + t.second
  }

  /** Python's `a < b` on times. */
  predicate Before(a: Time, b: Time)
  {
    Seconds(a) < Seconds(b)
  }

  /** Python's `a <= b` on times. */
  predicate NotAfter(a: Time, b: Time)
  {
    Seconds(a) <= Seconds(b)
  }

  /** Minute and second are both zero, as in 10:00:00. */
  predicate OnTheHour(t: Time)
  {
    t.minute == 0 && t.second == 0
  }

  /** Python compares times field by field; on valid times that is the order
      of `Seconds`, and two valid times with the same `Seconds` are equal. */
  lemma BeforeIsLexicographic(a: Time, b: Time)
    requires Valid(a) && Valid(b)
    ensures Before(a, b) <==>
      a.hour < b.hour ||
      (a.hour == b.hour && (a.minute < b.minute || (a.minute == b.minute && a.second < b.second)))
    ensures Seconds(a) == Seconds(b) <==> a == b
  {
    var ra, rb := a.minute * 60 + a.second, b.minute * 60 + b.second;
    assert 0 <= ra < 3600 && 0 <= rb < 3600;
    if a.hour < b.hour {
      assert a.hour * 3600 + 3600 <= b.hour * 3600;
    } else if a.hour > b.hour {
      assert b.hour * 3600 + 3600 <= a.hour * 3600;
    }
  }

  /** `(datetime.combine(today, t) + timedelta(hours=k)).time()`, for a shift
      that stays inside the same day (so `.time()` does not wrap past midnight). */
  function ShiftHours(t: Time, k: int): (r: Time)
    requires 0 <= t.hour + k < 24
    ensures Seconds(r) == Seconds(t) + 3600 * k
    ensures Valid(t) ==> Valid(r)
    ensures OnTheHour(r) == OnTheHour(t)
  {
    Time(t.hour + k, t.minute, t.second)
  }
}
