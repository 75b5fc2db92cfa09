/**
 * DateTime as a tick count (100-nanosecond units since 0001-01-01 00:00, a Monday), day
 * scheduling by day of week, and the WeekDay enumeration (DateTimeHelper).
 */
module DateTimeHelper {
  import opened Wrappers

  const TicksPerSecond: int := 10_000_000
  const TicksPerMinute: int := 60 * TicksPerSecond
  const TicksPerDay: int := 864_000_000_000
  /** DateTime.MaxValue.Ticks: 9999-12-31 23:59:59.9999999. */
  const MaxTicks: int := 3_155_378_975_999_999_999

  /** A DateTime value, by its ticks (DateTimeKind is not modelled). */
  type DateTime = t: int | 0 <= t <= MaxTicks

  /** The whole days since 0001-01-01. */
  function DayNumber(dt: DateTime): nat { dt / TicksPerDay }

  /** DayOfWeek as an integer: Sunday = 0, Monday = 1, ..., Saturday = 6. */
  function DayOfWeek(dt: DateTime): (d: int)
    ensures 0 <= d < 7
  {
    (DayNumber(dt) + 1) % 7
  }

  /** AddDays with a whole number of days: fails outside the DateTime range. */
  function AddDays(dt: DateTime, days: int): (r: Result<DateTime>)
    ensures r.Ok? <==> 0 <= dt + days * TicksPerDay <= MaxTicks
    ensures r.Ok? ==> r.value == dt + days * TicksPerDay
    ensures r.Err? ==> r.error == ArgumentOutOfRange
  {
    var t := dt + days * TicksPerDay;
    if 0 <= t <= MaxTicks then Ok(t) else Err(ArgumentOutOfRange)
  }

  /** Moving by whole days moves the day of the week by the same amount, mod 7. */
  lemma AddDaysDayOfWeek(dt: DateTime, days: int)
    requires AddDays(dt, days).Ok?
    ensures DayOfWeek(AddDays(dt, days).value) == (DayOfWeek(dt) + days) % 7
    ensures DayNumber(AddDays(dt, days).value) == DayNumber(dt) + days
  {
    DivAddDays(dt, days);
    ModAdd(DayNumber(dt) + 1, days);
  }

  lemma DivAddDays(a: int, k: int)
    ensures (a + k * TicksPerDay) / TicksPerDay == a / TicksPerDay + k
  {
    var q, r := a / TicksPerDay, a % TicksPerDay;
    assert a == q * TicksPerDay + r;
    assert a + k * TicksPerDay == (q + k) * TicksPerDay + r;
  }

  lemma ModAdd(a: int, k: int)
    ensures (a + k) % 7 == (a % 7 + k) % 7
  {
    var q := a / 7;
    assert a == q * 7 + a % 7;
    assert a + k == q * 7 + (a % 7 + k);
  }

  /** TrimDay: the same date at midnight. */
  function TrimDay(dt: DateTime): (r: DateTime)
    ensures DayNumber(r) == DayNumber(dt) && r % TicksPerDay == 0
    ensures r <= dt < r + TicksPerDay
  {
    dt - dt % TicksPerDay
  }

  /** The length of a TimeSpan in whole days, truncated toward zero (TimeSpan.Days). */
  function SpanDays(ticks: int): (d: int)
    ensures ticks >= 0 ==> d == ticks / TicksPerDay
    ensures ticks < 0 ==> d <= 0
  {
    if ticks >= 0 then ticks / TicksPerDay else -((-ticks) / TicksPerDay)
  }

  /**
   * The days ArrangeDays picks from `count` consecutive days starting at `start`: those
   * whose day of week is in `weekdays`, in order, each at `start`'s time of day.
   */
  function Arranged(start: DateTime, count: nat, weekdays: seq<int>): (r: Result<seq<DateTime>>)
    ensures r.Ok? ==> |r.value| <= count
  {
    if count == 0 then Ok([])
    else match Arranged(start, count - 1, weekdays)
      case Err(e) => Err(e)
      case Ok(init) =>
        match AddDays(start, count - 1)
        case Err(e) => Err(e)
        case Ok(dt) => Ok(if DayOfWeek(dt) in weekdays then init + [dt] else init)
  }

  /** ArrangeDays(startDay, times, weekdays): scans `times` days from `startDay`. */
  method ArrangeDaysTimes(startDay: DateTime, times: int, weekdays: seq<int>) returns (r: Result<seq<DateTime>>)
    ensures times <= 0 ==> r.Ok? && r.value == []
    ensures times > 0 ==> r == Arranged(startDay, times, weekdays)
  {
    var dts := [];
    var i := 0;
    ghost var N := times;
    while i < times
      invariant 0 <= i && (times > 0 ==> i <= times) && (times <= 0 ==> i == 0)
      invariant Arranged(startDay, i, weekdays) == Ok(dts)
    {
      var next := AddDays(startDay, i);
      if next.Err? {
        ArrangedErrorStays(startDay, i + 1, N, weekdays);
        return Err(next.error);
      }
      var dt := next.value;
      if DayOfWeek(dt) in weekdays {
        dts := dts + [dt];
      }
      i := i + 1;
    }
    return Ok(dts);
  }

  /** ArrangeDays(startDay, endDay, weekdays): scans the whole days from startDay up to endDay. */
  method ArrangeDaysUntil(startDay: DateTime, endDay: DateTime, weekdays: seq<int>) returns (r: Result<seq<DateTime>>)
    ensures endDay < startDay ==> r.Ok? && r.value == []
    ensures startDay <= endDay ==> r == Arranged(startDay, (endDay - startDay) / TicksPerDay, weekdays)
    ensures r.Ok?
  {
    var days := SpanDays(endDay - startDay);
    var dts := [];
    var i := 0;
    while i < days
      invariant 0 <= i && (days > 0 ==> i <= days) && (days <= 0 ==> i == 0)
      invariant Arranged(startDay, i, weekdays) == Ok(dts)
    {
      var next := AddDays(startDay, i);
      assert next.Ok? by {
        DayBeforeEnd(startDay, endDay, i);
      }
      var dt := next.value;
      if DayOfWeek(dt) in weekdays {
        dts := dts + [dt];
      }
      i := i + 1;
    }
    return Ok(dts);
  }

  /** A day of the scan up to endDay lies before endDay, so AddDays never throws there. */
  lemma DayBeforeEnd(startDay: DateTime, endDay: DateTime, i: int)
    requires startDay <= endDay && 0 <= i < (endDay - startDay) / TicksPerDay
    ensures 0 <= startDay + i * TicksPerDay < endDay
  {
    var q := (endDay - startDay) / TicksPerDay;
    assert q * TicksPerDay <= endDay - startDay;
    assert (i + 1) * TicksPerDay <= q * TicksPerDay;
  }

  /** Once a day falls outside the DateTime range, every longer scan fails the same way. */
  lemma {:induction false} ArrangedErrorStays(start: DateTime, n: nat, m: int, weekdays: seq<int>)
    requires n <= m && Arranged(start, n, weekdays).Err?
    ensures Arranged(start, m, weekdays) == Arranged(start, n, weekdays)
    decreases m
  {
    if n < m {
      ArrangedErrorStays(start, n, m - 1, weekdays);
    }
  }

  /**
   * Within the DateTime range the arranged days are exactly the days start + i, i < count,
   * whose day of week is listed: every listed one is there, and each one is listed.
   */
  lemma {:induction false} ArrangedDays(start: DateTime, count: nat, weekdays: seq<int>)
    requires start + count * TicksPerDay <= MaxTicks + 1
    ensures Arranged(start, count, weekdays).Ok?
    ensures forall dt :: dt in Arranged(start, count, weekdays).value <==>
      exists i :: 0 <= i < count && dt == start + i * TicksPerDay && DayOfWeek(dt) in weekdays
  {
    if count > 0 {
      ArrangedDays(start, count - 1, weekdays);
      var init := Arranged(start, count - 1, weekdays).value;
      var last := start + (count - 1) * TicksPerDay;
      assert AddDays(start, count - 1) == Ok(last);
      forall dt: int
        ensures dt in Arranged(start, count, weekdays).value <==>
          exists i :: 0 <= i < count && dt == start + i * TicksPerDay && DayOfWeek(dt) in weekdays
      {
        if dt == last && 0 <= dt <= MaxTicks && DayOfWeek(dt) in weekdays {
          assert dt in Arranged(start, count, weekdays).value;
        }
        if exists i :: 0 <= i < count && dt == start + i * TicksPerDay && DayOfWeek(dt) in weekdays {
          var i :| 0 <= i < count && dt == start + i * TicksPerDay && DayOfWeek(dt) in weekdays;
          if i < count - 1 {
            assert dt in init;
          }
        }
      }
    }
  }

  /** The arranged days come out in strictly ascending order. */
  lemma {:induction false} ArrangedAscending(start: DateTime, count: nat, weekdays: seq<int>)
    requires Arranged(start, count, weekdays).Ok?
    ensures var r := Arranged(start, count, weekdays).value;
      forall i, j :: 0 <= i < j < |r| ==> r[i] < r[j]
    ensures forall dt :: dt in Arranged(start, count, weekdays).value ==> start <= dt < start + count * TicksPerDay
  {
    if count > 0 {
      ArrangedAscending(start, count - 1, weekdays);
      var init := Arranged(start, count - 1, weekdays).value;
      var last := start + (count - 1) * TicksPerDay;
      assert AddDays(start, count - 1) == Ok(last);
      assert forall dt :: dt in init ==> dt < last;
      var r := Arranged(start, count, weekdays).value;
      if r != init {
        assert r == init + [last];
        forall i, j | 0 <= i < j < |r|
          ensures r[i] < r[j]
        {
          if j == |init| {
            assert r[i] in init;
          }
        }
      }
    }
  }

  /** GetWeekdayDt: the day of `someDate`'s Sunday-based week that falls on `weekday`. */
  function GetWeekdayDt(someDate: DateTime, weekday: int): (r: Result<DateTime>)
    requires 0 <= weekday < 7
    ensures r.Ok? ==> DayOfWeek(r.value) == weekday
    ensures r.Ok? ==> DayNumber(r.value) - DayOfWeek(r.value) == DayNumber(someDate) - DayOfWeek(someDate)
    ensures r.Ok? ==> r.value % TicksPerDay == someDate % TicksPerDay
    ensures r.Ok? <==> 0 <= someDate + (weekday - DayOfWeek(someDate)) * TicksPerDay <= MaxTicks
    ensures r.Err? ==> r.error == ArgumentOutOfRange
  {
    var i := weekday - DayOfWeek(someDate);
    var r := AddDays(someDate, i);
    if r.Ok? then
      AddDaysDayOfWeek(someDate, i);
      ModAddTicks(someDate, i);
      r
    else r
  }

  /** Away from the two ends of the DateTime range the day is always found. */
  lemma GetWeekdayDtInRange(someDate: DateTime, weekday: int)
    requires 0 <= weekday < 7
    requires 6 * TicksPerDay <= someDate <= MaxTicks - 6 * TicksPerDay
    ensures GetWeekdayDt(someDate, weekday).Ok?
    ensures GetWeekdayDt(someDate, weekday).value - someDate == (weekday - DayOfWeek(someDate)) * TicksPerDay
  {
    var i := weekday - DayOfWeek(someDate);
    assert -6 <= i <= 6;
    assert -6 * TicksPerDay <= i * TicksPerDay <= 6 * TicksPerDay;
  }

  /** The last moment of DateTime is a Friday, so asking for its Saturday throws. */
  lemma GetWeekdayDtPastEnd()
    ensures DayOfWeek(MaxTicks) == 5
    ensures GetWeekdayDt(MaxTicks, 6) == Err(ArgumentOutOfRange)
  {
  }

  lemma ModAddTicks(dt: int, days: int)
    ensures (dt + days * TicksPerDay) % TicksPerDay == dt % TicksPerDay
  {
    var q := dt / TicksPerDay;
    assert dt == q * TicksPerDay + dt % TicksPerDay;
    assert dt + days * TicksPerDay == (q + days) * TicksPerDay + dt % TicksPerDay;
  }

  /** GetWeekday: the Chinese name of the date's day of the week. */
  function GetWeekday(dt: DateTime): (r: string)
    ensures r == WeekDayTitle(WeekDayOf(DayOfWeek(dt)))
  {
    match DayOfWeek(dt)
    case 1 => "星期一"
    case 2 => "星期二"
    case 3 => "星期三"
    case 4 => "星期四"
    case 5 => "星期五"
    case 6 => "星期六"
    case 0 => "星期日"
    case _ => "星期一"
  }

  /** The WeekDay enumeration. */
  datatype WeekDay = Monday | Tuesday | Wednesday | Thursday | Friday | Saturday | Sunday

  /** WeekDay's underlying values, which are DayOfWeek's. */
  function WeekDayValue(d: WeekDay): (n: int)
    ensures 0 <= n < 7
  {
    match d
    case Monday => 1
    case Tuesday => 2
    case Wednesday => 3
    case Thursday => 4
    case Friday => 5
    case Saturday => 6
    case Sunday => 0
  }

  /** The WeekDay member with a given DayOfWeek number. */
  function WeekDayOf(n: int): (d: WeekDay)
    requires 0 <= n < 7
    ensures WeekDayValue(d) == n
  {
    if n == 1 then Monday else if n == 2 then Tuesday else if n == 3 then Wednesday
    else if n == 4 then Thursday else if n == 5 then Friday else if n == 6 then Saturday
    else Sunday
  }

  /** The UI title each WeekDay member carries. */
  function WeekDayTitle(d: WeekDay): string {
    match d
    case Monday => "星期一"
    case Tuesday => "星期二"
    case Wednesday => "星期三"
    case Thursday => "星期四"
    case Friday => "星期五"
    case Saturday => "星期六"
    case Sunday => "星期日"
  }

  /** WeekDay numbering is a bijection onto 0..6. */
  lemma WeekDayValueInjective(a: WeekDay, b: WeekDay)
    ensures WeekDayValue(a) == WeekDayValue(b) ==> a == b
    ensures WeekDayOf(WeekDayValue(a)) == a
  {
  }

  /** 0001-01-01 is a Monday. */
  lemma FirstDayIsMonday()
    ensures DayOfWeek(0) == WeekDayValue(Monday)
  {
  }
}
