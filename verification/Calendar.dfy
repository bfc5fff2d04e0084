/** The proleptic Gregorian calendar from 1970, in UTC without leap seconds: nanoseconds since the
  * epoch and civil date-times, each way, and their order.
  */
module Calendar {

  const NANOS_PER_SECOND: nat := 1_000_000_000
  const SECONDS_PER_DAY: nat := 86_400
  const EPOCH_YEAR: nat := 1970

  datatype Date = Date(year: nat, month: nat, day: nat)
  datatype Clock = Clock(hour: nat, minute: nat, second: nat, nanos: nat)
  datatype Civil = Civil(date: Date, clock: Clock)

  predicate IsLeap(year: nat) {
    year % 4 == 0 && (year % 100 != 0 || year % 400 == 0)
  }

  function DaysInYear(year: nat): nat {
    if IsLeap(year) then 366 else 365
  }

  function DaysInMonth(year: nat, month: nat): nat {
    if month == 2 then (if IsLeap(year) then 29 else 28)
    else if month == 4 || month == 6 || month == 9 || month == 11 then 30
    else 31
  }

  /** Days from the epoch to the first day of `year`. */
  function DaysBeforeYear(year: nat): nat
    decreases year
  {
    if year <= EPOCH_YEAR then 0 else DaysBeforeYear(year - 1) + DaysInYear(year - 1)
  }

  /** Days from the first of January to the first day of `month`. */
  function DaysBeforeMonth(year: nat, month: nat): nat
    decreases month
  {
    if month <= 1 then 0 else DaysBeforeMonth(year, month - 1) + DaysInMonth(year, month - 1)
  }

  predicate ValidDate(d: Date) {
    EPOCH_YEAR <= d.year && 1 <= d.month <= 12 && 1 <= d.day <= DaysInMonth(d.year, d.month)
  }

  predicate ValidClock(c: Clock) {
    c.hour < 24 && c.minute < 60 && c.second < 60 && c.nanos < NANOS_PER_SECOND
  }

  predicate Valid(c: Civil) {
    ValidDate(c.date) && ValidClock(c.clock)
  }

  function DayNumber(d: Date): nat
    requires ValidDate(d)
  {
    DaysBeforeYear(d.year) + DaysBeforeMonth(d.year, d.month) + (d.day - 1)
  }

  function ClockNanos(c: Clock): nat {
    ((c.hour * 60 + c.minute) * 60 + c.second) * NANOS_PER_SECOND + c.nanos
  }

  const NANOS_PER_DAY: nat := 86_400_000_000_000

  /** Nanoseconds from the epoch to a civil date-time. */
  function ToNanos(c: Civil): nat
    requires Valid(c)
  {
    DayNumber(c.date) * NANOS_PER_DAY + ClockNanos(c.clock)
  }

  // ---- the civil date-time of an instant ----

  /** The date `days` days into `year` or later. */
  function DateFrom(year: nat, days: nat): Date
    decreases days
  {
    if days < DaysInYear(year) then MonthFrom(year, 1, days) else DateFrom(year + 1, days - DaysInYear(year))
  }

  /** The date `days` days into `month` of `year` or a later month. */
  function MonthFrom(year: nat, month: nat, days: nat): Date
    decreases 13 - month
  {
    if month >= 12 || days < DaysInMonth(year, month) then Date(year, month, days + 1)
    else MonthFrom(year, month + 1, days - DaysInMonth(year, month))
  }

  function ClockOf(nanos: nat): Clock {
    var seconds := nanos / NANOS_PER_SECOND;
    Clock(seconds / 3600, seconds / 60 % 60, seconds % 60, nanos % NANOS_PER_SECOND)
  }

  function FromNanos(nanos: nat): Civil {
    Civil(DateFrom(EPOCH_YEAR, nanos / NANOS_PER_DAY), ClockOf(nanos % NANOS_PER_DAY))
  }

  lemma MonthsFillTheYear(year: nat)
    ensures DaysBeforeMonth(year, 12) + DaysInMonth(year, 12) == DaysInYear(year)
  {
    assert DaysBeforeMonth(year, 4) == DaysInMonth(year, 1) + DaysInMonth(year, 2) + DaysInMonth(year, 3) by {
      assert DaysBeforeMonth(year, 2) == DaysInMonth(year, 1) + DaysBeforeMonth(year, 1);
      assert DaysBeforeMonth(year, 3) == DaysBeforeMonth(year, 2) + DaysInMonth(year, 2);
    }
    assert DaysBeforeMonth(year, 7) == DaysBeforeMonth(year, 4) + 91 by {
      assert DaysBeforeMonth(year, 5) == DaysBeforeMonth(year, 4) + 30;
      assert DaysBeforeMonth(year, 6) == DaysBeforeMonth(year, 5) + 31;
    }
    assert DaysBeforeMonth(year, 10) == DaysBeforeMonth(year, 7) + 92 by {
      assert DaysBeforeMonth(year, 8) == DaysBeforeMonth(year, 7) + 31;
      assert DaysBeforeMonth(year, 9) == DaysBeforeMonth(year, 8) + 31;
    }
    assert DaysBeforeMonth(year, 12) == DaysBeforeMonth(year, 10) + 61 by {
      assert DaysBeforeMonth(year, 11) == DaysBeforeMonth(year, 10) + 31;
    }
  }

  lemma {:induction false} MonthFromIsRight(year: nat, month: nat, days: nat)
    requires year >= EPOCH_YEAR && 1 <= month <= 12
    requires DaysBeforeMonth(year, month) + days < DaysInYear(year)
    ensures var d := MonthFrom(year, month, days);
      ValidDate(d) && d.year == year
      && DaysBeforeMonth(year, d.month) + (d.day - 1) == DaysBeforeMonth(year, month) + days
    decreases 13 - month
  {
    MonthsFillTheYear(year);
    if month < 12 && days >= DaysInMonth(year, month) {
      MonthFromIsRight(year, month + 1, days - DaysInMonth(year, month));
    }
  }

  lemma {:induction false} DateFromIsRight(year: nat, days: nat)
    requires year >= EPOCH_YEAR
    ensures var d := DateFrom(year, days);
      ValidDate(d) && DayNumber(d) == DaysBeforeYear(year) + days
    decreases days
  {
    if days < DaysInYear(year) {
      MonthFromIsRight(year, 1, days);
    } else {
      DateFromIsRight(year + 1, days - DaysInYear(year));
    }
  }

  lemma ClockOfIsRight(nanos: nat)
    requires nanos < NANOS_PER_DAY
    ensures ValidClock(ClockOf(nanos)) && ClockNanos(ClockOf(nanos)) == nanos
  {
    var seconds := nanos / NANOS_PER_SECOND;
    var minutes := seconds / 60;
    assert seconds / 3600 == minutes / 60;
  }

  /** Every instant has a valid civil date-time, and it denotes that instant. */
  lemma FromNanosIsRight(nanos: nat)
    ensures Valid(FromNanos(nanos)) && ToNanos(FromNanos(nanos)) == nanos
  {
    DateFromIsRight(EPOCH_YEAR, nanos / NANOS_PER_DAY);
    ClockOfIsRight(nanos % NANOS_PER_DAY);
    assert DaysBeforeYear(EPOCH_YEAR) == 0;
  }

  // ---- order ----

  predicate DateLt(a: Date, b: Date) {
    a.year < b.year || (a.year == b.year && (a.month < b.month || (a.month == b.month && a.day < b.day)))
  }

  predicate ClockLt(a: Clock, b: Clock) {
    a.hour < b.hour || (a.hour == b.hour && (a.minute < b.minute || (a.minute == b.minute
    && (a.second < b.second || (a.second == b.second && a.nanos < b.nanos)))))
  }

  predicate CivilLt(a: Civil, b: Civil) {
    DateLt(a.date, b.date) || (a.date == b.date && ClockLt(a.clock, b.clock))
  }

  lemma {:induction false} LaterMonth(year: nat, a: nat, b: nat)
    requires 1 <= a < b
    ensures DaysBeforeMonth(year, a) + DaysInMonth(year, a) <= DaysBeforeMonth(year, b)
    decreases b
  {
    if a + 1 >= b {
    } else {
      LaterMonth(year, a, b - 1);
    }
  }

  lemma {:induction false} LaterYear(a: nat, b: nat)
    requires EPOCH_YEAR <= a < b
    ensures DaysBeforeYear(a) + DaysInYear(a) <= DaysBeforeYear(b)
    decreases b
  {
    if a + 1 >= b {
    } else {
      LaterYear(a, b - 1);
    }
  }

  lemma DayWithinYear(d: Date)
    requires ValidDate(d)
    ensures DaysBeforeMonth(d.year, d.month) + (d.day - 1) < DaysInYear(d.year)
  {
    MonthsFillTheYear(d.year);
    if d.month < 12 {
      LaterMonth(d.year, d.month, 12);
    }
  }

  lemma DayNumberStrict(a: Date, b: Date)
    requires ValidDate(a) && ValidDate(b) && DateLt(a, b)
    ensures DayNumber(a) < DayNumber(b)
  {
    if a.year < b.year {
      DayWithinYear(a);
      LaterYear(a.year, b.year);
    } else if a.month < b.month {
      LaterMonth(a.year, a.month, b.month);
    }
  }

  lemma ClockNanosStrict(a: Clock, b: Clock)
    requires ValidClock(a) && ValidClock(b) && ClockLt(a, b)
    ensures ClockNanos(a) < ClockNanos(b)
  {
  }

  lemma ClockWithinDay(c: Clock)
    requires ValidClock(c)
    ensures ClockNanos(c) < NANOS_PER_DAY
  {
  }

  /** The order of civil date-times is the order of the instants they denote. */
  lemma ToNanosStrict(a: Civil, b: Civil)
    requires Valid(a) && Valid(b) && CivilLt(a, b)
    ensures ToNanos(a) < ToNanos(b)
  {
    ClockWithinDay(a.clock);
    if DateLt(a.date, b.date) {
      DayNumberStrict(a.date, b.date);
    } else {
      ClockNanosStrict(a.clock, b.clock);
    }
  }

  lemma CivilTrichotomy(a: Civil, b: Civil)
    ensures CivilLt(a, b) || a == b || CivilLt(b, a)
  {
  }

  /** No two valid date-times denote one instant, so the civil date-time of an instant is the only one. */
  lemma ToNanosExact(a: Civil, b: Civil)
    requires Valid(a) && Valid(b)
    ensures ToNanos(a) < ToNanos(b) <==> CivilLt(a, b)
    ensures ToNanos(a) == ToNanos(b) <==> a == b
  {
    CivilTrichotomy(a, b);
    if CivilLt(a, b) {
      ToNanosStrict(a, b);
    } else if CivilLt(b, a) {
      ToNanosStrict(b, a);
    }
  }

  lemma FromToNanos(c: Civil)
    requires Valid(c)
    ensures FromNanos(ToNanos(c)) == c
  {
    FromNanosIsRight(ToNanos(c));
    ToNanosExact(FromNanos(ToNanos(c)), c);
  }
}
