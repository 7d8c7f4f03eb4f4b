/** Proleptic Gregorian dates, zone-aware date-times with a fixed offset, and the shifts report schedules use. */
module Calendar {
  import opened Prelude

  datatype Date = Date(year: int, month: int, day: int)

  predicate IsLeap(year: int)
  {
    year % 4 == 0 && (year % 100 != 0 || year % 400 == 0)
  }

  function MonthLength(year: int, month: int): (n: int)
    requires 1 <= month <= 12
    ensures 28 <= n <= 31
  {
    if month == 2 then (if IsLeap(year) then 29 else 28)
    else if month == 4 || month == 6 || month == 9 || month == 11 then 30
    else 31
  }

  predicate ValidDate(d: Date)
  {
    1 <= d.month <= 12 && 1 <= d.day <= MonthLength(d.year, d.month)
  }

  // ----- Day numbers -----

  function DaysBeforeYear(year: int): int
  {
    var y := year - 1;
    365 * y + y / 4 - y / 100 + y / 400
  }

  function DaysBeforeMonth(year: int, month: int): int
    requires 1 <= month <= 12
  {
    if month == 1 then 0 else DaysBeforeMonth(year, month - 1) + MonthLength(year, month - 1)
  }

  /** Days since 31 December of year 0. */
  function DayNumber(d: Date): int
    requires 1 <= d.month <= 12
  {
    DaysBeforeYear(d.year) + DaysBeforeMonth(d.year, d.month) + d.day
  }

  /** Months since January of year 0. */
  function MonthIndex(d: Date): int
  {
    12 * d.year + d.month - 1
  }

  function LengthAt(index: int): (n: int)
    ensures 28 <= n <= 31
  {
    MonthLength(index / 12, index % 12 + 1)
  }

  /** The number of the day before the first of a month. */
  function MonthStart(index: int): int
  {
    DaysBeforeYear(index / 12) + DaysBeforeMonth(index / 12, index % 12 + 1)
  }

  lemma QuotientStep(y: int, k: int)
    requires k == 4 || k == 100 || k == 400
    ensures (y + 1) / k == y / k + if (y + 1) % k == 0 then 1 else 0
  {
  }

  lemma MultipleMod(q: int, k: int)
    requires k == 4 || k == 100
    ensures (k * q) % k == 0
  {
  }

  lemma CenturiesAreMultiples(year: int)
    ensures year % 400 == 0 ==> year % 100 == 0
    ensures year % 100 == 0 ==> year % 4 == 0
  {
    MultipleMod(4 * (year / 400), 100);
    MultipleMod(25 * (year / 100), 4);
  }

  lemma YearLength(year: int)
    ensures DaysBeforeYear(year + 1) - DaysBeforeYear(year) == if IsLeap(year) then 366 else 365
  {
    QuotientStep(year - 1, 4);
    QuotientStep(year - 1, 100);
    QuotientStep(year - 1, 400);
    CenturiesAreMultiples(year);
  }

  lemma MonthsMakeAYear(year: int)
    ensures DaysBeforeMonth(year, 12) + MonthLength(year, 12) == if IsLeap(year) then 366 else 365
  {
    assert DaysBeforeMonth(year, 2) == 31;
    assert DaysBeforeMonth(year, 3) == 31 + MonthLength(year, 2);
    assert DaysBeforeMonth(year, 4) == DaysBeforeMonth(year, 3) + 31;
    assert DaysBeforeMonth(year, 5) == DaysBeforeMonth(year, 3) + 61;
    assert DaysBeforeMonth(year, 6) == DaysBeforeMonth(year, 3) + 92;
    assert DaysBeforeMonth(year, 7) == DaysBeforeMonth(year, 6) + 30;
    assert DaysBeforeMonth(year, 8) == DaysBeforeMonth(year, 6) + 61;
    assert DaysBeforeMonth(year, 9) == DaysBeforeMonth(year, 6) + 92;
    assert DaysBeforeMonth(year, 10) == DaysBeforeMonth(year, 9) + 30;
    assert DaysBeforeMonth(year, 11) == DaysBeforeMonth(year, 9) + 61;
    assert DaysBeforeMonth(year, 12) == DaysBeforeMonth(year, 9) + 91;
  }

  /** Consecutive months abut, across year ends too. */
  lemma MonthsAbut(index: int)
    ensures MonthStart(index + 1) == MonthStart(index) + LengthAt(index)
  {
    var y, m := index / 12, index % 12 + 1;
    if m == 12 {
      assert (index + 1) / 12 == y + 1 && (index + 1) % 12 == 0;
      YearLength(y);
      MonthsMakeAYear(y);
    } else {
      assert (index + 1) / 12 == y && (index + 1) % 12 == m;
    }
  }

  lemma {:induction false} MonthStartsIncrease(i: int, j: int)
    requires i < j
    ensures MonthStart(i) + LengthAt(i) <= MonthStart(j)
    decreases j - i
  {
    MonthsAbut(j - 1);
    if i < j - 1 {
      MonthStartsIncrease(i, j - 1);
    }
  }

  lemma DayNumberByMonth(d: Date)
    requires ValidDate(d)
    ensures DayNumber(d) == MonthStart(MonthIndex(d)) + d.day && 1 <= d.day <= LengthAt(MonthIndex(d))
  {
    assert MonthIndex(d) / 12 == d.year && MonthIndex(d) % 12 == d.month - 1;
  }

  /** Day numbers order dates exactly as (month index, day) does; in particular they are injective. */
  lemma DayNumberOrders(d: Date, e: Date)
    requires ValidDate(d) && ValidDate(e)
    ensures DayNumber(d) < DayNumber(e) <==>
      MonthIndex(d) < MonthIndex(e) || (MonthIndex(d) == MonthIndex(e) && d.day < e.day)
    ensures DayNumber(d) == DayNumber(e) <==> d == e
  {
    DayNumberByMonth(d);
    DayNumberByMonth(e);
    if MonthIndex(d) < MonthIndex(e) {
      MonthStartsIncrease(MonthIndex(d), MonthIndex(e));
    } else if MonthIndex(e) < MonthIndex(d) {
      MonthStartsIncrease(MonthIndex(e), MonthIndex(d));
    } else {
      assert d.year == e.year && d.month == e.month;
    }
  }

  // ----- Adding months -----

  function Min(a: int, b: int): int
  {
    if a <= b then a else b
  }

  function AddMonths(d: Date, months: int): Date
    requires ValidDate(d)
  {
    var index := d.month - 1 + months;
    var year := d.year + index / 12;
    var month := index % 12 + 1;
    Date(year, month, Min(d.day, MonthLength(year, month)))
  }

  /** `e` is exactly that many months from `d`, on the same day or the last one its month has. */
  predicate ShiftedBy(d: Date, e: Date, months: int)
  {
    ValidDate(e) && MonthIndex(e) == MonthIndex(d) + months && e.day == Min(d.day, MonthLength(e.year, e.month))
  }

  lemma AddMonthsExact(d: Date, months: int)
    requires ValidDate(d)
    ensures ShiftedBy(d, AddMonths(d, months), months)
  {
    var index := d.month - 1 + months;
    assert index == 12 * (index / 12) + index % 12;
  }

  /** Order by month, then day. */
  predicate NotAfter(d: Date, e: Date)
  {
    MonthIndex(d) < MonthIndex(e) || (MonthIndex(d) == MonthIndex(e) && d.day <= e.day)
  }

  lemma NotAfterMeaning(d: Date, e: Date)
    requires ValidDate(d) && ValidDate(e)
    ensures NotAfter(d, e) <==> DayNumber(d) <= DayNumber(e)
  {
    DayNumberOrders(e, d);
  }

  lemma ShiftsKeepOrder(d: Date, e: Date, d': Date, e': Date, months: int)
    requires NotAfter(d, e) && ShiftedBy(d, d', months) && ShiftedBy(e, e', months)
    ensures NotAfter(d', e')
  {
    if MonthIndex(d) == MonthIndex(e) {
      assert d'.year == e'.year && d'.month == e'.month;
    }
  }

  lemma AddMonthsMonotone(d: Date, e: Date, months: int)
    requires ValidDate(d) && ValidDate(e) && DayNumber(d) <= DayNumber(e)
    ensures ValidDate(AddMonths(d, months)) && ValidDate(AddMonths(e, months))
    ensures DayNumber(AddMonths(d, months)) <= DayNumber(AddMonths(e, months))
  {
    AddMonthsExact(d, months);
    AddMonthsExact(e, months);
    NotAfterMeaning(d, e);
    ShiftsKeepOrder(d, e, AddMonths(d, months), AddMonths(e, months), months);
    NotAfterMeaning(AddMonths(d, months), AddMonths(e, months));
  }

  /** Shifting by way of `m` against shifting directly. */
  lemma ShiftsCompose(d: Date, m: Date, e: Date, f: Date, a: int, b: int)
    requires ValidDate(d) && ShiftedBy(d, m, a) && ShiftedBy(m, e, b) && ShiftedBy(d, f, a + b)
    ensures MonthIndex(e) == MonthIndex(f) && DayNumber(e) <= DayNumber(f)
    ensures e == f <==> f.day <= MonthLength(m.year, m.month)
  {
    assert e.year == f.year && e.month == f.month;
  }

  /** Two shifts land in the same month as one, never on a later day, and on the same day exactly when
      the month in between has that day. */
  lemma AddMonthsComposes(d: Date, a: int, b: int)
    requires ValidDate(d)
    ensures ValidDate(AddMonths(d, a)) && ValidDate(AddMonths(d, a + b)) && ValidDate(AddMonths(AddMonths(d, a), b))
    ensures
      var m, e, f := AddMonths(d, a), AddMonths(AddMonths(d, a), b), AddMonths(d, a + b);
      && MonthIndex(e) == MonthIndex(f) && DayNumber(e) <= DayNumber(f)
      && (e == f <==> f.day <= MonthLength(m.year, m.month))
      && (d.day <= 28 ==> e == f)
  {
    AddMonthsExact(d, a);
    AddMonthsExact(d, a + b);
    AddMonthsExact(AddMonths(d, a), b);
    ShiftsCompose(d, AddMonths(d, a), AddMonths(AddMonths(d, a), b), AddMonths(d, a + b), a, b);
  }

  /** Shifting there and back is lossless exactly when the month in between has the day. */
  lemma AddMonthsRoundTrip(d: Date, months: int)
    requires ValidDate(d)
    ensures ValidDate(AddMonths(d, months))
    ensures
      var m := AddMonths(d, months);
      AddMonths(m, -months) == d <==> d.day <= MonthLength(m.year, m.month)
  {
    AddMonthsExact(d, months);
    AddMonthsExact(AddMonths(d, months), -months);
    ShiftsCompose(d, AddMonths(d, months), AddMonths(AddMonths(d, months), -months), d, months, -months);
  }

  /** A later month is at least four weeks away. */
  lemma ShiftForward(d: Date, e: Date, months: int)
    requires ValidDate(d) && months >= 1 && ShiftedBy(d, e, months)
    ensures DayNumber(e) >= DayNumber(d) + 28
  {
    DayNumberByMonth(d);
    DayNumberByMonth(e);
    MonthStartsIncrease(MonthIndex(d), MonthIndex(e));
  }

  lemma AddMonthsForward(d: Date, months: int)
    requires ValidDate(d) && months >= 1
    ensures ValidDate(AddMonths(d, months)) && DayNumber(AddMonths(d, months)) >= DayNumber(d) + 28
  {
    AddMonthsExact(d, months);
    ShiftForward(d, AddMonths(d, months), months);
  }

  // ----- Adding days -----

  function NextDay(d: Date): Date
    requires ValidDate(d)
  {
    if d.day < MonthLength(d.year, d.month) then d.(day := d.day + 1)
    else if d.month < 12 then Date(d.year, d.month + 1, 1)
    else Date(d.year + 1, 1, 1)
  }

  function PreviousDay(d: Date): Date
    requires ValidDate(d)
  {
    if d.day > 1 then d.(day := d.day - 1)
    else if d.month > 1 then Date(d.year, d.month - 1, MonthLength(d.year, d.month - 1))
    else Date(d.year - 1, 12, 31)
  }

  lemma NextDayFollows(d: Date)
    requires ValidDate(d)
    ensures ValidDate(NextDay(d)) && DayNumber(NextDay(d)) == DayNumber(d) + 1
  {
    var e := NextDay(d);
    DayNumberByMonth(d);
    DayNumberByMonth(e);
    if MonthIndex(e) != MonthIndex(d) {
      assert MonthIndex(e) == MonthIndex(d) + 1;
      MonthsAbut(MonthIndex(d));
      assert d.day == LengthAt(MonthIndex(d));
    }
  }

  lemma PreviousDayPrecedes(d: Date)
    requires ValidDate(d)
    ensures ValidDate(PreviousDay(d)) && DayNumber(PreviousDay(d)) == DayNumber(d) - 1
  {
    NextDayFollows(PreviousDay(d));
    assert NextDay(PreviousDay(d)) == d;
  }

  function AddDays(d: Date, days: int): (r: Date)
    requires ValidDate(d)
    ensures ValidDate(r) && DayNumber(r) == DayNumber(d) + days
    decreases if days < 0 then -days else days
  {
    NextDayFollows(d);
    PreviousDayPrecedes(d);
    if days == 0 then d
    else if days > 0 then AddDays(NextDay(d), days - 1)
    else AddDays(PreviousDay(d), days + 1)
  }

  // ----- Date-times -----

  /** Fields as shown by a clock `offset` ahead of UTC. */
  datatype DateTime = DateTime(date: Date, tick: Time, offset: Time)
  {
    predicate Valid() {
      ValidDate(date) && 0 <= tick < DAY
    }

    function Instant(): Time
      requires Valid()
    {
      DayNumber(date) * DAY + tick - offset
    }
  }

  datatype Frequency = Daily | Weekly | Monthly | Quarterly

  function ShiftByFrequency(frequency: Frequency, value: DateTime, steps: int): (r: DateTime)
    requires value.Valid()
    ensures r.Valid() && r.tick == value.tick && r.offset == value.offset
  {
    match frequency
    case Daily => value.(date := AddDays(value.date, steps))
    case Weekly => value.(date := AddDays(value.date, 7 * steps))
    case Monthly => AddMonthsExact(value.date, steps); value.(date := AddMonths(value.date, steps))
    case Quarterly => AddMonthsExact(value.date, steps * 3); value.(date := AddMonths(value.date, steps * 3))
  }

  /** Any number of steps, forward or back: that many days, weeks, months or quarters, at the same time of day. */
  lemma ShiftMeaning(frequency: Frequency, value: DateTime, steps: int)
    requires value.Valid()
    ensures
      var r := ShiftByFrequency(frequency, value, steps);
      && r.Valid() && r.tick == value.tick && r.offset == value.offset
      && match frequency
         case Daily => DayNumber(r.date) == DayNumber(value.date) + steps
         case Weekly => DayNumber(r.date) == DayNumber(value.date) + 7 * steps
         case Monthly => MovesMonths(value.date, r.date, steps)
         case Quarterly => MovesMonths(value.date, r.date, 3 * steps)
  {
    AddMonthsExact(value.date, steps);
    AddMonthsExact(value.date, 3 * steps);
  }

  /** Twelve months to the year; the day stays, unless the new month is too short for it and its last day is taken. */
  predicate MovesMonths(d: Date, e: Date, months: int)
  {
    && ValidDate(e)
    && (12 * e.year + e.month) - (12 * d.year + d.month) == months
    && (e.day == d.day || (e.day < d.day && e.day == MonthLength(e.year, e.month)))
  }

  /** The lengths of the months, and the 146097 days of every four hundred years. */
  lemma KnownLengths(year: int)
    ensures forall m :: 1 <= m <= 12 && m != 2 ==>
      MonthLength(year, m) == [31, 0, 31, 30, 31, 30, 31, 31, 30, 31, 30, 31][m - 1]
    ensures MonthLength(1900, 2) == 28 && MonthLength(2000, 2) == 29 && MonthLength(2023, 2) == 28 &&
      MonthLength(2024, 2) == 29
    ensures DaysBeforeYear(year + 400) == DaysBeforeYear(year) + 146097
    ensures DayNumber(Date(1970, 1, 1)) == 719163
  {
    var y := year - 1;
    assert (y + 400) / 4 == y / 4 + 100 && (y + 400) / 100 == y / 100 + 4 && (y + 400) / 400 == y / 400 + 1;
  }

  lemma InstantsApart(d: DateTime, e: DateTime, days: int)
    requires d.Valid() && e.Valid() && e.tick == d.tick && e.offset == d.offset &&
      DayNumber(e.date) == DayNumber(d.date) + days
    ensures e.Instant() - d.Instant() == days * DAY
  {
  }

  lemma StepDays(frequency: Frequency, value: DateTime)
    requires value.Valid()
    ensures
      var days := DayNumber(ShiftByFrequency(frequency, value, 1).date) - DayNumber(value.date);
      match frequency
      case Daily => days == 1
      case Weekly => days == 7
      case Monthly => days >= 28
      case Quarterly => days >= 28
  {
    match frequency
    case Daily =>
    case Weekly =>
    case Monthly => AddMonthsForward(value.date, 1);
    case Quarterly => AddMonthsForward(value.date, 3);
  }

  /** One step forward: exactly a day, exactly a week, or at least four weeks. */
  lemma OneStepForward(frequency: Frequency, value: DateTime)
    requires value.Valid()
    ensures
      var gained := ShiftByFrequency(frequency, value, 1).Instant() - value.Instant();
      match frequency
      case Daily => gained == DAY
      case Weekly => gained == 7 * DAY
      case Monthly => gained >= 28 * DAY
      case Quarterly => gained >= 28 * DAY
  {
    var r := ShiftByFrequency(frequency, value, 1);
    StepDays(frequency, value);
    InstantsApart(value, r, DayNumber(r.date) - DayNumber(value.date));
  }
}
