/** Civil dates to day numbers and Unix seconds: the transform of main/gnss_service.c and its second copy in
    main/web_console.c, against the Gregorian calendar defined day by day. */
module Calendar {
  import opened Arith
  import opened Esp

  // ---------------------------------------------------------------- the routines

  /** Shifted month: March is 0, February is 11. */
  function ShiftedMonth(month: int): int {
    if month > 2 then month - 3 else month + 9
  }

  /** C division truncates, hence the correction for negative years. */
  function DaysFromCivil(year: int, month: int, day: int): int
    requires 1 <= month <= 12 && 1 <= day <= 31
  {
    var y := year - (if month <= 2 then 1 else 0);
    var era := TruncDiv(if y >= 0 then y else y - 399, 400);
    var yoe := y - era * 400;
    var doy := (153 * ShiftedMonth(month) + 2) / 5 + day - 1;
    var doe := yoe * 365 + yoe / 4 - yoe / 100 + doy;
    era * 146097 + doe - 719468
  }

  datatype DateTime = DateTime(date: Date, hour: int, minute: int, second: int)

  predicate FieldsInRange(t: DateTime) {
    && 1 <= t.date.month <= 12 && 1 <= t.date.day <= 31
    && 0 <= t.hour <= 23 && 0 <= t.minute <= 59 && 0 <= t.second <= 60
  }

  function Seconds(t: DateTime): int
    requires FieldsInRange(t)
  {
    DaysFromCivil(t.date.year, t.date.month, t.date.day) * 86400 + t.hour * 3600 + t.minute * 60 + t.second
  }

  /** GNSS time: a leap second is served as the second before it. */
  function DatetimeToEpoch(t: DateTime): Option<int> {
    if !FieldsInRange(t) || t.date.year < 2000 || t.date.year > 2100 then None
    else Some(Seconds(if t.second == 60 then t.(second := 59) else t))
  }

  /** Certificate times: any year from the epoch on, and no leap-second adjustment. */
  function ParsedUtc(t: DateTime): Option<int> {
    if t.date.year < 1970 || !FieldsInRange(t) then None else Some(Seconds(t))
  }

  // ---------------------------------------------------------------- the Gregorian calendar

  datatype Date = Date(year: int, month: int, day: int)

  predicate Leap(year: int) {
    year % 4 == 0 && (year % 100 != 0 || year % 400 == 0)
  }

  function MonthLength(year: int, month: int): (n: int)
    requires 1 <= month <= 12
    ensures 28 <= n <= 31
  {
    if month == 2 then (if Leap(year) then 29 else 28)
    else if month == 4 || month == 6 || month == 9 || month == 11 then 30
    else 31
  }

  predicate Valid(d: Date) {
    1 <= d.month <= 12 && 1 <= d.day <= MonthLength(d.year, d.month)
  }

  /** The first day of the month after. */
  function NextMonth(d: Date): Date
    requires Valid(d)
  {
    if d.month < 12 then Date(d.year, d.month + 1, 1) else Date(d.year + 1, 1, 1)
  }

  function Next(d: Date): (n: Date)
    requires Valid(d)
    ensures Valid(n) && Before(d, n)
  {
    if d.day < MonthLength(d.year, d.month) then d.(day := d.day + 1) else NextMonth(d)
  }

  predicate Before(a: Date, b: Date) {
    a.year < b.year || (a.year == b.year && (a.month < b.month || (a.month == b.month && a.day < b.day)))
  }

  const EPOCH := Date(1970, 1, 1)

  /** The calendar counted out from the epoch. */
  function DateAfter(n: nat): (d: Date)
    ensures Valid(d)
  {
    if n == 0 then EPOCH else Next(DateAfter(n - 1))
  }

  function Days(d: Date): int
    requires Valid(d)
  {
    DaysFromCivil(d.year, d.month, d.day)
  }

  // ---------------------------------------------------------------- years that start in March

  /** Day number of 1 March of the year. */
  function MarchFirst(y: int): int {
    var yoe := y % 400;
    y / 400 * 146097 + yoe * 365 + yoe / 4 - yoe / 100 - 719468
  }

  lemma EraIsFloor(y: int)
    ensures TruncDiv(if y >= 0 then y else y - 399, 400) == y / 400
  {
    if y < 0 {
      var q, r := y / 400, y % 400;
      assert 399 - y == -q * 400 + (399 - r);
      DivUnique(399 - y, 400, -q, 399 - r);
    }
  }

  lemma DaysInMarchYear(year: int, month: int, day: int)
    requires 1 <= month <= 12 && 1 <= day <= 31
    ensures var y := year - (if month <= 2 then 1 else 0);
      DaysFromCivil(year, month, day) == MarchFirst(y) + (153 * ShiftedMonth(month) + 2) / 5 + day - 1
  {
    EraIsFloor(year - (if month <= 2 then 1 else 0));
    hide TruncDiv;
  }

  /** A March year runs to the end of the next February. */
  lemma MarchYearLength(y: int)
    ensures MarchFirst(y + 1) == MarchFirst(y) + if Leap(y + 1) then 366 else 365
  {
    var q, r := y / 400, y % 400;
    if r < 399 {
      DivUnique(y + 1, 400, q, r + 1);
      YearOfEraStep(r);
      LeapInEra(y + 1, q, r + 1);
    } else {
      DivUnique(y + 1, 400, q + 1, 0);
      LeapInEra(y + 1, q + 1, 0);
    }
  }

  lemma YearOfEraStep(r: int)
    requires 0 <= r < 399
    ensures (r + 1) / 4 == r / 4 + if (r + 1) % 4 == 0 then 1 else 0
    ensures (r + 1) / 100 == r / 100 + if (r + 1) % 100 == 0 then 1 else 0
  {}

  lemma LeapInEra(y: int, q: int, r: int)
    requires y == q * 400 + r && 0 <= r < 400
    ensures Leap(y) <==> r % 4 == 0 && (r % 100 != 0 || r == 0)
  {
    assert y == (q * 100 + r / 4) * 4 + r % 4;
    DivUnique(y, 4, q * 100 + r / 4, r % 4);
    assert y == (q * 4 + r / 100) * 100 + r % 100;
    DivUnique(y, 100, q * 4 + r / 100, r % 100);
    DivUnique(y, 400, q, r);
  }

  // ---------------------------------------------------------------- exactness

  /** Lengths of the months from March to January in the shifted year. */
  lemma ShiftedMonthLength(year: int, month: int)
    requires 1 <= month <= 12 && month != 2
    ensures var next := if month < 12 then month + 1 else 1;
      (153 * ShiftedMonth(next) + 2) / 5 == (153 * ShiftedMonth(month) + 2) / 5 + MonthLength(year, month)
  {
    hide Leap;
  }

  /** Where the next month starts is one month length further on, over year and century ends too. */
  lemma MonthIsExact(year: int, month: int)
    requires 1 <= month <= 12
    ensures var n := NextMonth(Date(year, month, 1));
      DaysFromCivil(n.year, n.month, 1) == DaysFromCivil(year, month, 1) + MonthLength(year, month)
  {
    hide DaysFromCivil, MarchFirst, Leap;
    var n := NextMonth(Date(year, month, 1));
    DaysInMarchYear(year, month, 1);
    DaysInMarchYear(n.year, n.month, 1);
    if month == 2 {
      MarchYearLength(year - 1);
    } else {
      ShiftedMonthLength(year, month);
      hide ShiftedMonth, MonthLength;
    }
  }

  lemma DayWithinMonth(year: int, month: int, day: int)
    requires 1 <= month <= 12 && 1 <= day <= 31
    ensures DaysFromCivil(year, month, day) == DaysFromCivil(year, month, 1) + day - 1
  {}

  /** The calendar theorem: the transform sends 1970-01-01 to 0 and each date's successor one further. */
  lemma NextDayIsNextNumber(d: Date)
    requires Valid(d)
    ensures Days(EPOCH) == 0 && Days(Next(d)) == Days(d) + 1
  {
    EpochIsDayZero();
    hide DaysFromCivil, Leap;
    MonthIsExact(d.year, d.month);
    DayWithinMonth(d.year, d.month, d.day);
    if d.day < MonthLength(d.year, d.month) { DayWithinMonth(d.year, d.month, d.day + 1); }
  }

  lemma EpochIsDayZero()
    ensures Days(EPOCH) == 0
  {}

  lemma {:induction false} DaysCountFromEpoch(n: nat)
    ensures Days(DateAfter(n)) == n
  {
    hide DaysFromCivil, Next;
    if n == 0 {
      NextDayIsNextNumber(EPOCH);
    } else {
      DaysCountFromEpoch(n - 1);
      NextDayIsNextNumber(DateAfter(n - 1));
    }
  }

  /** Distance to a later date's month, counted in months. */
  lemma {:induction false} LaterMonthIsLater(year: int, month: int, toYear: int, toMonth: int)
    requires 1 <= month <= 12 && 1 <= toMonth <= 12 && year * 12 + month < toYear * 12 + toMonth
    ensures DaysFromCivil(toYear, toMonth, 1) >= DaysFromCivil(year, month, 1) + MonthLength(year, month)
    decreases toYear * 12 + toMonth - year * 12 - month
  {
    MonthIsExact(year, month);
    var n := NextMonth(Date(year, month, 1));
    hide DaysFromCivil, MonthLength;
    if n.year * 12 + n.month < toYear * 12 + toMonth {
      LaterMonthIsLater(n.year, n.month, toYear, toMonth);
    } else {
      assert n.year == toYear && n.month == toMonth;
    }
  }

  lemma LaterDateIsLater(a: Date, b: Date)
    requires Valid(a) && Valid(b) && Before(a, b)
    ensures Days(a) < Days(b)
  {
    DayWithinMonth(a.year, a.month, a.day);
    DayWithinMonth(b.year, b.month, b.day);
    hide DaysFromCivil, MonthLength;
    if a.year != b.year || a.month != b.month { LaterMonthIsLater(a.year, a.month, b.year, b.month); }
  }

  /** Day numbers order valid dates exactly, in every year. */
  lemma DaysOrderDates(a: Date, b: Date)
    requires Valid(a) && Valid(b)
    ensures Days(a) < Days(b) <==> Before(a, b)
    ensures Days(a) == Days(b) <==> a == b
  {
    hide Days, Valid;
    if Before(a, b) { LaterDateIsLater(a, b); }
    if Before(b, a) { LaterDateIsLater(b, a); }
  }

  /** Every valid date from the epoch on is the one reached by counting out its day number. */
  lemma DateIsItsCount(d: Date)
    requires Valid(d) && !Before(d, EPOCH)
    ensures Days(d) >= 0 && DateAfter(Days(d)) == d
  {
    DaysOrderDates(d, EPOCH);
    NextDayIsNextNumber(EPOCH);
    hide Days, DateAfter;
    DaysCountFromEpoch(Days(d));
    DaysOrderDates(DateAfter(Days(d)), d);
  }

  // ---------------------------------------------------------------- date-times

  predicate ValidTime(t: DateTime) {
    Valid(t.date) && FieldsInRange(t) && t.second < 60
  }

  predicate Earlier(a: DateTime, b: DateTime) {
    Before(a.date, b.date)
    || (a.date == b.date && a.hour * 3600 + a.minute * 60 + a.second < b.hour * 3600 + b.minute * 60 + b.second)
  }

  /** On valid date-times without a leap second, Unix seconds order time exactly. */
  lemma SecondsOrderTime(a: DateTime, b: DateTime)
    requires ValidTime(a) && ValidTime(b)
    ensures Seconds(a) < Seconds(b) <==> Earlier(a, b)
    ensures Seconds(a) == Seconds(b) <==> a == b
  {
    DaysOrderDates(a.date, b.date);
    hide DaysFromCivil, Before, Valid;
  }

  /** Which times are accepted: a month of the year, a day that some month has, a time of day up to a leap
      second, from 2000 to 2100 for GNSS time and from 1970 on for certificates. */
  lemma AcceptedIff(t: DateTime)
    ensures var fields := 0 < t.date.month < 13 && 0 < t.date.day < 32
                          && 0 <= t.hour < 24 && 0 <= t.minute < 60 && 0 <= t.second < 61;
      && (DatetimeToEpoch(t).Some? <==> fields && 2000 <= t.date.year <= 2100)
      && (ParsedUtc(t).Some? <==> fields && t.date.year >= 1970)
  {
    hide Seconds;
  }

  /** Accepted times lie within the years named, whatever the day of month. */
  lemma EpochInRange(t: DateTime)
    requires DatetimeToEpoch(t).Some?
    ensures 946684800 <= DatetimeToEpoch(t).value <= 4133980799
  {
    var d := t.date;
    FirstAndLastMonth();
    hide DaysFromCivil;
    DayWithinMonth(d.year, d.month, d.day);
    MonthsInRange(d.year, d.month);
  }

  lemma FirstAndLastMonth()
    ensures DaysFromCivil(2000, 1, 1) == 10957 && DaysFromCivil(2100, 12, 1) == 47816
  {}

  lemma MonthsInRange(year: int, month: int)
    requires 2000 <= year <= 2100 && 1 <= month <= 12
    ensures DaysFromCivil(2000, 1, 1) <= DaysFromCivil(year, month, 1) <= DaysFromCivil(2100, 12, 1)
  {
    hide DaysFromCivil, Leap;
    if year * 12 + month > 2000 * 12 + 1 { LaterMonthIsLater(2000, 1, year, month); }
    if year * 12 + month < 2100 * 12 + 12 { LaterMonthIsLater(year, month, 2100, 12); }
  }

  /** The range check lets a day past the end of the month through; it stands for a day of the next month. */
  lemma DayPastMonthEndCarries(year: int, month: int, day: int)
    requires 1 <= month <= 12 && MonthLength(year, month) < day <= 31
    ensures var n := NextMonth(Date(year, month, 1)).(day := day - MonthLength(year, month));
      Valid(n) && DaysFromCivil(year, month, day) == Days(n)
  {
    MonthIsExact(year, month);
    var n := NextMonth(Date(year, month, 1));
    DayWithinMonth(year, month, day);
    DayWithinMonth(n.year, n.month, day - MonthLength(year, month));
    hide DaysFromCivil, Leap;
  }

  /** The valid date-time an accepted one stands for. */
  function Meaning(t: DateTime): DateTime
    requires FieldsInRange(t)
  {
    var d := t.date;
    var length := MonthLength(d.year, d.month);
    var date := if d.day <= length then d else NextMonth(Date(d.year, d.month, 1)).(day := d.day - length);
    DateTime(date, t.hour, t.minute, if t.second == 60 then 59 else t.second)
  }

  lemma EpochOfMeaning(t: DateTime)
    requires DatetimeToEpoch(t).Some?
    ensures FieldsInRange(t) && ValidTime(Meaning(t)) && DatetimeToEpoch(t).value == Seconds(Meaning(t))
  {
    var d := t.date;
    if d.day > MonthLength(d.year, d.month) { DayPastMonthEndCarries(d.year, d.month, d.day); }
    hide DaysFromCivil, Leap, MonthLength;
  }

  /** Two accepted date-times get the same number exactly when they differ only by a day carried past the
      end of its month or by the leap second; otherwise the numbers are in the order of the times. */
  lemma EpochsEqualIff(a: DateTime, b: DateTime)
    requires DatetimeToEpoch(a).Some? && DatetimeToEpoch(b).Some?
    ensures DatetimeToEpoch(a) == DatetimeToEpoch(b) <==> Meaning(a) == Meaning(b)
    ensures DatetimeToEpoch(a).value < DatetimeToEpoch(b).value <==> Earlier(Meaning(a), Meaning(b))
  {
    EpochOfMeaning(a);
    EpochOfMeaning(b);
    hide DatetimeToEpoch, Seconds, Meaning;
    SecondsOrderTime(Meaning(a), Meaning(b));
  }

  /** An accepted date that is not on the calendar shares its number with one that is. */
  lemma InvalidDateIsAlias()
    ensures var a := DateTime(Date(2023, 2, 30), 0, 0, 0);
      var b := DateTime(Date(2023, 3, 2), 0, 0, 0);
      !Valid(a.date) && ValidTime(b) && DatetimeToEpoch(a) == DatetimeToEpoch(b) == Some(1677715200)
  {}

  /** The two copies agree wherever both accept, except on the leap second, which the certificate parser
      counts into the next minute. */
  lemma CopiesAgreeIff(t: DateTime)
    requires DatetimeToEpoch(t).Some?
    ensures ParsedUtc(t).Some?
    ensures DatetimeToEpoch(t) == ParsedUtc(t) <==> t.second != 60
    ensures t.second == 60 ==> ParsedUtc(t).value == DatetimeToEpoch(t).value + 1
  {
    hide DaysFromCivil;
  }
}
