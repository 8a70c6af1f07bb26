/**
 The date of a day number, as the request monitor prints it, against the Gregorian calendar.
 */
module Calendar {
  datatype Date = Date(year: int, month: nat, day: nat)

  const I64_MAX: int := 0x7FFF_FFFF_FFFF_FFFF
  const I64_MIN: int := -0x8000_0000_0000_0000

  // ----- The calendar -----

  predicate IsLeap(y: int) {
    y % 4 == 0 && (y % 100 != 0 || y % 400 == 0)
  }

  function DaysInMonth(y: int, m: nat): nat
    requires 1 <= m <= 12
  {
    if m == 2 then if IsLeap(y) then 29 else 28
    else if m == 4 || m == 6 || m == 9 || m == 11 then 30
    else 31
  }

  predicate ValidDate(d: Date) {
    1 <= d.month <= 12 && 1 <= d.day <= DaysInMonth(d.year, d.month)
  }

  /** The calendar day after `d`. */
  function NextDay(d: Date): Date
    requires ValidDate(d)
  {
    if d.day < DaysInMonth(d.year, d.month) then d.(day := d.day + 1)
    else if d.month < 12 then Date(d.year, d.month + 1, 1)
    else Date(d.year + 1, 1, 1)
  }

  // ----- The algorithm -----

  /** Division as the program's signed integers have it: towards zero. */
  function TruncDiv(a: int, b: int): int
    requires b > 0
  {
    if a >= 0 then a / b else -(-a / b)
  }

  /** 400-year era and day of era of a day counted from 0000-03-01. */
  function EraOf(z: int): (r: (int, nat))
    ensures z == r.0 * 146097 + r.1 && r.1 <= 146096
  {
    var era := TruncDiv(if z >= 0 then z else z - 146096, 146097);
    TruncIsFloor(z);
    (era, z - era * 146097)
  }

  lemma TruncIsFloor(z: int)
    ensures var era := TruncDiv(if z >= 0 then z else z - 146096, 146097);
            0 <= z - era * 146097 <= 146096
  {
    if z < 0 {
      var n := 146096 - z;
      assert n == n / 146097 * 146097 + n % 146097;
    }
  }

  /** Year of era, counted from March. */
  function YearOfEra(doe: nat): nat
    requires doe <= 146096
  {
    (doe - doe / 1460 + doe / 36524 - doe / 146096) / 365
  }

  /** Day of the March-based year. */
  function DayOfYear(doe: nat): int
    requires doe <= 146096
  {
    var yoe := YearOfEra(doe);
    doe - (365 * yoe + yoe / 4 - yoe / 100)
  }

  /** The March-based year `yoe` of an era ends with a leap day. */
  predicate EndsLeap(yoe: nat) {
    IsLeap(yoe + 1)
  }

  /** Ranges of the intermediate values; in particular no unsigned subtraction goes below zero. */
  lemma EraParts(doe: nat)
    requires doe <= 146096
    ensures doe - doe / 1460 + doe / 36524 >= doe / 146096
    ensures YearOfEra(doe) <= 399
    ensures 0 <= DayOfYear(doe) <= if EndsLeap(YearOfEra(doe)) then 365 else 364
  {
    var c := if doe == 146096 then 3 else doe / 36524;
    var r := doe - 36524 * c;
    var q := r / 1461;
    var s := r - 1461 * q;
    var k := if s == 1460 then 3 else s / 365;
    var t := s - 365 * k;
    YearFromParts(doe, c, q, k, t);
  }

  lemma YearFromParts(doe: nat, c: int, q: int, k: int, t: int)
    requires doe == 36524 * c + 1461 * q + 365 * k + t && doe <= 146096
    requires 0 <= c <= 3 && 0 <= q <= 24 && 0 <= k <= 3 && 0 <= t <= 365
    requires t == 365 ==> k == 3 && (q < 24 || c == 3)
    ensures YearOfEra(doe) == 100 * c + 4 * q + k && DayOfYear(doe) == t
    ensures k == 3 && (q < 24 || c == 3) ==> EndsLeap(100 * c + 4 * q + k)
    ensures doe - doe / 1460 + doe / 36524 >= doe / 146096
  {
    var yoe := 100 * c + 4 * q + k;
    var e := if 24 * c + q + 365 * k + t >= 1460 then 1 else 0;
    LeapDaysSoFar(doe, c, q, k, t);
    assert doe - doe / 1460 + doe / 36524 - doe / 146096 == 365 * yoe + t - e;
    assert yoe / 4 == 25 * c + q && yoe / 100 == c;
  }

  lemma LeapDaysSoFar(doe: nat, c: int, q: int, k: int, t: int)
    requires doe == 36524 * c + 1461 * q + 365 * k + t && doe <= 146096
    requires 0 <= c <= 3 && 0 <= q <= 24 && 0 <= k <= 3 && 0 <= t <= 365
    requires t == 365 ==> k == 3 && (q < 24 || c == 3)
    ensures doe / 1460 == 25 * c + q + if 24 * c + q + 365 * k + t >= 1460 then 1 else 0
    ensures doe / 36524 - doe / 146096 == c
  {
    var rest := 24 * c + q + 365 * k + t;
    assert doe == 1460 * (25 * c + q) + rest;
    assert rest < 2920;
    assert 1461 * q + 365 * k + t <= 36524;
    assert 1461 * q + 365 * k + t == 36524 ==> c == 3;
  }

  /** Month of the March-based year, and day of the month, of a day of that year. */
  function MonthAndDay(doy: nat): (nat, int) {
    var mp := (5 * doy + 2) / 153;
    (mp, doy - (153 * mp + 2) / 5 + 1)
  }

  predicate InRange(z: int) {
    I64_MIN <= z && z + 719468 <= I64_MAX
  }

  /** Days since 1970-01-01 to year, month and day. */
  function YmdFromDays(z: int): Date
    requires InRange(z)
  {
    var (era, doe) := EraOf(z + 719468);
    EraParts(doe);
    var (mp, d) := MonthAndDay(DayOfYear(doe));
    MonthParts(DayOfYear(doe));
    var y := YearOfEra(doe) + era * 400;
    var m := if mp < 10 then mp + 3 else mp - 9;
    Date(if m <= 2 then y + 1 else y, m, d)
  }

  /** First day of each month of the March-based year. */
  function MonthStart(mp: nat): nat
    requires mp <= 12
  {
    [0, 31, 61, 92, 122, 153, 184, 214, 245, 275, 306, 337, 366][mp]
  }

  lemma MonthParts(doy: nat)
    requires doy <= 365
    ensures var (mp, d) := MonthAndDay(doy);
            mp <= 11 && d >= 1 && doy == MonthStart(mp) + d - 1 && doy < MonthStart(mp + 1)
  {
    var mp := (5 * doy + 2) / 153;
    assert mp <= 11;
    assert (153 * mp + 2) / 5 == MonthStart(mp);
  }

  // ----- The inverse -----

  /** Days before 1 January of year `y`, from 1970-01-01. */
  function DaysBeforeYear(y: int): int {
    365 * y + (y - 1) / 4 - (y - 1) / 100 + (y - 1) / 400 - 719527
  }

  function DaysBeforeMonth(y: int, m: nat): nat
    requires 1 <= m <= 12
  {
    if m == 1 then 0 else DaysBeforeMonth(y, m - 1) + DaysInMonth(y, m - 1)
  }

  /** The day number of a date. */
  function DaysFromDate(d: Date): int
    requires ValidDate(d)
  {
    DaysBeforeYear(d.year) + DaysBeforeMonth(d.year, d.month) + d.day - 1
  }

  lemma YearStep(y: int)
    ensures DaysBeforeYear(y + 1) == DaysBeforeYear(y) + if IsLeap(y) then 366 else 365
  {
    FloorStep(y, 4);
    FloorStep(y, 100);
    FloorStep(y, 400);
    Shift(0, y / 400 * 4, 100);
    Shift(0, y / 100 * 25, 4);
  }

  lemma FloorStep(y: int, n: int)
    requires n == 4 || n == 100 || n == 400
    ensures y / n == (y - 1) / n + if y % n == 0 then 1 else 0
  {
  }

  lemma DaysBeforeMonthTable(y: int, m: nat)
    requires 1 <= m <= 12
    ensures var leap := if IsLeap(y) then 1 else 0;
            DaysBeforeMonth(y, m) == if m == 1 then 0 else if m == 2 then 31 else 59 + leap + MonthStart(m - 3)
  {
    if m > 1 {
      DaysBeforeMonthTable(y, m - 1);
    }
  }

  lemma FullYear(y: int)
    ensures DaysBeforeMonth(y, 12) + 31 == if IsLeap(y) then 366 else 365
  {
    DaysBeforeMonthTable(y, 12);
  }

  /** Days before 1 March of year `y`, with the leap day of `y` counted. */
  lemma MarchDays(y: int)
    ensures DaysBeforeYear(y) + 59 + (if IsLeap(y) then 1 else 0) == 365 * y + y / 4 - y / 100 + y / 400 - 719468
  {
    YearStep(y);
  }

  /** 400 years are 146097 days. */
  lemma EraDays(era: int, yoe: nat)
    requires yoe <= 399
    ensures var y := yoe + era * 400;
            365 * y + y / 4 - y / 100 + y / 400 == era * 146097 + 365 * yoe + yoe / 4 - yoe / 100
    ensures IsLeap(yoe + era * 400 + 1) == IsLeap(yoe + 1)
  {
    var y := yoe + era * 400;
    Shift(yoe, era * 100, 4);
    Shift(yoe, era * 4, 100);
    Shift(yoe, era, 400);
    Shift(yoe + 1, era * 100, 4);
    Shift(yoe + 1, era * 4, 100);
    Shift(yoe + 1, era, 400);
  }

  lemma Shift(n: int, k: int, d: int)
    requires d == 4 || d == 100 || d == 400
    ensures (n + k * d) / d == n / d + k && (n + k * d) % d == n % d
  {
  }

  /** The computed date is a date of the calendar, and its day number is the one given. */
  lemma YmdIsInverse(z: int)
    requires InRange(z)
    ensures ValidDate(YmdFromDays(z)) && DaysFromDate(YmdFromDays(z)) == z
  {
    hide YearOfEra, DaysBeforeYear, DaysFromDate, MonthAndDay, DaysInMonth, IsLeap, ValidDate, TruncDiv, EraOf;
    var (era, doe) := EraOf(z + 719468);
    var yoe, doy := YearOfEra(doe), DayOfYear(doe);
    EraParts(doe);
    MonthParts(doy);
    EraDays(era, yoe);
    var y := yoe + era * 400;
    MarchDays(y);
    assert doe == 365 * yoe + yoe / 4 - yoe / 100 + doy;
    DateOfDay(z, y, doy);
  }

  /** Day `doy` of the year that starts on 1 March of `y`. */
  lemma DateOfDay(z: int, y: int, doy: nat)
    requires doy <= if IsLeap(y + 1) then 365 else 364
    requires z == DaysBeforeYear(y) + 59 + (if IsLeap(y) then 1 else 0) + doy
    ensures var (mp, d) := MonthAndDay(doy);
            var m := if mp < 10 then mp + 3 else mp - 9;
            var date := Date(if m <= 2 then y + 1 else y, m, if d >= 0 then d else 0);
            mp <= 11 && d >= 1 && ValidDate(date) && DaysFromDate(date) == z
  {
    MonthParts(doy);
    var (mp, d) := MonthAndDay(doy);
    var m := if mp < 10 then mp + 3 else mp - 9;
    YearStep(y);
    DaysBeforeMonthTable(if m <= 2 then y + 1 else y, m);
    MonthLengths(mp, if m <= 2 then y + 1 else y);
  }

  lemma MonthLengths(mp: nat, y: int)
    requires mp <= 11
    ensures var m := if mp < 10 then mp + 3 else mp - 9;
            mp < 11 ==> MonthStart(mp + 1) - MonthStart(mp) == DaysInMonth(y, m)
    ensures DaysInMonth(y, 2) == if IsLeap(y) then 29 else 28
  {
  }

  lemma NextDayCounts(d: Date)
    requires ValidDate(d)
    ensures ValidDate(NextDay(d)) && DaysFromDate(NextDay(d)) == DaysFromDate(d) + 1
  {
    if d.day == DaysInMonth(d.year, d.month) && d.month == 12 {
      YearStep(d.year);
      FullYear(d.year);
    }
  }

  lemma {:induction false} YearsGrow(y: int, y': int)
    requires y < y'
    ensures DaysBeforeYear(y') >= DaysBeforeYear(y) + if IsLeap(y) then 366 else 365
    decreases y' - y
  {
    YearStep(y);
    if y + 1 < y' {
      YearsGrow(y + 1, y');
    }
  }

  lemma {:induction false} MonthsGrow(y: int, m: nat, m': nat)
    requires 1 <= m < m' <= 12
    ensures DaysBeforeMonth(y, m') >= DaysBeforeMonth(y, m) + DaysInMonth(y, m)
    decreases m' - m
  {
    if m + 1 < m' {
      MonthsGrow(y, m, m' - 1);
    }
  }

  lemma WithinYear(d: Date)
    requires ValidDate(d)
    ensures DaysBeforeYear(d.year) <= DaysFromDate(d) < DaysBeforeYear(d.year) + if IsLeap(d.year) then 366 else 365
  {
    FullYear(d.year);
    if d.month < 12 {
      MonthsGrow(d.year, d.month, 12);
    }
  }

  /** No two dates share a day number. */
  lemma DatesAreDistinct(d: Date, e: Date)
    requires ValidDate(d) && ValidDate(e) && DaysFromDate(d) == DaysFromDate(e)
    ensures d == e
  {
    WithinYear(d);
    WithinYear(e);
    if d.year < e.year {
      YearsGrow(d.year, e.year);
    } else if e.year < d.year {
      YearsGrow(e.year, d.year);
    } else if d.month < e.month {
      MonthsGrow(d.year, d.month, e.month);
    } else if e.month < d.month {
      MonthsGrow(d.year, e.month, d.month);
    }
  }

  /** The inverse the other way round. */
  lemma DateRoundTrip(d: Date)
    requires ValidDate(d) && InRange(DaysFromDate(d))
    ensures YmdFromDays(DaysFromDate(d)) == d
  {
    YmdIsInverse(DaysFromDate(d));
    DatesAreDistinct(YmdFromDays(DaysFromDate(d)), d);
  }

  /** The next day number is the next calendar day; day 0 is 1 January 1970. */
  lemma DaysAdvance(z: int)
    requires InRange(z) && InRange(z + 1)
    ensures YmdFromDays(0) == Date(1970, 1, 1)
    ensures ValidDate(YmdFromDays(z)) && YmdFromDays(z + 1) == NextDay(YmdFromDays(z))
  {
    YmdIsInverse(z);
    YmdIsInverse(z + 1);
    NextDayCounts(YmdFromDays(z));
    DatesAreDistinct(YmdFromDays(z + 1), NextDay(YmdFromDays(z)));
    YmdIsInverse(0);
    DatesAreDistinct(YmdFromDays(0), Date(1970, 1, 1));
  }
}
