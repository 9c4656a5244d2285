/**
 * UTC timestamps: `timestamp` (src/adapters/approval.rs) reads them, `iso8601` and
 * `civil_from_days` (src/adapters/report_store.rs) write them. The format is the UTC-seconds
 * subset of RFC 3339 section 5.6, with the ranges of section 5.7 and the leap years of Appendix C.
 */
module Calendar {

  datatype Civil = Civil(year: int, month: int, day: int)

  predicate IsLeap(y: int) { y % 4 == 0 && (y % 100 != 0 || y % 400 == 0) }

  function DaysInMonth(y: int, m: int): int
    requires 1 <= m <= 12
  {
    [31, if IsLeap(y) then 29 else 28, 31, 30, 31, 30, 31, 31, 30, 31, 30, 31][m - 1]
  }

  predicate IsDate(c: Civil) { 1 <= c.month <= 12 && 1 <= c.day <= DaysInMonth(c.year, c.month) }

  // ----- counting days by years and months -----

  function DaysBeforeYear(y: int): int
    requires y >= 1970
  {
    if y == 1970 then 0 else DaysBeforeYear(y - 1) + if IsLeap(y - 1) then 366 else 365
  }

  function DaysBeforeMonth(y: int, m: int): int
    requires 1 <= m <= 12
  {
    if m == 1 then 0 else DaysBeforeMonth(y, m - 1) + DaysInMonth(y, m - 1)
  }

  function DayNumber(c: Civil): int
    requires c.year >= 1970 && 1 <= c.month <= 12
  {
    DaysBeforeYear(c.year) + DaysBeforeMonth(c.year, c.month) + c.day - 1
  }

  // ----- the two closed forms -----

  /** The day count inside `timestamp`, years beginning in March. */
  function EpochDays(c: Civil): int
    requires c.year >= 1
  {
    var y := if c.month <= 2 then c.year - 1 else c.year;
    var era := y / 400;
    var year := y - era * 400;
    var mp := if c.month > 2 then c.month - 3 else c.month + 9;
    var day := (153 * mp + 2) / 5 + c.day - 1;
    era * 146097 + year * 365 + year / 4 - year / 100 + day - 719468
  }

  function YearOfEra(doe: int): int { (doe - doe / 1460 + doe / 36524 - doe / 146096) / 365 }

  function DayOfYear(doe: int): int {
    var yoe := YearOfEra(doe);
    doe - (365 * yoe + yoe / 4 - yoe / 100)
  }

  /** The date of day `doy` of the year that begins in March of `y`. */
  function MarchDate(y: int, doy: int): Civil {
    var mp := (5 * doy + 2) / 153;
    var d := doy - (153 * mp + 2) / 5 + 1;
    var m := if mp < 10 then mp + 3 else mp - 9;
    Civil(if m <= 2 then y + 1 else y, m, d)
  }

  /** `civil_from_days`, for the days the source passes it: those since 1970. */
  function CivilFromDays(days: nat): Civil {
    var z := days + 719468;
    var era := z / 146097;
    var doe := z - era * 146097;
    MarchDate(YearOfEra(doe) + era * 400, DayOfYear(doe))
  }

  // ----- the day count agrees with the closed form -----

  /** Days before 1 March of year `y`, from a fixed origin. */
  function MarchDays(y: int): int { 365 * y + y / 4 - y / 100 + y / 400 }

  lemma EraIsMarchDays(y: int)
    requires y >= 0
    ensures var era := y / 400; var year := y - era * 400;
      era * 146097 + year * 365 + year / 4 - year / 100 == MarchDays(y)
  {
    var era := y / 400;
    var year := y - era * 400;
    assert 0 <= year < 400 && y == 400 * era + year;
    assert y / 4 == 100 * era + year / 4;
    assert y / 100 == 4 * era + year / 100;
  }

  lemma DivStep(y: int, k: int)
    requires y >= 1 && (k == 4 || k == 100 || k == 400)
    ensures y / k - (y - 1) / k == if y % k == 0 then 1 else 0
  {
  }

  lemma MarchStep(y: int)
    requires y >= 1
    ensures MarchDays(y) - MarchDays(y - 1) == if IsLeap(y) then 366 else 365
  {
    DivStep(y, 4);
    DivStep(y, 100);
    DivStep(y, 400);
    LeapRule(y);
  }

  lemma LeapRule(y: int)
    requires y >= 1
    ensures (if y % 4 == 0 then 1 else 0) - (if y % 100 == 0 then 1 else 0) + (if y % 400 == 0 then 1 else 0)
      == if IsLeap(y) then 1 else 0
  {
    if y % 100 == 0 { MultipleOf(y / 100, 100, 25, 4); }
    if y % 400 == 0 { MultipleOf(y / 400, 400, 4, 100); }
  }

  lemma MultipleOf(q: int, k: int, a: int, m: int)
    requires k == a * m && (m == 4 || m == 100)
    ensures (q * k) % m == 0
  {
    ModShift(0, q * a, m);
    assert q * k == (q * a) * m;
  }

  lemma {:induction false} YearStart(y: int)
    requires y >= 1970
    ensures DaysBeforeYear(y) == MarchDays(y - 1) + 306 - 719468
  {
    if y > 1970 {
      YearStart(y - 1);
      MarchStep(y - 1);
    }
  }

  lemma MonthStart(y: int, m: int)
    requires 1 <= m <= 12
    ensures DaysBeforeMonth(y, m) ==
      (if m == 1 then 0 else if m == 2 then 31 else (153 * (m - 3) + 2) / 5 + 59 + if IsLeap(y) then 1 else 0)
  {
    if m > 1 { MonthStart(y, m - 1); }
  }

  lemma EpochDaysIs(c: Civil)
    requires c.year >= 1970 && 1 <= c.month <= 12
    ensures EpochDays(c) ==
      (if c.month <= 2 then MarchDays(c.year - 1) + (153 * (c.month + 9) + 2) / 5
       else MarchDays(c.year) + (153 * (c.month - 3) + 2) / 5) + c.day - 1 - 719468
  {
    hide MarchDays;
    EraIsMarchDays(if c.month <= 2 then c.year - 1 else c.year);
  }

  /** The closed form in `timestamp` counts days as years and months do. */
  lemma EpochDaysCounts(c: Civil)
    requires c.year >= 1970 && 1 <= c.month <= 12
    ensures EpochDays(c) == DayNumber(c)
  {
    hide EpochDays, MarchDays, IsLeap, DaysBeforeYear, DaysBeforeMonth;
    EpochDaysIs(c);
    YearStart(c.year);
    MonthStart(c.year, c.month);
    MarchStep(c.year);
  }

  // ----- the two closed forms are inverses -----

  /** The leap days taken off before dividing by 365. */
  lemma DivisionsOfEra(c: int, q: int, s: int)
    requires 0 <= c <= 3 && 0 <= q <= 24 && 0 <= s <= 1460
    requires q == 24 && s == 1460 ==> c == 3
    ensures var doe := 36524 * c + 1461 * q + s; var carry := if 24 * c + q + s >= 1460 then 1 else 0;
      doe / 1460 == 25 * c + q + carry && doe / 36524 - doe / 146096 == c
  {
    var doe := 36524 * c + 1461 * q + s;
    var carry := if 24 * c + q + s >= 1460 then 1 else 0;
    DividesAs(doe, 1460, 25 * c + q + carry, 24 * c + q + s - 1460 * carry);
    if doe == 146096 { assert c == 3; }
    else { DividesAs(doe, 36524, c, 1461 * q + s); }
  }

  lemma DividesAs(n: int, d: int, q: int, r: int)
    requires (d == 1460 || d == 36524 || d == 365) && n == d * q + r && 0 <= r < d
    ensures n / d == q
  {
  }

  lemma YearOfEraDivides(c: int, q: int, s: int)
    requires 0 <= c <= 3 && 0 <= q <= 24 && 0 <= s <= 1460
    requires q == 24 && s == 1460 ==> c == 3
    ensures var yy := if s < 365 then 0 else if s < 730 then 1 else if s < 1095 then 2 else 3;
      YearOfEra(36524 * c + 1461 * q + s) == 100 * c + 4 * q + yy
  {
    var doe := 36524 * c + 1461 * q + s;
    var yy := if s < 365 then 0 else if s < 730 then 1 else if s < 1095 then 2 else 3;
    var carry := if 24 * c + q + s >= 1460 then 1 else 0;
    DivisionsOfEra(c, q, s);
    var y, n := 100 * c + 4 * q + yy, doe - (25 * c + q + carry) + c;
    DividesAs(n, 365, y, n - 365 * y);
  }

  lemma CenturiesOf(c: int, q: int, yy: int)
    requires 0 <= c <= 3 && 0 <= q <= 24 && 0 <= yy <= 3
    ensures var y := 100 * c + 4 * q + yy; y / 4 == 25 * c + q && y / 100 == c
  {
  }

  /** A day of an era as century, four-year cycle, and day of the cycle. */
  lemma YearOfEraIs(c: int, q: int, s: int)
    requires 0 <= c <= 3 && 0 <= q <= 24 && 0 <= s <= 1460
    requires q == 24 && s == 1460 ==> c == 3
    ensures var yy := if s < 365 then 0 else if s < 730 then 1 else if s < 1095 then 2 else 3;
      YearOfEra(36524 * c + 1461 * q + s) == 100 * c + 4 * q + yy
      && DayOfYear(36524 * c + 1461 * q + s) == s - 365 * yy
  {
    hide YearOfEra;
    var doe := 36524 * c + 1461 * q + s;
    var yy := if s < 365 then 0 else if s < 730 then 1 else if s < 1095 then 2 else 3;
    YearOfEraDivides(c, q, s);
    CenturiesOf(c, q, yy);
  }

  lemma PartsOfEra(doe: int) returns (c: int, q: int, s: int)
    requires 0 <= doe < 146097
    ensures 0 <= c <= 3 && 0 <= q <= 24 && 0 <= s <= 1460 && (q == 24 && s == 1460 ==> c == 3)
    ensures doe == 36524 * c + 1461 * q + s
  {
    c := if doe == 146096 then 3 else doe / 36524;
    var r := doe - 36524 * c;
    q, s := r / 1461, r % 1461;
  }

  lemma LeapAfter(c: int, q: int)
    requires 0 <= c <= 3 && 0 <= q <= 24 && (q == 24 ==> c == 3)
    ensures IsLeap(100 * c + 4 * q + 3 + 1)
  {
  }

  lemma YearOfEraBounds(doe: int)
    requires 0 <= doe < 146097
    ensures 0 <= YearOfEra(doe) < 400
    ensures 0 <= DayOfYear(doe) <= 365
    ensures DayOfYear(doe) == 365 ==> IsLeap(YearOfEra(doe) + 1)
  {
    hide YearOfEra, DayOfYear, IsLeap;
    var c, q, s := PartsOfEra(doe);
    YearOfEraIs(c, q, s);
    if s == 1460 { LeapAfter(c, q); }
  }

  /** The month (from March) and day of a day of a March year. */
  lemma MonthOfDay(doy: int)
    requires 0 <= doy <= 365
    ensures var mp := (5 * doy + 2) / 153;
      var d := doy - (153 * mp + 2) / 5 + 1;
      && 0 <= mp <= 11 && 1 <= d
      && d <= [31, 30, 31, 30, 31, 31, 30, 31, 30, 31, 31, 29][mp] && (mp == 11 && d == 29 ==> doy == 365)
  {
    var mp := (5 * doy + 2) / 153;
    assert 153 * mp <= 5 * doy + 2 < 153 * (mp + 1);
    var starts := [0, 31, 61, 92, 122, 153, 184, 214, 245, 275, 306, 337];
    assert (153 * mp + 2) / 5 == starts[mp];
  }

  lemma LeapShift(y: int, era: int)
    ensures IsLeap(y + 400 * era) == IsLeap(y)
  {
    assert (y + 400 * era) % 4 == y % 4 by { assert y + 400 * era == y + 4 * (100 * era); ModShift(y, 100 * era, 4); }
    assert (y + 400 * era) % 100 == y % 100 by {
      assert y + 400 * era == y + 100 * (4 * era);
      ModShift(y, 4 * era, 100);
    }
    ModShift(y, era, 400);
  }

  lemma ModShift(y: int, k: int, m: int)
    requires m == 4 || m == 100 || m == 400
    ensures (y + m * k) % m == y % m
  {
  }

  lemma MarchDateCounts(yoe: int, era: int, doy: int)
    requires 0 <= yoe < 400 && era >= 1 && 0 <= doy <= 365
    ensures var c := MarchDate(yoe + era * 400, doy);
      && 1 <= c.month <= 12 && c.year >= 1
      && EpochDays(c) == era * 146097 + yoe * 365 + yoe / 4 - yoe / 100 + doy - 719468
  {
    MonthOfDay(doy);
    var mp := (5 * doy + 2) / 153;
    var c := MarchDate(yoe + era * 400, doy);
    assert c.month == if mp < 10 then mp + 3 else mp - 9;
    assert (if c.month > 2 then c.month - 3 else c.month + 9) == mp;
    assert (yoe + era * 400) / 400 == era;
  }

  lemma MarchDateIsDate(yoe: int, era: int, doy: int)
    requires 0 <= yoe < 400 && era >= 1 && 0 <= doy <= 365 && (doy == 365 ==> IsLeap(yoe + 1))
    ensures IsDate(MarchDate(yoe + era * 400, doy))
  {
    MonthOfDay(doy);
    LeapShift(yoe + 1, era);
  }

  lemma MarchYear(yoe: int, era: int, doy: int, days: nat)
    requires 0 <= yoe < 400 && era >= 1 && 0 <= doy <= 365
    requires days == era * 146097 + yoe * 365 + yoe / 4 - yoe / 100 + doy - 719468
    ensures MarchDate(yoe + era * 400, doy).year >= 1970
  {
    MonthOfDay(doy);
    var y := yoe + era * 400;
    EraIsMarchDays(y);
    assert y / 400 == era && y - era * 400 == yoe;
    assert MarchDays(y) + doy - 719468 == days;
    if y <= 1968 { MarchMonotone(y, 1968); }
    if y == 1969 { assert (5 * doy + 2) / 153 >= 10; }
  }

  lemma DayOfYearIs(doe: int)
    ensures var yoe := YearOfEra(doe); doe == DayOfYear(doe) + 365 * yoe + yoe / 4 - yoe / 100
  {
    hide YearOfEra;
  }

  /** `civil_from_days` names the date that `timestamp` counts as that many days. */
  lemma CivilOfDays(days: nat)
    ensures var c := CivilFromDays(days); IsDate(c) && c.year >= 1970 && EpochDays(c) == days
  {
    hide YearOfEra, DayOfYear, EpochDays, MarchDate, IsDate, IsLeap;
    var era := (days + 719468) / 146097;
    var doe := days + 719468 - era * 146097;
    var yoe, doy := YearOfEra(doe), DayOfYear(doe);
    YearOfEraBounds(doe);
    DayOfYearIs(doe);
    MarchDateIsDate(yoe, era, doy);
    MarchDateCounts(yoe, era, doy);
    MarchYear(yoe, era, doy, days);
  }

  lemma {:induction false} MarchMonotone(a: int, b: int)
    requires 0 <= a <= b
    ensures MarchDays(a) <= MarchDays(b)
    decreases b - a
  {
    if a < b {
      MarchStep(b);
      MarchMonotone(a, b - 1);
    }
  }

  /** Days are counted in the order of the calendar. */
  lemma {:induction false} YearsLater(a: int, b: int)
    requires 1970 <= a < b
    ensures DaysBeforeYear(a) + (if IsLeap(a) then 366 else 365) <= DaysBeforeYear(b)
    decreases b
  {
    if a < b - 1 { YearsLater(a, b - 1); }
  }

  lemma {:induction false} MonthsLater(y: int, m: int, n: int)
    requires 1 <= m < n <= 12
    ensures DaysBeforeMonth(y, m) + DaysInMonth(y, m) <= DaysBeforeMonth(y, n)
    decreases n
  {
    if m < n - 1 { MonthsLater(y, m, n - 1); }
  }

  predicate Before(a: Civil, b: Civil) {
    a.year < b.year || (a.year == b.year && (a.month < b.month || (a.month == b.month && a.day < b.day)))
  }

  lemma DayWithinYear(c: Civil)
    requires IsDate(c)
    ensures 0 <= DaysBeforeMonth(c.year, c.month) + c.day - 1 < if IsLeap(c.year) then 366 else 365
  {
    MonthStart(c.year, c.month);
  }

  lemma DatesInOrder(a: Civil, b: Civil)
    requires IsDate(a) && IsDate(b) && a.year >= 1970 && b.year >= 1970
    ensures Before(a, b) <==> DayNumber(a) < DayNumber(b)
  {
    DayWithinYear(a);
    DayWithinYear(b);
    if a.year < b.year { YearsLater(a.year, b.year); }
    else if b.year < a.year { YearsLater(b.year, a.year); }
    else if a.month < b.month { MonthsLater(a.year, a.month, b.month); }
    else if b.month < a.month { MonthsLater(a.year, b.month, a.month); }
  }

  /** The other direction: a date is recovered from its day count. */
  lemma DaysOfCivil(c: Civil)
    requires IsDate(c) && c.year >= 1970
    ensures DayNumber(c) >= 0 && CivilFromDays(DayNumber(c)) == c
  {
    DayWithinYear(c);
    YearStart(c.year);
    MarchMonotone(1969, c.year - 1);
    var days := DayNumber(c);
    var c' := CivilFromDays(days);
    CivilOfDays(days);
    EpochDaysCounts(c');
    DatesInOrder(c, c');
    DatesInOrder(c', c);
  }
}
