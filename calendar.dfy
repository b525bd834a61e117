/**
  * The proleptic Gregorian calendar that JavaScript dates use, as a
  * bijection between valid (year, month, day) triples and day numbers
  * counted from 1 January 1970 (day 0).
  *
  * A 400-year era always holds 146097 days, so a day number splits into an
  * era and a day of the era; the year of the era and the month of the year
  * are then found by a bounded search over strictly increasing tables.
  */
module Calendar {

  // The day counts 146097 (days in a 400-year era) and 719528 (days from
  // 1 January of year 0 to 1 January 1970) are written out as literals, so
  // that the solver sees multiplications by them as linear.

  predicate IsLeapYear(y: int) {
    y % 4 == 0 && (y % 100 != 0 || y % 400 == 0)
  }

  function DaysInYear(y: int): int {
    if IsLeapYear(y) then 366 else 365
  }

  function DaysInMonth(y: int, m: int): int
    requires 1 <= m <= 12
  {
    if m == 2 then (if IsLeapYear(y) then 29 else 28)
    else if m == 4 || m == 6 || m == 9 || m == 11 then 30
    else 31
  }

  predicate ValidDate(y: int, m: int, d: int) {
    1 <= m <= 12 && 1 <= d <= DaysInMonth(y, m)
  }

  datatype Civil = Civil(year: int, month: int, day: int)

  /** Days from the start of an era to 1 January of its year `k` (year 0 of an era is a leap year). */
  function EraDaysBefore(k: int): (days: int)
    requires 0 <= k <= 400
    ensures 365 * k <= days <= 366 * k
  {
    if k == 0 then 0 else EraDaysBefore(k - 1) + DaysInYear(k - 1)
  }

  /** Days from 1 January to the first day of month `m` of year `y`. */
  function DaysBeforeMonth(y: int, m: int): int
    requires 1 <= m <= 12
  {
    var leap := if IsLeapYear(y) then 1 else 0;
    if m == 1 then 0
    else if m == 2 then 31
    else if m == 3 then 59 + leap
    else if m == 4 then 90 + leap
    else if m == 5 then 120 + leap
    else if m == 6 then 151 + leap
    else if m == 7 then 181 + leap
    else if m == 8 then 212 + leap
    else if m == 9 then 243 + leap
    else if m == 10 then 273 + leap
    else if m == 11 then 304 + leap
    else 334 + leap
  }

  /**
    * The day number of day `d` of month `m` of year `y`. The day may lie
    * outside the month: it then counts on from (or back before) the month's
    * first day, which is how JavaScript rolls an out-of-range day over.
    */
  function DaysFromCivil(y: int, m: int, d: int): int
    requires 1 <= m <= 12
  {
    YearStart(y) + DaysBeforeMonth(y, m) + d - 1
  }

  /** The day number of 1 January of year `y`, counted from era to era. */
  function YearStart(y: int): int
    decreases if y < 0 then 400 - y else y
  {
    if y < 0 then YearStart(y + 400) - 146097
    else if y >= 400 then YearStart(y - 400) + 146097
    else EraDaysBefore(y) - 719528
  }

  /** The largest year `yoe <= k` of an era whose 1 January falls on or before day `doe` of the era. */
  function YearOfEra(doe: int, k: int): (yoe: int)
    requires 0 <= doe && 0 <= k < 400
    ensures 0 <= yoe <= k
    ensures EraDaysBefore(yoe) <= doe
    ensures yoe < k ==> doe < EraDaysBefore(yoe + 1)
    decreases k
  {
    if k == 0 || EraDaysBefore(k) <= doe then k else YearOfEra(doe, k - 1)
  }

  /** The largest month `m <= k` of year `y` whose first day falls on or before day `doy` of the year. */
  function MonthOfYear(y: int, doy: int, k: int): (m: int)
    requires 0 <= doy && 1 <= k <= 12
    ensures 1 <= m <= k
    ensures DaysBeforeMonth(y, m) <= doy
    ensures m < k ==> doy < DaysBeforeMonth(y, m + 1)
    decreases k
  {
    if k == 1 || DaysBeforeMonth(y, k) <= doy then k else MonthOfYear(y, doy, k - 1)
  }

  /** The calendar date of day `doy` (counted from 0) of year `y`. */
  function CivilInYear(y: int, doy: int): (c: Civil)
    requires 0 <= doy < DaysInYear(y)
    ensures c.year == y && ValidDate(y, c.month, c.day)
    ensures DaysBeforeMonth(y, c.month) + c.day - 1 == doy
  {
    var m := MonthOfYear(y, doy, 12);
    MonthLength(y, m);
    MonthLength(y, 12);
    Civil(y, m, doy - DaysBeforeMonth(y, m) + 1)
  }

  /** The calendar date of day `doe` of era `era` (the era starting 1 January of year 400 * era). */
  function CivilInEra(era: int, doe: int): (c: Civil)
    requires 0 <= doe < 146097
    ensures c.year == era * 400 + YearOfEra(doe, 399)
    ensures ValidDate(YearOfEra(doe, 399), c.month, c.day)
    ensures EraDaysBefore(YearOfEra(doe, 399)) + DaysBeforeMonth(YearOfEra(doe, 399), c.month) + c.day - 1 == doe
  {
    var yoe := YearOfEra(doe, 399);
    EraLength();
    EraYearLength(yoe);
    var c := CivilInYear(yoe, doe - EraDaysBefore(yoe));
    Civil(era * 400 + yoe, c.month, c.day)
  }

  /** A date found by searching for the era, the year of the era and the month: a valid date whose day number is `n`. */
  function CivilSearch(n: int): (c: Civil)
    ensures ValidDate(c.year, c.month, c.day)
    ensures DaysFromCivil(c.year, c.month, c.day) == n
  {
    var era, doe := (n + 719528) / 146097, (n + 719528) % 146097;
    var c := CivilInEra(era, doe);
    YearInEra(era, YearOfEra(doe, 399), c.year, c.month, c.day);
    c
  }

  /**
    * The calendar date of day number `n`: the one valid date whose day
    * number is `n`. It is chosen by that property alone, so that proofs
    * about dates never unfold the search that shows it exists.
    */
  function CivilFromDays(n: int): (c: Civil)
    ensures ValidDate(c.year, c.month, c.day)
    ensures DaysFromCivil(c.year, c.month, c.day) == n
  {
    var w := CivilSearch(n);
    assert ValidDate(w.year, w.month, w.day) && DaysFromCivil(w.year, w.month, w.day) == n;
    DaysFromCivilOneToOne();
    var c: Civil :| ValidDate(c.year, c.month, c.day) && DaysFromCivil(c.year, c.month, c.day) == n;
    c
  }

  // ----- Facts about the tables -----

  /** The era table in closed form: a day per year, plus one per leap year before year `k`. */
  lemma {:induction false} EraDaysBeforeClosed(k: int)
    requires 0 <= k <= 400
    ensures EraDaysBefore(k) == 365 * k + (k + 3) / 4 - (k + 99) / 100 + (k + 399) / 400
  {
    if k > 0 {
      EraDaysBeforeClosed(k - 1);
      LeapDaysCounted(k - 1);
    }
  }

  /** Year `j` adds to the leap-day count exactly when it is a leap year. */
  lemma LeapDaysCounted(j: int)
    ensures DaysInYear(j) - 365
      == ((j + 4) / 4 - (j + 3) / 4) - ((j + 100) / 100 - (j + 99) / 100) + ((j + 400) / 400 - (j + 399) / 400)
  {
    DivStep4(j);
    DivStep100(j);
    DivStep400(j);
    LeapDays(j);
  }

  /** The length of year `y`: one day more for each rule of the leap-year test that holds. */
  lemma LeapDays(y: int)
    ensures DaysInYear(y)
      == 365 + (if y % 4 == 0 then 1 else 0) - (if y % 100 == 0 then 1 else 0) + (if y % 400 == 0 then 1 else 0)
  {
    Divides100(y);
    Divides400(y);
  }

  lemma Divides100(y: int) ensures y % 100 == 0 ==> y % 4 == 0 {}
  lemma Divides400(y: int) ensures y % 400 == 0 ==> y % 100 == 0 {}

  lemma DivStep4(j: int) ensures (j + 4) / 4 - (j + 3) / 4 == if j % 4 == 0 then 1 else 0 {}
  lemma DivStep100(j: int) ensures (j + 100) / 100 - (j + 99) / 100 == if j % 100 == 0 then 1 else 0 {}
  lemma DivStep400(j: int) ensures (j + 400) / 400 - (j + 399) / 400 == if j % 400 == 0 then 1 else 0 {}

  /** Consecutive entries of the era table differ by the length of the year between them. */
  lemma EraYearLength(k: int)
    requires 0 <= k < 400
    ensures EraDaysBefore(k + 1) == EraDaysBefore(k) + DaysInYear(k)
  {
  }

  /** An era holds 146097 days. */
  lemma EraLength()
    ensures EraDaysBefore(400) == 146097
  {
    EraDaysBeforeClosed(400);
  }

  /** Leap years repeat every 400 years. */
  lemma LeapYearPeriodic(era: int, yoe: int)
    ensures IsLeapYear(era * 400 + yoe) == IsLeapYear(yoe)
  {
    ModMultiple4(era * 100, yoe);
    ModMultiple100(era * 4, yoe);
    ModMultiple400(era, yoe);
  }

  lemma ModMultiple4(x: int, r: int) ensures (x * 4 + r) % 4 == r % 4 {}
  lemma ModMultiple100(x: int, r: int) ensures (x * 100 + r) % 100 == r % 100 {}
  lemma ModMultiple400(x: int, r: int) ensures (x * 400 + r) % 400 == r % 400 {}

  /** The era table grows by at least 365 a year. */
  lemma {:induction false} EraDaysBeforeGrows(j: int, k: int)
    requires 0 <= j <= k <= 400
    ensures EraDaysBefore(j) + 365 * (k - j) <= EraDaysBefore(k)
    decreases k - j
  {
    if j < k {
      EraDaysBeforeGrows(j + 1, k);
    }
  }

  /** The year after `a` starts no later than any later year `b`. */
  lemma EraDaysBeforeOrdered(a: int, b: int)
    requires 0 <= a < b <= 400
    ensures EraDaysBefore(a + 1) <= EraDaysBefore(b)
  {
    EraDaysBeforeGrows(a + 1, b);
  }

  /** Only one year of an era contains a given day of the era. */
  lemma EraYearUnique(doe: int, a: int, b: int)
    requires 0 <= a < 400 && 0 <= b < 400
    requires EraDaysBefore(a) <= doe < EraDaysBefore(a + 1)
    requires EraDaysBefore(b) <= doe < EraDaysBefore(b + 1)
    ensures a == b
  {
    if a < b {
      EraDaysBeforeOrdered(a, b);
    } else if b < a {
      EraDaysBeforeOrdered(b, a);
    }
  }

  /** Days of year `y` before month `m`, plus the days of `m`, are the days before the next month or the year's length. */
  lemma MonthLength(y: int, m: int)
    requires 1 <= m <= 12
    ensures m < 12 ==> DaysBeforeMonth(y, m + 1) == DaysBeforeMonth(y, m) + DaysInMonth(y, m)
    ensures m == 12 ==> DaysInYear(y) == DaysBeforeMonth(y, m) + DaysInMonth(y, m)
  {
  }

  /** Only one month of a year contains a given day of the year. */
  lemma MonthUnique(y: int, doy: int, a: int, b: int)
    requires 1 <= a <= 12 && 1 <= b <= 12
    requires DaysBeforeMonth(y, a) <= doy && (a < 12 ==> doy < DaysBeforeMonth(y, a + 1))
    requires DaysBeforeMonth(y, b) <= doy && (b < 12 ==> doy < DaysBeforeMonth(y, b + 1))
    ensures a == b
  {
  }

  /** A day count splits uniquely into whole eras and a day of the era. */
  lemma EraSplit(z: int, era: int, doe: int)
    requires z == era * 146097 + doe && 0 <= doe < 146097
    ensures z / 146097 == era && z % 146097 == doe
  {
  }

  /** A year splits uniquely into whole eras and a year of the era. */
  lemma YearSplit(y: int, era: int, yoe: int)
    requires y == era * 400 + yoe && 0 <= yoe < 400
    ensures y / 400 == era && y % 400 == yoe
  {
  }

  /** 1 January of year `y` in closed form: whole eras, then the era table. */
  lemma {:induction false} YearStartEra(y: int)
    ensures YearStart(y) == (y / 400) * 146097 + EraDaysBefore(y % 400) - 719528
    decreases if y < 0 then 400 - y else y
  {
    if y < 0 {
      YearStartEra(y + 400);
      ModMultiple400(1, y);
      assert (y + 400) / 400 == y / 400 + 1;
    } else if y >= 400 {
      YearStartEra(y - 400);
      ModMultiple400(1, y - 400);
      assert y / 400 == (y - 400) / 400 + 1;
    }
  }

  /** Year `yoe` of era `era` has the months of year `yoe`, and its day numbers count from the era's first day. */
  lemma YearInEra(era: int, yoe: int, y: int, m: int, d: int)
    requires y == era * 400 + yoe && 0 <= yoe < 400 && 1 <= m <= 12
    ensures ValidDate(y, m, d) == ValidDate(yoe, m, d)
    ensures DaysFromCivil(y, m, d) == era * 146097 + EraDaysBefore(yoe) + DaysBeforeMonth(yoe, m) + d - 1 - 719528
  {
    LeapYearPeriodic(era, yoe);
    YearSplit(y, era, yoe);
    YearStartEra(y);
  }

  // ----- The bijection -----

  /** The year search finds the year of the era that holds day `doe` of the era. */
  lemma YearOfEraFinds(doe: int, yoe: int)
    requires 0 <= yoe < 400 && EraDaysBefore(yoe) <= doe < EraDaysBefore(yoe + 1)
    ensures YearOfEra(doe, 399) == yoe
  {
    EraDaysBeforeOrdered(yoe, 400);
    EraYearUnique(doe, yoe, YearOfEra(doe, 399));
  }

  /** Where a valid date lies in its era and in its year. */
  lemma DatePosition(y: int, m: int, d: int)
    requires ValidDate(y, m, d)
    ensures 0 <= DaysBeforeMonth(y, m) + d - 1
    ensures m < 12 ==> DaysBeforeMonth(y, m) + d - 1 < DaysBeforeMonth(y, m + 1)
    ensures EraDaysBefore(y % 400) + DaysBeforeMonth(y, m) + d - 1 < EraDaysBefore(y % 400 + 1) <= 146097
  {
    var era, yoe := y / 400, y % 400;
    assert y == era * 400 + yoe;
    LeapYearPeriodic(era, yoe);
    EraYearLength(yoe);
    EraDaysBeforeGrows(yoe + 1, 400);
    EraLength();
    MonthLength(y, m);
    if m < 12 {
      MonthLength(y, 12);
      assert DaysBeforeMonth(y, m + 1) <= DaysBeforeMonth(y, 12);
    }
  }

  /** Two valid dates with the same day number are the same date. */
  lemma DaysFromCivilInjective(y1: int, m1: int, d1: int, y2: int, m2: int, d2: int)
    requires ValidDate(y1, m1, d1) && ValidDate(y2, m2, d2)
    requires DaysFromCivil(y1, m1, d1) == DaysFromCivil(y2, m2, d2)
    ensures y1 == y2 && m1 == m2 && d1 == d2
  {
    DatePosition(y1, m1, d1);
    DatePosition(y2, m2, d2);
    var doy1, doy2 := DaysBeforeMonth(y1, m1) + d1 - 1, DaysBeforeMonth(y2, m2) + d2 - 1;
    var doe1, doe2 := EraDaysBefore(y1 % 400) + doy1, EraDaysBefore(y2 % 400) + doy2;
    YearStartEra(y1);
    YearStartEra(y2);
    var z := DaysFromCivil(y1, m1, d1) + 719528;
    EraSplit(z, y1 / 400, doe1);
    EraSplit(z, y2 / 400, doe2);
    EraYearUnique(doe1, y1 % 400, y2 % 400);
    assert y1 == (y1 / 400) * 400 + y1 % 400;
    assert y2 == (y2 / 400) * 400 + y2 % 400;
    MonthUnique(y1, doy1, m1, m2);
  }

  /** No two valid dates share a day number. */
  lemma DaysFromCivilOneToOne()
    ensures forall c1: Civil, c2: Civil {:trigger DaysFromCivil(c1.year, c1.month, c1.day), DaysFromCivil(c2.year, c2.month, c2.day)} |
      ValidDate(c1.year, c1.month, c1.day) && ValidDate(c2.year, c2.month, c2.day)
      && DaysFromCivil(c1.year, c1.month, c1.day) == DaysFromCivil(c2.year, c2.month, c2.day) :: c1 == c2
  {
    forall c1: Civil, c2: Civil |
      ValidDate(c1.year, c1.month, c1.day) && ValidDate(c2.year, c2.month, c2.day)
      && DaysFromCivil(c1.year, c1.month, c1.day) == DaysFromCivil(c2.year, c2.month, c2.day)
      ensures c1 == c2
    {
      DaysFromCivilInjective(c1.year, c1.month, c1.day, c2.year, c2.month, c2.day);
    }
  }

  /** The day number of a date read back as a calendar date gives that date. */
  lemma CivilOfDaysFromCivil(y: int, m: int, d: int)
    requires ValidDate(y, m, d)
    ensures CivilFromDays(DaysFromCivil(y, m, d)) == Civil(y, m, d)
  {
    var c := CivilFromDays(DaysFromCivil(y, m, d));
    DaysFromCivilInjective(c.year, c.month, c.day, y, m, d);
  }

  /** A day `d` past the end of month `m` is day `d` of the next month; past the end of December it is day `d` of January of the next year. */
  lemma RollIntoNextMonth(y: int, m: int, d: int)
    requires 1 <= m <= 12
    ensures m < 12 ==> DaysFromCivil(y, m, DaysInMonth(y, m) + d) == DaysFromCivil(y, m + 1, d)
    ensures m == 12 ==> DaysFromCivil(y, m, DaysInMonth(y, m) + d) == DaysFromCivil(y + 1, 1, d)
  {
    MonthLength(y, m);
    if m == 12 {
      NextYearStart(y);
    }
  }

  /** Year `y + 1` starts as many days after year `y` as `y` is long. */
  lemma NextYearStart(y: int)
    ensures YearStart(y + 1) == YearStart(y) + DaysInYear(y)
  {
    var era, yoe := y / 400, y % 400;
    YearStartEra(y);
    YearStartEra(y + 1);
    LeapYearPeriodic(era, yoe);
    EraYearLength(yoe);
    if yoe == 399 {
      YearSplit(y + 1, era + 1, 0);
      EraLength();
    } else {
      YearSplit(y + 1, era, yoe + 1);
    }
  }

  /** For years 0 and later the day number grows by 365 to 366 days a year. */
  lemma DaysFromCivilBounds(y: int, m: int, d: int)
    requires ValidDate(y, m, d) && 0 <= y
    ensures 365 * y - 719528 <= DaysFromCivil(y, m, d) <= 366 * y + 366 - 719528
  {
    var era, yoe := y / 400, y % 400;
    assert y == era * 400 + yoe;
    DatePosition(y, m, d);
    var doe := EraDaysBefore(yoe) + DaysBeforeMonth(y, m) + d - 1;
    YearStartEra(y);
    assert DaysFromCivil(y, m, d) == era * 146097 + doe - 719528;
    assert 365 * yoe <= doe < 366 * yoe + 366;
    assert era >= 0;
    assert 365 * y == 146000 * era + 365 * yoe && 366 * y == 146400 * era + 366 * yoe;
  }
}
