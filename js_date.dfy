/**
  * JavaScript `Date` objects as the report generator uses them: built from
  * day, month and year numbers, read back field by field, shifted by whole
  * days with `setDate`, subtracted from each other and written out as
  * DD-MM-YYYY text.
  *
  * A Date holds a time value, milliseconds since 1 January 1970 00:00, or
  * is an Invalid Date (its time value is NaN). Local time is taken to be
  * UTC, so the local and the universal fields of a Date coincide.
  */
module JsDate {
  import opened Wrappers
  import opened JsText
  import opened Calendar

  datatype Date = Time(ms: int) | InvalidDate

  // A day holds 86400000 ms; time values beyond 8.64e15 ms either side of
  // 1970 make an Invalid Date. Both are written as literals.

  /** `TimeClip`: a time value out of range gives an Invalid Date. */
  function TimeClip(t: int): Date {
    if -8_640_000_000_000_000 <= t <= 8_640_000_000_000_000 then Time(t) else InvalidDate
  }

  /** `MakeDay(year, month, date)`: the day number of day `date` of month index `month` (0 is January), both rolling over. */
  function MakeDay(year: int, month: int, date: int): int {
    DaysFromCivil(year + month / 12, month % 12 + 1, 1) + date - 1
  }

  /** `new Date(year, monthIndex, day)` at midnight; years 0 to 99 mean 1900 to 1999. */
  function NewDate(year: Num, month: Num, day: Num): (d: Date)
    ensures (year.NaN? || month.NaN? || day.NaN?) ==> d == InvalidDate
    ensures d.Time? ==> d.ms % 86400000 == 0
  {
    if year.NaN? || month.NaN? || day.NaN? then InvalidDate
    else
      var y := year.value;
      var fullYear := if 0 <= y <= 99 then 1900 + y else y;
      TimeClip(MakeDay(fullYear, month.value, day.value) * 86400000)
  }

  /** The cell texts the date parser handles: when there are three '-'-separated parts, `Number` of each is computed by this model. */
  predicate ParseSupported(value: string) {
    var parts := Split(value, '-');
    |parts| == 3 ==> NumberSupported(parts[0]) && NumberSupported(parts[1]) && NumberSupported(parts[2])
  }

  /**
    * `parseDayMonthYear`: "DD-MM-YYYY" becomes a Date. The empty text and a
    * text that is not three '-'-separated parts give no Date; three parts
    * always give a Date object, an Invalid Date when a part is not a number.
    */
  function ParseDayMonthYear(value: string): (r: Option<Date>)
    requires ParseSupported(value)
    ensures r.Some? <==> value != "" && |Split(value, '-')| == 3
    ensures r.Some? && r.value.Time? ==> r.value.ms % 86400000 == 0
  {
    if value == "" then None
    else
      var parts := Split(value, '-');
      if |parts| != 3 then None
      else
        var day := StringToNumber(parts[0]);
        var month := StringToNumber(parts[1]).Plus(-1);
        var year := StringToNumber(parts[2]);
        Some(NewDate(year, month, day))
  }

  /** The calendar date a valid time value falls on. */
  function CivilOf(t: int): Civil {
    CivilFromDays(t / 86400000)
  }

  /** `getDate()`: the day of the month, NaN for an Invalid Date. */
  function GetDate(d: Date): (n: Num)
    ensures n.Finite? <==> d.Time?
    ensures d.Time? ==> 1 <= n.value <= 31
  {
    match d
    case Time(t) => Finite(CivilOf(t).day)
    case InvalidDate => NaN
  }

  /** `getMonth()`: the month index, 0 for January, NaN for an Invalid Date. */
  function GetMonth(d: Date): (n: Num)
    ensures n.Finite? <==> d.Time?
    ensures d.Time? ==> 0 <= n.value <= 11
  {
    match d
    case Time(t) => Finite(CivilOf(t).month - 1)
    case InvalidDate => NaN
  }

  /** `getFullYear()`: the year, NaN for an Invalid Date. */
  function GetFullYear(d: Date): (n: Num)
    ensures n.Finite? <==> d.Time?
  {
    match d
    case Time(t) => Finite(CivilOf(t).year)
    case InvalidDate => NaN
  }

  /** `setDate(date)`: the same month and time of day, day of month `date` (rolling over); NaN anywhere gives an Invalid Date. */
  function SetDate(d: Date, date: Num): (r: Date)
    ensures d.InvalidDate? || date.NaN? ==> r == InvalidDate
  {
    if d.InvalidDate? || date.NaN? then InvalidDate
    else
      var t := d.ms;
      var c := CivilOf(t);
      TimeClip(MakeDay(c.year, c.month - 1, date.value) * 86400000 + t % 86400000)
  }

  /** `setDate` keeps the time of day of the Date it changes. */
  lemma SetDateKeepsTime(t: int, date: int)
    ensures var r := SetDate(Time(t), Finite(date));
      r.Time? ==> r.ms % 86400000 == t % 86400000
  {
    var c := CivilOf(t);
    var day := MakeDay(c.year, c.month - 1, date);
    SetDateOfDay(t, date, day);
    SplitTime(day, t % 86400000);
  }

  /** A time value made of a day number and a time of day splits back into them. */
  lemma SplitTime(day: int, x: int)
    requires 0 <= x < 86400000
    ensures (day * 86400000 + x) / 86400000 == day && (day * 86400000 + x) % 86400000 == x
  {
  }

  /** `Math.floor((end - start) / 86400000)`: whole days from `start` to `end`, NaN if either is an Invalid Date. */
  function DaysBetween(start: Date, end: Date): (n: Num)
    ensures n.Finite? <==> start.Time? && end.Time?
    ensures n.Finite? ==> n.value * 86400000 <= end.ms - start.ms < (n.value + 1) * 86400000
  {
    if start.InvalidDate? || end.InvalidDate? then NaN
    else Finite((end.ms - start.ms) / 86400000)
  }

  /**
    * `calculateSlaBreachDate`: a copy of the creation date moved on by the
    * SLA's number of days, when there is a creation date and an SLA.
    */
  function SlaBreachDate(created: Option<Date>, slaDays: Option<int>): (r: Option<Date>)
    ensures r.Some? <==> created.Some? && slaDays.Some?
  {
    if created.Some? && slaDays.Some? then
      var breach := created.value;
      Some(SetDate(breach, GetDate(breach).Plus(slaDays.value)))
    else None
  }

  /** `formatDate`: DD-MM-YYYY with the day and the month padded to two characters; no date gives no text. */
  function FormatDate(date: Option<Date>): (r: Option<string>)
    ensures r.Some? <==> date.Some?
  {
    match date
    case None => None
    case Some(d) =>
      Some(ZeroPad2(NumText(GetDate(d))) + "-" + ZeroPad2(NumText(GetMonth(d).Plus(1))) + "-" + NumText(GetFullYear(d)))
  }

  // ----- Day arithmetic -----

  /** Within a year, `MakeDay` is the day number of the calendar date; its day may lie outside the month. */
  lemma MakeDayInYear(year: int, month: int, date: int)
    requires 0 <= month < 12
    ensures MakeDay(year, month, date) == DaysFromCivil(year, month + 1, date)
  {
  }

  /** Twelve months on is the same month of the next year. */
  lemma MakeDayMonthRollover(year: int, month: int, date: int)
    ensures MakeDay(year, month + 12, date) == MakeDay(year + 1, month, date)
  {
    assert (month + 12) / 12 == month / 12 + 1;
    assert (month + 12) % 12 == month % 12;
  }

  /** The day of a time value is the floor of its division by the day length, so a midnight value is a whole number of days. */
  lemma MidnightDays(t: int)
    requires t % 86400000 == 0
    ensures t == (t / 86400000) * 86400000
  {
  }

  lemma DaysOfMidnight(n: int)
    ensures (n * 86400000) / 86400000 == n && (n * 86400000) % 86400000 == 0
  {
  }

  /** Between two midnights, the whole days are the difference of their day numbers. */
  lemma DaysBetweenMidnights(start: int, end: int)
    requires start % 86400000 == 0 && end % 86400000 == 0
    ensures DaysBetween(Time(start), Time(end)) == Finite(end / 86400000 - start / 86400000)
  {
    MidnightDays(start);
    MidnightDays(end);
  }

  /**
    * `setDate(getDate() + k)` on a valid Date moves it by exactly `k` days,
    * keeping the time of day, whatever month boundaries lie between.
    */
  lemma SetDateShift(t: int, k: int)
    ensures SetDate(Time(t), GetDate(Time(t)).Plus(k)) == TimeClip(t + k * 86400000)
  {
    var c := CivilOf(t);
    assert GetDate(Time(t)).Plus(k) == Finite(c.day + k);
    ShiftedDay(t, k);
    SetDateOfDay(t, c.day + k, t / 86400000 + k);
    DayAndTime(t, t / 86400000 + k, k);
  }

  /** `setDate(date)` on a valid Date lands on day number `day` when `MakeDay` says so. */
  lemma SetDateOfDay(t: int, date: int, day: int)
    requires MakeDay(CivilOf(t).year, CivilOf(t).month - 1, date) == day
    ensures SetDate(Time(t), Finite(date)) == TimeClip(day * 86400000 + t % 86400000)
  {
  }

  /**
    * Setting a day that exists in the Date's month keeps the month and the
    * year and makes that day the day of the month.
    */
  lemma SetDateInMonth(t: int, date: int)
    requires 1 <= date <= DaysInMonth(CivilOf(t).year, CivilOf(t).month)
    ensures var r := SetDate(Time(t), Finite(date));
      r.Time? ==> GetDate(r) == Finite(date) && GetMonth(r) == GetMonth(Time(t)) && GetFullYear(r) == GetFullYear(Time(t))
  {
    var c := CivilOf(t);
    var day := DaysFromCivil(c.year, c.month, date);
    MakeDayInYear(c.year, c.month - 1, date);
    SetDateOfDay(t, date, day);
    var r := SetDate(Time(t), Finite(date));
    if r.Time? {
      SplitTime(day, t % 86400000);
      assert r.ms / 86400000 == day;
      CivilOfDaysFromCivil(c.year, c.month, date);
      assert CivilOf(r.ms) == Civil(c.year, c.month, date);
    }
  }

  /** The year, month and day read off a valid Date name the calendar day its time value falls on. */
  lemma DateFields(t: int)
    ensures var y, m, d := GetFullYear(Time(t)).value, GetMonth(Time(t)).value + 1, GetDate(Time(t)).value;
      ValidDate(y, m, d) && DaysFromCivil(y, m, d) == t / 86400000
  {
  }

  /** Moving a time value's day number by `k` and keeping its time of day moves it by `k` days. */
  lemma DayAndTime(t: int, x: int, k: int)
    requires x == t / 86400000 + k
    ensures x * 86400000 + t % 86400000 == t + k * 86400000
  {
  }

  /** Day `getDate() + k` of a Date's month is `k` days after the Date's own day. */
  lemma ShiftedDay(t: int, k: int)
    ensures var c := CivilOf(t);
      MakeDay(c.year, c.month - 1, c.day + k) == t / 86400000 + k
  {
    var c := CivilOf(t);
    MakeDayInYear(c.year, c.month - 1, c.day + k);
  }

  /** The breach date is the creation date plus the SLA's days; an Invalid creation date gives an Invalid breach date. */
  lemma SlaBreachDateShift(created: Date, k: int)
    ensures created.Time? ==> SlaBreachDate(Some(created), Some(k)) == Some(TimeClip(created.ms + k * 86400000))
    ensures created.InvalidDate? ==> SlaBreachDate(Some(created), Some(k)) == Some(InvalidDate)
  {
    if created.Time? {
      SetDateShift(created.ms, k);
    }
  }

  /** The breach date's text is the text of the creation date moved on `k` days. */
  lemma FormatShiftedDate(t: int, k: int)
    ensures FormatDate(SlaBreachDate(Some(Time(t)), Some(k))) == FormatDate(Some(TimeClip(t + k * 86400000)))
  {
    SlaBreachDateShift(Time(t), k);
    FormatSameDate(SlaBreachDate(Some(Time(t)), Some(k)), Some(TimeClip(t + k * 86400000)));
  }

  /** Equal dates are written alike. */
  lemma FormatSameDate(a: Option<Date>, b: Option<Date>)
    requires a == b
    ensures FormatDate(a) == FormatDate(b)
  {
  }

  // ----- Formatting -----

  /** An Invalid Date is written "aN-aN-NaN": `("0" + NaN).slice(-2)` is "aN". */
  lemma FormatInvalidDate()
    ensures FormatDate(Some(InvalidDate)) == Some("aN-aN-NaN")
  {
    var pad := ZeroPad2(NumText(NaN));
    assert pad == "aN";
    assert GetMonth(InvalidDate).Plus(1) == NaN;
    assert FormatDate(Some(InvalidDate)).value == pad + "-" + pad + "-" + "NaN";
    assert pad + "-" + pad + "-" + "NaN" == "aN-aN-NaN";
  }

  /** The text of a valid Date, field by field. */
  lemma FormatTime(t: int)
    ensures var c := CivilOf(t);
      FormatDate(Some(Time(t))) == Some(ZeroPad2(NatText(c.day)) + "-" + ZeroPad2(NatText(c.month)) + "-" + IntText(c.year))
  {
    var c := CivilOf(t);
    assert NumText(GetDate(Time(t))) == NatText(c.day);
    assert NumText(GetMonth(Time(t)).Plus(1)) == NatText(c.month);
    assert NumText(GetFullYear(Time(t))) == IntText(c.year);
  }

  /**
    * A valid Date is written as two digits reading its day of the month,
    * '-', two digits reading its month, '-', and the decimal text of its year.
    */
  lemma FormatValidDate(t: int)
    ensures var s := FormatDate(Some(Time(t))).value;
      var c := CivilOf(t);
      && |s| >= 7 && s[2] == '-' && s[5] == '-'
      && IsDigits(s[..2]) && DigitsValue(s[..2]) == c.day
      && IsDigits(s[3..5]) && DigitsValue(s[3..5]) == c.month
      && s[6..] == IntText(c.year)
  {
    var c := CivilOf(t);
    var dd, mm, yy := ZeroPad2(NatText(c.day)), ZeroPad2(NatText(c.month)), IntText(c.year);
    ZeroPad2Reads(c.day);
    ZeroPad2Reads(c.month);
    FormatTime(t);
    JoinedFields(dd, mm, yy);
  }

  /** Where the fields of a DD-MM-Y text sit when the day and the month take two characters. */
  lemma JoinedFields(dd: string, mm: string, yy: string)
    requires |dd| == 2 && |mm| == 2
    ensures var s := dd + "-" + mm + "-" + yy;
      && |s| == 6 + |yy| && s[2] == '-' && s[5] == '-'
      && s[..2] == dd && s[3..5] == mm && s[6..] == yy
  {
    var s := dd + "-" + mm + "-" + yy;
    assert s[..2] == dd;
    assert s[3..5] == mm;
    assert s[6..] == yy;
  }

  // ----- Parsing -----

  lemma DigitsHaveNoDash(s: string)
    requires IsDigits(s)
    ensures '-' !in s
  {
    assert forall i :: 0 <= i < |s| ==> s[i] != '-' by {
      forall i | 0 <= i < |s| ensures s[i] != '-' { assert IsDigit(s[i]); }
    }
  }

  /** A text of three dash-free parts joined by '-' splits into those parts. */
  lemma SplitThree(a: string, b: string, c: string)
    requires '-' !in a && '-' !in b && '-' !in c
    ensures Split(a + "-" + b + "-" + c, '-') == [a, b, c]
  {
    assert a + "-" + b + "-" + c == a + ['-'] + (b + ['-'] + c);
    SplitAtFirstSeparator(a, '-', b + ['-'] + c);
    SplitAtFirstSeparator(b, '-', c);
    SplitWithoutSeparator(c, '-');
  }

  /** A text of three '-'-separated digit strings parses as day, month (counted from 1) and year. */
  lemma ParseParts(value: string, dd: string, mm: string, yy: string)
    requires IsDigits(dd) && IsDigits(mm) && IsDigits(yy)
    requires value != "" && Split(value, '-') == [dd, mm, yy]
    ensures ParseSupported(value)
    ensures ParseDayMonthYear(value) == Some(NewDate(Finite(DigitsValue(yy)), Finite(DigitsValue(mm) - 1), Finite(DigitsValue(dd))))
  {
    NumbersOfDigits(dd, mm, yy);
  }

  lemma NumbersOfDigits(dd: string, mm: string, yy: string)
    requires IsDigits(dd) && IsDigits(mm) && IsDigits(yy)
    ensures NewDate(StringToNumber(yy), StringToNumber(mm).Plus(-1), StringToNumber(dd))
      == NewDate(Finite(DigitsValue(yy)), Finite(DigitsValue(mm) - 1), Finite(DigitsValue(dd)))
  {
    assert StringToNumber(yy) == Finite(DigitsValue(yy));
    assert StringToNumber(mm).Plus(-1) == Finite(DigitsValue(mm) - 1);
    assert StringToNumber(dd) == Finite(DigitsValue(dd));
  }

  /** Three digit strings joined by '-' parse as day, month (counted from 1) and year. */
  lemma ParseDigits(dd: string, mm: string, yy: string)
    requires IsDigits(dd) && IsDigits(mm) && IsDigits(yy)
    ensures var s := dd + "-" + mm + "-" + yy;
      && ParseSupported(s)
      && ParseDayMonthYear(s) == Some(NewDate(Finite(DigitsValue(yy)), Finite(DigitsValue(mm) - 1), Finite(DigitsValue(dd))))
  {
    var s := dd + "-" + mm + "-" + yy;
    assert s != "" && Split(s, '-') == [dd, mm, yy] by {
      DigitsHaveNoDash(dd);
      DigitsHaveNoDash(mm);
      DigitsHaveNoDash(yy);
      SplitThree(dd, mm, yy);
      assert s[|dd|] == '-';
    }
    ParseParts(s, dd, mm, yy);
  }

  /** A DD-MM-YYYY text naming a real date, with a four-digit year not starting with 0. */
  predicate IsCanonicalDate(s: string) {
    && |s| == 10 && s[2] == '-' && s[5] == '-'
    && IsDigits(s[..2]) && IsDigits(s[3..5]) && IsDigits(s[6..]) && s[6] != '0'
    && ValidDate(DigitsValue(s[6..]), DigitsValue(s[3..5]), DigitsValue(s[..2]))
  }

  /** `new Date(y, m - 1, d)` for a real date outside years 0 to 99 is midnight of that date. */
  lemma NewDateOfDate(y: int, m: int, d: int)
    requires ValidDate(y, m, d) && !(0 <= y <= 99)
    ensures NewDate(Finite(y), Finite(m - 1), Finite(d)) == TimeClip(DaysFromCivil(y, m, d) * 86400000)
  {
    MakeDayInYear(y, m - 1, d);
  }

  /** Parsing a canonical date text and formatting the Date gives the text back. */
  lemma {:induction false} FormatOfParse(s: string)
    requires IsCanonicalDate(s)
    ensures ParseSupported(s) && FormatDate(ParseDayMonthYear(s)) == Some(s)
  {
    var dd, mm, yy := s[..2], s[3..5], s[6..];
    assert s == dd + "-" + mm + "-" + yy;
    var d, m, y := DigitsValue(dd), DigitsValue(mm), DigitsValue(yy);
    ParseDigits(dd, mm, yy);
    assert 1000 <= y < 10000 by {
      DigitsValueBound(yy);
      assert Pow10(3) == 1000 && Pow10(4) == 10000;
    }
    var n := DaysFromCivil(y, m, d);
    NewDateOfDate(y, m, d);
    assert -8_640_000_000_000_000 <= n * 86400000 <= 8_640_000_000_000_000 by {
      DaysFromCivilBounds(y, m, d);
    }
    assert ParseDayMonthYear(s) == Some(Time(n * 86400000));
    assert CivilOf(n * 86400000) == Civil(y, m, d) by {
      DaysOfMidnight(n);
      CivilOfDaysFromCivil(y, m, d);
    }
    FormatTime(n * 86400000);
    ZeroPad2OfDigits(dd);
    ZeroPad2OfDigits(mm);
    NatTextOfDigits(yy);
  }

  /** The text of a Date in year 0 or later parses as the Date's own day, month and year numbers. */
  lemma ParseOfFormatFields(t: int)
    requires CivilOf(t).year >= 0
    ensures var s := FormatDate(Some(Time(t))).value;
      var c := CivilOf(t);
      ParseSupported(s) && ParseDayMonthYear(s) == Some(NewDate(Finite(c.year), Finite(c.month - 1), Finite(c.day)))
  {
    var c := CivilOf(t);
    var dd, mm, yy := ZeroPad2(NatText(c.day)), ZeroPad2(NatText(c.month)), NatText(c.year);
    ZeroPad2Reads(c.day);
    ZeroPad2Reads(c.month);
    FormatTime(t);
    ParseDigits(dd, mm, yy);
    assert Finite(DigitsValue(yy)) == Finite(c.year);
    assert Finite(DigitsValue(mm) - 1) == Finite(c.month - 1);
    assert Finite(DigitsValue(dd)) == Finite(c.day);
  }

  /**
    * Formatting a Date at midnight in year 100 or later and parsing the text
    * gives the same Date back.
    */
  lemma ParseOfFormat(t: int)
    requires t % 86400000 == 0 && -8_640_000_000_000_000 <= t <= 8_640_000_000_000_000
    requires CivilOf(t).year >= 100
    ensures var s := FormatDate(Some(Time(t))).value;
      ParseSupported(s) && ParseDayMonthYear(s) == Some(Time(t))
  {
    var c := CivilOf(t);
    ParseOfFormatFields(t);
    NewDateOfDate(c.year, c.month, c.day);
    MidnightDays(t);
    assert DaysFromCivil(c.year, c.month, c.day) * 86400000 == t;
  }

  /** `new Date(y, m - 1, d)` for years 0 to 99 is midnight of day `d` of month `m` of year 1900 + y. */
  lemma NewDateOfShortYear(y: int, m: int, d: int)
    requires 0 <= y <= 99 && ValidDate(y, m, d)
    ensures NewDate(Finite(y), Finite(m - 1), Finite(d)) == Time(DaysFromCivil(y + 1900, m, d) * 86400000)
  {
    MakeDayInYear(y + 1900, m - 1, d);
    DaysFromCivilBounds(y + 1900, m, 1);
    assert DaysFromCivil(y + 1900, m, d) == DaysFromCivil(y + 1900, m, 1) + d - 1;
  }

  /** The same day and month 1900 years on have a larger day number. */
  lemma LaterCentury(y: int, m: int, d: int)
    requires 0 <= y <= 99 && ValidDate(y, m, d)
    ensures DaysFromCivil(y + 1900, m, d) > DaysFromCivil(y, m, d)
  {
    DaysFromCivilBounds(y + 1900, m, 1);
    DaysFromCivilBounds(y, m, 1);
    assert DaysFromCivil(y + 1900, m, d) == DaysFromCivil(y + 1900, m, 1) + d - 1;
    assert DaysFromCivil(y, m, d) == DaysFromCivil(y, m, 1) + d - 1;
  }

  /**
    * A Date in years 0 to 99 does not survive being rebuilt from its own
    * day, month and year numbers (which is what parsing its text does): the
    * year is read as 1900 to 1999.
    */
  lemma ShortYearMoves(t: int)
    requires t % 86400000 == 0
    requires 0 <= CivilOf(t).year <= 99
    ensures var c := CivilOf(t);
      && NewDate(Finite(c.year), Finite(c.month - 1), Finite(c.day)) == Time(DaysFromCivil(c.year + 1900, c.month, c.day) * 86400000)
      && NewDate(Finite(c.year), Finite(c.month - 1), Finite(c.day)) != Time(t)
  {
    NewDateOfShortYear(CivilOf(t).year, CivilOf(t).month, CivilOf(t).day);
    ShortYearLater(t);
    LaterMidnight(t, DaysFromCivil(CivilOf(t).year + 1900, CivilOf(t).month, CivilOf(t).day));
  }

  /** The day and month of a Date in years 0 to 99, 1900 years on, come after the Date's own day. */
  lemma ShortYearLater(t: int)
    requires 0 <= CivilOf(t).year <= 99
    ensures var c := CivilOf(t);
      DaysFromCivil(c.year + 1900, c.month, c.day) > t / 86400000
  {
    var c := CivilOf(t);
    LaterCentury(c.year, c.month, c.day);
  }

  /** A later day number gives a later midnight. */
  lemma LaterMidnight(t: int, n: int)
    requires t % 86400000 == 0 && n > t / 86400000
    ensures n * 86400000 != t
  {
    MidnightDays(t);
  }

  /** Day 31 of February of a leap year (outside years 0 to 99) is 2 March. */
  lemma February31st(y: int)
    requires IsLeapYear(y) && !(0 <= y <= 99)
    ensures NewDate(Finite(y), Finite(1), Finite(31)) == NewDate(Finite(y), Finite(2), Finite(2))
  {
    MakeDayInYear(y, 1, 31);
    MakeDayInYear(y, 2, 2);
    RollIntoNextMonth(y, 2, 2);
  }
}
