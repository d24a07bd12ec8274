// Calendar arithmetic behind the timestamps of the status report (src/health.rs), against the
// Gregorian calendar rules of RFC 3339 (section 5.7 and appendix C).

module Calendar {
  import opened Text

  // ----- the Gregorian calendar -----

  datatype Date = Date(year: int, month: int, day: int)

  predicate Leap(year: int) {
    year % 4 == 0 && (year % 100 != 0 || year % 400 == 0)
  }

  function MonthLength(year: int, month: int): int {
    if month == 2 then (if Leap(year) then 29 else 28)
    else if month == 4 || month == 6 || month == 9 || month == 11 then 30
    else 31
  }

  predicate ValidDate(d: Date) {
    1 <= d.month <= 12 && 1 <= d.day <= MonthLength(d.year, d.month)
  }

  function NextDay(d: Date): Date {
    if d.day < MonthLength(d.year, d.month) then Date(d.year, d.month, d.day + 1)
    else if d.month < 12 then Date(d.year, d.month + 1, 1)
    else Date(d.year + 1, 1, 1)
  }

  predicate Before(a: Date, b: Date) {
    a.year < b.year || (a.year == b.year && (a.month < b.month || (a.month == b.month && a.day < b.day)))
  }

  const EPOCH: Date := Date(1970, 1, 1)

  /** The calendar counted day by day from the epoch. */
  function DateAfter(days: nat): Date {
    if days == 0 then EPOCH else NextDay(DateAfter(days - 1))
  }

  // ----- the closed form -----

  /** Division of signed integers in Rust truncates towards zero. */
  function TruncatedDiv(a: int, b: int): int
    requires b > 0
  {
    if a >= 0 then a / b else -((-a) / b)
  }

  function EraOf(shifted: int): int {
    TruncatedDiv(if shifted >= 0 then shifted else shifted - 146_096, 146_097)
  }

  function YearOfEra(dayOfEra: int): int {
    TruncatedDiv(
      dayOfEra - TruncatedDiv(dayOfEra, 1_460) + TruncatedDiv(dayOfEra, 36_524) - TruncatedDiv(dayOfEra, 146_096),
      365)
  }

  function CivilFromDays(days: int): Date {
    var shifted := days + 719_468;
    var era := EraOf(shifted);
    var dayOfEra := shifted - era * 146_097;
    var yearOfEra := YearOfEra(dayOfEra);
    var year := yearOfEra + era * 400;
    var dayOfYear := dayOfEra - (365 * yearOfEra + TruncatedDiv(yearOfEra, 4) - TruncatedDiv(yearOfEra, 100));
    MonthAndDay(year, dayOfYear)
  }

  /** The last steps of the closed form: from a year that starts in March and a day of it. */
  function MonthAndDay(year: int, dayOfYear: int): Date {
    var shiftedMonth := TruncatedDiv(5 * dayOfYear + 2, 153);
    var day := dayOfYear - TruncatedDiv(153 * shiftedMonth + 2, 5) + 1;
    var month := if shiftedMonth < 10 then shiftedMonth + 3 else shiftedMonth - 9;
    Date(if month <= 2 then year + 1 else year, month, day)
  }

  // ----- years counted from March -----

  /** Days before the given year of an era, for years that start in March. */
  function YearStart(year: int): int {
    365 * year + year / 4 - year / 100 + year / 400
  }

  /** The years of an era tile its days. */
  predicate InYear(dayOfEra: int, year: int) {
    0 <= year < 400 && YearStart(year) <= dayOfEra < YearStart(year + 1)
  }

  lemma EraBounds(shifted: int)
    ensures 0 <= shifted - EraOf(shifted) * 146_097 < 146_097
  {
  }

  /** Splits a day of an era by century, four-year cycle and year, where leap days fall last. */
  lemma DayParts(dayOfEra: int) returns (century: int, cycle: int, year: int, rest: int)
    requires 0 <= dayOfEra < 146_097
    ensures 0 <= century <= 3 && 0 <= cycle <= 24 && 0 <= year <= 3 && 0 <= rest
    ensures dayOfEra == 36_524 * century + 1_461 * cycle + 365 * year + rest
    ensures rest < 365 || (rest == 365 && year == 3 && (cycle < 24 || century == 3))
  {
    century := if dayOfEra == 146_096 then 3 else dayOfEra / 36_524;
    var inCentury := dayOfEra - 36_524 * century;
    cycle := inCentury / 1_461;
    var inCycle := inCentury - 1_461 * cycle;
    year := if inCycle == 1_460 then 3 else inCycle / 365;
    rest := inCycle - 365 * year;
  }

  lemma QuotientsOfParts(century: int, cycle: int, year: int, rest: int, dayOfEra: int, low: int)
    requires 0 <= century <= 3 && 0 <= cycle <= 24 && 0 <= year <= 3 && 0 <= rest
    requires rest < 365 || (rest == 365 && year == 3 && (cycle < 24 || century == 3))
    requires dayOfEra == 36_524 * century + 1_461 * cycle + 365 * year + rest
    requires low == 24 * century + cycle + 365 * year + rest
    ensures dayOfEra / 1_460 == 25 * century + cycle + (if low >= 1_460 then 1 else 0)
    ensures dayOfEra / 36_524 - century == dayOfEra / 146_096
  {
    assert dayOfEra == 1_460 * (25 * century + cycle) + low;
    assert 0 <= low < 1_460 + 97;
    assert dayOfEra / 146_096 == if dayOfEra == 146_096 then 1 else 0;
  }

  lemma YearOfParts(century: int, cycle: int, year: int, rest: int)
    requires 0 <= century <= 3 && 0 <= cycle <= 24 && 0 <= year <= 3 && 0 <= rest
    requires rest < 365 || (rest == 365 && year == 3 && (cycle < 24 || century == 3))
    ensures var dayOfEra := 36_524 * century + 1_461 * cycle + 365 * year + rest;
      YearOfEra(dayOfEra) == 100 * century + 4 * cycle + year
  {
    var dayOfEra := 36_524 * century + 1_461 * cycle + 365 * year + rest;
    var low, y := 24 * century + cycle + 365 * year + rest, 100 * century + 4 * cycle + year;
    QuotientsOfParts(century, cycle, year, rest, dayOfEra, low);
    var numerator := dayOfEra - dayOfEra / 1_460 + dayOfEra / 36_524 - dayOfEra / 146_096;
    assert numerator == 365 * y + rest - (if low >= 1_460 then 1 else 0);
    assert 365 * y <= numerator < 365 * y + 365;
  }

  lemma PartsInYear(century: int, cycle: int, year: int, rest: int)
    requires 0 <= century <= 3 && 0 <= cycle <= 24 && 0 <= year <= 3 && 0 <= rest
    requires rest < 365 || (rest == 365 && year == 3 && (cycle < 24 || century == 3))
    ensures InYear(36_524 * century + 1_461 * cycle + 365 * year + rest, 100 * century + 4 * cycle + year)
  {
    var y := 100 * century + 4 * cycle + year;
    assert y / 4 == 25 * century + cycle && y / 100 == century && y / 400 == 0;
    YearLength(y);
    if rest == 365 {
      assert (y + 1) % 4 == 0;
      if cycle < 24 {
        assert (y + 1) % 100 == 4 * cycle + 4;
      } else {
        assert y + 1 == 400;
      }
    }
  }

  lemma YearOfEraInYear(dayOfEra: int)
    requires 0 <= dayOfEra < 146_097
    ensures InYear(dayOfEra, YearOfEra(dayOfEra))
  {
    var century, cycle, year, rest := DayParts(dayOfEra);
    YearOfParts(century, cycle, year, rest);
    PartsInYear(century, cycle, year, rest);
  }

  lemma YearLength(year: int)
    ensures YearStart(year + 1) - YearStart(year) == if Leap(year + 1) then 366 else 365
  {
    assert (year + 1) / 4 - year / 4 == if (year + 1) % 4 == 0 then 1 else 0;
    assert (year + 1) / 100 - year / 100 == if (year + 1) % 100 == 0 then 1 else 0;
    assert (year + 1) / 400 - year / 400 == if (year + 1) % 400 == 0 then 1 else 0;
    assert (year + 1) % 400 == 0 ==> (year + 1) % 100 == 0;
    assert (year + 1) % 100 == 0 ==> (year + 1) % 4 == 0;
  }

  lemma {:induction false} YearStartMonotone(a: int, b: int)
    requires a <= b
    ensures YearStart(a) <= YearStart(b)
    decreases b - a
  {
    if a < b {
      YearStartMonotone(a, b - 1);
      YearLength(b - 1);
    }
  }

  lemma InYearUnique(dayOfEra: int, a: int, b: int)
    requires InYear(dayOfEra, a) && InYear(dayOfEra, b)
    ensures a == b
  {
    if a < b { YearStartMonotone(a + 1, b); }
    if b < a { YearStartMonotone(b + 1, a); }
  }

  // ----- dates as a year starting in March and a day of it -----

  function MonthStart(shiftedMonth: int): int {
    (153 * shiftedMonth + 2) / 5
  }

  function DateOf(marchYear: int, dayOfYear: int): Date {
    var shiftedMonth := (5 * dayOfYear + 2) / 153;
    var month := if shiftedMonth < 10 then shiftedMonth + 3 else shiftedMonth - 9;
    Date(if month <= 2 then marchYear + 1 else marchYear, month, dayOfYear - MonthStart(shiftedMonth) + 1)
  }

  function MarchYearLength(marchYear: int): int {
    if Leap(marchYear + 1) then 366 else 365
  }

  /** What the closed form computes, with its divisions understood. */
  lemma CivilParts(days: int) returns (era: int, year: int, dayOfYear: int)
    ensures days + 719_468 == 146_097 * era + YearStart(year) + dayOfYear
    ensures 0 <= year < 400 && 0 <= dayOfYear < MarchYearLength(year)
    ensures CivilFromDays(days) == DateOf(400 * era + year, dayOfYear)
  {
    var shifted := days + 719_468;
    EraBounds(shifted);
    era := EraOf(shifted);
    var dayOfEra := shifted - era * 146_097;
    YearOfEraInYear(dayOfEra);
    year := YearOfEra(dayOfEra);
    dayOfYear := InYearDay(dayOfEra, year);
    CivilUnfolds(days, era, dayOfEra, year, dayOfYear);
  }

  lemma CivilUnfolds(days: int, era: int, dayOfEra: int, year: int, dayOfYear: int)
    requires era == EraOf(days + 719_468) && dayOfEra == days + 719_468 - era * 146_097 && year == YearOfEra(dayOfEra)
    requires dayOfYear == dayOfEra - (365 * year + TruncatedDiv(year, 4) - TruncatedDiv(year, 100)) && dayOfYear >= 0
    ensures CivilFromDays(days) == DateOf(400 * era + year, dayOfYear)
  {
    MonthAndDayIs(400 * era + year, dayOfYear);
  }

  lemma MonthAndDayIs(year: int, dayOfYear: int)
    requires dayOfYear >= 0
    ensures MonthAndDay(year, dayOfYear) == DateOf(year, dayOfYear)
  {
  }

  lemma InYearDay(dayOfEra: int, year: int) returns (dayOfYear: int)
    requires InYear(dayOfEra, year)
    ensures dayOfYear == dayOfEra - (365 * year + TruncatedDiv(year, 4) - TruncatedDiv(year, 100))
    ensures dayOfEra == YearStart(year) + dayOfYear && 0 <= dayOfYear < MarchYearLength(year)
  {
    YearLength(year);
    dayOfYear := dayOfEra - YearStart(year);
    assert year / 400 == 0;
  }

  lemma LeapPeriod(era: int, year: int)
    ensures Leap(400 * era + year) == Leap(year)
  {
    Period4(era, year);
    Period100(era, year);
    Period400(era, year);
  }

  lemma Period4(era: int, year: int)
    ensures (400 * era + year) % 4 == year % 4
  {
    assert 400 * era + year == 4 * (100 * era + year / 4) + year % 4;
  }

  lemma Period100(era: int, year: int)
    ensures (400 * era + year) % 100 == year % 100
  {
  }

  lemma Period400(era: int, year: int)
    ensures (400 * era + year) % 400 == year % 400
  {
  }

  /** The parts of a day number are unique. */
  lemma PartsUnique(e1: int, y1: int, d1: int, e2: int, y2: int, d2: int)
    requires 0 <= y1 < 400 && 0 <= d1 < MarchYearLength(y1)
    requires 0 <= y2 < 400 && 0 <= d2 < MarchYearLength(y2)
    requires 146_097 * e1 + YearStart(y1) + d1 == 146_097 * e2 + YearStart(y2) + d2
    ensures e1 == e2 && y1 == y2 && d1 == d2
  {
    YearLength(y1);
    YearLength(y2);
    YearStartMonotone(0, y1);
    YearStartMonotone(0, y2);
    YearStartMonotone(y1 + 1, 400);
    YearStartMonotone(y2 + 1, 400);
    assert YearStart(0) == 0 && YearStart(400) == 146_097;
    assert e1 == e2;
    InYearUnique(YearStart(y1) + d1, y1, y2);
  }

  lemma MonthTable()
    ensures MonthStart(0) == 0 && MonthStart(1) == 31 && MonthStart(2) == 61 && MonthStart(3) == 92
    ensures MonthStart(4) == 122 && MonthStart(5) == 153 && MonthStart(6) == 184 && MonthStart(7) == 214
    ensures MonthStart(8) == 245 && MonthStart(9) == 275 && MonthStart(10) == 306 && MonthStart(11) == 337
    ensures MonthStart(12) == 367
  {
  }

  /** The month of a day of the March-based year, and of the day after it. */
  lemma MonthOf(dayOfYear: int) returns (m: int)
    requires 0 <= dayOfYear < 366
    ensures m == (5 * dayOfYear + 2) / 153 && 0 <= m <= 11 && MonthStart(m) <= dayOfYear < MonthStart(m + 1)
    ensures (5 * (dayOfYear + 1) + 2) / 153 == if dayOfYear + 1 < MonthStart(m + 1) then m else m + 1
  {
    m := (5 * dayOfYear + 2) / 153;
  }

  /** The next day in the March-based form is the Gregorian next day. */
  lemma NextDayOfParts(marchYear: int, dayOfYear: int)
    requires 0 <= dayOfYear < MarchYearLength(marchYear)
    ensures ValidDate(DateOf(marchYear, dayOfYear))
    ensures NextDay(DateOf(marchYear, dayOfYear))
         == if dayOfYear + 1 < MarchYearLength(marchYear) then DateOf(marchYear, dayOfYear + 1)
            else DateOf(marchYear + 1, 0)
  {
    var m := MonthOf(dayOfYear);
    MonthTable();
  }

  /** One day later, in parts: the next day of the year, the next year, or the next era. */
  lemma NextParts(era: int, year: int, dayOfYear: int) returns (era': int, year': int, dayOfYear': int)
    requires 0 <= year < 400 && 0 <= dayOfYear < MarchYearLength(year)
    ensures 0 <= year' < 400 && 0 <= dayOfYear' < MarchYearLength(year')
    ensures 146_097 * era' + YearStart(year') + dayOfYear' == 146_097 * era + YearStart(year) + dayOfYear + 1
    ensures 400 * era' + year' == 400 * era + year + (if dayOfYear + 1 < MarchYearLength(year) then 0 else 1)
    ensures dayOfYear' == if dayOfYear + 1 < MarchYearLength(year) then dayOfYear + 1 else 0
  {
    YearLength(year);
    if dayOfYear + 1 < MarchYearLength(year) {
      era', year', dayOfYear' := era, year, dayOfYear + 1;
    } else if year < 399 {
      era', year', dayOfYear' := era, year + 1, 0;
    } else {
      assert YearStart(400) == 146_097 && YearStart(0) == 0;
      era', year', dayOfYear' := era + 1, 0, 0;
    }
  }

  lemma NextDate(era: int, year: int, dayOfYear: int, marchYear: int, next: int)
    requires 0 <= dayOfYear < MarchYearLength(year)
    requires marchYear == 400 * era + year + (if dayOfYear + 1 < MarchYearLength(year) then 0 else 1)
    requires next == if dayOfYear + 1 < MarchYearLength(year) then dayOfYear + 1 else 0
    ensures DateOf(marchYear, next) == NextDay(DateOf(400 * era + year, dayOfYear))
    ensures ValidDate(DateOf(400 * era + year, dayOfYear))
  {
    LeapPeriod(era, year + 1);
    NextDayOfParts(400 * era + year, dayOfYear);
  }

  lemma ConsecutiveParts(era: int, year: int, dayOfYear: int, era': int, year': int, dayOfYear': int)
    requires 0 <= year < 400 && 0 <= dayOfYear < MarchYearLength(year)
    requires 0 <= year' < 400 && 0 <= dayOfYear' < MarchYearLength(year')
    requires 146_097 * era' + YearStart(year') + dayOfYear' == 146_097 * era + YearStart(year) + dayOfYear + 1
    ensures DateOf(400 * era' + year', dayOfYear') == NextDay(DateOf(400 * era + year, dayOfYear))
    ensures ValidDate(DateOf(400 * era + year, dayOfYear))
  {
    var e, y, d := NextParts(era, year, dayOfYear);
    NextDate(era, year, dayOfYear, 400 * e + y, d);
    PartsUnique(e, y, d, era', year', dayOfYear');
  }

  /** For every day number, before or after the epoch: the closed form moves by one calendar day. */
  lemma CivilStepsByOneDay(days: int)
    ensures CivilFromDays(days + 1) == NextDay(CivilFromDays(days))
    ensures ValidDate(CivilFromDays(days))
  {
    var era, year, dayOfYear := CivilParts(days);
    var era', year', dayOfYear' := CivilParts(days + 1);
    ConsecutiveParts(era, year, dayOfYear, era', year', dayOfYear');
  }

  lemma CivilEpoch()
    ensures CivilFromDays(0) == EPOCH
  {
    assert EraOf(719_468) == 4 && YearOfEra(135_080) == 369;
    CivilUnfolds(0, 4, 135_080, 369, 306);
  }

  /** A numbering of days that moves by one calendar day. */
  ghost predicate DayByDay(f: int -> Date) {
    forall n :: ValidDate(f(n)) && f(n + 1) == NextDay(f(n))
  }

  lemma CivilDayByDay()
    ensures DayByDay(CivilFromDays)
  {
    forall n ensures ValidDate(CivilFromDays(n)) && CivilFromDays(n + 1) == NextDay(CivilFromDays(n)) {
      CivilStepsByOneDay(n);
    }
  }

  lemma {:induction false} DayByDayCounts(f: int -> Date, days: nat)
    requires DayByDay(f) && f(0) == EPOCH
    ensures f(days) == DateAfter(days)
  {
    if days > 0 {
      DayByDayCounts(f, days - 1);
      assert f(days - 1 + 1) == NextDay(f(days - 1));
    }
  }

  lemma {:induction false} DayByDayIncreases(f: int -> Date, a: int, b: int)
    requires DayByDay(f) && a < b
    ensures Before(f(a), f(b))
    decreases b - a
  {
    assert f(b - 1 + 1) == NextDay(f(b - 1));
    BeforeNextDay(f(a), f(b - 1));
    if a < b - 1 {
      DayByDayIncreases(f, a, b - 1);
    }
  }

  lemma BeforeNextDay(a: Date, b: Date)
    requires ValidDate(b)
    ensures a == b || Before(a, b) ==> Before(a, NextDay(b))
  {
  }

  /** The closed form is the calendar counted day by day from the epoch. */
  lemma CivilIsDateAfter(days: nat)
    ensures CivilFromDays(days) == DateAfter(days)
  {
    CivilDayByDay();
    CivilEpoch();
    DayByDayCounts(CivilFromDays, days);
  }

  /** Dates order exactly as day numbers do, so no two days share a date. */
  lemma CivilIncreasing(a: int, b: int)
    ensures Before(CivilFromDays(a), CivilFromDays(b)) <==> a < b
    ensures CivilFromDays(a) == CivilFromDays(b) <==> a == b
  {
    CivilDayByDay();
    if a < b { DayByDayIncreases(CivilFromDays, a, b); }
    if b < a { DayByDayIncreases(CivilFromDays, b, a); }
  }

  // ----- timestamps -----

  const SECONDS_PER_DAY: nat := 86_400

  /** The first second of the year 10000. */
  const YEAR_10000: nat := 253_402_300_800

  /** A date on or after the epoch with a time of day, as the numbers that are printed. */
  datatype Fields = Fields(year: nat, month: nat, day: nat, hour: nat, minute: nat, second: nat)

  function Print(f: Fields): string {
    Padded(f.year, 4) + ("-" + (Padded(f.month, 2) + ("-" + (Padded(f.day, 2) + ("T"
    + (Padded(f.hour, 2) + (":" + (Padded(f.minute, 2) + (":" + (Padded(f.second, 2) + "Z"))))))))))
  }

  function FieldsOf(seconds: nat): Fields {
    var days := seconds / SECONDS_PER_DAY;
    var timeOfDay := seconds % SECONDS_PER_DAY;
    var date := CivilFromDays(days);
    CivilFromEpoch(days);
    Fields(date.year, date.month, date.day, timeOfDay / 3600, timeOfDay % 3600 / 60, timeOfDay % 60)
  }

  function FormatUnixUtc(seconds: nat): string {
    Print(FieldsOf(seconds))
  }

  lemma CivilFromEpoch(days: nat)
    ensures ValidDate(CivilFromDays(days)) && CivilFromDays(days).year >= 1970
  {
    CivilStepsByOneDay(days);
    CivilEpoch();
    CivilIncreasing(0, days);
  }

  predicate FieldsBefore(f: Fields, g: Fields) {
    Before(Date(f.year, f.month, f.day), Date(g.year, g.month, g.day))
    || ((f.year, f.month, f.day) == (g.year, g.month, g.day)
        && (f.hour < g.hour || (f.hour == g.hour
            && (f.minute < g.minute || (f.minute == g.minute && f.second < g.second)))))
  }

  predicate FourDigitFields(f: Fields) {
    f.year < 10_000 && f.month < 100 && f.day < 100 && f.hour < 100 && f.minute < 100 && f.second < 100
  }

  /** One zero-padded field followed by the same separator on both sides. */
  lemma PaddedFieldOrder(a: nat, b: nat, w: nat, sep: string, x: string, y: string)
    requires a < Pow10(w) && b < Pow10(w) && w > 0
    ensures LexLess(Padded(a, w) + (sep + x), Padded(b, w) + (sep + y)) <==> a < b || (a == b && LexLess(x, y))
  {
    PaddedOrder(a, b, w);
    PaddedOrder(b, a, w);
    if a < b {
      LexPrefixDecides(Padded(a, w), Padded(b, w), sep + x, sep + y);
    } else if b < a {
      LexPrefixDecides(Padded(b, w), Padded(a, w), sep + y, sep + x);
      LexAsymmetric(Padded(b, w) + (sep + y), Padded(a, w) + (sep + x));
    } else {
      LexCommonPrefix(Padded(a, w), sep + x, sep + y);
      LexCommonPrefix(sep, x, y);
    }
  }

  function PrintTime(f: Fields): string {
    Padded(f.hour, 2) + (":" + (Padded(f.minute, 2) + (":" + (Padded(f.second, 2) + ("Z" + "")))))
  }

  lemma PrintTimeOrder(f: Fields, g: Fields)
    requires FourDigitFields(f) && FourDigitFields(g)
    ensures LexLess(PrintTime(f), PrintTime(g)) <==>
      f.hour < g.hour || (f.hour == g.hour && (f.minute < g.minute || (f.minute == g.minute && f.second < g.second)))
  {
    assert Pow10(2) == 100;
    var fs, gs := Padded(f.second, 2) + ("Z" + ""), Padded(g.second, 2) + ("Z" + "");
    PaddedFieldOrder(f.second, g.second, 2, "Z", "", "");
    PaddedFieldOrder(f.minute, g.minute, 2, ":", fs, gs);
    PaddedFieldOrder(f.hour, g.hour, 2, ":", Padded(f.minute, 2) + (":" + fs), Padded(g.minute, 2) + (":" + gs));
  }

  lemma PrintOrder(f: Fields, g: Fields)
    requires FourDigitFields(f) && FourDigitFields(g)
    ensures LexLess(Print(f), Print(g)) <==> FieldsBefore(f, g)
  {
    assert Pow10(2) == 100 && Pow10(4) == 10_000;
    var ft, gt := PrintTime(f), PrintTime(g);
    assert "Z" + "" == "Z";
    PrintTimeOrder(f, g);
    var fd, gd := Padded(f.day, 2) + ("T" + ft), Padded(g.day, 2) + ("T" + gt);
    PaddedFieldOrder(f.day, g.day, 2, "T", ft, gt);
    var fm, gm := Padded(f.month, 2) + ("-" + fd), Padded(g.month, 2) + ("-" + gd);
    PaddedFieldOrder(f.month, g.month, 2, "-", fd, gd);
    PaddedFieldOrder(f.year, g.year, 4, "-", fm, gm);
  }

  lemma LastFourDigitDay()
    ensures CivilFromDays(2_932_896) == Date(9999, 12, 31)
    ensures CivilFromDays(2_932_897) == Date(10000, 1, 1)
  {
    assert EraOf(3_652_364) == 24 && YearOfEra(146_036) == 399;
    CivilUnfolds(2_932_896, 24, 146_036, 399, 305);
    CivilStepsByOneDay(2_932_896);
  }

  lemma FourDigitSeconds(seconds: nat)
    requires seconds < YEAR_10000
    ensures FourDigitFields(FieldsOf(seconds))
  {
    var days := seconds / SECONDS_PER_DAY;
    CivilFromEpoch(days);
    LastFourDigitDay();
    CivilIncreasing(days, 2_932_897);
  }

  lemma SecondsOrder(s: nat, t: nat)
    ensures FieldsBefore(FieldsOf(s), FieldsOf(t)) <==> s < t
  {
    var sd, td := s / SECONDS_PER_DAY, t / SECONDS_PER_DAY;
    CivilIncreasing(sd, td);
    CivilIncreasing(td, sd);
    DayOrder(s, t);
    if sd == td {
      TimeOrder(s % SECONDS_PER_DAY, t % SECONDS_PER_DAY);
    }
  }

  lemma DayOrder(s: nat, t: nat)
    ensures s / SECONDS_PER_DAY < t / SECONDS_PER_DAY ==> s < t
    ensures s / SECONDS_PER_DAY == t / SECONDS_PER_DAY ==> (s < t <==> s % SECONDS_PER_DAY < t % SECONDS_PER_DAY)
    ensures s / SECONDS_PER_DAY > t / SECONDS_PER_DAY ==> s > t
  {
  }

  lemma TimeOrder(a: nat, b: nat)
    ensures a < b <==>
      a / 3600 < b / 3600 || (a / 3600 == b / 3600 &&
        (a % 3600 / 60 < b % 3600 / 60 || (a % 3600 / 60 == b % 3600 / 60 && a % 60 < b % 60)))
  {
    TimeParts(a, a / 3600, a % 3600 / 60, a % 60);
    TimeParts(b, b / 3600, b % 3600 / 60, b % 60);
    PartsOrder(a, a / 3600, a % 3600 / 60, a % 60, b, b / 3600, b % 3600 / 60, b % 60);
  }

  lemma TimeParts(a: nat, hour: nat, minute: nat, second: nat)
    requires hour == a / 3600 && minute == a % 3600 / 60 && second == a % 60
    ensures a == 3600 * hour + 60 * minute + second && minute < 60 && second < 60
  {
    var rest := a % 3600;
    assert a == 3600 * hour + rest;
    assert rest == 60 * minute + rest % 60;
    assert a == 60 * (60 * hour + minute) + rest % 60;
  }

  lemma PartsOrder(a: nat, h: nat, m: nat, s: nat, b: nat, h': nat, m': nat, s': nat)
    requires a == 3600 * h + 60 * m + s && m < 60 && s < 60
    requires b == 3600 * h' + 60 * m' + s' && m' < 60 && s' < 60
    ensures a < b <==> h < h' || (h == h' && (m < m' || (m == m' && s < s')))
  {
  }

  /** The fields are the date so many whole days after the epoch, and the time of day that remains. */
  lemma FieldsShow(seconds: nat)
    ensures var f := FieldsOf(seconds);
      && Date(f.year, f.month, f.day) == DateAfter(seconds / 86_400)
      && 1 <= f.month <= 12 && 1 <= f.day <= 31
      && f.hour < 24 && f.minute < 60 && f.second < 60
      && 3600 * f.hour + 60 * f.minute + f.second == seconds % 86_400
  {
    CivilIsDateAfter(seconds / 86_400);
    CivilFromEpoch(seconds / 86_400);
    var time := seconds % 86_400;
    TimeParts(time, time / 3600, time % 3600 / 60, time % 60);
  }

  /** A padded field with what follows it, found at its place in a text. */
  lemma FieldAt(text: string, at: nat, n: nat, w: nat, sep: char, rest: string)
    requires at <= |text| && w > 0 && n < Pow10(w) && text[at..] == Padded(n, w) + ([sep] + rest)
    ensures |text| == at + w + 1 + |rest|
    ensures AllDigits(text[at..at + w]) && Value(text[at..at + w]) == n
    ensures text[at + w] == sep && text[at + w + 1..] == rest
  {
    PaddedProperties(n, w);
    assert text[at..at + w] == text[at..][..w] == Padded(n, w);
    assert text[at + w] == text[at..][w];
    assert text[at + w + 1..] == text[at..][w + 1..];
  }

  /** The text of a second, of twenty characters, shows that second: read back, its numbers are
      the date and the time of day. */
  lemma TimestampReads(seconds: nat)
    requires seconds < 253_402_300_800
    ensures var text := FormatUnixUtc(seconds);
      && |text| == 20
      && text[4] == '-' && text[7] == '-' && text[10] == 'T' && text[13] == ':' && text[16] == ':' && text[19] == 'Z'
      && AllDigits(text[0..4]) && AllDigits(text[5..7]) && AllDigits(text[8..10])
      && AllDigits(text[11..13]) && AllDigits(text[14..16]) && AllDigits(text[17..19])
      && Date(Value(text[0..4]), Value(text[5..7]), Value(text[8..10])) == DateAfter(seconds / 86_400)
      && Value(text[11..13]) < 24 && Value(text[14..16]) < 60 && Value(text[17..19]) < 60
      && 3600 * Value(text[11..13]) + 60 * Value(text[14..16]) + Value(text[17..19]) == seconds % 86_400
  {
    FieldsShow(seconds);
    FourDigitSeconds(seconds);
    PrintReads(FieldsOf(seconds), FormatUnixUtc(seconds));
  }

  lemma PrintReads(f: Fields, text: string)
    requires FourDigitFields(f) && text == Print(f)
    ensures |text| == 20
    ensures text[4] == '-' && text[7] == '-' && text[10] == 'T' && text[13] == ':' && text[16] == ':' && text[19] == 'Z'
    ensures AllDigits(text[0..4]) && AllDigits(text[5..7]) && AllDigits(text[8..10])
    ensures AllDigits(text[11..13]) && AllDigits(text[14..16]) && AllDigits(text[17..19])
    ensures Value(text[0..4]) == f.year && Value(text[5..7]) == f.month && Value(text[8..10]) == f.day
    ensures Value(text[11..13]) == f.hour && Value(text[14..16]) == f.minute && Value(text[17..19]) == f.second
  {
    assert Pow10(2) == 100 && Pow10(4) == 10_000;
    var second := Padded(f.second, 2) + "Z";
    var minute := Padded(f.minute, 2) + (":" + second);
    var hour := Padded(f.hour, 2) + (":" + minute);
    var day := Padded(f.day, 2) + ("T" + hour);
    var month := Padded(f.month, 2) + ("-" + day);
    assert text[0..] == text;
    FieldAt(text, 0, f.year, 4, '-', month);
    FieldAt(text, 5, f.month, 2, '-', day);
    FieldAt(text, 8, f.day, 2, 'T', hour);
    FieldAt(text, 11, f.hour, 2, ':', minute);
    FieldAt(text, 14, f.minute, 2, ':', second);
    assert ['Z'] + "" == "Z";
    FieldAt(text, 17, f.second, 2, 'Z', "");
  }

  /** While the year has four digits, timestamps sort as text exactly as they do in time. */
  lemma TimestampOrder(s: nat, t: nat)
    requires s < YEAR_10000 && t < YEAR_10000
    ensures LexLess(FormatUnixUtc(s), FormatUnixUtc(t)) <==> s < t
    ensures FormatUnixUtc(s) == FormatUnixUtc(t) <==> s == t
  {
    FourDigitSeconds(s);
    FourDigitSeconds(t);
    PrintOrder(FieldsOf(s), FieldsOf(t));
    PrintOrder(FieldsOf(t), FieldsOf(s));
    SecondsOrder(s, t);
    SecondsOrder(t, s);
    LexIrreflexive(FormatUnixUtc(s));
  }

  ghost predicate SortsUpTo(last: nat) {
    forall s: nat, t: nat :: s < t <= last ==> LexLess(FormatUnixUtc(s), FormatUnixUtc(t))
  }

  lemma FirstDigits()
    ensures |Decimal(9999)| == 4 && Decimal(9999)[0] == '9'
    ensures |Decimal(10_000)| == 5 && Decimal(10_000)[0] == '1'
  {
    assert Decimal(9999) == "9999";
    assert Decimal(10_000) == "10000";
  }

  /** The four-digit bound is exact: including one more second breaks the order. */
  lemma TimestampOrderBound(last: nat)
    ensures SortsUpTo(last) <==> last < YEAR_10000
  {
    if last < YEAR_10000 {
      forall s: nat, t: nat | s < t <= last ensures LexLess(FormatUnixUtc(s), FormatUnixUtc(t)) {
        TimestampOrder(s, t);
      }
    } else {
      var s, t := YEAR_10000 - 1, YEAR_10000;
      LastFourDigitDay();
      assert s / SECONDS_PER_DAY == 2_932_896 && t / SECONDS_PER_DAY == 2_932_897;
      assert FieldsOf(s).year == 9999 && FieldsOf(t).year == 10_000;
      FirstDigits();
      assert FormatUnixUtc(s)[0] == '9' && FormatUnixUtc(t)[0] == '1';
      assert !LexLess(FormatUnixUtc(s), FormatUnixUtc(t));
    }
  }
}
