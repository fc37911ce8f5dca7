/**
 The calendar arithmetic of `time.rs`: the closed-form conversions between a day number
 (days since 1970-01-01) and a civil date, and the plain Gregorian calendar they refine.
 */
module Calendar {

  datatype Date = Date(year: int, month: int, day: int)

  // --- The reference calendar -------------------------------------------------------

  /** The leap-year rule of Appendix C of RFC 3339. */
  predicate IsLeap(year: int) {
    year % 4 == 0 && (year % 100 != 0 || year % 400 == 0)
  }

  function DaysInMonth(year: int, month: int): int {
    if month == 2 then if IsLeap(year) then 29 else 28
    else if month == 4 || month == 6 || month == 9 || month == 11 then 30
    else 31
  }

  predicate ValidDate(d: Date) {
    1 <= d.month <= 12 && 1 <= d.day <= DaysInMonth(d.year, d.month)
  }

  function NextDay(d: Date): Date {
    if d.day < DaysInMonth(d.year, d.month) then Date(d.year, d.month, d.day + 1)
    else if d.month < 12 then Date(d.year, d.month + 1, 1)
    else Date(d.year + 1, 1, 1)
  }

  /** The date reached by counting `days` days forward from 1970-01-01, one at a time. */
  function CountForward(days: nat): Date {
    if days == 0 then Date(1970, 1, 1) else NextDay(CountForward(days - 1))
  }

  predicate Earlier(a: Date, b: Date) {
    || a.year < b.year
    || (a.year == b.year && a.month < b.month)
    || (a.year == b.year && a.month == b.month && a.day < b.day)
  }

  // --- The closed forms -------------------------------------------------------------

  /** The year of a 400-year era, from the day of the era. */
  function YearOfEra(doe: int): int {
    (doe - doe / 1460 + doe / 36524 - doe / 146096) / 365
  }

  /** Days of the 400-year era before its year `yoe`. */
  function EraDays(yoe: int): int { 365 * yoe + yoe / 4 - yoe / 100 }

  /** Day of the March-based year on which March-based month `mp` starts. */
  function MonthStart(mp: int): int { (153 * mp + 2) / 5 }

  /** The civil date of day `doy` of the March-based year `yoe` of an era. */
  function FromMarch(era: int, yoe: int, doy: int): Date {
    var mp := (5 * doy + 2) / 153;
    var day := doy - MonthStart(mp) + 1;
    var month := if mp < 10 then mp + 3 else mp - 9;
    Date(yoe + era * 400 + (if month <= 2 then 1 else 0), month, day)
  }

  function CivilFromDays(days: nat): Date {
    var z := days + 719468;
    var era := z / 146097;
    var doe := z - era * 146097;
    var yoe := YearOfEra(doe);
    FromMarch(era, yoe, doe - EraDays(yoe))
  }

  /** The March-based year of a date: January and February belong to the year before. */
  function MarchYear(d: Date): int { d.year - (if d.month <= 2 then 1 else 0) }

  function DayOfMarchYear(d: Date): int { MonthStart((d.month + 9) % 12) + d.day - 1 }

  function DaysFromCivil(d: Date): int {
    var y := MarchYear(d);
    var era := y / 400; // Dafny's division is Euclidean, as is `div_euclid`
    var yoe := y - era * 400;
    era * 146097 + (EraDays(yoe) + DayOfMarchYear(d)) - 719468
  }

  // --- Month arithmetic -------------------------------------------------------------

  /** The number of days of March-based year `y`, which ends with February of `y + 1`. */
  function YearLength(y: int): int { if IsLeap(y + 1) then 366 else 365 }

  lemma MonthOfDay(doy: int)
    requires 0 <= doy <= 365
    ensures 0 <= (5 * doy + 2) / 153 <= 11
    ensures MonthStart((5 * doy + 2) / 153) <= doy
    ensures (5 * doy + 2) / 153 < 11 ==> doy < MonthStart((5 * doy + 2) / 153 + 1)
  {}

  lemma MonthLengths(year: int, month: int)
    requires 1 <= month <= 12
    ensures var mp := (month + 9) % 12;
            month != 2 ==> MonthStart(mp + 1) - MonthStart(mp) == DaysInMonth(year, month)
    ensures month == 2 ==> MonthStart((month + 9) % 12) == 337
  {
    if month == 1 {} else if month == 2 {} else if month == 3 {} else if month == 4 {}
    else if month == 5 {} else if month == 6 {} else if month == 7 {} else if month == 8 {}
    else if month == 9 {} else if month == 10 {} else if month == 11 {} else {}
  }

  lemma MonthOfStart(mp: int, k: int)
    requires 0 <= mp <= 11 && 0 <= k
    requires if mp == 11 then k <= 28 else MonthStart(mp) + k < MonthStart(mp + 1)
    ensures (5 * (MonthStart(mp) + k) + 2) / 153 == mp
  {}

  // --- Year arithmetic --------------------------------------------------------------

  /** A day of the era split into centuries, four-year cycles, years and days: the
      closed form finds the year of the era. */
  lemma YearOfEraSplit(c: int, q: int, r: int, k: int)
    requires 0 <= c <= 3 && 0 <= q <= 24 && 0 <= r <= 3
    requires 0 <= k <= (if r == 3 && (q != 24 || c == 3) then 365 else 364)
    ensures var doe := 36524 * c + 1461 * q + 365 * r + k;
            0 <= doe <= 146096 && YearOfEra(doe) == 100 * c + 4 * q + r
    ensures EraDays(100 * c + 4 * q + r) == 36524 * c + 1461 * q + 365 * r
    ensures k == 365 ==> IsLeap(100 * c + 4 * q + r + 1)
  {
    var y := 100 * c + 4 * q + r;
    var doe := 36524 * c + 1461 * q + 365 * r + k;
    assert y / 4 == 25 * c + q;
    assert y / 100 == c;
    var e := (24 * c + q + 365 * r + k) / 1460;
    assert doe / 1460 == 25 * c + q + e;
    if doe == 146096 {
    } else {
      assert doe / 36524 == c;
      assert doe / 146096 == 0;
    }
    assert doe - doe / 1460 + doe / 36524 - doe / 146096 == 365 * y + k - e;
  }

  /** Every day of the era has such a split. */
  lemma SplitOfDay(doe: int) returns (c: int, q: int, r: int, k: int)
    requires 0 <= doe <= 146096
    ensures 0 <= c <= 3 && 0 <= q <= 24 && 0 <= r <= 3
    ensures 0 <= k <= (if r == 3 && (q != 24 || c == 3) then 365 else 364)
    ensures doe == 36524 * c + 1461 * q + 365 * r + k
  {
    c := if doe == 146096 then 3 else doe / 36524;
    var inCentury := doe - 36524 * c;
    q := inCentury / 1461;
    var inCycle := inCentury - 1461 * q;
    r := if inCycle == 1460 then 3 else inCycle / 365;
    k := inCycle - 365 * r;
  }

  lemma SplitOfYear(yoe: int) returns (c: int, q: int, r: int)
    requires 0 <= yoe <= 399
    ensures 0 <= c <= 3 && 0 <= q <= 24 && 0 <= r <= 3
    ensures yoe == 100 * c + 4 * q + r
    ensures IsLeap(yoe + 1) <==> r == 3 && (q != 24 || c == 3)
  {
    c := yoe / 100;
    q := (yoe - 100 * c) / 4;
    r := yoe - 100 * c - 4 * q;
  }

  lemma Congruent4(y: int, k: int) ensures (y + 4 * k) % 4 == y % 4 {}

  lemma Congruent100(y: int, k: int) ensures (y + 100 * k) % 100 == y % 100 {}

  lemma Congruent400(y: int, k: int) ensures (y + 400 * k) % 400 == y % 400 {}

  lemma LeapIsPeriodic(year: int, era: int)
    ensures IsLeap(year + 400 * era) == IsLeap(year)
  {
    Congruent4(year, 100 * era);
    Congruent100(year, 4 * era);
    Congruent400(year, era);
  }

  lemma Quotient(a: int, q: int, m: int, r: int)
    requires m == 400 || m == 146097
    requires a == q * m + r && 0 <= r < m
    ensures a / m == q
  {}

  /** The day of the era determines the year of the era and the day of that year. */
  lemma YearOfEraCorrect(doe: int)
    requires 0 <= doe <= 146096
    ensures 0 <= YearOfEra(doe) <= 399
    ensures 0 <= doe - EraDays(YearOfEra(doe)) < YearLength(YearOfEra(doe))
  {
    var c, q, r, k := SplitOfDay(doe);
    YearOfEraSplit(c, q, r, k);
  }

  lemma YearOfEraInverse(yoe: int, doy: int)
    requires 0 <= yoe <= 399 && 0 <= doy < YearLength(yoe)
    ensures 0 <= EraDays(yoe) + doy <= 146096
    ensures YearOfEra(EraDays(yoe) + doy) == yoe
  {
    var c, q, r := SplitOfYear(yoe);
    YearOfEraSplit(c, q, r, doy);
  }

  // --- The two conversions agree on the March-based parts ---------------------------

  predicate Parts(era: int, yoe: int, doy: int) {
    0 <= yoe <= 399 && 0 <= doy < YearLength(yoe)
  }

  function DayNumber(era: int, yoe: int, doy: int): int {
    era * 146097 + (EraDays(yoe) + doy) - 719468
  }

  lemma PartsOfDay(days: nat) returns (era: int, yoe: int, doy: int)
    ensures Parts(era, yoe, doy) && days == DayNumber(era, yoe, doy)
    ensures CivilFromDays(days) == FromMarch(era, yoe, doy)
  {
    var z := days + 719468;
    era := z / 146097;
    var doe := z - era * 146097;
    YearOfEraCorrect(doe);
    yoe := YearOfEra(doe);
    doy := doe - EraDays(yoe);
  }

  lemma DayOfParts(era: int, yoe: int, doy: int)
    requires Parts(era, yoe, doy) && DayNumber(era, yoe, doy) >= 0
    ensures CivilFromDays(DayNumber(era, yoe, doy)) == FromMarch(era, yoe, doy)
  {
    YearOfEraInverse(yoe, doy);
    Quotient(DayNumber(era, yoe, doy) + 719468, era, 146097, EraDays(yoe) + doy);
  }

  lemma DateOfParts(era: int, yoe: int, doy: int)
    requires Parts(era, yoe, doy)
    ensures ValidDate(FromMarch(era, yoe, doy))
    ensures MarchYear(FromMarch(era, yoe, doy)) == era * 400 + yoe
    ensures DayOfMarchYear(FromMarch(era, yoe, doy)) == doy
    ensures DaysFromCivil(FromMarch(era, yoe, doy)) == DayNumber(era, yoe, doy)
  {
    MonthOfDay(doy);
    var d := FromMarch(era, yoe, doy);
    MonthLengths(d.year, d.month);
    LeapIsPeriodic(yoe + 1, era);
    Quotient(MarchYear(d), era, 400, yoe);
  }

  lemma PartsOfDate(d: Date) returns (era: int, yoe: int, doy: int)
    requires ValidDate(d)
    ensures Parts(era, yoe, doy) && d == FromMarch(era, yoe, doy)
    ensures doy == DayOfMarchYear(d) && MarchYear(d) == era * 400 + yoe
  {
    var y := MarchYear(d);
    era := y / 400;
    yoe := y - era * 400;
    doy := DayOfMarchYear(d);
    MonthLengths(d.year, d.month);
    LeapIsPeriodic(yoe + 1, era);
    MonthOfStart((d.month + 9) % 12, d.day - 1);
  }

  // --- Main results -----------------------------------------------------------------

  /** `CivilFromDays` always yields a real calendar date, and the parser's conversion
      undoes it. */
  lemma DaysOfCivil(days: nat)
    ensures ValidDate(CivilFromDays(days))
    ensures DaysFromCivil(CivilFromDays(days)) == days
  {
    var era, yoe, doy := PartsOfDay(days);
    DateOfParts(era, yoe, doy);
  }

  /** The formatter's conversion undoes the parser's, on every valid date from 1970 on. */
  lemma CivilOfDays(d: Date)
    requires ValidDate(d) && DaysFromCivil(d) >= 0
    ensures CivilFromDays(DaysFromCivil(d)) == d
  {
    var era, yoe, doy := PartsOfDate(d);
    DateOfParts(era, yoe, doy);
    DayOfParts(era, yoe, doy);
  }

  lemma YearCarry(yoe: int)
    requires 0 <= yoe <= 399
    ensures EraDays(yoe) + YearLength(yoe) == if yoe == 399 then 146097 else EraDays(yoe + 1)
  {
    var c, q, r := SplitOfYear(yoe);
  }

  /** The day after the last day of a March-based year starts the next one. */
  lemma NextParts(era: int, yoe: int, doy: int) returns (era': int, yoe': int, doy': int)
    requires Parts(era, yoe, doy)
    ensures Parts(era', yoe', doy')
    ensures DayNumber(era', yoe', doy') == DayNumber(era, yoe, doy) + 1
    ensures if doy + 1 == YearLength(yoe) then doy' == 0 && era' * 400 + yoe' == era * 400 + yoe + 1
            else (era', yoe', doy') == (era, yoe, doy + 1)
  {
    if doy + 1 < YearLength(yoe) {
      era', yoe', doy' := era, yoe, doy + 1;
    } else {
      YearCarry(yoe);
      doy' := 0;
      if yoe == 399 { era', yoe' := era + 1, 0; } else { era', yoe' := era, yoe + 1; }
    }
  }

  /** Within the March-based year, the next date is the next day of the year. */
  lemma NextDayParts(d: Date)
    requires ValidDate(d)
    ensures ValidDate(NextDay(d)) && Earlier(d, NextDay(d))
    ensures if d.month == 2 && d.day == DaysInMonth(d.year, 2)
            then NextDay(d) == Date(MarchYear(d) + 1, 3, 1)
            else MarchYear(NextDay(d)) == MarchYear(d) && DayOfMarchYear(NextDay(d)) == DayOfMarchYear(d) + 1
  {
    hide MonthStart;
    MonthLengths(d.year, d.month);
    MonthIndex(d.month);
    MonthIndex(NextDay(d).month);
  }

  lemma MonthIndex(month: int)
    requires 1 <= month <= 12
    ensures (month + 9) % 12 == if month <= 2 then month + 9 else month - 3
  {}

  /** One day later is one day number more. */
  lemma DaysOfNextDay(d: Date)
    requires ValidDate(d)
    ensures ValidDate(NextDay(d)) && Earlier(d, NextDay(d))
    ensures DaysFromCivil(NextDay(d)) == DaysFromCivil(d) + 1
  {
    var era, yoe, doy := PartsOfDate(d);
    DateOfParts(era, yoe, doy);
    LastOfYear(d, era, yoe);
    NextDayParts(d);
    var era', yoe', doy' := NextParts(era, yoe, doy);
    DateOfParts(era', yoe', doy');
    SameParts(NextDay(d), FromMarch(era', yoe', doy'));
  }

  lemma LastOfYear(d: Date, era: int, yoe: int)
    requires ValidDate(d) && MarchYear(d) == era * 400 + yoe
    ensures DayOfMarchYear(d) + 1 == YearLength(yoe) <==> d.month == 2 && d.day == DaysInMonth(d.year, 2)
  {
    MonthLengths(d.year, d.month);
    LeapIsPeriodic(yoe + 1, era);
  }

  lemma SameParts(a: Date, b: Date)
    requires MarchYear(a) == MarchYear(b) && DayOfMarchYear(a) == DayOfMarchYear(b)
    ensures DaysFromCivil(a) == DaysFromCivil(b)
  {}

  lemma CivilSuccessor(days: nat)
    ensures CivilFromDays(days + 1) == NextDay(CivilFromDays(days))
    ensures Earlier(CivilFromDays(days), CivilFromDays(days + 1))
  {
    hide CivilFromDays, DaysFromCivil, NextDay, ValidDate, Earlier;
    var d := CivilFromDays(days);
    DaysOfCivil(days);
    DaysOfNextDay(d);
    CivilOfDays(NextDay(d));
  }

  /** The dates of three days, found from their March-based parts. */
  lemma Landmarks()
    ensures CivilFromDays(0) == Date(1970, 1, 1)
    ensures CivilFromDays(2932896) == Date(9999, 12, 31)
    ensures CivilFromDays(2932897) == Date(10000, 1, 1)
  {
    hide CivilFromDays;
    DayOfParts(4, 369, 306);
    DayOfParts(24, 399, 305);
    DayOfParts(24, 399, 306);
  }

  /** The closed form refines the calendar: it gives the date found by counting forward. */
  lemma {:induction false} CivilCountsForward(days: nat)
    ensures CivilFromDays(days) == CountForward(days)
  {
    hide CivilFromDays, NextDay;
    if days == 0 {
      Landmarks();
    } else {
      CivilCountsForward(days - 1);
      CivilSuccessor(days - 1);
    }
  }

  /** Later day numbers are later dates. */
  lemma {:induction false} CivilIsMonotone(a: nat, b: nat)
    requires a < b
    ensures Earlier(CivilFromDays(a), CivilFromDays(b))
    decreases b
  {
    hide CivilFromDays;
    CivilSuccessor(b - 1);
    if a < b - 1 {
      CivilIsMonotone(a, b - 1);
    }
  }

  /** Day 2932897 is 10000-01-01: the years of all earlier days have four digits. */
  lemma FourDigitYears(days: nat)
    ensures CivilFromDays(days).year >= 1970
    ensures days < 2932897 <==> CivilFromDays(days).year <= 9999
  {
    hide CivilFromDays;
    Landmarks();
    if 0 < days {
      CivilIsMonotone(0, days);
    }
    if days < 2932896 {
      CivilIsMonotone(days, 2932896);
    }
    if days > 2932897 {
      CivilIsMonotone(2932897, days);
    }
  }
}
