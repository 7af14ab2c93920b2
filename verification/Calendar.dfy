/** Dates of log lines: from a day count to the Gregorian calendar. */
module Calendar {

  datatype Date = Date(year: int, month: int, day: int)

  // ---- The Gregorian calendar ---------------------------------------------

  predicate Leap(year: int) { year % 4 == 0 && (year % 100 != 0 || year % 400 == 0) }

  function DaysInMonth(year: int, month: int): int {
    if month == 2 then (if Leap(year) then 29 else 28)
    else if month == 4 || month == 6 || month == 9 || month == 11 then 30
    else 31
  }

  predicate ValidDate(d: Date) { 1 <= d.month <= 12 && 1 <= d.day <= DaysInMonth(d.year, d.month) }

  function NextDay(d: Date): Date {
    if d.day < DaysInMonth(d.year, d.month) then d.(day := d.day + 1)
    else if d.month < 12 then Date(d.year, d.month + 1, 1)
    else Date(d.year + 1, 1, 1)
  }

  predicate Earlier(a: Date, b: Date) {
    a.year < b.year || (a.year == b.year && (a.month < b.month || (a.month == b.month && a.day < b.day)))
  }

  // ---- The conversion -----------------------------------------------------

  /** Integer division rounding toward zero. */
  function Quotient(a: int, b: int): int
    requires b > 0
  {
    if a >= 0 then a / b else -((-a) / b)
  }

  function CivilFromDays(daysSinceEpoch: int): Date {
    var z := daysSinceEpoch + 719468;
    var era := Quotient(if z >= 0 then z else z - 146096, 146097);
    var doe := z - era * 146097;
    var yoe := YearOf(doe);
    DateOf(yoe + era * 400, doe - (365 * yoe + Quotient(yoe, 4) - Quotient(yoe, 100)))
  }

  /** The year of the era a day of the era falls in. */
  function YearOf(doe: int): int {
    Quotient(doe - Quotient(doe, 1460) + Quotient(doe, 36524) - Quotient(doe, 146096), 365)
  }

  /** The date of a day in a year that begins in March. */
  function DateOf(year: int, doy: int): Date {
    var mp := Quotient(5 * doy + 2, 153);
    var day := doy - Quotient(153 * mp + 2, 5) + 1;
    var month := mp + if mp < 10 then 3 else -9;
    Date(year + if month <= 2 then 1 else 0, month, day)
  }

  // ---- Years beginning in March -------------------------------------------

  /** Days before the year beginning in March of `year`, counted from March of year zero. */
  function YearStart(year: int): int { 365 * year + year / 4 - year / 100 + year / 400 }

  lemma QuotientStep(a: int, b: int)
    requires b > 0
    ensures (a + 1) / b == a / b + if (a + 1) % b == 0 then 1 else 0
  {
    var q, r := a / b, a % b;
    assert a + 1 == b * q + (r + 1);
    if r + 1 == b {
      assert a + 1 == b * (q + 1);
      Divides(q + 1, b);
    } else {
      Remainder(a + 1, b, q, r + 1);
    }
  }

  lemma Divides(q: int, b: int)
    requires b > 0
    ensures (b * q) / b == q && (b * q) % b == 0
  {
    Remainder(b * q, b, q, 0);
  }

  lemma Remainder(a: int, b: int, q: int, r: int)
    requires b > 0 && a == b * q + r && 0 <= r < b
    ensures a / b == q && a % b == r
  {
    var d := a / b - q;
    assert b * d == r - a % b;
    assert d >= 1 ==> b * d >= b;
    assert d <= -1 ==> b * d <= -b;
  }

  lemma YearLength(year: int)
    ensures YearStart(year + 1) - YearStart(year) == if Leap(year + 1) then 366 else 365
  {
    QuotientStep(year, 4);
    QuotientStep(year, 100);
    QuotientStep(year, 400);
    var next := year + 1;
    assert next % 100 == 0 ==> next % 4 == 0 by { if next % 100 == 0 { assert next == 4 * (25 * (next / 100)); } }
    assert next % 400 == 0 ==> next % 100 == 0 by { if next % 400 == 0 { assert next == 100 * (4 * (next / 400)); } }
  }

  lemma YearStartOfEra(era: int, yoe: int)
    requires 0 <= yoe < 400
    ensures YearStart(era * 400 + yoe) == era * 146097 + YearStart(yoe)
  {
    assert (era * 400 + yoe) / 4 == era * 100 + yoe / 4;
    assert (era * 400 + yoe) / 100 == era * 4 + yoe / 100;
  }

  lemma {:induction false} YearStartGrows(a: int, b: int)
    requires a <= b
    ensures YearStart(a) + 365 * (b - a) <= YearStart(b)
    decreases b - a
  {
    if a < b {
      YearLength(b - 1);
      YearStartGrows(a, b - 1);
    }
  }

  /** A day belongs to one year only. */
  lemma YearIsUnique(z: int, a: int, b: int)
    requires YearStart(a) <= z < YearStart(a + 1) && YearStart(b) <= z < YearStart(b + 1)
    ensures a == b
  {
    if a < b {
      YearStartGrows(a + 1, b);
    } else if b < a {
      YearStartGrows(b + 1, a);
    }
  }

  /** The closed formula for the year within an era of 400 years. */
  lemma YearOfEra(doe: int)
    requires 0 <= doe < 146097
    ensures var yoe := (doe - doe / 1460 + doe / 36524 - doe / 146096) / 365;
            0 <= yoe < 400 && YearStart(yoe) <= doe < YearStart(yoe + 1)
  {
    var century := if doe == 146096 then 3 else doe / 36524;
    var n := doe - 36524 * century;
    var q := n / 1461;
    var s := n - 1461 * q;
    var t := if s == 1460 then 3 else s / 365;
    FourYears(doe, century, q, s, t);
    YearLength(100 * century + 4 * q + t);
    LeapWithin(century, q, s, t, doe);
  }

  lemma FourYears(doe: int, century: int, q: int, s: int, t: int)
    requires 0 <= century < 4 && 0 <= q < 25 && 0 <= s <= 1460 && doe == 36524 * century + 1461 * q + s
    requires t == if s == 1460 then 3 else s / 365
    requires doe / 36524 == century || (doe == 146096 && century == 3)
    ensures (doe - doe / 1460 + doe / 36524 - doe / 146096) / 365 == 100 * century + 4 * q + t
    ensures 0 <= t <= 3 && YearStart(100 * century + 4 * q + t) == 36524 * century + 1461 * q + 365 * t
  {
    assert doe / 36524 - doe / 146096 == century by { CenturiesOf(doe, century); }
    FourYearsOf(doe, century, q, s);
    var carry := if 24 * century + q + s >= 1460 then 1 else 0;
    var r := s - carry - 365 * t;
    assert 0 <= r < 365;
    Remainder(365 * (100 * century + 4 * q + t) + r, 365, 100 * century + 4 * q + t, r);
    StartOf(century, q, t);
  }

  lemma CenturiesOf(doe: int, century: int)
    requires 0 <= doe < 146097 && 0 <= century < 4
    requires doe / 36524 == century || (doe == 146096 && century == 3)
    ensures doe / 36524 - doe / 146096 == century
  {
  }

  lemma FourYearsOf(doe: int, century: int, q: int, s: int)
    requires 0 <= century < 4 && 0 <= q < 25 && 0 <= s <= 1460 && doe == 36524 * century + 1461 * q + s
    ensures doe / 1460 == 25 * century + q + if 24 * century + q + s >= 1460 then 1 else 0
  {
    var rest := 24 * century + q + s;
    var carry := if rest >= 1460 then 1 else 0;
    Remainder(doe, 1460, 25 * century + q + carry, rest - 1460 * carry);
  }

  lemma StartOf(century: int, q: int, t: int)
    requires 0 <= century < 4 && 0 <= q < 25 && 0 <= t < 4
    ensures YearStart(100 * century + 4 * q + t) == 36524 * century + 1461 * q + 365 * t
  {
    var year := 100 * century + 4 * q + t;
    Remainder(year, 4, 25 * century + q, t);
    Remainder(year, 100, century, 4 * q + t);
    Remainder(year, 400, 0, year);
  }

  lemma LeapWithin(century: int, q: int, s: int, t: int, doe: int)
    requires 0 <= century < 4 && 0 <= q < 25 && 0 <= s <= 1460 && doe == 36524 * century + 1461 * q + s
    requires t == if s == 1460 then 3 else s / 365
    requires s == 1460 && q == 24 ==> century == 3
    ensures 365 * t <= s < 365 * t + if Leap(100 * century + 4 * q + t + 1) then 366 else 365
  {
    var next := 100 * century + 4 * q + t + 1;
    if s == 1460 {
      assert next == 4 * (25 * century + q + 1);
      if next % 100 == 0 {
        assert q == 24;
      }
    }
  }

  // ---- Months -------------------------------------------------------------

  function MonthStart(mp: int): int { (153 * mp + 2) / 5 }

  /** The date `doy` days into the year beginning in March of `year`. */
  function FromMarch(year: int, doy: int): Date
    requires 0 <= doy < 366
  {
    var mp := (5 * doy + 2) / 153;
    var month := if mp < 10 then mp + 3 else mp - 9;
    assert MonthStart(mp) <= doy;
    Date(year + if month <= 2 then 1 else 0, month, doy - MonthStart(mp) + 1)
  }

  lemma MonthHolds(doy: int)
    requires 0 <= doy < 366
    ensures var mp := (5 * doy + 2) / 153; 0 <= mp < 12 && MonthStart(mp) <= doy < MonthStart(mp + 1)
  {
  }

  lemma MonthOfYear(year: int, doy: int)
    requires 0 <= doy < YearStart(year + 1) - YearStart(year)
    ensures doy < 366 && ValidDate(FromMarch(year, doy))
  {
    YearLength(year);
    MonthHolds(doy);
  }

  // ---- The conversion, explained ------------------------------------------

  function MarchYear(z: int): int {
    var doe := z % 146097;
    (z / 146097) * 400 + (doe - doe / 1460 + doe / 36524 - doe / 146096) / 365
  }

  lemma MarchYearHolds(z: int)
    ensures YearStart(MarchYear(z)) <= z < YearStart(MarchYear(z) + 1)
  {
    hide Leap;
    var era, doe := z / 146097, z % 146097;
    var yoe := MarchYear(z) - era * 400;
    YearOfEra(doe);
    YearStartOfEra(era, yoe);
    YearLength(era * 400 + yoe);
    YearLength(yoe);
    SameLeap(era, yoe + 1);
  }

  lemma SameLeap(era: int, year: int)
    ensures Leap(era * 400 + year) <==> Leap(year)
  {
    assert (era * 400 + year) % 4 == year % 4 by { SameRemainder(era * 100, year, 4); }
    assert (era * 400 + year) % 100 == year % 100 by { SameRemainder(era * 4, year, 100); }
    assert (era * 400 + year) % 400 == year % 400 by { SameRemainder(era, year, 400); }
  }

  lemma SameRemainder(k: int, a: int, b: int)
    requires b > 0
    ensures (b * k + a) % b == a % b
  {
    Remainder(b * k + a, b, k + a / b, a % b);
  }

  lemma FloorQuotient(z: int)
    ensures Quotient(if z >= 0 then z else z - 146096, 146097) == z / 146097
    ensures z - (z / 146097) * 146097 == z % 146097
  {
  }

  lemma YearOfIsFloor(doe: int)
    requires 0 <= doe < 146097
    ensures YearOf(doe) == (doe - doe / 1460 + doe / 36524 - doe / 146096) / 365
  {
  }

  lemma DateOfIsFromMarch(year: int, doy: int)
    requires 0 <= doy < 366
    ensures DateOf(year, doy) == FromMarch(year, doy)
  {
  }

  lemma CivilUnfolded(days: int, era: int, doe: int, yoe: int, doy: int)
    requires era == (days + 719468) / 146097 && doe == (days + 719468) % 146097
    requires yoe == (doe - doe / 1460 + doe / 36524 - doe / 146096) / 365 && yoe >= 0
    requires doy == doe - (365 * yoe + yoe / 4 - yoe / 100) && 0 <= doy < 366
    ensures CivilFromDays(days) == FromMarch(era * 400 + yoe, doy)
  {
    hide YearOf, DateOf, FromMarch;
    FloorQuotient(days + 719468);
    YearOfIsFloor(doe);
    DateOfIsFromMarch(era * 400 + yoe, doy);
    assert Quotient(yoe, 4) == yoe / 4 && Quotient(yoe, 100) == yoe / 100;
    SameProduct(era, days + 719468);
  }

  lemma SameProduct(era: int, z: int)
    requires era == z / 146097
    ensures z - era * 146097 == z % 146097
  {
  }

  /** The conversion finds the March year a day falls in and counts on from its start. */
  lemma CivilIsFromMarch(days: int)
    ensures var z := days + 719468; var year := MarchYear(z);
            0 <= z - YearStart(year) < 366 && CivilFromDays(days) == FromMarch(year, z - YearStart(year))
    ensures ValidDate(CivilFromDays(days))
  {
    hide CivilFromDays, FromMarch, ValidDate, Leap, Quotient;
    var z := days + 719468;
    var era, doe := z / 146097, z % 146097;
    var year := MarchYear(z);
    var yoe := year - era * 400;
    MarchYearHolds(z);
    YearLength(year);
    YearOfEra(doe);
    YearStartOfEra(era, yoe);
    assert yoe / 400 == 0;
    CivilUnfolded(days, era, doe, yoe, z - YearStart(year));
    MonthOfYear(year, z - YearStart(year));
  }

  // ---- One day after another ----------------------------------------------

  lemma MonthLength(mp: int, year: int)
    requires 0 <= mp < 11
    ensures MonthStart(mp + 1) - MonthStart(mp) == DaysInMonth(year, if mp < 10 then mp + 3 else mp - 9)
  {
  }

  lemma MonthIsUnique(doy: int, mp: int)
    requires 0 <= doy < 366 && 0 <= mp < 12 && MonthStart(mp) <= doy < MonthStart(mp + 1)
    ensures (5 * doy + 2) / 153 == mp
  {
  }

  lemma NextInYear(year: int, doy: int)
    requires 0 <= doy && doy + 1 < YearStart(year + 1) - YearStart(year)
    ensures doy + 1 < 366 && FromMarch(year, doy + 1) == NextDay(FromMarch(year, doy))
  {
    hide YearStart;
    YearLength(year);
    MonthHolds(doy);
    var mp := (5 * doy + 2) / 153;
    if doy + 1 < MonthStart(mp + 1) {
      MonthIsUnique(doy + 1, mp);
    } else {
      MonthHolds(doy + 1);
      MonthIsUnique(doy + 1, mp + 1);
    }
    if mp < 11 {
      MonthLength(mp, year);
      MonthLength(mp, year + 1);
    }
  }

  lemma NextYear(year: int)
    ensures 365 <= YearStart(year + 1) - YearStart(year) <= 366
    ensures FromMarch(year + 1, 0) == NextDay(FromMarch(year, YearStart(year + 1) - YearStart(year) - 1))
  {
    hide YearStart;
    YearLength(year);
  }

  /** Each next day is the next date of the Gregorian calendar. */
  lemma CivilNext(days: int)
    ensures CivilFromDays(days + 1) == NextDay(CivilFromDays(days))
  {
    hide CivilFromDays, FromMarch, NextDay, MarchYear, YearStart, ValidDate;
    var z := days + 719468;
    var year := MarchYear(z);
    CivilIsFromMarch(days);
    CivilIsFromMarch(days + 1);
    MarchYearHolds(z);
    MarchYearHolds(z + 1);
    if z + 1 < YearStart(year + 1) {
      YearIsUnique(z + 1, MarchYear(z + 1), year);
      NextInYear(year, z - YearStart(year));
    } else {
      YearStartGrows(year + 1, year + 2);
      YearIsUnique(z + 1, MarchYear(z + 1), year + 1);
      NextYear(year);
    }
  }

  lemma EpochDate()
    ensures CivilFromDays(0) == Date(1970, 1, 1)
  {
  }

  // ---- Counting days ------------------------------------------------------

  /** Leap years up to and including `year`. */
  function Leaps(year: int): int { year / 4 - year / 100 + year / 400 }

  function DaysBeforeYear(year: int): int { 365 * (year - 1970) + Leaps(year - 1) - Leaps(1969) }

  function DaysBeforeMonth(year: int, month: int): int {
    if month <= 1 then 0 else DaysBeforeMonth(year, month - 1) + DaysInMonth(year, month - 1)
  }

  /** Days from the first of January 1970, counted along the calendar. */
  function DayNumber(d: Date): int { DaysBeforeYear(d.year) + DaysBeforeMonth(d.year, d.month) + d.day - 1 }

  lemma LeapsStep(year: int)
    ensures Leaps(year) == Leaps(year - 1) + if Leap(year) then 1 else 0
  {
    YearLength(year - 1);
  }

  lemma MonthSums(year: int)
    ensures DaysBeforeMonth(year, 12) + 31 == if Leap(year) then 366 else 365
  {
    hide Leap;
    MonthStep(year, 12);
    MonthStep(year, 11);
    MonthStep(year, 10);
    MonthStep(year, 9);
    MonthStep(year, 8);
    MonthStep(year, 7);
    MonthStep(year, 6);
    MonthStep(year, 5);
    MonthStep(year, 4);
    MonthStep(year, 3);
    MonthStep(year, 2);
  }

  lemma MonthStep(year: int, month: int)
    requires month >= 2
    ensures DaysBeforeMonth(year, month) == DaysBeforeMonth(year, month - 1) + DaysInMonth(year, month - 1)
    ensures DaysBeforeMonth(year, 1) == 0
  {
  }

  lemma YearDays(year: int)
    ensures DaysBeforeMonth(year, 12) + 31 == if Leap(year) then 366 else 365
    ensures DaysBeforeYear(year + 1) == DaysBeforeYear(year) + DaysBeforeMonth(year, 12) + 31
  {
    hide Leap, Leaps, DaysBeforeMonth;
    LeapsStep(year);
    MonthSums(year);
  }

  lemma DayNumberNext(d: Date)
    requires ValidDate(d)
    ensures DayNumber(NextDay(d)) == DayNumber(d) + 1
  {
    hide DaysBeforeYear, Leap;
    if d.day == DaysInMonth(d.year, d.month) && d.month == 12 {
      YearDays(d.year);
    }
  }

  lemma {:induction false} MonthsGrow(year: int, a: int, b: int)
    requires 1 <= a <= b
    ensures DaysBeforeMonth(year, a) + (if a < b then DaysInMonth(year, a) else 0) <= DaysBeforeMonth(year, b)
    decreases b - a
  {
    if a < b {
      MonthsGrow(year, a, b - 1);
    }
  }

  lemma {:induction false} YearsGrow(a: int, b: int)
    requires a <= b
    ensures DaysBeforeYear(a) <= DaysBeforeYear(b)
    decreases b - a
  {
    hide DaysBeforeYear, DaysBeforeMonth, Leap;
    if a < b {
      YearsGrow(a, b - 1);
      YearDays(b - 1);
    }
  }

  /** Later dates have greater numbers. */
  lemma DayNumberGrows(a: Date, b: Date)
    requires ValidDate(a) && ValidDate(b) && Earlier(a, b)
    ensures DayNumber(a) < DayNumber(b)
  {
    hide DaysBeforeYear, DaysBeforeMonth, Leap;
    MonthsGrow(b.year, 1, b.month);
    if a.year < b.year {
      MonthsGrow(a.year, a.month, 12);
      YearDays(a.year);
      YearsGrow(a.year + 1, b.year);
      FirstMonth(b.year);
    } else {
      MonthsGrow(a.year, a.month, b.month);
    }
  }

  lemma FirstMonth(year: int)
    ensures DaysBeforeMonth(year, 1) == 0
  {
  }

  /** The conversion is undone by counting, in both directions. */
  lemma {:induction false} CivilCounted(days: int)
    ensures DayNumber(CivilFromDays(days)) == days
    decreases if days >= 0 then days else -days
  {
    hide CivilFromDays, DayNumber, NextDay;
    if days == 0 {
      EpochDate();
      EpochIsZero();
    } else if days > 0 {
      CivilCounted(days - 1);
      CivilNext(days - 1);
      CivilIsFromMarch(days - 1);
      DayNumberNext(CivilFromDays(days - 1));
    } else {
      CivilCounted(days + 1);
      CivilNext(days);
      CivilIsFromMarch(days);
      DayNumberNext(CivilFromDays(days));
    }
  }

  lemma EpochIsZero()
    ensures DayNumber(Date(1970, 1, 1)) == 0
  {
  }

  lemma CountedCivil(d: Date)
    requires ValidDate(d)
    ensures CivilFromDays(DayNumber(d)) == d
  {
    hide CivilFromDays, DayNumber, ValidDate;
    var c := CivilFromDays(DayNumber(d));
    CivilCounted(DayNumber(d));
    CivilIsFromMarch(DayNumber(d));
    if Earlier(c, d) {
      DayNumberGrows(c, d);
    }
    if Earlier(d, c) {
      DayNumberGrows(d, c);
    }
  }

  lemma DatesFollowDays(a: int, b: int)
    ensures a < b <==> Earlier(CivilFromDays(a), CivilFromDays(b))
  {
    hide CivilFromDays, DayNumber, ValidDate;
    var c, d := CivilFromDays(a), CivilFromDays(b);
    CivilCounted(a);
    CivilCounted(b);
    CivilIsFromMarch(a);
    CivilIsFromMarch(b);
    if Earlier(c, d) {
      DayNumberGrows(c, d);
    }
    if Earlier(d, c) {
      DayNumberGrows(d, c);
    }
  }
}
