/** Calendar arithmetic (basis/calendar/calendar.factor): Julian day numbers, weekdays, Easter, ISO weeks and
    the carry chain of unix times. */
module Calendar {
  import Bits

  // `/i` truncates towards zero.
  function Quot(x: int, d: int): int
    requires d > 0
  {
    if x >= 0 then x / d else -(-x / d)
  }

  datatype Date = Date(year: int, month: int, day: int)

  predicate LeapYear(year: int) { if year % 100 == 0 then year % 400 == 0 else year % 4 == 0 }

  function DaysInMonth(year: int, month: int): int
    requires 1 <= month <= 12
  {
    if month == 2 then (if LeapYear(year) then 29 else 28)
    else if month in {4, 6, 9, 11} then 30
    else 31
  }

  predicate ValidDate(d: Date) {
    1 <= d.month <= 12 && 1 <= d.day <= DaysInMonth(d.year, d.month)
  }

  // The Gregorian calendar, one day at a time
  function NextDay(d: Date): Date
    requires ValidDate(d)
  {
    if d.day < DaysInMonth(d.year, d.month) then Date(d.year, d.month, d.day + 1)
    else if d.month < 12 then Date(d.year, d.month + 1, 1)
    else Date(d.year + 1, 1, 1)
  }

  // julian-day-number
  function JulianDay(d: Date): int {
    var a := Quot(14 - d.month, 12);
    var y := d.year + 4800 - a;
    var m := d.month + 12 * a - 3;
    d.day + Quot(153 * m + 2, 5) + 365 * y + Quot(y, 4) - Quot(y, 100) + Quot(y, 400) - 32045
  }

  // julian-day-number>date
  function DateOf(n: int): Date {
    var a := n + 32044;
    var b := Quot(4 * a + 3, 146097);
    var c := a - Quot(146097 * b, 4);
    var d := Quot(4 * c + 3, 1461);
    var e := c - Quot(1461 * d, 4);
    var m := Quot(5 * e + 2, 153);
    Date(100 * b + d - 4800 + Quot(m, 10), m + 3 - 12 * Quot(m, 10), e - Quot(153 * m + 2, 5) + 1)
  }

  // Years and months counted from March of -4800
  function MarchYear(d: Date): int { d.year + 4800 - (if d.month <= 2 then 1 else 0) }

  function MarchMonth(d: Date): int { if d.month <= 2 then d.month + 9 else d.month - 3 }

  function MonthStart(m: int): int { (153 * m + 2) / 5 }

  function CenturyStart(b: int): int { 36524 * b + b / 4 }

  function YearStart(d: int): int { 365 * d + d / 4 }

  // The day number splits into centuries, years, months and days.
  lemma JulianParts(d: Date)
    requires ValidDate(d) && MarchYear(d) >= 0
    ensures var y := MarchYear(d);
            JulianDay(d) + 32044 == CenturyStart(y / 100) + YearStart(y % 100) + MonthStart(MarchMonth(d)) + d.day - 1
  {
    var y := MarchYear(d);
    var b, r := y / 100, y % 100;
    assert y == 100 * b + r;
    assert y / 4 == 25 * b + r / 4;
    assert y / 400 == b / 4;
  }

  // Month lengths from March, February last
  lemma MonthBounds(d: Date)
    requires ValidDate(d)
    ensures var m := MarchMonth(d);
            && 0 <= m <= 11 && 1 <= d.day && MonthStart(m) >= 0
            && (m < 11 ==> MonthStart(m) + d.day - 1 < MonthStart(m + 1))
            && (m < 11 ==> MonthStart(m) + d.day - 1 < 337)
            && (m == 11 ==> MonthStart(m) == 337 && d.day <= (if LeapYear(d.year) then 29 else 28))
  {
    var m := MarchMonth(d);
    if m == 0 {} else if m == 1 {} else if m == 2 {} else if m == 3 {} else if m == 4 {} else if m == 5 {}
    else if m == 6 {} else if m == 7 {} else if m == 8 {} else if m == 9 {} else if m == 10 {} else {}
  }

  lemma CenturyQuot(b: int)
    requires b >= 0
    ensures Quot(146097 * b, 4) == CenturyStart(b) && 4 * CenturyStart(b) == 146097 * b - b % 4
  {}

  lemma YearQuot(d: int)
    requires d >= 0
    ensures Quot(1461 * d, 4) == YearStart(d) && 4 * YearStart(d) == 1461 * d - d % 4
  {}

  // Each level of the day number can be read back by one division.
  lemma CenturyInverse(b: int, c: int)
    requires b >= 0 && 0 <= c <= 36523 + (if b % 4 == 3 then 1 else 0)
    ensures (4 * (CenturyStart(b) + c) + 3) / 146097 == b
  {
    CenturyQuot(b);
  }

  lemma YearInverse(d: int, e: int)
    requires d >= 0 && 0 <= e <= 364 + (if d % 4 == 3 then 1 else 0)
    ensures (4 * (YearStart(d) + e) + 3) / 1461 == d
  {
    YearQuot(d);
  }

  lemma MonthInverse(m: int, k: int)
    requires 0 <= m <= 11 && MonthStart(m) <= k && (if m < 11 then k < MonthStart(m + 1) else k <= 365)
    ensures (5 * k + 2) / 153 == m
  {}

  lemma LeapFromParts(b: int, d: int)
    requires 0 <= d <= 99
    ensures LeapYear(100 * b + d + 1 - 4800) <==> d % 4 == 3 && (d == 99 ==> b % 4 == 3)
  {
    var year := 100 * b + d + 1 - 4800;
    if d == 99 {
      assert year == 100 * (b + 1 - 48);
      assert year % 100 == 0;
      assert year % 400 == 0 <==> (b + 1) % 4 == 0;
    } else {
      assert year == 100 * (b - 48) + (d + 1);
      assert year % 100 == d + 1;
      assert year == 4 * (25 * (b - 48)) + (d + 1);
    }
  }

  ghost predicate PartsOk(b: int, r: int, m: int, k: int) {
    && b >= 0 && 0 <= r <= 99 && 0 <= m <= 11
    && 0 <= YearStart(r) + k <= 36523 + (if b % 4 == 3 then 1 else 0)
    && 0 <= k <= 364 + (if r % 4 == 3 then 1 else 0)
    && MonthStart(m) <= k && (if m < 11 then k < MonthStart(m + 1) else k <= 365)
  }

  lemma DateOfParts(n: int, b: int, r: int, m: int, k: int)
    requires PartsOk(b, r, m, k) && n + 32044 == CenturyStart(b) + YearStart(r) + k
    ensures DateOf(n) == Date(100 * b + r - 4800 + m / 10, m + 3 - 12 * (m / 10), k - MonthStart(m) + 1)
  {
    hide CenturyStart, YearStart, MonthStart, Quot;
    CenturyRead(b, YearStart(r) + k);
    YearRead(r, k);
    MonthRead(m, k);
  }

  lemma CenturyRead(b: int, c: int)
    requires b >= 0 && 0 <= c <= 36523 + (if b % 4 == 3 then 1 else 0)
    ensures Quot(4 * (CenturyStart(b) + c) + 3, 146097) == b && Quot(146097 * b, 4) == CenturyStart(b)
  {
    CenturyInverse(b, c);
    CenturyQuot(b);
  }

  lemma YearRead(r: int, k: int)
    requires r >= 0 && 0 <= k <= 364 + (if r % 4 == 3 then 1 else 0)
    ensures Quot(4 * (YearStart(r) + k) + 3, 1461) == r && Quot(1461 * r, 4) == YearStart(r)
  {
    YearInverse(r, k);
    YearQuot(r);
  }

  lemma MonthRead(m: int, k: int)
    requires 0 <= m <= 11 && MonthStart(m) <= k && (if m < 11 then k < MonthStart(m + 1) else k <= 365)
    ensures Quot(5 * k + 2, 153) == m && Quot(153 * m + 2, 5) == MonthStart(m) && Quot(m, 10) == m / 10
  {
    MonthInverse(m, k);
  }

  // A valid date's parts are in range.
  lemma PartsOfDate(d: Date)
    requires ValidDate(d) && MarchYear(d) >= 0
    ensures var y := MarchYear(d); PartsOk(y / 100, y % 100, MarchMonth(d), MonthStart(MarchMonth(d)) + d.day - 1)
  {
    var y, m := MarchYear(d), MarchMonth(d);
    var b, r := y / 100, y % 100;
    var k := MonthStart(m) + d.day - 1;
    hide LeapYear, MonthStart, DaysInMonth;
    MonthBounds(d);
    if m == 11 {
      LeapFromParts(b, r);
      assert d.year == 100 * b + r + 1 - 4800;
    }
  }

  // A date on or after 1 March -4800 is read back from its day number.
  lemma DateOfJulian(d: Date)
    requires ValidDate(d) && MarchYear(d) >= 0
    ensures DateOf(JulianDay(d)) == d
  {
    hide PartsOk, MonthStart, CenturyStart, YearStart, DateOf, JulianDay, LeapYear;
    var y, m := MarchYear(d), MarchMonth(d);
    JulianParts(d);
    PartsOfDate(d);
    DateOfParts(JulianDay(d), y / 100, y % 100, m, MonthStart(m) + d.day - 1);
  }

  // Every day number from -32044 on has parts in range.
  lemma PartsOfNumber(n: int) returns (b: int, r: int, m: int, k: int)
    requires n >= -32044
    ensures PartsOk(b, r, m, k) && n + 32044 == CenturyStart(b) + YearStart(r) + k && m == (5 * k + 2) / 153
    ensures k <= (if r % 4 == 3 && (r == 99 ==> b % 4 == 3) then 365 else 364)
  {
    var a := n + 32044;
    b := (4 * a + 3) / 146097;
    CenturyQuot(b);
    var c := a - CenturyStart(b);
    assert 0 <= c <= 36523 + (if b % 4 == 3 then 1 else 0);
    r, m, k := YearParts(b, c);
  }

  lemma YearParts(b: int, c: int) returns (r: int, m: int, k: int)
    requires b >= 0 && 0 <= c <= 36523 + (if b % 4 == 3 then 1 else 0)
    ensures PartsOk(b, r, m, k) && c == YearStart(r) + k && m == (5 * k + 2) / 153
    ensures k <= (if r % 4 == 3 && (r == 99 ==> b % 4 == 3) then 365 else 364)
  {
    r := (4 * c + 3) / 1461;
    YearQuot(r);
    k := c - YearStart(r);
    assert 0 <= k <= 364 + (if r % 4 == 3 then 1 else 0);
    m := (5 * k + 2) / 153;
  }

  // Every day number from -32044 on is that of a valid date.
  lemma JulianOfDate(n: int)
    requires n >= -32044
    ensures ValidDate(DateOf(n)) && MarchYear(DateOf(n)) >= 0 && JulianDay(DateOf(n)) == n
  {
    hide MonthStart, CenturyStart, YearStart, DateOf, JulianDay, LeapYear, DaysInMonth;
    var b, r, m, k := PartsOfNumber(n);
    DateOfParts(n, b, r, m, k);
    LeapFromParts(b, r);
    MonthFromParts(100 * b + r - 4800, m, k, r % 4 == 3 && (r == 99 ==> b % 4 == 3));
    var date := DateOf(n);
    assert MarchYear(date) == 100 * b + r;
    JulianParts(date);
  }

  lemma MonthFromParts(year: int, m: int, e: int, leap: bool)
    requires 0 <= e <= (if leap then 365 else 364) && m == (5 * e + 2) / 153 && 0 <= m <= 11
    requires LeapYear(year + 1) <==> leap
    ensures var d := Date(year + m / 10, m + 3 - 12 * (m / 10), e - MonthStart(m) + 1);
            ValidDate(d) && d.year == year + (if m >= 10 then 1 else 0) && MarchMonth(d) == m
  {
    if m == 0 {} else if m == 1 {} else if m == 2 {} else if m == 3 {} else if m == 4 {} else if m == 5 {}
    else if m == 6 {} else if m == 7 {} else if m == 8 {} else if m == 9 {} else if m == 10 {} else {}
  }

  // Before that the inverse yields no valid date ...
  lemma NoDateBefore(n: int)
    ensures ValidDate(DateOf(n)) <==> n >= -32044
  {
    if n >= -32044 {
      JulianOfDate(n);
    } else {
      var a := n + 32044;
      var b := Quot(4 * a + 3, 146097);
      var c := a - Quot(146097 * b, 4);
      assert c <= -1;
      var d := Quot(4 * c + 3, 1461);
      var e := c - Quot(1461 * d, 4);
      assert e <= -1;
      var m := Quot(5 * e + 2, 153);
      assert DateOf(n).day <= 0;
    }
  }

  // ... so the two are inverse exactly on the dates from 1 March -4800 on.
  lemma RoundTrip(d: Date)
    requires ValidDate(d)
    ensures DateOf(JulianDay(d)) == d <==> MarchYear(d) >= 0
  {
    hide DateOf, JulianDay, DaysInMonth, LeapYear;
    if MarchYear(d) >= 0 {
      DateOfJulian(d);
    } else {
      EarlyNumber(d);
      NoDateBefore(JulianDay(d));
    }
  }

  // Truncated division puts 29 February -4800 on the number of the day after it.
  lemma EarlyNumber(d: Date)
    requires ValidDate(d) && MarchYear(d) < 0
    ensures JulianDay(d) < -32044 || (JulianDay(d) == -32044 && d != DateOf(JulianDay(d)))
  {
    hide DaysInMonth, LeapYear, JulianDay, MonthStart, Quot, DateOf;
    MonthBounds(d);
    JulianSum(d);
    EarlyYears(MarchYear(d));
    Origin(Date(-4800, 3, 1));
  }

  lemma Origin(d: Date)
    requires d == Date(-4800, 3, 1)
    ensures JulianDay(d) == -32044 && DateOf(JulianDay(d)) == d
  {
    hide DateOf, JulianDay;
    JulianSum(d);
    DateOfJulian(d);
  }

  lemma JulianSum(d: Date)
    requires 1 <= d.month <= 12
    ensures var y := MarchYear(d);
            JulianDay(d)
            == d.day + MonthStart(MarchMonth(d)) + 365 * y + (Quot(y, 4) - Quot(y, 100) + Quot(y, 400)) - 32045
  {
    var a := Quot(14 - d.month, 12);
    assert a == if d.month <= 2 then 1 else 0;
  }

  lemma EarlyYears(y: int)
    requires y < 0
    ensures Quot(y, 4) - Quot(y, 100) + Quot(y, 400) <= 0
    ensures y == -1 ==> Quot(y, 4) == Quot(y, 100) == Quot(y, 400) == 0
  {}

  // Consecutive dates have consecutive numbers.
  lemma NextDayNumber(d: Date)
    requires ValidDate(d) && MarchYear(d) >= 0
    ensures ValidDate(NextDay(d)) && JulianDay(NextDay(d)) == JulianDay(d) + 1
  {
    hide JulianDay, CenturyStart, YearStart, LeapYear;
    var y := MarchYear(d);
    NextValid(d);
    JulianParts(d);
    JulianParts(NextDay(d));
    LeapFromParts(y / 100, y % 100);
    YearStep(y);
    assert d.month <= 2 ==> d.year == 100 * (y / 100) + y % 100 + 1 - 4800;
  }

  lemma NextValid(d: Date)
    requires ValidDate(d)
    ensures ValidDate(NextDay(d)) && MarchYear(NextDay(d)) >= MarchYear(d)
  {
    hide LeapYear;
  }

  lemma YearStep(y: int)
    requires y >= 0
    ensures var b, d := y / 100, y % 100;
            CenturyStart((y + 1) / 100) + YearStart((y + 1) % 100) ==
            CenturyStart(b) + YearStart(d) + (if d % 4 == 3 && (d == 99 ==> b % 4 == 3) then 366 else 365)
  {
    var b, d := y / 100, y % 100;
    if d == 99 {
      assert (y + 1) / 100 == b + 1 && (y + 1) % 100 == 0;
    } else {
      assert (y + 1) / 100 == b && (y + 1) % 100 == d + 1;
    }
  }

  // ----- weekdays and days of the year

  // zeller-congruence: 0 is Sunday
  function Zeller(d: Date): int {
    var y := if d.month <= 2 then d.year - 1 else d.year;
    var m := if d.month <= 2 then d.month + 12 else d.month;
    (y + Quot(y, 4) - Quot(y, 100) + Quot(y, 400) + Quot((m + 1) * 3, 5) + 2 * m + (d.day + 1)) % 7
  }

  // The congruence gives the weekday of the Julian day, from 1 March of year 0 on.
  lemma ZellerIsWeekday(d: Date)
    requires ValidDate(d) && MarchYear(d) >= 4800
    ensures Zeller(d) == (JulianDay(d) + 1) % 7
  {
    hide JulianDay, DaysInMonth, LeapYear, Quot, MonthStart;
    JulianSum(d);
    var y := if d.month <= 2 then d.year - 1 else d.year;
    var m := MarchMonth(d);
    LeapShift(y);
    ZellerMonth(m);
    var z := y + Quot(y, 4) - Quot(y, 100) + Quot(y, 400) + Quot((m + 4) * 3, 5) + 2 * (m + 3) + (d.day + 1);
    SameMod7(z, 52 * y + 4 * m + 245873);
  }

  lemma LeapShift(y: int)
    requires y >= 0
    ensures Quot(y + 4800, 4) - Quot(y + 4800, 100) + Quot(y + 4800, 400)
         == Quot(y, 4) - Quot(y, 100) + Quot(y, 400) + 1164
  {
    assert (y + 4800) / 4 == y / 4 + 1200 && (y + 4800) / 100 == y / 100 + 48 && (y + 4800) / 400 == y / 400 + 12;
  }

  lemma ZellerMonth(m: int)
    requires 0 <= m <= 11
    ensures MonthStart(m) == Quot((m + 4) * 3, 5) + 2 * (m + 3) + 28 * m - 8
  {}

  lemma SameMod7(z: int, k: int)
    ensures (z + 7 * k) % 7 == z % 7
  {}

  // The sum of the day counts of the months before
  function DaysBefore(month: int): int
    requires 1 <= month <= 12
  {
    [0, 31, 59, 90, 120, 151, 181, 212, 243, 273, 304, 334][month - 1]
  }

  // (day-of-year)
  function DayOfYear(d: Date): int
    requires 1 <= d.month <= 12
  {
    DaysBefore(d.month) + d.day + (if LeapYear(d.year) && (d.month > 3 || (d.month == 3 && d.day >= 1)) then 1 else 0)
  }

  // The day of the year is the distance from 1 January.
  lemma DayOfYearIsDistance(d: Date)
    requires ValidDate(d) && d.year >= -4799
    ensures DayOfYear(d) == JulianDay(d) - JulianDay(Date(d.year, 1, 1)) + 1
  {
    hide JulianDay, CenturyStart, YearStart, LeapYear;
    var first := Date(d.year, 1, 1);
    var y := d.year + 4799;
    JulianParts(d);
    JulianParts(first);
    if d.month > 2 {
      YearStep(y);
      LeapFromParts(y / 100, y % 100);
      assert d.year == 100 * (y / 100) + y % 100 + 1 - 4800;
    }
  }

  // ----- Easter

  // easter-month-day, in the order of its steps
  function PaschalMoon(year: int): int
    requires year >= 1
  {
    var a, b := year % 19, year / 100;
    var f := (b + 8) / 25;
    var g := (b - f + 1) / 3;
    (19 * a + b - b / 4 - g + 15) % 30
  }

  function ToSunday(year: int, h: int): int
    requires year >= 1
  {
    var b, c := year / 100, year % 100;
    (32 + 2 * (b % 4) + 2 * (c / 4) - h - c % 4) % 7
  }

  function Easter(year: int): Date
    requires year >= 1
  {
    var h := PaschalMoon(year);
    var l := ToSunday(year, h);
    var m := (year % 19 + 11 * h + 22 * l) / 451;
    var n := h + l - 7 * m + 114;
    Date(year, n / 31, n % 31 + 1)
  }

  // The distance of Easter from 22 March, and why it is a Sunday
  lemma EasterParts(year: int, h: int)
    requires year >= 1 && 0 <= h < 30
    ensures (JulianDay(Date(year, 3, 22)) + h + ToSunday(year, h) + 1) % 7 == 0 && 0 <= ToSunday(year, h) < 7
  {
    hide JulianDay, Quot;
    var b, c := year / 100, year % 100;
    var n, s := JulianDay(Date(year, 3, 22)), 32 + 2 * (b % 4) + 2 * (c / 4) - h - c % 4;
    SpringEquinox(year);
    YearLeaps(year);
    SundaySum(year, b, c, n + h + s + 1, h, s);
    RemainderStep(n + h + 1, s);
  }

  lemma SpringEquinox(year: int)
    requires year >= 1
    ensures JulianDay(Date(year, 3, 22)) == 365 * year + (Quot(year, 4) - Quot(year, 100) + Quot(year, 400)) + 1721141
  {
    hide JulianDay, Quot;
    JulianSum(Date(year, 3, 22));
    LeapShift(year);
    assert MonthStart(0) == 0;
  }

  // The sum of the day number of 22 March, h and the distance to Sunday is divisible by 7.
  lemma SundaySum(year: int, b: int, c: int, t: int, h: int, s: int)
    requires b == year / 100 && c == year % 100 && s == 32 + 2 * (b % 4) + 2 * (c / 4) - h - c % 4
    requires t == 365 * year + (25 * b + c / 4 - b + b / 4) + 1721141 + h + s + 1
    ensures t == 7 * (20871 * (b / 4) + 5218 * (b % 4) + 209 * (c / 4) + 52 * (c % 4) + 245882)
  {
    assert year == 100 * b + c && b == 4 * (b / 4) + b % 4 && c == 4 * (c / 4) + c % 4;
  }

  lemma RemainderStep(x: int, s: int)
    requires (x + s) % 7 == 0
    ensures (x + s % 7) % 7 == 0
  {
    assert x + s % 7 == x + s + 7 * -(s / 7);
    SameMod7(x + s, -(s / 7));
  }

  lemma YearLeaps(year: int)
    requires year >= 1
    ensures var b, c := year / 100, year % 100;
            Quot(year, 4) - Quot(year, 100) + Quot(year, 400) == 25 * b + c / 4 - b + b / 4
  {
    var b, c := year / 100, year % 100;
    assert year == 100 * b + c;
    assert year / 4 == 25 * b + c / 4;
    assert year / 400 == b / 4;
  }

  // Easter is a Sunday from 22 March to 25 April.
  lemma EasterIsSunday(year: int)
    requires year >= 1
    ensures var d := Easter(year);
            && ValidDate(d) && d.year == year && ((d.month == 3 && d.day >= 22) || (d.month == 4 && d.day <= 25))
            && (JulianDay(d) + 1) % 7 == 0 && Zeller(d) == 0
  {
    hide JulianDay, Zeller, DaysInMonth, PaschalMoon, ToSunday;
    var h := PaschalMoon(year);
    MoonRange(year);
    var l := ToSunday(year, h);
    EasterParts(year, h);
    var m := (year % 19 + 11 * h + 22 * l) / 451;
    EasterRange(year % 19, h, l, m);
    var d := Easter(year);
    SpringDay(year, h + l - 7 * m, d);
    SameMod7(JulianDay(d) + 1, m);
    ZellerIsWeekday(d);
  }

  // ----- the ecclesiastical full moon of the Gregorian calendar, apart from the formula

  // Century years in which the moon is put one day earlier: eight times in 2500 years, every third century
  // seven times and then after four, counted from 1800
  predicate LunarCentury(century: int) { (century + 7) % 25 != 24 && (century + 7) % 25 % 3 == 0 }

  // How many days later than in the year before the full moon falls, up to whole moons of 30 days: eleven earlier,
  // twelve when the cycle of 19 years begins again; one later when the leap day of a century year is left out, and
  // one earlier in a lunar century
  function MoonShift(year: int): int {
    -11 - (if year % 19 == 0 then 1 else 0)
    + (if year % 100 == 0 && year % 400 != 0 then 1 else 0)
    - (if year % 100 == 0 && LunarCentury(year / 100) then 1 else 0)
  }

  // The days from 21 March to the full moon, counted from 12 April 1596, the first year of a cycle
  function MoonDay(year: int): (days: int)
    ensures 0 <= days < 30
    decreases if year >= 1596 then year - 1596 else 1596 - year
  {
    if year == 1596 then 22
    else if year > 1596 then (MoonDay(year - 1) + MoonShift(year)) % 30
    else (MoonDay(year + 1) - MoonShift(year + 1)) % 30
  }

  // A full moon on the last day, or on the day before it in the second half of the cycle, is put one day earlier.
  function FullMoon(year: int): int {
    var days := MoonDay(year);
    JulianDay(Date(year, 3, 21)) + if days == 29 || (days == 28 && year % 19 > 10) then days - 1 else days
  }

  // What the formula takes the remainder of
  function MoonSum(year: int): int { 19 * (year % 19) + CenturySum(year / 100) }

  function CenturySum(b: int): int { b - b / 4 - (b - (b + 8) / 25 + 1) / 3 + 15 }

  lemma Centuries(b: int)
    requires b >= 1
    ensures b - b / 4 == b - 1 - (b - 1) / 4 + if b % 4 != 0 then 1 else 0
    ensures (b - (b + 8) / 25 + 1) / 3 == (b - 1 - (b - 1 + 8) / 25 + 1) / 3 + if LunarCentury(b) then 1 else 0
  {
    var q, r := (b + 7) / 25, (b + 7) % 25;
    assert b + 7 == 25 * q + r;
    assert (b + 8) / 25 == if r == 24 then q + 1 else q;
    LunarStep(q, r);
  }

  lemma LunarStep(q: int, r: int)
    requires 0 <= r < 25
    ensures var after, before := 25 * q + r - 7 - (if r == 24 then q + 1 else q) + 1, 25 * q + r - 8 - q + 1;
            after / 3 == before / 3 + if r != 24 && r % 3 == 0 then 1 else 0
  {
    var t := r / 3;
    assert r == 3 * t + r % 3;
    assert 25 * q + r - 8 - q + 1 == 3 * (8 * q + t - 3) + (r % 3 + 2);
    ThirdsOf(8 * q + t - 3, r % 3 + 2);
    if r == 24 {
      ThirdsOf(8 * q + t - 3, 2);
    } else {
      ThirdsOf(8 * q + t - 2, r % 3);
    }
  }

  lemma ThirdsOf(k: int, r: int)
    ensures (3 * k + r) / 3 == k + r / 3
  {}

  // From one year to the next the sum changes as the moon does, up to multiples of 30.
  lemma SumStep(year: int)
    requires year >= 2
    ensures exists k :: MoonSum(year) == MoonSum(year - 1) + MoonShift(year) + 30 * k
  {
    hide LunarCentury, CenturySum;
    var a, before := year % 19, (year - 1) % 19;
    CycleStep(year);
    CenturyStep(year);
    var k := if a == 0 then -11 else 1;
    assert 19 * a == 19 * before - 11 - (if a == 0 then 1 else 0) + 30 * k;
    assert MoonSum(year) == MoonSum(year - 1) + MoonShift(year) + 30 * k;
  }

  lemma CenturyStep(year: int)
    requires year >= 2
    ensures CenturySum(year / 100) == CenturySum((year - 1) / 100)
      + (if year % 100 == 0 && year % 400 != 0 then 1 else 0)
      - (if year % 100 == 0 && LunarCentury(year / 100) then 1 else 0)
  {
    hide LunarCentury;
    var b, c := year / 100, year % 100;
    assert year == 100 * b + c;
    Bits.QuotientIs(year - 1, 100, if c == 0 then b - 1 else b, if c == 0 then 99 else c - 1);
    if c == 0 {
      FourCenturies(b);
      Centuries(b);
    }
  }

  lemma FourCenturies(b: int)
    ensures 100 * b % 400 == 0 <==> b % 4 == 0
  {
    assert b == 4 * (b / 4) + b % 4;
    assert 100 * b == 400 * (b / 4) + 100 * (b % 4);
    Bits.QuotientIs(100 * b, 400, b / 4, 100 * (b % 4));
  }

  lemma CycleStep(year: int)
    ensures year % 19 == if (year - 1) % 19 == 18 then 0 else (year - 1) % 19 + 1
  {}

  lemma AddMod30(x: int, y: int, shift: int, k: int)
    requires x == y + shift + 30 * k
    ensures x % 30 == (y % 30 + shift) % 30 && y % 30 == (x % 30 - shift) % 30
  {
    SameMod30(y % 30 + shift, y / 30 + k);
    SameMod30(x % 30 - shift, x / 30 - k);
  }

  lemma SameMod30(x: int, k: int)
    ensures (x + 30 * k) % 30 == x % 30
  {}

  // The formula gives the day of the full moon, for every year.
  lemma {:induction false} MoonIsFormula(year: int)
    requires year >= 1
    ensures MoonDay(year) == PaschalMoon(year) == MoonSum(year) % 30
    decreases if year >= 1596 then year - 1596 else 1596 - year
  {
    hide MoonShift, MoonSum;
    FormulaIsSum(year);
    if year == 1596 {
      Anchor();
    } else if year > 1596 {
      MoonIsFormula(year - 1);
      SumStep(year);
      var k :| MoonSum(year) == MoonSum(year - 1) + MoonShift(year) + 30 * k;
      AddMod30(MoonSum(year), MoonSum(year - 1), MoonShift(year), k);
    } else {
      MoonIsFormula(year + 1);
      SumStep(year + 1);
      var k :| MoonSum(year + 1) == MoonSum(year) + MoonShift(year + 1) + 30 * k;
      AddMod30(MoonSum(year + 1), MoonSum(year), MoonShift(year + 1), k);
    }
  }

  lemma FormulaIsSum(year: int)
    requires year >= 1
    ensures PaschalMoon(year) == MoonSum(year) % 30
  {}

  lemma Anchor()
    ensures MoonSum(1596) % 30 == 22
  {}

  // Easter is the first Sunday after the full moon that falls on or follows 21 March.
  lemma EasterFollowsFullMoon(year: int)
    requires year >= 1
    ensures var d := Easter(year);
            && ValidDate(d) && (JulianDay(d) + 1) % 7 == 0
            && FullMoon(year) < JulianDay(d) <= FullMoon(year) + 7
            && JulianDay(Date(year, 3, 21)) <= FullMoon(year) <= JulianDay(Date(year, 3, 21)) + 28
  {
    hide JulianDay, Zeller, DaysInMonth, PaschalMoon, ToSunday, MoonDay;
    EasterIsSunday(year);
    MoonIsFormula(year);
    var h := PaschalMoon(year);
    EasterParts(year, h);
    var l := ToSunday(year, h);
    var m := (year % 19 + 11 * h + 22 * l) / 451;
    EasterRange(year % 19, h, l, m);
    SpringDay(year, h + l - 7 * m, Easter(year));
    DayBeforeSpring(year);
    LateMoon(year % 19, h, l, m);
  }

  // The correction m is made exactly when the uncorrected moon falls on a Sunday it should not.
  lemma LateMoon(a: int, h: int, l: int, m: int)
    requires 0 <= a < 19 && 0 <= h < 30 && 0 <= l < 7 && m == (a + 11 * h + 22 * l) / 451
    ensures m == if l == 6 && (h == 29 || (h == 28 && a > 10)) then 1 else 0
  {}

  lemma DayBeforeSpring(year: int)
    requires year >= 1
    ensures JulianDay(Date(year, 3, 22)) == JulianDay(Date(year, 3, 21)) + 1
  {
    hide JulianDay, Quot;
    JulianSum(Date(year, 3, 22));
    JulianSum(Date(year, 3, 21));
  }

  lemma MoonRange(year: int)
    requires year >= 1
    ensures 0 <= PaschalMoon(year) < 30
  {}

  // Both remainders are of non-negative numbers, so truncated and floored division agree.
  lemma EasterDividends(year: int)
    requires year >= 1
    ensures var a, b, c := year % 19, year / 100, year % 100;
            && 19 * a + b - b / 4 - (b - (b + 8) / 25 + 1) / 3 + 15 >= 0
            && 32 + 2 * (b % 4) + 2 * (c / 4) - PaschalMoon(year) - c % 4 >= 0
  {
    hide PaschalMoon;
    MoonRange(year);
  }

  lemma EasterRange(a: int, h: int, l: int, m: int)
    requires 0 <= a < 19 && 0 <= h < 30 && 0 <= l < 7 && m == (a + 11 * h + 22 * l) / 451
    ensures 0 <= h + l - 7 * m <= 34
  {}

  lemma SpringDay(year: int, k: int, d: Date)
    requires year >= 1 && 0 <= k <= 34 && d == Date(year, (k + 114) / 31, (k + 114) % 31 + 1)
    ensures ValidDate(d) && ((d.month == 3 && d.day >= 22) || (d.month == 4 && d.day <= 25))
    ensures JulianDay(d) == JulianDay(Date(year, 3, 22)) + k
  {
    hide JulianDay, Quot;
    JulianSum(d);
    JulianSum(Date(year, 3, 22));
    assert MonthStart(0) == 0 && MonthStart(1) == 31;
  }

  // ----- ISO weeks

  // Monday is 1, Sunday 7.
  function IsoDay(d: Date): int { if Zeller(d) == 0 then 7 else Zeller(d) }

  // (week-number)
  function RawWeek(d: Date): int
    requires 1 <= d.month <= 12
  {
    Quot(DayOfYear(d) - IsoDay(d) + 10, 7)
  }

  // week-number
  function WeekNumber(d: Date): int
    requires 1 <= d.month <= 12
  {
    var w := RawWeek(d);
    if w == 0 then RawWeek(Date(d.year - 1, 12, 31))
    else if w == 53 then (if RawWeek(Date(d.year + 1, 1, 1)) == 1 then 1 else 53)
    else w
  }

  // The Julian day of the Thursday in the same Monday-to-Sunday week
  function Thursday(n: int): int { n - n % 7 + 3 }

  function NewYear(year: int): int { JulianDay(Date(year, 1, 1)) }

  lemma IsoDayIs(d: Date)
    requires ValidDate(d) && MarchYear(d) >= 4800
    ensures IsoDay(d) == JulianDay(d) % 7 + 1
  {
    hide JulianDay, Zeller, DaysInMonth;
    ZellerIsWeekday(d);
  }

  // The raw week counts Thursdays since new year.
  lemma RawWeekIs(d: Date)
    requires ValidDate(d) && MarchYear(d) >= 4800
    ensures RawWeek(d) == (Thursday(JulianDay(d)) - NewYear(d.year) + 7) / 7
    ensures Thursday(JulianDay(d)) >= NewYear(d.year) - 3
  {
    hide JulianDay, IsoDay, DayOfYear, DaysInMonth;
    IsoDayIs(d);
    DayOfYearIsDistance(d);
    DayOfYearPositive(d);
  }

  lemma DayOfYearPositive(d: Date)
    requires ValidDate(d)
    ensures 1 <= DayOfYear(d) <= (if LeapYear(d.year) then 366 else 365)
  {
    hide LeapYear;
  }

  lemma YearLength(year: int)
    requires year >= -4799
    ensures NewYear(year + 1) - NewYear(year) == if LeapYear(year) then 366 else 365
    ensures JulianDay(Date(year, 12, 31)) == NewYear(year + 1) - 1
  {
    hide JulianDay, LeapYear;
    var last := Date(year, 12, 31);
    assert ValidDate(last);
    DayOfYearIsDistance(last);
    NextDayNumber(last);
  }

  lemma SameWeek(n: int, k: int)
    requires n - n % 7 <= k < n - n % 7 + 7
    ensures Thursday(k) == Thursday(n)
  {}

  // The year that owns the Thursday of a date's week
  function OwningYear(d: Date): int {
    var t := Thursday(JulianDay(d));
    if t < NewYear(d.year) then d.year - 1 else if t >= NewYear(d.year + 1) then d.year + 1 else d.year
  }

  lemma OwnsThursday(d: Date)
    requires ValidDate(d) && d.year >= 1
    ensures var y := OwningYear(d); y >= 0 && NewYear(y) <= Thursday(JulianDay(d)) < NewYear(y + 1)
    ensures NewYear(d.year) <= JulianDay(d) < NewYear(d.year + 1)
  {
    hide JulianDay, DayOfYear, LeapYear, DaysInMonth;
    DayOfYearIsDistance(d);
    DayOfYearPositive(d);
    YearLength(d.year);
    YearLength(d.year - 1);
    YearLength(d.year + 1);
  }

  // The week number is that of the week within the year that owns its Thursday.
  lemma WeekNumberIsIso(d: Date)
    requires ValidDate(d) && d.year >= 1
    ensures WeekNumber(d) == (Thursday(JulianDay(d)) - NewYear(OwningYear(d))) / 7 + 1 && 1 <= WeekNumber(d) <= 53
  {
    hide JulianDay, RawWeek, LeapYear, NewYear;
    var n := JulianDay(d);
    OwnsThursday(d);
    RawWeekIs(d);
    YearLength(d.year);
    YearLength(d.year - 1);
    if Thursday(n) < NewYear(d.year) {
      RawWeekIs(Date(d.year - 1, 12, 31));
      SameWeek(n, NewYear(d.year) - 1);
    } else if RawWeek(d) == 53 {
      RawWeekIs(Date(d.year + 1, 1, 1));
      NewYearIs(d.year + 1);
      SameWeek(n, NewYear(d.year + 1));
    }
  }

  lemma NewYearIs(year: int)
    ensures NewYear(year) == JulianDay(Date(year, 1, 1))
  {}

  // ----- unix times

  // 1 January 1970
  const EpochDay: int := 2440588

  // The second before which the calendar does not reach
  const FirstSecond: int := (-32044 - EpochDay) * 86400

  lemma EpochIs(d: Date)
    requires d == Date(1970, 1, 1)
    ensures JulianDay(d) == EpochDay
  {
    hide JulianDay;
    JulianSum(d);
  }

  class Timestamp {
    var date: Date
    var hour: int
    var minute: int
    var second: int

    constructor (date: Date, hour: int, minute: int, second: int)
      ensures this.date == date && this.hour == hour && this.minute == minute && this.second == second
    {
      this.date, this.hour, this.minute, this.second := date, hour, minute, second;
    }

    ghost predicate TimeInRange()
      reads this
    {
      0 <= hour < 24 && 0 <= minute < 60 && 0 <= second < 60
    }

    // The date has moved by a number of days. It is a valid date exactly if the calendar reaches that far,
    // and then its day number says by how much.
    ghost predicate DayMoved(before: Date, days: int)
      reads this
    {
      && (days == 0 ==> date == before)
      && (days != 0 ==> (ValidDate(date) <==> JulianDay(before) + days >= -32044))
      && (ValidDate(before) && ValidDate(date) ==> JulianDay(date) == JulianDay(before) + days)
    }

    // +day
    method AddDays(n: int)
      modifies `date
      ensures DayMoved(old(date), n)
    {
      hide JulianDay, DateOf, ValidDate;
      if n != 0 {
        ghost var number := JulianDay(date) + n;
        NoDateBefore(number);
        if number >= -32044 {
          JulianOfDate(number);
        }
        date := DateOf(JulianDay(date) + n);
      }
    }

    // +hour, +minute, +second: each unit stays in range and what it loses is carried
    method AddHours(n: int)
      requires 0 <= hour < 24
      modifies `date, `hour
      ensures 0 <= hour < 24
      ensures exists days :: DayMoved(old(date), days) && days * 24 + hour == old(hour) + n
    {
      ghost var days := 0;
      if n != 0 {
        var total := hour + n;
        hour := total % 24;
        days := total / 24;
        AddDays(total / 24);
      }
      assert DayMoved(old(date), days) && days * 24 + hour == old(hour) + n;
    }

    method AddMinutes(n: int)
      requires 0 <= hour < 24 && 0 <= minute < 60
      modifies `date, `hour, `minute
      ensures 0 <= hour < 24 && 0 <= minute < 60
      ensures exists days ::
        DayMoved(old(date), days) && days * 1440 + hour * 60 + minute == old(hour) * 60 + old(minute) + n
    {
      ghost var days := 0;
      if n != 0 {
        var total := minute + n;
        minute := total % 60;
        AddHours(total / 60);
        days :| DayMoved(old(date), days) && days * 24 + hour == old(hour) + total / 60;
      }
      assert DayMoved(old(date), days) && days * 1440 + hour * 60 + minute == old(hour) * 60 + old(minute) + n;
    }

    method AddSeconds(n: int)
      requires TimeInRange()
      modifies this
      ensures TimeInRange()
      ensures exists days :: DayMoved(old(date), days) && days * 86400 + OfDay() == old(OfDay()) + n
    {
      ghost var days := 0;
      if n != 0 {
        var total := second + n;
        second := total % 60;
        AddMinutes(total / 60);
        days :|
          DayMoved(old(date), days) && days * 1440 + hour * 60 + minute == old(hour) * 60 + old(minute) + total / 60;
      }
      assert DayMoved(old(date), days) && days * 86400 + OfDay() == old(OfDay()) + n;
    }

    // Seconds since midnight
    function OfDay(): int
      reads this
    {
      hour * 3600 + minute * 60 + second
    }

    // timestamp>unix-time, for a GMT timestamp
    function UnixTime(): int
      reads this
    {
      (JulianDay(date) - JulianDay(Date(1970, 1, 1))) * 86400 + OfDay()
    }
  }

  // unix-time>timestamp followed by timestamp>unix-time is the identity, with every field in range,
  // exactly from the first second of the calendar on.
  method FromUnixTime(n: int) returns (t: Timestamp)
    ensures fresh(t) && t.TimeInRange() && (ValidDate(t.date) <==> n >= FirstSecond)
    ensures n >= FirstSecond ==> t.UnixTime() == n
  {
    hide JulianDay, DateOf, ValidDate;
    var epoch := Date(1970, 1, 1);
    EpochIs(epoch);
    t := new Timestamp(epoch, 0, 0, 0);
    t.AddSeconds(n);
    ghost var days :| t.DayMoved(epoch, days) && days * 86400 + t.OfDay() == n;
    EpochValid(epoch);
    assert n >= FirstSecond <==> EpochDay + days >= -32044;
  }

  lemma EpochValid(epoch: Date)
    requires epoch == Date(1970, 1, 1)
    ensures ValidDate(epoch)
  {}
}
