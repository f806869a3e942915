/** Days, months and years as the Date object counts them (section 15.9.1 of ECMA-262, edition 5.1): a date is a day
    number in the proleptic Gregorian calendar, and months are numbered through, twelve to a year. */
module CalendarSpec {

  // ---------------------------------------------------------------- the date picker's own tables

  /** `isLeapYear` */
  predicate LeapYear(year: int) { (year % 4 == 0 && year % 100 != 0) || year % 400 == 0 }

  /** `getDaysInMonth` */
  function DaysInMonth(year: int, month: nat): (n: nat)
    requires month < 12
    ensures 28 <= n <= 31
  {
    if month == 1 then (if LeapYear(year) then 29 else 28)
    else if month == 3 || month == 5 || month == 8 || month == 10 then 30
    else 31
  }

  // ---------------------------------------------------------------- section 15.9.1

  function DaysInYear(year: int): int { if LeapYear(year) then 366 else 365 }

  /** DayFromYear, section 15.9.1.3; 1 January 1970 is day 0. */
  function DayFromYear(year: int): int {
    365 * (year - 1970) + (year - 1969) / 4 - (year - 1901) / 100 + (year - 1601) / 400
  }

  /** The days of a year in front of a month. */
  function MonthStart(year: int, month: nat): nat
    requires month <= 12
  {
    if month == 0 then 0 else MonthStart(year, month - 1) + DaysInMonth(year, month - 1)
  }

  lemma QuotientStep(a: int, k: int)
    requires k > 0
    ensures (a + 1) / k - a / k == if (a + 1) % k == 0 then 1 else 0
  {
    var q, r := a / k, a % k;
    assert a == q * k + r;
    if r + 1 == k {
      QuotientIs(a + 1, k, q + 1, 0);
    } else {
      QuotientIs(a + 1, k, q, r + 1);
    }
  }

  lemma QuotientIs(a: int, k: int, q: int, r: int)
    requires k > 0 && a == q * k + r && 0 <= r < k
    ensures a / k == q && a % k == r
  {
    assert (a / k - q) * k == r - a % k;
    if a / k > q { Times(a / k - q, k); }
    if a / k < q { Times(q - a / k, k); }
  }

  lemma Times(p: int, k: int)
    requires p >= 1 && k > 0
    ensures p * k >= k
  {
  }

  function Quotient(a: int, k: int): int
    requires k > 0
  {
    a / k
  }

  predicate Divides(k: int, a: int)
    requires k > 0
  {
    a % k == 0
  }

  lemma DayFromYearIs(year: int)
    ensures DayFromYear(year) ==
            365 * (year - 1970) + Quotient(year - 1969, 4) - Quotient(year - 1901, 100) + Quotient(year - 1601, 400)
  {
  }

  lemma LeapYearIs(year: int)
    ensures LeapYear(year) <==> (Divides(4, year) && !Divides(100, year)) || Divides(400, year)
    ensures (Divides(400, year) ==> Divides(100, year)) && (Divides(100, year) ==> Divides(4, year))
  {
  }

  lemma YearLength(year: int)
    ensures DayFromYear(year + 1) == DayFromYear(year) + DaysInYear(year)
  {
    hide DayFromYear, LeapYear, Quotient, Divides;
    DayFromYearIs(year);
    DayFromYearIs(year + 1);
    LeapYearIs(year);
    LeapDays(year, 1969, 4, 492);
    LeapDays(year, 1901, 100, 19);
    LeapDays(year, 1601, 400, 4);
  }

  /** Counting multiples of k from a year behind one of them. */
  lemma LeapDays(year: int, base: int, k: int, m: int)
    requires k > 0 && base - 1 == m * k
    ensures Quotient(year + 1 - base, k) == Quotient(year - base, k) + if Divides(k, year) then 1 else 0
  {
    QuotientStep(year - base, k);
    Shifted(year, m, k);
  }

  lemma Shifted(a: int, m: int, k: int)
    requires k > 0
    ensures (a - m * k) % k == a % k
  {
    assert a == a / k * k + a % k;
    assert (a / k - m) * k == a / k * k - m * k;
    QuotientIs(a - m * k, k, a / k - m, a % k);
  }

  lemma MonthsFillYear(year: int)
    ensures MonthStart(year, 12) == DaysInYear(year)
  {
    var february := DaysInMonth(year, 1);
    assert MonthStart(year, 1) == 31;
    assert MonthStart(year, 2) == 31 + february;
    assert MonthStart(year, 4) == MonthStart(year, 2) + 61;
    assert MonthStart(year, 6) == MonthStart(year, 4) + 61;
    assert MonthStart(year, 8) == MonthStart(year, 6) + 62;
    assert MonthStart(year, 10) == MonthStart(year, 8) + 61;
    assert MonthStart(year, 12) == MonthStart(year, 10) + 61;
  }

  /** YearFromTime, section 15.9.1.3: the year whose first day is the last such day that is not behind this day. */
  function YearNear(day: int, year: int): (y: int)
    ensures DayFromYear(y) <= day < DayFromYear(y + 1)
    decreases if day < DayFromYear(year) then DayFromYear(year) - day
              else if day >= DayFromYear(year + 1) then day - DayFromYear(year + 1) + 1 else 0
  {
    hide DayFromYear, LeapYear;
    YearLength(year - 1);
    YearLength(year);
    YearLength(year + 1);
    if day < DayFromYear(year) then YearNear(day, year - 1)
    else if day >= DayFromYear(year + 1) then YearNear(day, year + 1)
    else year
  }

  function Year(day: int): int { YearNear(day, 1970) }

  /** MonthFromTime, section 15.9.1.4. */
  function MonthNear(year: int, dayWithinYear: nat, month: nat): (m: nat)
    requires month < 12 && MonthStart(year, month) <= dayWithinYear < MonthStart(year, 12)
    ensures m < 12 && MonthStart(year, m) <= dayWithinYear < MonthStart(year, m + 1)
    decreases 12 - month
  {
    if month == 11 || dayWithinYear < MonthStart(year, month + 1) then month
    else MonthNear(year, dayWithinYear, month + 1)
  }

  function Month(day: int): (m: nat)
    ensures m < 12
  {
    YearLength(Year(day));
    MonthsFillYear(Year(day));
    MonthNear(Year(day), day - DayFromYear(Year(day)), 0)
  }

  /** DateFromTime, section 15.9.1.5: the day of the month. */
  function Date(day: int): int {
    day - DayFromYear(Year(day)) - MonthStart(Year(day), Month(day)) + 1
  }

  /** MakeDay, section 15.9.1.12: months and days run over into the next ones. */
  function MakeDay(year: int, month: int, date: int): int {
    DayFromYear(year + month / 12) + MonthStart(year + month / 12, month % 12) + date - 1
  }

  // ---------------------------------------------------------------- months numbered through

  function MonthIndex(day: int): int { 12 * Year(day) + Month(day) }

  /** The first day of a month, and its length. */
  function First(index: int): int { DayFromYear(index / 12) + MonthStart(index / 12, index % 12) }

  function Length(index: int): (n: nat)
    ensures 28 <= n <= 31
  {
    DaysInMonth(index / 12, index % 12)
  }

  lemma SplitIndex(year: int, month: int)
    ensures (12 * year + month) / 12 == year + month / 12
    ensures (12 * year + month) % 12 == month % 12
  {
  }

  lemma MakeDayIs(year: int, month: int, date: int)
    ensures MakeDay(year, month, date) == First(12 * year + month) + date - 1
  {
    SplitIndex(year, month);
  }

  lemma FirstStep(index: int)
    ensures First(index + 1) == First(index) + Length(index)
  {
    var year, month := index / 12, index % 12;
    if month == 11 {
      YearLength(year);
      MonthsFillYear(year);
      assert (index + 1) / 12 == year + 1 && (index + 1) % 12 == 0;
    } else {
      assert (index + 1) / 12 == year && (index + 1) % 12 == month + 1;
    }
  }

  lemma {:induction false} FirstMonotone(i: int, j: int)
    requires i <= j
    ensures First(i) <= First(j)
    decreases j - i
  {
    if i < j {
      hide First;
      FirstMonotone(i, j - 1);
      FirstStep(j - 1);
    }
  }

  /** Every day lies in its month. */
  lemma Located(day: int)
    ensures First(MonthIndex(day)) <= day < First(MonthIndex(day) + 1)
    ensures Date(day) == day - First(MonthIndex(day)) + 1
    ensures 1 <= Date(day) <= Length(MonthIndex(day))
    ensures Year(day) == MonthIndex(day) / 12 && Month(day) == MonthIndex(day) % 12
  {
    MonthOf(day);
    var year, month := Year(day), Month(day);
    hide DayFromYear, MonthStart, LeapYear, Year, Month, DaysInMonth;
    SplitIndex(year, month);
    FirstStep(MonthIndex(day));
  }

  lemma MonthOf(day: int)
    ensures MonthStart(Year(day), Month(day)) <= day - DayFromYear(Year(day)) < MonthStart(Year(day), Month(day) + 1)
    ensures MonthStart(Year(day), Month(day) + 1)
              == MonthStart(Year(day), Month(day)) + DaysInMonth(Year(day), Month(day))
  {
    hide DayFromYear, LeapYear, DaysInMonth;
    YearLength(Year(day));
    MonthsFillYear(Year(day));
  }

  /** The month a day lies in is the only one. */
  lemma IndexUnique(day: int, index: int)
    requires First(index) <= day < First(index + 1)
    ensures MonthIndex(day) == index
  {
    Located(day);
    hide First, MonthIndex, Date, Year, Month;
    if MonthIndex(day) < index { FirstMonotone(MonthIndex(day) + 1, index); }
    if MonthIndex(day) > index { FirstMonotone(index + 1, MonthIndex(day)); }
  }

  /** A day is found by its year, month and day of the month, and those are read off it again. */
  lemma MakeDayInverse(year: int, month: nat, date: int)
    requires month < 12 && 1 <= date <= DaysInMonth(year, month)
    ensures var day := MakeDay(year, month, date); Year(day) == year && Month(day) == month && Date(day) == date
  {
    hide DayFromYear, MonthStart, LeapYear, Year, Month, Date, MakeDay, First;
    var day, index := MakeDay(year, month, date), 12 * year + month;
    hide DaysInMonth;
    MakeDayIs(year, month, date);
    SplitIndex(year, month);
    FirstStep(index);
    IndexUnique(day, index);
    Located(day);
  }

  lemma MakeDayOfFields(day: int)
    ensures MakeDay(Year(day), Month(day), Date(day)) == day
  {
    hide DayFromYear, MonthStart, Year, Month, Date, MakeDay, First;
    MakeDayIs(Year(day), Month(day), Date(day));
    Located(day);
  }

  /** A day of the month that is too high runs over into the next month. */
  lemma Overflow(index: int, date: int)
    requires 1 <= date <= Length(index) + Length(index + 1)
    ensures MonthIndex(First(index) + date - 1) == if date <= Length(index) then index else index + 1
    ensures Date(First(index) + date - 1) == if date <= Length(index) then date else date - Length(index)
  {
    hide First, MonthIndex, Date, Length, Year, Month;
    var day := First(index) + date - 1;
    FirstStep(index);
    FirstStep(index + 1);
    IndexUnique(day, if date <= Length(index) then index else index + 1);
    Located(day);
  }

  /** A month that is not a long one is followed by a long one in the same year. */
  lemma AfterShortMonth(index: int)
    requires Length(index) < 31
    ensures Length(index + 1) == 31 && (index + 1) / 12 == index / 12
  {
    if index % 12 != 11 {
      assert (index + 1) / 12 == index / 12 && (index + 1) % 12 == index % 12 + 1;
    }
  }

  // ---------------------------------------------------------------- the calendar in numbers

  /** Section 15.9.1.4: on which day of a common year the months begin, and the year behind it. */
  const STARTS := [0, 31, 59, 90, 120, 151, 181, 212, 243, 273, 304, 334, 365]

  /** From March on, a leap year is a day later. */
  function StartDay(month: nat, leap: bool): int
    requires month <= 12
  {
    STARTS[month] + if leap && month >= 2 then 1 else 0
  }

  lemma {:induction false} StartsAre(year: int, month: nat)
    requires month <= 12
    ensures MonthStart(year, month) == StartDay(month, LeapYear(year))
  {
    if month > 0 { StartsAre(year, month - 1); }
  }

  /** The months of a year begin on these days, and days in between have this year, this month and this date. */
  lemma MonthTable(year: int, month: nat, date: int)
    requires month < 12 && 1 <= date <= StartDay(month + 1, LeapYear(year)) - StartDay(month, LeapYear(year))
    ensures var day := DayFromYear(year) + StartDay(month, LeapYear(year)) + date - 1;
            day == MakeDay(year, month, date) && Year(day) == year && Month(day) == month && Date(day) == date
  {
    hide *;
    StartsAre(year, month);
    LengthByTable(year, month);
    MakeDayInverse(year, month, date);
    MakeDayInMonth(year, month, date);
  }

  lemma MakeDayInMonth(year: int, month: nat, date: int)
    requires month < 12
    ensures MakeDay(year, month, date) == DayFromYear(year) + MonthStart(year, month) + date - 1
  {
    hide DayFromYear, MonthStart;
  }

  lemma LengthByTable(year: int, month: nat)
    requires month < 12
    ensures DaysInMonth(year, month) == StartDay(month + 1, LeapYear(year)) - StartDay(month, LeapYear(year))
  {
    StartsAre(year, month);
    StartsAre(year, month + 1);
  }

  /** Years of a century are leap years every fourth century. */
  lemma KnownYears()
    ensures DayFromYear(1970) == 0 && DayFromYear(1969) == -365
    ensures DayFromYear(2015) == 16436 && DayFromYear(2016) == 16801
    ensures DayFromYear(2000) == 10957 && DayFromYear(2001) == 11323
    ensures DayFromYear(2100) == 47482 && DayFromYear(2101) == 47847
    ensures LeapYear(2016) && LeapYear(2000) && !LeapYear(2100) && !LeapYear(2015)
  {
  }
}
