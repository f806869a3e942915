/** The date picker's month arithmetic, which lets a mutable Date run over and walks it back. */
module Calendar {
  import opened Basics
  import opened CalendarSpec

  /** A JavaScript Date at midnight, universal time. */
  class JsDate {
    var day: int

    constructor (day: int)
      ensures this.day == day
    {
      this.day := day;
    }

    /** setUTCDate, section 15.9.5.37 */
    method SetUTCDate(date: int)
      modifies this
      ensures day == MakeDay(Year(old(day)), Month(old(day)), date)
    {
      day := MakeDay(Year(day), Month(day), date);
    }

    /** setUTCMonth, section 15.9.5.39 */
    method SetUTCMonth(month: int)
      modifies this
      ensures day == MakeDay(Year(old(day)), month, Date(old(day)))
    {
      day := MakeDay(Year(day), month, Date(day));
    }

    /** setUTCFullYear, section 15.9.5.41 */
    method SetUTCFullYear(year: int)
      modifies this
      ensures day == MakeDay(year, Month(old(day)), Date(old(day)))
    {
      day := MakeDay(year, Month(day), Date(day));
    }
  }

  function Abs(a: int): nat { if a < 0 then -a else a }

  /** The same day some months away, or the last of that month if it is shorter. */
  function Moved(day: int, months: int): int {
    var target := MonthIndex(day) + months;
    First(target) + Min(Date(day), Length(target)) - 1
  }

  /** The month counter moves by exactly this much, and the day of the month is kept as far as the month allows. */
  lemma MovedFields(day: int, months: int)
    ensures var moved := Moved(day, months);
            && Year(moved) * 12 + Month(moved) == Year(day) * 12 + Month(day) + months
            && Date(moved) == Min(Date(day), DaysInMonth(Year(moved), Month(moved)))
  {
    Located(day);
    var target := MonthIndex(day) + months;
    var moved := Moved(day, months);
    hide First, Date, Length, Year, Month, DaysInMonth;
    Overflow(target, Min(Date(day), Length(target)));
    Located(moved);
    LengthIs(moved);
  }

  /** A day so many months on, by the calendar's table of months: the date is kept, or is the last of a month that is
      too short for it. */
  predicate MonthsOn(day: int, months: int, moved: int) {
    var month, leap := Month(moved), LeapYear(Year(moved));
    && 12 * Year(moved) + month == 12 * Year(day) + Month(day) + months
    && Date(moved) == Min(Date(day), StartDay(month + 1, leap) - StartDay(month, leap))
  }

  /** The same by the calendar's table of months. */
  lemma MovedByTable(day: int, months: int)
    ensures MonthsOn(day, months, Moved(day, months))
  {
    hide Year, Month, Date, Moved, StartDay, DaysInMonth, LeapYear;
    MovedFields(day, months);
    LengthByTable(Year(Moved(day, months)), Month(Moved(day, months)));
  }

  lemma MovedIs(day: int, months: int)
    ensures var target := MonthIndex(day) + months;
            Moved(day, months) == First(target) + Min(Date(day), Length(target)) - 1
  {
  }

  lemma JulyToAugust()
    ensures Moved(16647, 1) == 16678
  {
    hide DayFromYear, LeapYear, Moved;
    KnownYears();
    EndsOfMonths(2015);
  }

  /** From the end of July a month leads to the end of August, from the end of August to that of September, and from
      the end of January to that of February. */
  lemma EndsOfMonths(year: int)
    ensures var first, leap := DayFromYear(year), if LeapYear(year) then 1 else 0;
            && Moved(first + leap + 211, 1) == first + leap + 242
            && Moved(first + leap + 242, 1) == first + leap + 272
            && Moved(first + 30, 1) == first + leap + 58
  {
    hide LeapYear, DayFromYear, Year, Month, Date, Moved, MakeDay;
    MonthTable(year, 6, 31);
    MonthTable(year, 7, 31);
    MonthTable(year, 0, 31);
    MovedTo(year, 6, 31, 1);
    MovedTo(year, 7, 31, 1);
    MovedTo(year, 0, 31, 1);
    MonthTable(year, 8, 30);
    MonthTable(year, 1, if LeapYear(year) then 29 else 28);
  }

  lemma MovedTo(year: int, month: nat, date: int, months: nat)
    requires month + months < 12
    requires 1 <= date <= StartDay(month + 1, LeapYear(year)) - StartDay(month, LeapYear(year))
    ensures var target := month + months;
            Moved(MakeDay(year, month, date), months) ==
            MakeDay(year, target, Min(date, StartDay(target + 1, LeapYear(year)) - StartDay(target, LeapYear(year))))
  {
    hide LeapYear, DayFromYear, Year, Month, Date, Moved, MakeDay, StartDay;
    var day := MakeDay(year, month, date);
    MonthTable(year, month, date);
    MovedByTable(day, months);
    SplitIndex(year, month + months);
    MakeDayOfFields(Moved(day, months));
  }

  lemma LengthIs(day: int)
    ensures Length(MonthIndex(day)) == DaysInMonth(Year(day), Month(day))
  {
    Located(day);
  }

  /** A year on: the same month, and only a 29 February becomes a 28th where the year is not a leap year. */
  lemma MovedYears(day: int, years: int)
    ensures var moved := Moved(day, 12 * years);
            && Year(moved) == Year(day) + years && Month(moved) == Month(day)
            && Date(moved) == if Month(day) == 1 && Date(day) == 29 && !LeapYear(Year(day) + years)
                              then 28 else Date(day)
  {
    MovedFields(day, 12 * years);
    Located(day);
    LengthIs(day);
    hide First, Date, Length, Year, Month, MonthIndex, Moved;
  }

  /** What the walk back starts from and keeps: a day counted from the first of the target month, perhaps run over. */
  lemma RunOver(target: int, date: int)
    requires 1 <= date <= 31
    ensures var day := First(target) + date - 1;
            && MonthIndex(day) == (if date <= Length(target) then target else target + 1)
            && Year(day) == MonthIndex(day) / 12 && Month(day) == MonthIndex(day) % 12
  {
    hide First, Date, Length, Year, Month, MonthIndex;
    Overflow(target, date);
    Located(First(target) + date - 1);
  }

  /** One turn of the loop: from the month behind, back by a day and into the target month again. */
  lemma WalkBack(target: int, date: int)
    requires Length(target) < date <= 31
    ensures var behind := MakeDay(Year(First(target) + date - 1), Month(First(target) + date - 1), date - 1);
            MakeDay(Year(behind), target % 12, Date(behind)) == First(target) + (date - 1) - 1
  {
    hide First, Date, Length, Year, Month, MonthIndex, MakeDay, DaysInMonth;
    var day := First(target) + date - 1;
    RunOver(target, date);
    AfterShortMonth(target);
    MakeDayIs(Year(day), Month(day), date - 1);
    var behind := MakeDay(Year(day), Month(day), date - 1);
    Overflow(target + 1, date - 1);
    Located(behind);
    MakeDayIs(Year(behind), target % 12, Date(behind));
  }

  /** The object's test closure: going one month back it asks whether the month is still the old one, otherwise
      whether it is not yet the new one. */
  predicate Beyond(back: bool, day: int, oldMonth: nat, newMonth: int) {
    if back then Month(day) == oldMonth else Month(day) != newMonth
  }

  lemma BeyondMeansRunOver(back: bool, target: int, date: int, oldMonth: nat)
    requires 1 <= date <= 31 && (back ==> oldMonth == (target + 1) % 12)
    ensures Beyond(back, First(target) + date - 1, oldMonth, target % 12) <==> date > Length(target)
  {
    hide First, Date, Length, Year, Month, MonthIndex;
    RunOver(target, date);
  }

  /** Setting the month of a date by number puts it so many days behind the first of that month. */
  lemma SetMonth(day: int, month: int)
    ensures MakeDay(Year(day), month, Date(day)) == First(MonthIndex(day) - Month(day) + month) + Date(day) - 1
  {
    hide First, Date, Year, Month, MakeDay;
    MakeDayIs(Year(day), month, Date(day));
  }

  lemma SetDate(day: int, date: int)
    ensures MakeDay(Year(day), Month(day), date) == First(MonthIndex(day)) + date - 1
  {
    hide First, Year, Month, MakeDay;
    MakeDayIs(Year(day), Month(day), date);
  }

  lemma DateBounds(day: int)
    ensures 1 <= Date(day) <= 31 && Month(day) == MonthIndex(day) % 12
    ensures First(MonthIndex(day)) + Date(day) - 1 == day
  {
    Located(day);
  }

  /** A month on or back, the month number stays between 0 and 11. */
  lemma Wrap(index: int, dir: int)
    requires dir == 1 || dir == -1
    ensures var m := index % 12 + dir; (if m < 0 || m > 11 then (m + 12) % 12 else m) == (index + dir) % 12
  {
  }

  lemma MovedMonth(day: int, months: int)
    ensures MonthIndex(Moved(day, months)) == MonthIndex(day) + months
  {
    MovedFields(day, months);
  }

  class Datepicker {
    const defaultViewDate: JsDate

    constructor (defaultViewDate: JsDate)
      ensures this.defaultViewDate == defaultViewDate
    {
      this.defaultViewDate := defaultViewDate;
    }

    /** `moveDay` */
    method MoveDay(date: JsDate, dir: int) returns (moved: JsDate)
      ensures fresh(moved) && moved.day == date.day + dir
    {
      hide First, Date, Year, Month, MakeDay, MonthIndex;
      SetDate(date.day, Date(date.day) + dir);
      DateBounds(date.day);
      moved := new JsDate(date.day);
      moved.SetUTCDate(Date(date.day) + dir);
    }

    /** `moveWeek` */
    method MoveWeek(date: JsDate, dir: int) returns (moved: JsDate)
      ensures fresh(moved) && moved.day == date.day + 7 * dir
    {
      moved := MoveDay(date, dir * 7);
    }

    /** `moveMonth`; an invalid date is a null one. */
    method MoveMonth(date: JsDate?, dir: int) returns (moved: JsDate)
      ensures date == null ==> moved == defaultViewDate
      ensures date != null && dir == 0 ==> moved == date
      ensures date != null && dir != 0 ==> fresh(moved) && moved.day == Moved(date.day, dir)
      ensures date != null && dir != 0 ==> MonthsOn(date.day, dir, moved.day)
      ensures date != null && date.day == 16647 && dir == 1 ==> moved.day == 16678 // 31 July and 31 August 2015
      decreases Abs(dir)
    {
      hide First, Date, Length, Year, Month, MonthIndex, MakeDay, Beyond, MonthsOn, Moved;
      if date == null {
        return defaultViewDate;
      }
      if dir == 0 {
        return date;
      }
      var day, month, mag := Date(date.day), Month(date.day), Abs(dir);
      var step: int := if dir > 0 then 1 else -1;
      DateBounds(date.day);
      ghost var target := MonthIndex(date.day) + dir;
      var newMonth;
      if mag == 1 {
        moved := new JsDate(date.day);
        newMonth := month + step;
        SetMonth(date.day, newMonth);
        moved.SetUTCMonth(newMonth);
        Wrap(MonthIndex(date.day), dir);
        if newMonth < 0 || newMonth > 11 {
          newMonth := (newMonth + 12) % 12;
        }
      } else {
        moved := Step(date, mag, step);
        MovedMonth(date.day, dir);
        DateBounds(moved.day);
        newMonth := Month(moved.day);
        SetDate(moved.day, day);
        moved.SetUTCDate(day);
      }
      WalkToMonth(moved, target, day, mag == 1 && step == -1, month, newMonth);
      MovedIs(date.day, dir);
      MovedByTable(date.day, dir);
      JulyToAugust();
    }

    /** For more than one month: one month at a time, which might lower the day. */
    method Step(date: JsDate, mag: nat, step: int) returns (moved: JsDate)
      requires mag > 1 && (step == 1 || step == -1)
      ensures fresh(moved) && MonthIndex(moved.day) == MonthIndex(date.day) + mag * step
      decreases mag, 0
    {
      hide First, Date, Length, Year, Month, MonthIndex;
      moved := new JsDate(date.day);
      for i := 0 to mag
        invariant fresh(moved) && MonthIndex(moved.day) == MonthIndex(date.day) + i * step
      {
        MovedMonth(moved.day, step);
        moved := MoveMonth(moved, step);
      }
    }

    /** The loop that walks a date back that has run over. */
    method WalkToMonth(date: JsDate, ghost target: int, day: int, back: bool, oldMonth: nat, newMonth: int)
      requires 1 <= day <= 31 && date.day == First(target) + day - 1
      requires newMonth == target % 12 && (back ==> oldMonth == (target + 1) % 12)
      modifies date
      ensures date.day == First(target) + Min(day, Length(target)) - 1
    {
      hide First, Date, Length, Year, Month, MonthIndex, MakeDay, Beyond;
      var d := day;
      BeyondMeansRunOver(back, target, d, oldMonth);
      while Beyond(back, date.day, oldMonth, newMonth)
        invariant 1 <= d <= day && Min(day, Length(target)) <= d
        invariant date.day == First(target) + d - 1
        invariant Beyond(back, date.day, oldMonth, newMonth) <==> d > Length(target)
        decreases d
      {
        WalkBack(target, d);
        d := d - 1;
        date.SetUTCDate(d);
        date.SetUTCMonth(newMonth);
        BeyondMeansRunOver(back, target, d, oldMonth);
      }
    }

    /** `moveYear` */
    method MoveYear(date: JsDate?, dir: int) returns (moved: JsDate)
      ensures date == null ==> moved == defaultViewDate
      ensures date != null ==> moved.day == Moved(date.day, 12 * dir)
    {
      if date != null { MovedNowhere(date.day); }
      moved := MoveMonth(date, dir * 12);
    }
  }

  lemma MovedNowhere(day: int)
    ensures Moved(day, 0) == day
  {
    Located(day);
  }
}
