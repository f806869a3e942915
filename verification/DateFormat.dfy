/** The date picker's loops that write a date and read one. */
module DateFormat {
  import opened Basics
  import opened CalendarSpec
  import opened DateFormatSpec
  import Calendar
  import RelativeDates

  // ---------------------------------------------------------------- formatDate

  /** `formatDate`: separators and values are pushed in turn and joined. */
  method FormatDate(date: Calendar.JsDate?, format: Format, names: (Part, nat) -> string) returns (text: string)
    ensures text == if date == null then "" else Shown(date.day, format, names)
  {
    if date == null {
      return "";
    }
    hide Value, Join;
    ghost var values := Values(date.day, format.parts, names);
    ghost var whole := Join(format.separators, values);
    var separators := format.separators;
    text := "";
    JoinStart(separators, values);
    for i := 0 to |format.parts| + 1
      invariant i <= |format.parts| ==> text + Join(separators, values[i..]) == whole
      invariant i == |format.parts| + 1 ==> text == whole
    {
      if i < |format.parts| { JoinStep(text, separators, values, i); } else { JoinEnd(separators); }
      if separators != [] {
        text := text + separators[0];
        separators := separators[1..];
      }
      if i < |format.parts| {
        text := text + Value(date.day, format.parts[i], names);
      }
    }
  }

  lemma JoinStart(separators: seq<string>, values: seq<string>)
    ensures "" + Join(separators, values[0..]) == Join(separators, values)
  {
    assert values[0..] == values;
  }

  lemma JoinEnd(separators: seq<string>)
    ensures Join(separators, []) == if separators == [] then "" else separators[0]
  {
  }

  lemma JoinStep(text: string, separators: seq<string>, values: seq<string>, i: nat)
    requires i < |values|
    ensures text + Join(separators, values[i..]) ==
            (if separators == [] then text else text + separators[0]) + values[i]
            + Join(if separators == [] then [] else separators[1..], values[i + 1..])
  {
    var more := if separators == [] then [] else separators[1..];
    JoinOne(separators, values, i);
    hide Join;
    if separators == [] {
      Regroup(text, "", values[i], Join(more, values[i + 1..]));
      assert text + "" == text;
    } else {
      Regroup(text, separators[0], values[i], Join(more, values[i + 1..]));
    }
  }

  lemma JoinOne(separators: seq<string>, values: seq<string>, i: nat)
    requires i < |values|
    ensures Join(separators, values[i..]) ==
            (if separators == [] then "" else separators[0]) + values[i]
            + Join(if separators == [] then [] else separators[1..], values[i + 1..])
  {
    assert values[i..][1..] == values[i + 1..];
  }

  lemma Regroup(a: string, b: string, c: string, d: string)
    ensures a + (b + c + d) == a + b + c + d
  {
    assert a + (b + c) == a + b + c;
  }

  // ---------------------------------------------------------------- parseDate

  /** The month setter's loop that brings the number of the month up to 0. */
  method WrapMonth(v: int) returns (w: nat)
    ensures w == (v - 1) % 12
  {
    var u := v - 1;
    while u < 0
      invariant u % 12 == (v - 1) % 12
    {
      AddYear(u);
      u := u + 12;
    }
    w := u % 12;
  }

  lemma AddYear(u: int)
    ensures (u + 12) % 12 == u % 12
  {
  }

  /** A day before one that has run over into the month behind the target. */
  lemma DayBefore(target: int, date: int)
    requires Length(target) < date <= 31
    ensures var day := First(target) + date - 1;
            MakeDay(Year(day), Month(day), Date(day) - 1) == day - 1
  {
    hide First, Date, Month, Year, Length, MakeDay, MonthIndex;
    var day := First(target) + date - 1;
    MakeDayIs(Year(day), Month(day), Date(day) - 1);
    Calendar.DateBounds(day);
    Indexed(day);
  }

  lemma Indexed(day: int)
    ensures MonthIndex(day) == 12 * Year(day) + Month(day)
  {
  }

  lemma InTarget(target: int, date: int, month: nat)
    requires 1 <= date <= 31 && month == target % 12
    ensures Month(First(target) + date - 1) == month <==> date <= Length(target)
  {
    hide First, Date, Month, Year, Length, MonthIndex;
    Calendar.RunOver(target, date);
  }

  lemma WithMonthIs(day: int, v: int, month: nat)
    requires month == (v - 1) % 12
    ensures var target := 12 * Year(day) + month;
            && target % 12 == month
            && MakeDay(Year(day), month, Date(day)) == First(target) + Date(day) - 1
            && WithMonth(day, v) == First(target) + Min(Date(day), Length(target)) - 1
  {
    hide First, Date, Year, Length, MakeDay;
    MakeDayIs(Year(day), month, Date(day));
    SplitIndex(Year(day), month);
    MonthNumbered(month + 1);
  }

  /** The `m` setter. */
  method SetMonth(date: Calendar.JsDate, v: int)
    modifies date
    ensures date.day == WithMonth(old(date.day), v)
  {
    hide First, Date, Month, Year, Length, MakeDay, MonthIndex, WithMonth;
    var month := WrapMonth(v);
    ghost var d := Date(date.day);
    ghost var target := 12 * Year(date.day) + month;
    Calendar.DateBounds(date.day);
    WithMonthIs(date.day, v, month);
    date.SetUTCMonth(month);
    InTarget(target, d, month);
    while Month(date.day) != month
      invariant Min(old(Date(date.day)), Length(target)) <= d <= old(Date(date.day)) && 1 <= d <= 31
      invariant date.day == First(target) + d - 1
      invariant Month(date.day) == month <==> d <= Length(target)
      decreases d
    {
      DayBefore(target, d);
      d := d - 1;
      date.SetUTCDate(Date(date.day) - 1);
      InTarget(target, d, month);
    }
  }

  /** `setters_map`, which has no entry for the names of weekdays. */
  method SetPart(date: Calendar.JsDate, part: Part, v: int)
    requires !Weekdays(part)
    modifies date
    ensures date.day == WithPart(old(date.day), part, v)
  {
    hide First, Date, Month, Year, Length, MakeDay, WithMonth;
    match part {
      case FullYear => date.SetUTCFullYear(v);
      case ShortYear => date.SetUTCFullYear(2000 + v);
      case ShortMonth => SetMonth(date, v);
      case LongMonth => SetMonth(date, v);
      case MonthNumber => SetMonth(date, v);
      case PaddedMonth => SetMonth(date, v);
      case Day => date.SetUTCDate(v);
      case PaddedDay => date.SetUTCDate(v);
    }
  }

  /** The loop that reads the values. */
  method ReadParts(parts: seq<Part>, texts: seq<string>, monthNumber: (Part, string) -> nat)
    returns (parsed: map<Part, Option<int>>)
    requires |parts| == |texts|
    ensures parsed == Parsed(parts, texts, monthNumber)
  {
    parsed := map[];
    for i := 0 to |parts|
      invariant parsed == Parsed(parts[..i], texts[..i], monthNumber)
    {
      var value := Number(parts[i], texts[i], monthNumber);
      parsed := parsed[parts[i] := value];
      assert parts[..i + 1][..i] == parts[..i] && texts[..i + 1][..i] == texts[..i];
    }
    assert parts[..|parts|] == parts && texts[..|texts|] == texts;
  }

  /** The loop over the setters: each one works on a copy of the date. */
  method RunSetters(today: Calendar.JsDate, parsed: map<Part, Option<int>>) returns (date: Calendar.JsDate)
    requires forall part :: part in SETTERS_ORDER ==> !Weekdays(part)
    ensures date.day == Adjusted(today.day, parsed, SETTERS_ORDER)
    ensures date == today || fresh(date)
  {
    hide WithPart;
    date := today;
    for i := 0 to |SETTERS_ORDER|
      invariant Adjusted(date.day, parsed, SETTERS_ORDER[i..]) == Adjusted(today.day, parsed, SETTERS_ORDER)
      invariant date == today || fresh(date)
      invariant today.day == old(today.day)
    {
      var part := SETTERS_ORDER[i];
      assert SETTERS_ORDER[i..][1..] == SETTERS_ORDER[i + 1..];
      if part in parsed && parsed[part].Some? {
        var copy := new Calendar.JsDate(date.day);
        SetPart(copy, part, parsed[part].value);
        date := copy;
      }
    }
  }

  // ---------------------------------------------------------------- parseDate as a whole

  /** The loop over the steps of a relative date. */
  method TakeSteps(now: Calendar.JsDate, steps: seq<RelativeDates.Step>, picker: Calendar.Datepicker)
    returns (date: Calendar.JsDate)
    ensures date.day == RelativeDates.SteppedAll(now.day, steps)
    ensures RelativeDates.Units(steps) ==> exists days :: RelativeDates.Trail(days, steps, now.day, date.day)
  {
    hide Calendar.Moved, Calendar.MonthsOn, RelativeDates.Trail;
    date := now;
    for i := 0 to |steps|
      invariant date.day == RelativeDates.SteppedAll(now.day, steps[..i])
    {
      var dir := steps[i].amount;
      assert steps[..i + 1][..i] == steps[..i];
      if steps[i].unit == 'd' {
        date := picker.MoveDay(date, dir);
      } else if steps[i].unit == 'w' {
        date := picker.MoveWeek(date, dir);
      } else if steps[i].unit == 'm' {
        if dir == 0 { Calendar.MovedNowhere(date.day); }
        date := picker.MoveMonth(date, dir);
      } else {
        date := picker.MoveYear(date, dir);
      }
    }
    assert steps[..|steps|] == steps;
    if RelativeDates.Units(steps) { ghost var days := RelativeDates.TrailOf(now.day, steps); }
  }

  /** `parseDate` on a text, with the present day in universal time and in local time. */
  method ParseDate(text: string, format: Format, now: int, today: int, monthNumber: (Part, string) -> nat,
                   picker: Calendar.Datepicker)
    returns (date: Calendar.JsDate?)
    ensures text == "" ==> date == null
    ensures text != "" ==> fresh(date)
    ensures text != "" && RelativeDates.Relative(text) ==> date.day == RelativeDates.RelativeDay(text, now)
    ensures text != "" && !RelativeDates.Relative(text) ==> date.day == ParsedDay(text, format, today, monthNumber)
    ensures forall step: RelativeDates.Step ::
              RelativeDates.Unit(step.unit) && text == RelativeDates.WriteStep(step) ==>
              date != null
                && exists to :: RelativeDates.StepMeans(now, step, to) && (0 <= Year(to) <= 99 || date.day == to)
    ensures forall steps, gaps :: |steps| == |gaps| + 1 && RelativeDates.AreGaps(gaps) && RelativeDates.Units(steps)
                                  && text == RelativeDates.Write(steps, gaps) ==>
              date != null && RelativeDates.Reached(now, steps, date.day)
  {
    hide Adjusted, Runs, Parsed, RelativeDates.Relative, RelativeDates.Steps, RelativeDates.SteppedAll, MakeDay,
         RelativeDates.StepMeans, RelativeDates.RelativeDay, RelativeDates.Write, RelativeDates.WriteStep, Year, Month,
         Date, ParsedDay, RelativeDates.Reached, RelativeDates.AreGaps, RelativeDates.Units;
    forall step: RelativeDates.Step | RelativeDates.Unit(step.unit) && text == RelativeDates.WriteStep(step)
      ensures text != "" && RelativeDates.Relative(text)
      ensures exists to :: RelativeDates.StepMeans(now, step, to)
                           && (0 <= Year(to) <= 99 || RelativeDates.RelativeDay(text, now) == to)
    {
      RelativeDates.StepReaches(step, now);
      RelativeDates.NotEmpty(text);
    }
    forall steps, gaps | |steps| == |gaps| + 1 && RelativeDates.AreGaps(gaps) && RelativeDates.Units(steps)
                         && text == RelativeDates.Write(steps, gaps)
      ensures text != "" && RelativeDates.Relative(text)
      ensures RelativeDates.Reached(now, steps, RelativeDates.RelativeDay(text, now))
    {
      RelativeDates.WrittenReaches(steps, gaps, now);
      RelativeDates.NotEmpty(text);
    }
    if text == "" {
      return null;
    }
    if RelativeDates.Relative(text) {
      var start := new Calendar.JsDate(now);
      var moved := TakeSteps(start, RelativeDates.Steps(text), picker);
      date := new Calendar.JsDate(RelativeDates.UtcDay(Year(moved.day), Month(moved.day), Date(moved.day)));
      RelativeDates.RelativeDayIs(text, now);
      return;
    }
    date := ParseAbsolute(text, format, today, monthNumber);
  }

  /** The second half of `parseDate`. */
  method ParseAbsolute(text: string, format: Format, today: int, monthNumber: (Part, string) -> nat)
    returns (date: Calendar.JsDate)
    ensures fresh(date) && date.day == ParsedDay(text, format, today, monthNumber)
  {
    hide Adjusted, Runs, Parsed;
    var texts := Runs(text);
    var start := new Calendar.JsDate(today);
    date := start;
    var parts := format.parts;
    if |texts| != |parts| {
      parts := Known(parts);
    }
    if |texts| == |parts| {
      var parsed := ReadParts(parts, texts, monthNumber);
      SettersKnown();
      date := RunSetters(start, parsed);
    }
  }

  lemma SettersKnown()
    ensures forall part :: part in SETTERS_ORDER ==> !Weekdays(part)
  {
  }

  /** A date written in numbers is never taken for steps. */
  lemma ShownIsAbsolute(day: int, format: Format, names: (Part, nat) -> string)
    requires NumericFormat(format)
    ensures Shown(day, format, names) != "" && !RelativeDates.Relative(Shown(day, format, names))
  {
    hide Shown, Values, Value, AllPlain, NumericPart;
    var values := Values(day, format.parts, names);
    forall i | 0 <= i < |values| ensures values[i] != "" && AllPlain(values[i]) {
      ValuePlain(day, format.parts[i], names);
    }
    ShownJoins(day, format, names);
    JoinPlain(format.separators, values);
    PlainText(Shown(day, format, names));
  }

  ghost predicate AllPlain(s: string) { forall i :: 0 <= i < |s| ==> Punctuation(s[i]) || Digit(s[i]) }

  lemma ShownJoins(day: int, format: Format, names: (Part, nat) -> string)
    ensures Shown(day, format, names) == Join(format.separators, Values(day, format.parts, names))
  {
  }

  lemma PlainText(s: string)
    requires AllPlain(s)
    ensures !RelativeDates.Relative(s)
  {
    RelativeDates.PlainIsAbsolute(s);
  }

  lemma ValuePlain(day: int, part: Part, names: (Part, nat) -> string)
    requires NumericPart(part)
    ensures Value(day, part, names) != "" && AllPlain(Value(day, part, names))
  {
    NumericValue(day, part, names, (_, _) => 0);
    hide Value, Core;
  }

  lemma {:induction false} JoinPlain(separators: seq<string>, values: seq<string>)
    requires Separating(separators) && |separators| == |values| + 1
    requires forall i :: 0 <= i < |values| ==> values[i] != "" && AllPlain(values[i])
    ensures AllPlain(Join(separators, values)) && (values != [] ==> Join(separators, values) != "")
  {
    if values != [] {
      JoinPlain(separators[1..], values[1..]);
    }
  }

  /** A date is written and read again, on any day: it comes back exactly if its year is not negative. Texts of numbers
      are never taken for steps from today; where names are written, the text must not be. */
  method WriteAndRead(date: Calendar.JsDate, format: Format, names: (Part, nat) -> string, now: int, today: int,
                      monthNumber: (Part, string) -> nat, picker: Calendar.Datepicker)
    returns (text: string, back: Calendar.JsDate?)
    requires ReadableFormat(format, names, monthNumber)
    ensures text == Shown(date.day, format, names) && back != null && fresh(back)
    ensures NumericFormat(format) || !RelativeDates.Relative(text) ==> (back.day == date.day <==> Year(date.day) >= 0)
  {
    hide *;
    text := FormatDate(date, format, names);
    if NumericFormat(format) { ShownIsAbsolute(date.day, format, names); }
    ShownNotEmpty(date.day, format, names, monthNumber);
    RoundTrip(date.day, format, today, names, monthNumber);
    back := ParseDate(text, format, now, today, monthNumber, picker);
  }

  lemma ShownNotEmpty(day: int, format: Format, names: (Part, nat) -> string, monthNumber: (Part, string) -> nat)
    requires ReadableFormat(format, names, monthNumber)
    ensures Shown(day, format, names) != ""
  {
    hide Shown, Cores, Readable, Separating;
    RunsOfShown(day, format, names, monthNumber);
    assert Runs("") == [];
  }
}
