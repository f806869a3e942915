/** Dates given as steps from today, such as "+1m, -3d". */
module RelativeDates {
  import opened CalendarSpec
  import opened DateFormatSpec
  import opened Calendar

  /** The unit is one of d, w, m and y. */
  datatype Step = Step(amount: int, unit: char)

  predicate Unit(c: char) { c == 'd' || c == 'm' || c == 'w' || c == 'y' }

  function DigitCount(s: string): (n: nat)
    ensures n <= |s|
  {
    if s == "" || !Digit(s[0]) then 0 else 1 + DigitCount(s[1..])
  }

  /** The length of a step at the start of a text, 0 if there is none. */
  function StepLength(s: string): (n: nat)
    ensures n <= |s|
    ensures n > 0 ==> n > 2 && (s[0] == '+' || s[0] == '-') && Unit(s[n - 1])
  {
    if s == "" || (s[0] != '+' && s[0] != '-') then 0
    else
      var n := 1 + DigitCount(s[1..]);
      if n > 1 && n < |s| && Unit(s[n]) then n + 1 else 0
  }

  function StepAt(s: string): Step
    requires StepLength(s) > 0
  {
    var amount: int := Leading(s[1..], 0);
    Step(if s[0] == '-' then -amount else amount, s[StepLength(s) - 1])
  }

  predicate Gap(c: char) { c == ',' || c == ' ' || c == '\t' || c == '\n' || c == '\r' || Blank(c) }

  function GapLength(s: string): (n: nat)
    ensures n <= |s|
  {
    if s != "" && Gap(s[0]) then 1 + GapLength(s[1..]) else 0
  }

  predicate MoreSteps(s: string)
    decreases |s|
  {
    s == "" ||
    var n := GapLength(s);
    n > 0 && StepLength(s[n..]) > 0 && MoreSteps(s[n + StepLength(s[n..])..])
  }

  /** The texts that are taken for steps. */
  predicate Relative(s: string) { StepLength(s) > 0 && MoreSteps(s[StepLength(s)..]) }

  /** All steps found in a text. */
  function Steps(s: string): seq<Step>
    decreases |s|
  {
    if s == "" then []
    else if StepLength(s) > 0 then [StepAt(s)] + Steps(s[StepLength(s)..])
    else Steps(s[1..])
  }

  function Stepped(day: int, step: Step): int {
    if step.unit == 'd' then day + step.amount
    else if step.unit == 'w' then day + 7 * step.amount
    else if step.unit == 'm' then Moved(day, step.amount)
    else Moved(day, 12 * step.amount)
  }

  function SteppedAll(day: int, steps: seq<Step>): int {
    if steps == [] then day else Stepped(SteppedAll(day, steps[..|steps| - 1]), steps[|steps| - 1])
  }

  /** What a step means: so many days, weeks, months or years on. */
  predicate StepMeans(from: int, step: Step, to: int) {
    && (step.unit == 'd' ==> to == from + step.amount)
    && (step.unit == 'w' ==> to == from + 7 * step.amount)
    && (step.unit == 'm' ==> MonthsOn(from, step.amount, to))
    && (step.unit == 'y' ==>
          && Year(to) == Year(from) + step.amount && Month(to) == Month(from)
          && Date(to) == if Month(from) == 1 && Date(from) == 29 && !LeapYear(Year(to)) then 28 else Date(from))
  }

  /** A day for every step, each as the step in front of it means. */
  ghost predicate Trail(days: seq<int>, steps: seq<Step>, from: int, to: int) {
    && |days| == |steps| + 1 && days[0] == from && days[|steps|] == to
    && forall i :: 0 <= i < |steps| ==> StepMeans(days[i], steps[i], days[i + 1])
  }

  lemma SteppedMeans(day: int, step: Step)
    requires Unit(step.unit)
    ensures StepMeans(day, step, Stepped(day, step))
  {
    hide Moved, Year, Month, Date, LeapYear, MonthsOn;
    MovedByTable(day, step.amount);
    MovedYears(day, step.amount);
  }

  lemma {:induction false} TrailOf(from: int, steps: seq<Step>) returns (days: seq<int>)
    requires Units(steps)
    ensures Trail(days, steps, from, SteppedAll(from, steps))
  {
    if steps == [] {
      days := [from];
    } else {
      var n := |steps| - 1;
      var init := TrailOf(from, steps[..n]);
      hide Stepped, StepMeans, Trail;
      SteppedMeans(SteppedAll(from, steps[..n]), steps[n]);
      days := init + [SteppedAll(from, steps)];
      TrailOn(init, steps, from, SteppedAll(from, steps[..n]), SteppedAll(from, steps));
    }
  }

  lemma TrailOn(days: seq<int>, steps: seq<Step>, from: int, last: int, to: int)
    requires steps != [] && Trail(days, steps[..|steps| - 1], from, last) && StepMeans(last, steps[|steps| - 1], to)
    ensures Trail(days + [to], steps, from, to)
  {
    hide StepMeans;
    var n, longer := |steps| - 1, days + [to];
    forall i | 0 <= i < |steps| ensures StepMeans(longer[i], steps[i], longer[i + 1]) {
      assert i < n ==> StepMeans(days[i], steps[..n][i], days[i + 1]);
    }
  }

  /** Date.UTC, section 15.9.4.3: years from 0 to 99 count from 1900. */
  function UtcDay(year: int, month: nat, date: int): int
    requires month < 12
  {
    MakeDay(if 0 <= year <= 99 then 1900 + year else year, month, date)
  }

  function RelativeDay(text: string, now: int): int {
    var day := SteppedAll(now, Steps(text));
    UtcDay(Year(day), Month(day), Date(day))
  }

  lemma RelativeDayIs(text: string, now: int)
    ensures var day := SteppedAll(now, Steps(text)); RelativeDay(text, now) == UtcDay(Year(day), Month(day), Date(day))
  {
  }

  lemma NotEmpty(text: string)
    requires Relative(text)
    ensures text != ""
  {
  }

  // ---------------------------------------------------------------- what is written is read

  function WriteStep(step: Step): string {
    (if step.amount < 0 then "-" else "+") + Decimal(Abs(step.amount)) + [step.unit]
  }

  /** Steps with a gap between each two of them. */
  function Write(steps: seq<Step>, gaps: seq<string>): string
    requires |steps| == |gaps| + 1
  {
    WriteStep(steps[0]) + if gaps == [] then "" else gaps[0] + Write(steps[1..], gaps[1..])
  }

  ghost predicate IsGap(gap: string) { gap != "" && forall i :: 0 <= i < |gap| ==> Gap(gap[i]) }

  ghost predicate AreGaps(gaps: seq<string>) { forall i :: 0 <= i < |gaps| ==> IsGap(gaps[i]) }

  ghost predicate Units(steps: seq<Step>) { forall i :: 0 <= i < |steps| ==> Unit(steps[i].unit) }

  lemma {:induction false} DigitCountOf(digits: string, rest: string)
    requires forall i :: 0 <= i < |digits| ==> Digit(digits[i])
    requires rest == "" || !Digit(rest[0])
    ensures DigitCount(digits + rest) == |digits|
  {
    if digits == "" {
      assert digits + rest == rest;
    } else {
      DigitCountOf(digits[1..], rest);
      assert (digits + rest)[1..] == digits[1..] + rest;
    }
  }

  lemma StepRead(step: Step, rest: string)
    requires Unit(step.unit)
    ensures var s := WriteStep(step) + rest;
            && StepLength(s) == |WriteStep(step)| && StepAt(s) == step && s[StepLength(s)..] == rest
  {
    var digits := Decimal(Abs(step.amount));
    var s := WriteStep(step) + rest;
    var tail := [step.unit] + rest;
    assert s[1..] == digits + tail;
    DigitCountOf(digits, tail);
    LeadingDecimal(Abs(step.amount), tail);
    assert s[1 + |digits|] == step.unit;
  }

  lemma {:induction false} GapRead(gap: string, rest: string)
    requires forall i :: 0 <= i < |gap| ==> Gap(gap[i])
    requires rest == "" || !Gap(rest[0])
    ensures GapLength(gap + rest) == |gap| && (gap + rest)[|gap|..] == rest
  {
    hide Gap;
    if gap == "" {
      assert gap + rest == rest;
    } else {
      GapRead(gap[1..], rest);
      assert (gap + rest)[1..] == gap[1..] + rest;
    }
  }

  lemma NoStepInGap(c: char)
    ensures Gap(c) ==> c != '+' && c != '-'
  {
  }

  lemma OtherSkipped(c: char, s: string)
    requires c != '+' && c != '-'
    ensures Steps([c] + s) == Steps(s)
  {
    assert ([c] + s)[1..] == s;
  }

  lemma {:induction false} GapSkipped(gap: string, rest: string)
    requires forall i :: 0 <= i < |gap| ==> Gap(gap[i])
    ensures Steps(gap + rest) == Steps(rest)
  {
    hide *;
    if gap == "" {
      assert gap + rest == rest;
    } else {
      GapSkipped(gap[1..], rest);
      NoStepInGap(gap[0]);
      OtherSkipped(gap[0], gap[1..] + rest);
      assert gap + rest == [gap[0]] + (gap[1..] + rest);
    }
  }

  /** A step in front of a text is recognized and read, and the rest goes on by itself. */
  lemma StepInFront(step: Step, rest: string)
    requires Unit(step.unit)
    ensures Steps(WriteStep(step) + rest) == [step] + Steps(rest)
    ensures Relative(WriteStep(step) + rest) <==> MoreSteps(rest)
  {
    StepRead(step, rest);
    hide StepLength, StepAt, WriteStep;
  }

  lemma MoreStepsIs(s: string)
    requires s != ""
    ensures var n := GapLength(s);
            MoreSteps(s) <==> n > 0 && StepLength(s[n..]) > 0 && MoreSteps(s[n + StepLength(s[n..])..])
  {
    hide GapLength, StepLength;
  }

  lemma GapInFront(gap: string, rest: string)
    requires IsGap(gap) && rest != "" && !Gap(rest[0])
    ensures MoreSteps(gap + rest) <==> Relative(rest)
  {
    hide StepLength, Gap, GapLength, MoreSteps;
    GapRead(gap, rest);
    MoreStepsIs(gap + rest);
    var k := StepLength(rest);
    assert (gap + rest)[|gap| + k..] == rest[k..];
  }

  /** Written steps are recognized as steps, and read as just these, whatever the gaps are. */
  lemma {:induction false} StepsReadBack(steps: seq<Step>, gaps: seq<string>)
    requires |steps| == |gaps| + 1 && AreGaps(gaps) && Units(steps)
    ensures Relative(Write(steps, gaps)) && Steps(Write(steps, gaps)) == steps
  {
    hide Relative, Steps, MoreSteps, WriteStep, Gap, Unit;
    if gaps == [] {
      StepInFront(steps[0], "");
      Nothing();
      assert steps == [steps[0]] + [];
    } else {
      var rest := Write(steps[1..], gaps[1..]);
      StepsReadBack(steps[1..], gaps[1..]);
      WrittenStart(steps[1..], gaps[1..]);
      NoStepInGap(rest[0]);
      StepInFront(steps[0], gaps[0] + rest);
      GapInFront(gaps[0], rest);
      GapSkipped(gaps[0], rest);
      assert steps == [steps[0]] + steps[1..];
    }
  }

  lemma WrittenStart(steps: seq<Step>, gaps: seq<string>)
    requires |steps| == |gaps| + 1
    ensures var s := Write(steps, gaps); s != "" && (s[0] == '+' || s[0] == '-')
  {
  }

  lemma Nothing()
    ensures MoreSteps("") && Steps("") == []
  {
  }

  /** A written text of steps stands for the day they lead to, except that years from 0 to 99 become 1900 to 1999. */
  lemma RelativeDayOf(steps: seq<Step>, gaps: seq<string>, now: int)
    requires |steps| == |gaps| + 1 && AreGaps(gaps) && Units(steps)
    ensures RelativeDay(Write(steps, gaps), now) == SteppedAll(now, steps) <==>
              !(0 <= Year(SteppedAll(now, steps)) <= 99)
  {
    StepsReadBack(steps, gaps);
    var day := SteppedAll(now, steps);
    MakeDayOfFields(day);
    if 0 <= Year(day) <= 99 { InCentury(day); }
  }

  /** A day is reached from another by these steps, except that one in the years 0 to 99 comes out elsewhere. */
  ghost predicate Reached(now: int, steps: seq<Step>, day: int) {
    exists days, to :: Trail(days, steps, now, to) && (0 <= Year(to) <= 99 || day == to)
  }

  lemma WrittenReaches(steps: seq<Step>, gaps: seq<string>, now: int)
    requires |steps| == |gaps| + 1 && AreGaps(gaps) && Units(steps)
    ensures Relative(Write(steps, gaps)) && Reached(now, steps, RelativeDay(Write(steps, gaps), now))
  {
    hide Trail, Relative, Steps, Year, RelativeDay, Write, SteppedAll;
    StepsReadBack(steps, gaps);
    RelativeDayOf(steps, gaps, now);
    var days := TrailOf(now, steps);
  }

  /** A single step. */
  lemma StepReaches(step: Step, now: int)
    requires Unit(step.unit)
    ensures Relative(WriteStep(step))
    ensures var day := RelativeDay(WriteStep(step), now);
            exists to :: StepMeans(now, step, to) && (0 <= Year(to) <= 99 || day == to)
  {
    hide StepMeans, Relative, Steps, Year, RelativeDay, WriteStep, SteppedAll;
    assert Write([step], []) == WriteStep(step) + "" == WriteStep(step);
    WrittenReaches([step], [], now);
    var days, to :| Trail(days, [step], now, to)
                    && (0 <= Year(to) <= 99 || RelativeDay(Write([step], []), now) == to);
    assert StepMeans(days[0], [step][0], days[0 + 1]);
  }

  /** From New Year's Day of 1970, 1900 years back lead to the year 70, and are read as 1970 again. */
  lemma FirstCenturyMisread()
    ensures var back := SteppedAll(0, [Step(-1900, 'y')]);
            Year(back) == 70 && RelativeDay("-1900y", 0) == 0 != back
  {
    hide MakeDay, Year, Month, Date, Moved, Steps, SteppedAll, Relative, Write;
    Epoch();
    Written1900();
    assert Unit('y');
    StepsReadBack([Step(-1900, 'y')], []);
    OneStep(0, Step(-1900, 'y'));
    MovedYears(0, -1900);
  }

  /** Day 0. */
  lemma Epoch()
    ensures MakeDay(1970, 0, 1) == 0 && Year(0) == 1970 && Month(0) == 0 && Date(0) == 1
  {
    assert MakeDay(1970, 0, 1) == 0;
    hide MakeDay, Year, Month, Date;
    MakeDayInverse(1970, 0, 1);
  }

  lemma OneStep(day: int, step: Step)
    ensures SteppedAll(day, [step]) == Stepped(day, step)
  {
    assert [step][..0] == [];
  }

  lemma Written1900()
    ensures Write([Step(-1900, 'y')], []) == "-1900y"
  {
    assert Decimal(1) == "1" && Decimal(19) == "19" && Decimal(190) == "190";
    assert Decimal(1900) == Decimal(190) + "0";
  }

  lemma InCentury(day: int)
    requires 0 <= Year(day) <= 99
    ensures MakeDay(1900 + Year(day), Month(day), Date(day)) != day
  {
    hide MakeDay, Date, Year, Month, MonthIndex, First;
    YearSet(day, 1900 + Year(day));
  }

  /** A text that is taken for steps starts with a sign and consists of signs, figures, units and gaps. */
  lemma RelativeChars(s: string)
    requires Relative(s)
    ensures s[0] == '+' || s[0] == '-'
    ensures forall i :: 0 <= i < |s| ==> StepChar(s[i])
  {
    hide StepLength, StepChar, MoreSteps;
    StepChars(s);
    MoreChars(s[StepLength(s)..]);
    assert s == s[..StepLength(s)] + s[StepLength(s)..];
  }

  predicate StepChar(c: char) {
    || c == '+' || c == '-' || '0' <= c <= '9' || c == 'd' || c == 'w' || c == 'm' || c == 'y'
    || c == ',' || c == ' ' || '\U{09}' <= c <= '\U{0d}' || c >= '\U{80}'
  }

  lemma {:induction false} DigitChars(s: string)
    ensures forall i :: 0 <= i < DigitCount(s) ==> '0' <= s[i] <= '9'
  {
    if s != "" && Digit(s[0]) { DigitChars(s[1..]); }
  }

  lemma StepChars(s: string)
    ensures forall i :: 0 <= i < StepLength(s) ==> StepChar(s[i])
  {
    if s != "" { DigitChars(s[1..]); }
  }

  lemma {:induction false} GapChars(s: string)
    ensures forall i :: 0 <= i < GapLength(s) ==> StepChar(s[i])
  {
    if s != "" && Gap(s[0]) { GapChars(s[1..]); }
  }

  lemma {:induction false} MoreChars(s: string)
    requires MoreSteps(s)
    ensures forall i :: 0 <= i < |s| ==> StepChar(s[i])
    decreases |s|
  {
    hide StepLength, GapLength, StepChar;
    if s != "" {
      var n := GapLength(s);
      var k := StepLength(s[n..]);
      GapChars(s);
      StepChars(s[n..]);
      MoreChars(s[n + k..]);
      assert s == s[..n] + s[n..][..k] + s[n + k..];
    }
  }

  /** A text of digits and punctuation has no units, so it is never taken for steps. */
  lemma PlainIsAbsolute(s: string)
    requires forall i :: 0 <= i < |s| ==> Punctuation(s[i]) || Digit(s[i])
    ensures !Relative(s)
  {
  }
}
