/** Date formats of the date picker, the text made of a date, and the date read back from a text, on values. */
module DateFormatSpec {
  import opened Basics
  import opened CalendarSpec

  /** d, dd, D, DD, m, mm, M, MM, yy and yyyy */
  datatype Part =
    | Day | PaddedDay | ShortWeekday | LongWeekday
    | MonthNumber | PaddedMonth | ShortMonth | LongMonth
    | ShortYear | FullYear

  datatype Format = Format(separators: seq<string>, parts: seq<Part>)

  // ---------------------------------------------------------------- parseFormat

  /** `validParts`: the part that a text starts with, the longer spelling first. */
  function PartAt(s: string): Option<Part> {
    if s == "" then None
    else
      var twice := |s| > 1 && s[1] == s[0];
      if s[0] == 'd' then Some(if twice then PaddedDay else Day)
      else if s[0] == 'D' then Some(if twice then LongWeekday else ShortWeekday)
      else if s[0] == 'm' then Some(if twice then PaddedMonth else MonthNumber)
      else if s[0] == 'M' then Some(if twice then LongMonth else ShortMonth)
      else if s[0] == 'y' && twice then Some(if |s| > 3 && s[2] == s[3] == 'y' then FullYear else ShortYear)
      else None
  }

  function Spelling(part: Part): (s: string)
    ensures s != ""
  {
    match part
    case Day => "d"
    case PaddedDay => "dd"
    case ShortWeekday => "D"
    case LongWeekday => "DD"
    case MonthNumber => "m"
    case PaddedMonth => "mm"
    case ShortMonth => "M"
    case LongMonth => "MM"
    case ShortYear => "yy"
    case FullYear => "yyyy"
  }

  function Spellings(parts: seq<Part>): seq<string> {
    if parts == [] then [] else [Spelling(parts[0])] + Spellings(parts[1..])
  }

  lemma PartInFront(s: string)
    requires PartAt(s).Some?
    ensures var part := Spelling(PartAt(s).value); |part| <= |s| && s[..|part|] == part
  {
  }

  function Behind(s: string): string
    requires PartAt(s).Some?
  {
    PartInFront(s);
    s[|Spelling(PartAt(s).value)|..]
  }

  /** The format with a zero character for every part. */
  function Replace(s: string): string
    decreases |s|
  {
    if s == "" then ""
    else if PartAt(s).Some? then "\0" + Replace(Behind(s))
    else [s[0]] + Replace(s[1..])
  }

  function Match(s: string): seq<Part>
    decreases |s|
  {
    if s == "" then []
    else if PartAt(s).Some? then [PartAt(s).value] + Match(Behind(s))
    else Match(s[1..])
  }

  /** Splitting at the zero characters. */
  function Split(s: string): (pieces: seq<string>)
    ensures pieces != []
  {
    if s == "" then [""]
    else
      var pieces := Split(s[1..]);
      if s[0] == '\0' then [""] + pieces else [[s[0]] + pieces[0]] + pieces[1..]
  }

  /** `parseFormat`; a format without any part is refused. */
  function ParseFormat(format: string): Option<Format> {
    if Match(format) == [] then None else Some(Format(Split(Replace(format)), Match(format)))
  }

  /** What `formatDate` makes of separators and values: they alternate; separators that are missing are skipped,
      and spare ones are dropped. */
  function Join(separators: seq<string>, values: seq<string>): string
    decreases |values|
  {
    var separator := if separators == [] then "" else separators[0];
    if values == [] then separator
    else separator + values[0] + Join(if separators == [] then [] else separators[1..], values[1..])
  }

  predicate Rebuilt(format: string) {
    var separators, parts := Split(Replace(format)), Match(format);
    |separators| == |parts| + 1 && Join(separators, Spellings(parts)) == format
  }

  /** A format is put together again from its separators and its parts, of which there is one less. */
  lemma {:induction false} FormatRebuilt(format: string)
    requires '\0' !in format
    ensures Rebuilt(format)
    decreases |format|
  {
    if format != "" {
      if PartAt(format).Some? {
        FormatRebuilt(Behind(format));
        RebuiltBehindPart(format);
      } else {
        FormatRebuilt(format[1..]);
        RebuiltBehindOther(format);
      }
    }
  }

  lemma RebuiltBehindPart(format: string)
    requires PartAt(format).Some? && format != ""
    ensures Rebuilt(Behind(format)) ==> Rebuilt(format)
  {
    var rest, part := Behind(format), PartAt(format).value;
    assert Replace(format) == "\0" + Replace(rest) && Match(format) == [part] + Match(rest);
    PartInFront(format);
    assert format == Spelling(part) + rest;
    hide PartAt, Behind, Spelling, Replace, Match;
    assert ("\0" + Replace(rest))[1..] == Replace(rest);
    var pieces := Split(Replace(rest));
    assert Split(Replace(format)) == [""] + pieces;
    assert ([part] + Match(rest))[1..] == Match(rest);
    assert Spellings(Match(format)) == [Spelling(part)] + Spellings(Match(rest));
    JoinInFront(pieces, Spelling(part), Spellings(Match(rest)));
  }

  lemma JoinInFront(separators: seq<string>, value: string, values: seq<string>)
    ensures Join([""] + separators, [value] + values) == value + Join(separators, values)
  {
    assert ([""] + separators)[1..] == separators && ([value] + values)[1..] == values;
    assert "" + value == value;
  }

  lemma RebuiltBehindOther(format: string)
    requires PartAt(format).None? && format != "" && '\0' !in format
    ensures Rebuilt(format[1..]) ==> Rebuilt(format)
  {
    var rest, c := format[1..], format[0];
    assert Replace(format) == [c] + Replace(rest) && Match(format) == Match(rest);
    hide PartAt, Behind, Spelling, Replace, Match, Join;
    assert ([c] + Replace(rest))[1..] == Replace(rest);
    var pieces := Split(Replace(rest));
    assert c in format;
    assert Split(Replace(format)) == [[c] + pieces[0]] + pieces[1..];
    JoinFirst(c, pieces, Spellings(Match(rest)));
    assert format == [c] + rest;
  }

  lemma JoinFirst(c: char, separators: seq<string>, values: seq<string>)
    requires separators != []
    ensures Join([[c] + separators[0]] + separators[1..], values) == [c] + Join(separators, values)
  {
    assert ([[c] + separators[0]] + separators[1..])[1..] == separators[1..];
  }

  // ---------------------------------------------------------------- numbers

  predicate Digit(c: char) { '0' <= c <= '9' }

  function Decimal(n: nat): (s: string)
    ensures s != "" && forall i :: 0 <= i < |s| ==> Digit(s[i])
  {
    if n < 10 then [('0' as int + n) as char] else Decimal(n / 10) + [('0' as int + n % 10) as char]
  }

  function Signed(n: int): string { if n < 0 then "-" + Decimal(-n) else Decimal(n) }

  function Padded(n: nat): string { (if n < 10 then "0" else "") + Decimal(n) }

  /** The number in front of a text that goes on from some digits already read. */
  function Leading(s: string, n: nat): nat {
    if s == "" || !Digit(s[0]) then n else Leading(s[1..], 10 * n + (s[0] as int - '0' as int))
  }

  /** White space that is no punctuation in the sense below; `parseInt` skips it. */
  predicate Blank(c: char) {
    || c == '\U{0b}' || c == '\U{0c}' || c == '\U{a0}' || c == '\U{1680}' || ('\U{2000}' <= c <= '\U{200a}')
    || c == '\U{2028}' || c == '\U{2029}' || c == '\U{202f}' || c == '\U{205f}' || c == '\U{3000}' || c == '\U{feff}'
  }

  /** `parseInt` on a text without signs and spaces. */
  function ParseInt(s: string): Option<nat> {
    if s == "" then None
    else if Blank(s[0]) then ParseInt(s[1..])
    else if Digit(s[0]) then Some(Leading(s, 0))
    else None
  }

  lemma {:induction false} LeadingDecimal(n: nat, tail: string)
    ensures Leading(Decimal(n) + tail, 0) == Leading(tail, n)
  {
    var c := ('0' as int + n % 10) as char;
    if n < 10 {
      assert (Decimal(n) + tail)[1..] == tail;
    } else {
      LeadingDecimal(n / 10, [c] + tail);
      assert Decimal(n) + tail == Decimal(n / 10) + ([c] + tail);
      assert ([c] + tail)[1..] == tail;
    }
  }

  lemma ParseDecimal(n: nat)
    ensures ParseInt(Decimal(n)) == Some(n) && ParseInt(Padded(n)) == Some(n)
  {
    LeadingDecimal(n, "");
    assert Decimal(n) + "" == Decimal(n);
    if n < 10 {
      var zero := "0" + Decimal(n);
      assert zero[1..] == Decimal(n) && Digit(zero[0]);
      assert Leading(zero, 0) == Leading(Decimal(n), 0);
    } else {
      assert Padded(n) == Decimal(n);
    }
  }

  // ---------------------------------------------------------------- formatDate

  function Weekday(day: int): nat { (day + 4) % 7 }

  /** The value of a part; the names come from the language. */
  function Value(day: int, part: Part, names: (Part, nat) -> string): string {
    match part
    case Day => Signed(Date(day))
    case PaddedDay => (if Date(day) < 10 then "0" else "") + Signed(Date(day))
    case ShortWeekday => names(part, Weekday(day))
    case LongWeekday => names(part, Weekday(day))
    case MonthNumber => Signed(Month(day) + 1)
    case PaddedMonth => (if Month(day) + 1 < 10 then "0" else "") + Signed(Month(day) + 1)
    case ShortMonth => names(part, Month(day))
    case LongMonth => names(part, Month(day))
    case ShortYear => if |Signed(Year(day))| < 2 then "" else Signed(Year(day))[2..]
    case FullYear => Signed(Year(day))
  }

  function Values(day: int, parts: seq<Part>, names: (Part, nat) -> string): (values: seq<string>)
    ensures |values| == |parts| && forall i :: 0 <= i < |parts| ==> values[i] == Value(day, parts[i], names)
  {
    seq(|parts|, i requires 0 <= i < |parts| => Value(day, parts[i], names))
  }

  /** A number below 100 in two figures. */
  function Two(n: nat): string
    requires n < 100
  {
    [('0' as int + n / 10) as char, ('0' as int + n % 10) as char]
  }

  lemma Figures(n: nat)
    ensures n < 10 ==> Signed(n) == Two(n)[1..]
    ensures 10 <= n < 100 ==> Signed(n) == Two(n)
    ensures 1000 <= n < 10000 ==> Signed(n) == Two(n / 100) + Two(n % 100)
  {
    if 10 <= n < 100 {
      assert Decimal(n / 10) == [('0' as int + n / 10) as char];
    }
    if 1000 <= n < 10000 {
      assert Decimal(n / 1000) == [('0' as int + n / 1000) as char];
      assert Decimal(n / 100) == Decimal(n / 1000) + [('0' as int + n / 100 % 10) as char];
      assert Decimal(n / 10) == Decimal(n / 100) + [('0' as int + n / 10 % 10) as char];
      assert n / 100 / 10 == n / 1000 && n % 100 / 10 == n / 10 % 10 && n % 100 % 10 == n % 10;
    }
  }

  /** What is shown of a day of the month table, in a year of four figures. */
  lemma ShownParts(year: int, month: nat, date: int, names: (Part, nat) -> string)
    requires month < 12 && 1 <= date <= StartDay(month + 1, LeapYear(year)) - StartDay(month, LeapYear(year))
    requires 1000 <= year < 10000
    ensures date < 100
    ensures var day := DayFromYear(year) + StartDay(month, LeapYear(year)) + date - 1;
            && Value(day, Day, names) == (if date < 10 then Two(date)[1..] else Two(date))
            && Value(day, MonthNumber, names) == (if month < 9 then Two(month + 1)[1..] else Two(month + 1))
            && Value(day, PaddedDay, names) == Two(date) && Value(day, PaddedMonth, names) == Two(month + 1)
            && Value(day, FullYear, names) == Two(year / 100) + Two(year % 100)
            && Value(day, ShortYear, names) == Two(year % 100)
            && Value(day, ShortMonth, names) == names(ShortMonth, month)
            && Value(day, LongMonth, names) == names(LongMonth, month)
  {
    hide StartDay, LeapYear, DayFromYear, Year, Month, Date, Signed, MakeDay;
    MonthTable(year, month, date);
    LengthByTable(year, month);
    Figures(date);
    Figures(month + 1);
    Figures(year);
    assert date < 10 ==> "0" + Two(date)[1..] == Two(date);
    assert month < 9 ==> "0" + Two(month + 1)[1..] == Two(month + 1);
  }

  /** The weekdays, from Sunday on; 4 January 1970 was one. */
  lemma ShownWeekday(week: int, weekday: nat, names: (Part, nat) -> string)
    requires weekday < 7
    ensures Value(3 + 7 * week + weekday, ShortWeekday, names) == names(ShortWeekday, weekday)
    ensures Value(3 + 7 * week + weekday, LongWeekday, names) == names(LongWeekday, weekday)
  {
    QuotientIs(3 + 7 * week + weekday + 4, 7, week + 1, weekday);
  }

  // ---------------------------------------------------------------- parseDate

  /** The characters that `nonpunctuation` leaves out. */
  predicate Punctuation(c: char) {
    || ' ' <= c <= '/' || ':' <= c <= '@' || c == '[' || '\U{3400}' <= c <= '\U{9fff}' || c == '`' || '{' <= c <= '~'
    || c == '\t' || c == '\n' || c == '\r'
  }

  /** Of the ASCII characters these are not punctuation: letters, figures, four others, and most control characters. */
  lemma AsciiPunctuation(c: char)
    requires c < '\U{80}'
    ensures !Punctuation(c) <==>
              || 'a' <= c <= 'z' || 'A' <= c <= 'Z' || '0' <= c <= '9' || c == '\\' || c == ']' || c == '^' || c == '_'
              || c == '\U{7f}' || (c < ' ' && c != '\t' && c != '\n' && c != '\r')
  {
  }

  function RunLength(s: string): (n: nat)
    ensures n <= |s| && forall i :: 0 <= i < n ==> !Punctuation(s[i])
    ensures n < |s| ==> Punctuation(s[n])
  {
    if s == "" || Punctuation(s[0]) then 0 else 1 + RunLength(s[1..])
  }

  /** The runs of other characters, which are taken for the values. */
  function Runs(s: string): seq<string> {
    if s == "" then []
    else if Punctuation(s[0]) then Runs(s[1..])
    else [s[..RunLength(s)]] + Runs(s[RunLength(s)..])
  }

  const SETTERS_ORDER: seq<Part> :=
    [FullYear, ShortYear, ShortMonth, LongMonth, MonthNumber, PaddedMonth, Day, PaddedDay]

  predicate Weekdays(part: Part) { part.ShortWeekday? || part.LongWeekday? }

  /** Names of weekdays are no-ops; they are left aside where the text does not have as many values as the format. */
  function Known(parts: seq<Part>): seq<Part> {
    if parts == [] then []
    else (if Weekdays(parts[0]) then [] else [parts[0]]) + Known(parts[1..])
  }

  /** The number a value stands for; what is no number is looked up if it is to be the name of a month. */
  function Number(part: Part, text: string, monthNumber: (Part, string) -> nat): Option<int> {
    match ParseInt(text)
    case Some(n) => Some(n)
    case None => if part.ShortMonth? || part.LongMonth? then Some(monthNumber(part, text)) else None
  }

  function Parsed(parts: seq<Part>, texts: seq<string>, monthNumber: (Part, string) -> nat): map<Part, Option<int>>
    requires |parts| == |texts|
  {
    if parts == [] then map[]
    else
      var n := |parts| - 1;
      Parsed(parts[..n], texts[..n], monthNumber)[parts[n] := Number(parts[n], texts[n], monthNumber)]
  }

  /** The month setter: the month counts modulo 12, and the day is kept as far as the month allows. */
  function WithMonth(day: int, v: int): int {
    var target := 12 * Year(day) + (v - 1) % 12;
    First(target) + Min(Date(day), Length(target)) - 1
  }

  function WithPart(day: int, part: Part, v: int): int {
    if part.FullYear? then MakeDay(v, Month(day), Date(day))
    else if part.ShortYear? then MakeDay(2000 + v, Month(day), Date(day))
    else if part.Day? || part.PaddedDay? then MakeDay(Year(day), Month(day), v)
    else if Weekdays(part) then day
    else WithMonth(day, v)
  }

  /** One turn of the loop over the setters. */
  function WithParsed(day: int, parsed: map<Part, Option<int>>, part: Part): int {
    if part in parsed && parsed[part].Some? then WithPart(day, part, parsed[part].value) else day
  }

  /** The remaining setters. */
  function Adjusted(day: int, parsed: map<Part, Option<int>>, parts: seq<Part>): int
    decreases |parts|
  {
    if parts == [] then day else Adjusted(WithParsed(day, parsed, parts[0]), parsed, parts[1..])
  }

  /** The day an absolute date text stands for. */
  function ParsedDay(text: string, format: Format, today: int, monthNumber: (Part, string) -> nat): int {
    var texts := Runs(text);
    var parts := if |texts| == |format.parts| then format.parts else Known(format.parts);
    if |texts| == |parts| then Adjusted(today, Parsed(parts, texts, monthNumber), SETTERS_ORDER) else today
  }

  // ---------------------------------------------------------------- the setters leave nothing of today

  lemma YearSet(day: int, year: int)
    ensures Year(MakeDay(year, Month(day), Date(day))) == year
  {
    var index := 12 * year + Month(day);
    Located(day);
    MakeDayIs(year, Month(day), Date(day));
    SplitIndex(year, Month(day));
    hide First, Date, Month, Year, MonthIndex, MakeDay, DaysInMonth;
    if Date(day) > Length(index) { AfterShortMonth(index); }
    Overflow(index, Date(day));
    Located(First(index) + Date(day) - 1);
  }

  lemma MonthSet(day: int, v: int)
    ensures MonthIndex(WithMonth(day, v)) == 12 * Year(day) + (v - 1) % 12
    ensures Year(WithMonth(day, v)) == Year(day)
  {
    Located(day);
    hide First, Date, Month, Year, MonthIndex, Length;
    var r := (v - 1) % 12;
    var target := 12 * Year(day) + r;
    SplitIndex(Year(day), r);
    assert r / 12 == 0;
    Overflow(target, Min(Date(day), Length(target)));
    Located(WithMonth(day, v));
  }

  lemma DateSet(day: int, date: int)
    ensures MakeDay(Year(day), Month(day), date) == First(MonthIndex(day)) + date - 1
    ensures 1 <= date <= Length(MonthIndex(day)) ==> MonthIndex(First(MonthIndex(day)) + date - 1) == MonthIndex(day)
  {
    MakeDayIs(Year(day), Month(day), date);
    hide First, Date, Month, Year, Length, MakeDay;
    if 1 <= date <= Length(MonthIndex(day)) { Overflow(MonthIndex(day), date); }
  }

  predicate Fits(year: int, month: int, date: int) { 1 <= date <= Length(12 * year + (month - 1) % 12) }

  ghost predicate MonthGiven(parsed: map<Part, Option<int>>, month: int) {
    && (ShortMonth in parsed || LongMonth in parsed || MonthNumber in parsed || PaddedMonth in parsed)
    && (ShortMonth in parsed ==> parsed[ShortMonth] == Some(month))
    && (LongMonth in parsed ==> parsed[LongMonth] == Some(month))
    && (MonthNumber in parsed ==> parsed[MonthNumber] == Some(month))
    && (PaddedMonth in parsed ==> parsed[PaddedMonth] == Some(month))
  }

  /** A year, a month and a day are given, perhaps several times; years of two figures are those from 2000 on. The day
      fits the month unless it is given only once. */
  ghost predicate Complete(parsed: map<Part, Option<int>>, year: int, month: int, date: int) {
    && (FullYear in parsed || ShortYear in parsed) && (Day in parsed || PaddedDay in parsed)
    && (FullYear in parsed ==> parsed[FullYear] == Some(year))
    && (ShortYear in parsed ==> parsed[ShortYear] == Some(year - 2000)) && MonthGiven(parsed, month)
    && (Day in parsed ==> parsed[Day] == Some(date)) && (PaddedDay in parsed ==> parsed[PaddedDay] == Some(date))
    && (Day in parsed && PaddedDay in parsed ==> Fits(year, month, date))
  }

  lemma AllSetters(day: int, parsed: map<Part, Option<int>>)
    ensures Adjusted(day, parsed, SETTERS_ORDER) ==
            var a := WithParsed(WithParsed(day, parsed, FullYear), parsed, ShortYear);
            var b := WithParsed(WithParsed(a, parsed, ShortMonth), parsed, LongMonth);
            var c := WithParsed(WithParsed(b, parsed, MonthNumber), parsed, PaddedMonth);
            WithParsed(WithParsed(c, parsed, Day), parsed, PaddedDay)
  {
    hide WithParsed;
    var from := [ShortMonth, LongMonth, MonthNumber, PaddedMonth, Day, PaddedDay];
    AdjustTwo(day, parsed, FullYear, ShortYear, from);
    assert SETTERS_ORDER == [FullYear, ShortYear] + from;
    var a := WithParsed(WithParsed(day, parsed, FullYear), parsed, ShortYear);
    AdjustTwo(a, parsed, ShortMonth, LongMonth, from[2..]);
    assert from == [ShortMonth, LongMonth] + from[2..];
    var b := WithParsed(WithParsed(a, parsed, ShortMonth), parsed, LongMonth);
    AdjustTwo(b, parsed, MonthNumber, PaddedMonth, from[4..]);
    assert from[2..] == [MonthNumber, PaddedMonth] + from[4..];
    var c := WithParsed(WithParsed(b, parsed, MonthNumber), parsed, PaddedMonth);
    AdjustTwo(c, parsed, Day, PaddedDay, []);
    assert from[4..] == [Day, PaddedDay] + [];
  }

  lemma AdjustTwo(day: int, parsed: map<Part, Option<int>>, p: Part, q: Part, parts: seq<Part>)
    ensures Adjusted(day, parsed, [p, q] + parts)
              == Adjusted(WithParsed(WithParsed(day, parsed, p), parsed, q), parsed, parts)
  {
    hide WithParsed;
    assert ([p, q] + parts)[1..] == [q] + parts && ([q] + parts)[1..] == parts;
  }

  lemma MonthSetters(day: int, parsed: map<Part, Option<int>>, month: int)
    requires MonthGiven(parsed, month)
    ensures var b := WithParsed(WithParsed(day, parsed, ShortMonth), parsed, LongMonth);
            MonthIndex(WithParsed(WithParsed(b, parsed, MonthNumber), parsed, PaddedMonth))
              == 12 * Year(day) + (month - 1) % 12
  {
    hide First, Date, Month, Year, Length, MakeDay, WithMonth, MonthIndex;
    MonthSet(day, month);
    MonthSet(WithMonth(day, month), month);
    MonthSet(WithMonth(WithMonth(day, month), month), month);
    MonthSet(WithMonth(WithMonth(WithMonth(day, month), month), month), month);
  }

  lemma DateSetters(day: int, parsed: map<Part, Option<int>>, date: int)
    requires Day in parsed || PaddedDay in parsed
    requires (Day in parsed ==> parsed[Day] == Some(date)) && (PaddedDay in parsed ==> parsed[PaddedDay] == Some(date))
    requires Day in parsed && PaddedDay in parsed ==> 1 <= date <= Length(MonthIndex(day))
    ensures WithParsed(WithParsed(day, parsed, Day), parsed, PaddedDay) == First(MonthIndex(day)) + date - 1
  {
    hide First, Date, Month, Year, Length, MakeDay, WithMonth, MonthIndex;
    DateSet(day, date);
    DateSet(First(MonthIndex(day)) + date - 1, date);
  }

  lemma YearSetters(day: int, parsed: map<Part, Option<int>>, year: int)
    requires FullYear in parsed || ShortYear in parsed
    requires FullYear in parsed ==> parsed[FullYear] == Some(year)
    requires ShortYear in parsed ==> parsed[ShortYear] == Some(year - 2000)
    ensures Year(WithParsed(WithParsed(day, parsed, FullYear), parsed, ShortYear)) == year
  {
    YearSet(day, year);
    YearSet(MakeDay(year, Month(day), Date(day)), year);
    hide Date, Month, Year, MakeDay, WithMonth;
  }

  lemma MonthNumbered(month: nat)
    requires 1 <= month <= 12
    ensures (month - 1) % 12 == month - 1
  {
  }

  /** Whatever day the setters start from, they arrive at the day that was read. */
  lemma SettersForgetToday(today: int, parsed: map<Part, Option<int>>, year: int, month: int, date: int)
    requires Complete(parsed, year, month, date)
    ensures Adjusted(today, parsed, SETTERS_ORDER) == MakeDay(year, (month - 1) % 12, date)
  {
    hide First, Date, Month, Year, Length, MakeDay, MonthIndex, Adjusted, WithMonth, WithParsed;
    AllSetters(today, parsed);
    YearSetters(today, parsed, year);
    MakeDayIs(year, (month - 1) % 12, date);
    var a := WithParsed(WithParsed(today, parsed, FullYear), parsed, ShortYear);
    var b := WithParsed(WithParsed(a, parsed, ShortMonth), parsed, LongMonth);
    MonthSetters(a, parsed, month);
    DateSetters(WithParsed(WithParsed(b, parsed, MonthNumber), parsed, PaddedMonth), parsed, date);
  }

  lemma SettersArrive(today: int, parsed: map<Part, Option<int>>, year: int, month: nat, date: int)
    requires month < 12 && Complete(parsed, year, month + 1, date)
    ensures Adjusted(today, parsed, SETTERS_ORDER) == MakeDay(year, month, date)
  {
    hide Adjusted, MakeDay, Complete;
    MonthNumbered(month + 1);
    SettersForgetToday(today, parsed, year, month + 1, date);
  }

  // ---------------------------------------------------------------- the round trip

  predicate NumericPart(part: Part) {
    part.FullYear? || part.MonthNumber? || part.PaddedMonth? || part.Day? || part.PaddedDay?
  }

  /** A language has readable names for a part: no punctuation in them, no number at their start, and the number of a
      month is found by its name. */
  ghost predicate Named(part: Part, names: (Part, nat) -> string, monthNumber: (Part, string) -> nat) {
    && (part.ShortMonth? || part.LongMonth? || Weekdays(part))
    && forall n: nat :: n < (if Weekdays(part) then 7 else 12) ==>
         var name := names(part, n);
         && name != "" && NoPunctuation(name) && ParseInt(name) == None
         && (Weekdays(part) || monthNumber(part, name) == n + 1)
  }

  ghost predicate Readable(part: Part, names: (Part, nat) -> string, monthNumber: (Part, string) -> nat) {
    NumericPart(part) || Named(part, names, monthNumber)
  }

  ghost predicate NoPunctuation(s: string) { forall i :: 0 <= i < |s| ==> !Punctuation(s[i]) }

  ghost predicate AllPunctuation(s: string) { forall i :: 0 <= i < |s| ==> Punctuation(s[i]) }

  /** The year in full, the month and the day, and nothing else but perhaps weekdays. */
  ghost predicate ReadableParts(parts: seq<Part>, names: (Part, nat) -> string, monthNumber: (Part, string) -> nat) {
    && (forall i :: 0 <= i < |parts| ==> Readable(parts[i], names, monthNumber))
    && FullYear in parts && (Day in parts || PaddedDay in parts)
    && (ShortMonth in parts || LongMonth in parts || MonthNumber in parts || PaddedMonth in parts)
  }

  ghost predicate Separating(separators: seq<string>) {
    && separators != []
    && (forall i :: 0 <= i < |separators| ==> AllPunctuation(separators[i]))
    && (forall i :: 0 < i < |separators| - 1 ==> separators[i] != "")
  }

  /** Formats with punctuation between the parts. */
  ghost predicate ReadableFormat(format: Format, names: (Part, nat) -> string, monthNumber: (Part, string) -> nat) {
    && ReadableParts(format.parts, names, monthNumber)
    && |format.separators| == |format.parts| + 1 && Separating(format.separators)
  }

  /** Formats in numbers, for which the language does not matter. */
  ghost predicate NumericFormat(format: Format) {
    && (forall i :: 0 <= i < |format.parts| ==> NumericPart(format.parts[i]))
    && FullYear in format.parts && (Day in format.parts || PaddedDay in format.parts)
    && (MonthNumber in format.parts || PaddedMonth in format.parts)
    && |format.separators| == |format.parts| + 1 && Separating(format.separators)
  }

  lemma NumericIsReadable(format: Format, names: (Part, nat) -> string, monthNumber: (Part, string) -> nat)
    requires NumericFormat(format)
    ensures ReadableFormat(format, names, monthNumber)
  {
    hide NumericPart, Separating, Named;
  }

  function Field(day: int, part: Part): nat {
    if part.FullYear? then (if Year(day) < 0 then -Year(day) else Year(day))
    else if part.Day? || part.PaddedDay? then DateNat(day)
    else Month(day) + 1
  }

  function DateNat(day: int): (date: nat)
    ensures date == Date(day) && 1 <= date <= 31
  {
    Located(day);
    Date(day)
  }

  /** A value without the sign of a year. */
  function Core(day: int, part: Part, names: (Part, nat) -> string): string {
    if part.PaddedDay? || part.PaddedMonth? then Padded(Field(day, part))
    else if NumericPart(part) then Decimal(Field(day, part))
    else Value(day, part, names)
  }

  /** The number read from a value; none for weekdays. */
  function ReadField(day: int, part: Part): Option<int> {
    if Weekdays(part) then None else Some(Field(day, part))
  }

  lemma ValueOf(day: int, part: Part, names: (Part, nat) -> string, monthNumber: (Part, string) -> nat)
    requires Readable(part, names, monthNumber)
    ensures Value(day, part, names) == (if part.FullYear? && Year(day) < 0 then "-" else "") + Core(day, part, names)
    ensures Core(day, part, names) != "" && NoPunctuation(Core(day, part, names))
    ensures Number(part, Core(day, part, names), monthNumber) == ReadField(day, part)
  {
    hide Value, Core, Number, ReadField, NoPunctuation, Year, Named;
    if NumericPart(part) {
      NumericValue(day, part, names, monthNumber);
    } else {
      NamedValue(day, part, names, monthNumber);
    }
  }

  lemma NamedValue(day: int, part: Part, names: (Part, nat) -> string, monthNumber: (Part, string) -> nat)
    requires Named(part, names, monthNumber)
    ensures Value(day, part, names) == Core(day, part, names) && !part.FullYear?
    ensures Core(day, part, names) != "" && NoPunctuation(Core(day, part, names))
    ensures Number(part, Core(day, part, names), monthNumber) == ReadField(day, part)
  {
    hide ParseInt, Year, Month, Date, NoPunctuation, Decimal, Signed, Padded;
    assert Core(day, part, names) == names(part, if Weekdays(part) then Weekday(day) else Month(day));
  }

  lemma NumericValue(day: int, part: Part, names: (Part, nat) -> string, monthNumber: (Part, string) -> nat)
    requires NumericPart(part)
    ensures Value(day, part, names) == (if part.FullYear? && Year(day) < 0 then "-" else "") + Core(day, part, names)
    ensures Core(day, part, names) != "" && NoPunctuation(Core(day, part, names))
    ensures forall k :: 0 <= k < |Core(day, part, names)| ==> Digit(Core(day, part, names)[k])
    ensures Number(part, Core(day, part, names), monthNumber) == ReadField(day, part)
  {
    ParseDecimal(Field(day, part));
    hide Decimal, ParseInt, Year, Month, Date;
    var date := DateNat(day);
    DigitsPlain(Core(day, part, names));
  }

  lemma DigitsPlain(s: string)
    requires forall k :: 0 <= k < |s| ==> Digit(s[k])
    ensures NoPunctuation(s)
  {
  }

  function Cores(day: int, parts: seq<Part>, names: (Part, nat) -> string): (cores: seq<string>)
    ensures |cores| == |parts| && forall i :: 0 <= i < |parts| ==> cores[i] == Core(day, parts[i], names)
  {
    seq(|parts|, i requires 0 <= i < |parts| => Core(day, parts[i], names))
  }

  lemma {:induction false} SkipPunctuation(p: string, s: string)
    requires AllPunctuation(p)
    ensures Runs(p + s) == Runs(s)
  {
    if p == "" {
      assert p + s == s;
    } else {
      SkipPunctuation(p[1..], s);
      assert (p + s)[1..] == p[1..] + s;
    }
  }

  lemma {:induction false} RunLengthOf(core: string, rest: string)
    requires NoPunctuation(core)
    requires rest == "" || Punctuation(rest[0])
    ensures RunLength(core + rest) == |core|
  {
    if core == "" {
      assert core + rest == rest;
    } else {
      RunLengthOf(core[1..], rest);
      assert (core + rest)[1..] == core[1..] + rest;
    }
  }

  lemma TakeRun(core: string, rest: string)
    requires core != "" && NoPunctuation(core)
    requires rest == "" || Punctuation(rest[0])
    ensures Runs(core + rest) == [core] + Runs(rest)
  {
    RunLengthOf(core, rest);
    assert (core + rest)[0] == core[0];
    assert (core + rest)[..|core|] == core && (core + rest)[|core|..] == rest;
  }

  lemma RunInFront(separator: string, sign: string, core: string, rest: string)
    requires AllPunctuation(separator) && AllPunctuation(sign)
    requires core != "" && NoPunctuation(core)
    requires rest == "" || Punctuation(rest[0])
    ensures Runs(separator + (sign + core) + rest) == [core] + Runs(rest)
  {
    hide Runs, Punctuation, NoPunctuation;
    var signed := sign + core + rest;
    SkipPunctuation(separator, signed);
    SkipPunctuation(sign, core + rest);
    TakeRun(core, rest);
    assert signed == sign + (core + rest);
    assert separator + (sign + core) + rest == separator + signed;
  }

  /** Values that are some punctuation and then none. */
  ghost predicate Signeds(values: seq<string>, signs: seq<string>, cores: seq<string>) {
    && |values| == |signs| == |cores|
    && forall i :: 0 <= i < |values| ==>
                     && values[i] == signs[i] + cores[i] && AllPunctuation(signs[i])
                     && cores[i] != "" && NoPunctuation(cores[i])
  }

  /** A joined text goes on with punctuation behind a value. */
  lemma RestOfJoin(separators: seq<string>, values: seq<string>)
    requires Separating(separators) && |separators| == |values| + 1 && values != []
    ensures var rest := Join(separators[1..], values[1..]); rest == "" || Punctuation(rest[0])
    ensures Separating(separators[1..])
  {
  }

  /** The runs of a joined text are the values without their signs. */
  lemma {:induction false} RunsOfJoin(separators: seq<string>, values: seq<string>, signs: seq<string>,
                                      cores: seq<string>)
    requires Separating(separators) && |separators| == |values| + 1 && Signeds(values, signs, cores)
    ensures Runs(Join(separators, values)) == cores
  {
    if values == [] {
      SkipPunctuation(separators[0], "");
      assert separators[0] + "" == separators[0];
    } else {
      RestOfJoin(separators, values);
      RunsOfJoin(separators[1..], values[1..], signs[1..], cores[1..]);
      hide Runs, NoPunctuation, Punctuation;
      RunInFront(separators[0], signs[0], cores[0], Join(separators[1..], values[1..]));
    }
  }

  /** Just these parts have a value, and it is what they show of the day. */
  ghost predicate Agrees(parsed: map<Part, Option<int>>, parts: seq<Part>, day: int) {
    (forall p :: p in parsed <==> p in parts) && forall p :: p in parts ==> parsed[p] == ReadField(day, p)
  }

  lemma AgreesOn(parsed: map<Part, Option<int>>, parts: seq<Part>, day: int)
    requires parts != [] && Agrees(parsed, parts[..|parts| - 1], day)
    ensures Agrees(parsed[parts[|parts| - 1] := ReadField(day, parts[|parts| - 1])], parts, day)
  {
    hide ReadField;
    assert parts == parts[..|parts| - 1] + [parts[|parts| - 1]];
  }

  lemma {:induction false} ParsedCores(day: int, parts: seq<Part>, names: (Part, nat) -> string,
                                       monthNumber: (Part, string) -> nat)
    requires forall i :: 0 <= i < |parts| ==> Readable(parts[i], names, monthNumber)
    ensures Agrees(Parsed(parts, Cores(day, parts, names), monthNumber), parts, day)
  {
    hide Core, ReadField, Number, Readable;
    if parts != [] {
      hide Agrees;
      var n := |parts| - 1;
      ParsedCores(day, parts[..n], names, monthNumber);
      ParsedOne(day, parts, names, monthNumber);
      ValueOf(day, parts[n], names, monthNumber);
      hide Parsed, Cores;
      AgreesOn(Parsed(parts[..n], Cores(day, parts[..n], names), monthNumber), parts, day);
    }
  }

  lemma ParsedOne(day: int, parts: seq<Part>, names: (Part, nat) -> string, monthNumber: (Part, string) -> nat)
    requires parts != []
    ensures var n := |parts| - 1;
            Parsed(parts, Cores(day, parts, names), monthNumber) ==
            Parsed(parts[..n], Cores(day, parts[..n], names), monthNumber)
              [parts[n] := Number(parts[n], Core(day, parts[n], names), monthNumber)]
  {
    hide Core, Number;
    var n := |parts| - 1;
    assert Cores(day, parts, names)[..n] == Cores(day, parts[..n], names);
  }

  function Shown(day: int, format: Format, names: (Part, nat) -> string): string {
    Join(format.separators, Values(day, format.parts, names))
  }

  function Signs(day: int, parts: seq<Part>): (signs: seq<string>)
    ensures |signs| == |parts|
    ensures forall i :: 0 <= i < |parts| ==> signs[i] == if parts[i].FullYear? && Year(day) < 0 then "-" else ""
  {
    seq(|parts|, i requires 0 <= i < |parts| => if parts[i].FullYear? && Year(day) < 0 then "-" else "")
  }

  lemma ValuesSigned(day: int, parts: seq<Part>, names: (Part, nat) -> string, monthNumber: (Part, string) -> nat)
    requires forall i :: 0 <= i < |parts| ==> Readable(parts[i], names, monthNumber)
    ensures Signeds(Values(day, parts, names), Signs(day, parts), Cores(day, parts, names))
  {
    hide Value, Core, Readable, NoPunctuation, Year, Number;
    forall i | 0 <= i < |parts|
      ensures Values(day, parts, names)[i] == Signs(day, parts)[i] + Cores(day, parts, names)[i]
      ensures Cores(day, parts, names)[i] != "" && NoPunctuation(Cores(day, parts, names)[i])
    {
      ValueOf(day, parts[i], names, monthNumber);
    }
  }

  lemma ParsedAt(day: int, parts: seq<Part>, names: (Part, nat) -> string, monthNumber: (Part, string) -> nat,
                 part: Part)
    requires forall i :: 0 <= i < |parts| ==> Readable(parts[i], names, monthNumber)
    ensures var parsed := Parsed(parts, Cores(day, parts, names), monthNumber);
            if part in parts then part in parsed && parsed[part] == ReadField(day, part) else part !in parsed
    ensures part.ShortYear? ==> part !in parts
  {
    ParsedCores(day, parts, names, monthNumber);
    hide Parsed, Cores, ReadField;
  }

  lemma FieldsAre(day: int)
    ensures ReadField(day, MonthNumber) == ReadField(day, PaddedMonth) == Some(Month(day) + 1)
    ensures ReadField(day, ShortMonth) == ReadField(day, LongMonth) == Some(Month(day) + 1)
    ensures ReadField(day, Day) == ReadField(day, PaddedDay) == Some(Date(day))
    ensures ReadField(day, FullYear) == Some(Field(day, FullYear))
  {
    hide Year, Month, Date;
    var date := DateNat(day);
  }

  lemma ReadComplete(day: int, parts: seq<Part>, names: (Part, nat) -> string, monthNumber: (Part, string) -> nat)
    requires ReadableParts(parts, names, monthNumber)
    ensures Complete(Parsed(parts, Cores(day, parts, names), monthNumber), Field(day, FullYear), Month(day) + 1,
                     Date(day))
  {
    FieldsAre(day);
    SameLength(day);
    hide Parsed, Cores, Year, Month, Date, Field, ReadField, Fits, Readable;
    ParsedAt(day, parts, names, monthNumber, FullYear);
    ParsedAt(day, parts, names, monthNumber, ShortYear);
    ParsedAt(day, parts, names, monthNumber, ShortMonth);
    ParsedAt(day, parts, names, monthNumber, LongMonth);
    ParsedAt(day, parts, names, monthNumber, MonthNumber);
    ParsedAt(day, parts, names, monthNumber, PaddedMonth);
    ParsedAt(day, parts, names, monthNumber, Day);
    ParsedAt(day, parts, names, monthNumber, PaddedDay);
  }

  lemma MultipleSign(y: int, k: int)
    requires k > 0
    ensures (-y) % k == 0 <==> y % k == 0
  {
    var q := y / k;
    if y % k == 0 { QuotientIs(-y, k, -q, 0); } else { QuotientIs(-y, k, -q - 1, k - y % k); }
  }

  /** Leap years are the same with and without the sign. */
  lemma LeapYearSign(year: int)
    ensures LeapYear(-year) <==> LeapYear(year)
  {
    MultipleSign(year, 4);
    MultipleSign(year, 100);
    MultipleSign(year, 400);
  }

  lemma SameLength(day: int)
    ensures Date(day) <= DaysInMonth(Field(day, FullYear), Month(day))
    ensures Fits(Field(day, FullYear), Month(day) + 1, Date(day))
  {
    hide LeapYear, Date, Year, Month;
    MonthNumbered(Month(day) + 1);
    Located(day);
    SplitIndex(Field(day, FullYear), Month(day));
    SplitIndex(Year(day), Month(day));
    LeapYearSign(Year(day));
  }

  lemma RunsOfShown(day: int, format: Format, names: (Part, nat) -> string, monthNumber: (Part, string) -> nat)
    requires ReadableFormat(format, names, monthNumber)
    ensures Runs(Shown(day, format, names)) == Cores(day, format.parts, names)
  {
    hide Values, Cores, Signs, Runs, Join, Readable, Separating;
    var parts := format.parts;
    ValuesSigned(day, parts, names, monthNumber);
    RunsOfJoin(format.separators, Values(day, parts, names), Signs(day, parts), Cores(day, parts, names));
  }

  lemma ReadCores(text: string, day: int, format: Format, today: int, names: (Part, nat) -> string,
                  monthNumber: (Part, string) -> nat)
    requires ReadableParts(format.parts, names, monthNumber)
    ensures Runs(text) == Cores(day, format.parts, names) ==>
              ParsedDay(text, format, today, monthNumber) == MakeDay(Field(day, FullYear), Month(day), Date(day))
  {
    hide Parsed, Adjusted, MakeDay, Field, Year, Month, Date, Runs, Core, Complete, ReadableParts;
    ReadComplete(day, format.parts, names, monthNumber);
    SettersArrive(today, Parsed(format.parts, Cores(day, format.parts, names), monthNumber), Field(day, FullYear),
                  Month(day), Date(day));
  }

  /** What is read is the date in the year without its sign, whatever day is today. */
  lemma ReadShown(day: int, format: Format, today: int, names: (Part, nat) -> string,
                  monthNumber: (Part, string) -> nat)
    requires ReadableFormat(format, names, monthNumber)
    ensures ParsedDay(Shown(day, format, names), format, today, monthNumber) ==
            MakeDay(Field(day, FullYear), Month(day), Date(day))
  {
    hide Shown, ParsedDay, Cores, MakeDay, Field, Year, Month, Date, Runs, ReadableParts, Separating;
    RunsOfShown(day, format, names, monthNumber);
    ReadCores(Shown(day, format, names), day, format, today, names, monthNumber);
  }

  /** Reading a date that was shown gives it back, whatever day is today, in numbers or with names, exactly where the
      year is not negative: the sign is punctuation to the reader. */
  lemma RoundTrip(day: int, format: Format, today: int, names: (Part, nat) -> string,
                  monthNumber: (Part, string) -> nat)
    requires ReadableFormat(format, names, monthNumber)
    ensures ParsedDay(Shown(day, format, names), format, today, monthNumber) == day <==> Year(day) >= 0
  {
    hide Shown, ParsedDay, MakeDay, Year, Month, Date, DaysInMonth, ReadableFormat;
    ReadShown(day, format, today, names, monthNumber);
    MakeDayOfFields(day);
    SameLength(day);
    var date := DateNat(day);
    MakeDayInverse(Field(day, FullYear), Month(day), Date(day));
  }

  /** A weekday of the format may be missing in the text. */
  lemma WeekdayMissing(day: int, plain: Format, format: Format, today: int, names: (Part, nat) -> string,
                       monthNumber: (Part, string) -> nat)
    requires ReadableFormat(plain, names, monthNumber)
    requires ShortWeekday !in plain.parts && LongWeekday !in plain.parts
    requires format.parts == [ShortWeekday] + plain.parts || format.parts == [LongWeekday] + plain.parts
    ensures ParsedDay(Shown(day, plain, names), format, today, monthNumber) == day <==> Year(day) >= 0
  {
    hide *;
    RunsOfShown(day, plain, names, monthNumber);
    LeftAside(format.parts, plain.parts);
    ReadAlike(Shown(day, plain, names), format, plain, today, monthNumber);
    RoundTrip(day, plain, today, names, monthNumber);
  }

  lemma ReadAlike(text: string, format: Format, plain: Format, today: int, monthNumber: (Part, string) -> nat)
    requires |Runs(text)| == |plain.parts| != |format.parts| && Known(format.parts) == plain.parts
    ensures ParsedDay(text, format, today, monthNumber) == ParsedDay(text, plain, today, monthNumber)
  {
    hide Runs, Adjusted, Parsed, Known;
  }

  lemma LeftAside(parts: seq<Part>, plain: seq<Part>)
    requires ShortWeekday !in plain && LongWeekday !in plain
    requires parts == [ShortWeekday] + plain || parts == [LongWeekday] + plain
    ensures Known(parts) == plain && |parts| != |plain|
  {
    NoneLeftAside(plain);
    assert parts[1..] == plain;
  }

  lemma {:induction false} NoneLeftAside(parts: seq<Part>)
    requires ShortWeekday !in parts && LongWeekday !in parts
    ensures Known(parts) == parts
  {
    if parts != [] {
      assert parts[0] in parts;
      NoneLeftAside(parts[1..]);
    }
  }

  const DEFAULT_FORMAT := Format(["", "/", "/", ""], [PaddedMonth, PaddedDay, FullYear])

  /** New Year's Day of the year -1 is read as that of the year 1. */
  lemma NegativeYearMisread(today: int, names: (Part, nat) -> string, monthNumber: (Part, string) -> nat)
    ensures var day := MakeDay(-1, 0, 1);
            ParsedDay(Shown(day, DEFAULT_FORMAT, names), DEFAULT_FORMAT, today, monthNumber) == MakeDay(1, 0, 1) != day
  {
    hide Shown, ParsedDay, MakeDay, Year, Month, Date, NumericFormat, ReadableFormat;
    DefaultFormat();
    NumericIsReadable(DEFAULT_FORMAT, names, monthNumber);
    MakeDayInverse(-1, 0, 1);
    MakeDayInverse(1, 0, 1);
    ReadShown(MakeDay(-1, 0, 1), DEFAULT_FORMAT, today, names, monthNumber);
  }

  /** The default format. */
  lemma DefaultFormat()
    ensures ParseFormat("mm/dd/yyyy") == Some(DEFAULT_FORMAT)
    ensures NumericFormat(DEFAULT_FORMAT)
  {
    hide Match, Replace, Split, Punctuation;
    DefaultParts();
    DefaultSeparators();
    assert Punctuation('/') by { DefaultPunctuation(); }
    var parts := [PaddedMonth, PaddedDay, FullYear];
    assert parts[0] == PaddedMonth && parts[1] == PaddedDay && parts[2] == FullYear;
  }

  lemma DefaultPunctuation()
    ensures Punctuation('/')
  {
  }

  lemma PartFirst(part: Part, rest: string)
    requires rest == "" || rest[0] == '/'
    ensures Match(Spelling(part) + rest) == [part] + Match(rest)
    ensures Replace(Spelling(part) + rest) == "\0" + Replace(rest)
  {
    var s := Spelling(part) + rest;
    PartRead(part, rest);
    assert s[|Spelling(part)|..] == rest;
  }

  lemma PartRead(part: Part, rest: string)
    requires rest == "" || rest[0] == '/'
    ensures PartAt(Spelling(part) + rest) == Some(part)
  {
  }

  lemma SlashFirst(rest: string)
    ensures Match("/" + rest) == Match(rest) && Replace("/" + rest) == "/" + Replace(rest)
  {
    assert ("/" + rest)[1..] == rest;
  }

  lemma DefaultParts()
    ensures Match("mm/dd/yyyy") == [PaddedMonth, PaddedDay, FullYear] && Replace("mm/dd/yyyy") == "\0/\0/\0"
  {
    hide Match, Replace;
    NothingLeft();
    PartFirst(FullYear, "");
    SlashFirst("yyyy");
    assert "yyyy" + "" == "yyyy";
    assert "/" + "yyyy" == "/yyyy";
    PartFirst(PaddedDay, "/yyyy");
    SlashFirst("dd/yyyy");
    assert "dd" + "/yyyy" == "dd/yyyy";
    assert "/" + "dd/yyyy" == "/dd/yyyy";
    PartFirst(PaddedMonth, "/dd/yyyy");
    assert "mm" + "/dd/yyyy" == "mm/dd/yyyy";
  }

  /** The spellings of the ten parts. */
  lemma Spelled()
    ensures Match("d") == [Day] && Match("dd") == [PaddedDay] && Match("D") == [ShortWeekday]
    ensures Match("DD") == [LongWeekday] && Match("m") == [MonthNumber] && Match("mm") == [PaddedMonth]
    ensures Match("M") == [ShortMonth] && Match("MM") == [LongMonth]
    ensures Match("yy") == [ShortYear] && Match("yyyy") == [FullYear] && Match("y") == []
  {
    NothingLeft();
    assert "y"[1..] == "";
  }

  lemma NothingLeft()
    ensures Match("") == [] && Replace("") == ""
  {
  }

  lemma SplitFirst(c: char, rest: string)
    ensures Split([c] + rest) == if c == '\0' then [""] + Split(rest) else [[c] + Split(rest)[0]] + Split(rest)[1..]
  {
    assert ([c] + rest)[1..] == rest;
  }

  lemma DefaultSeparators()
    ensures Split("\0/\0/\0") == ["", "/", "/", ""]
  {
    assert "/" + "" == "/";
    SplitFirst('\0', "");
    assert Split("\0") == ["", ""];
    SplitFirst('/', "\0");
    assert "/" + "\0" == "/\0";
    assert Split("/\0") == ["/", ""];
    SplitFirst('\0', "/\0");
    assert "\0" + "/\0" == "\0/\0";
    SplitFirst('/', "\0/\0");
    assert "/" + "\0/\0" == "/\0/\0";
    assert Split("/\0/\0") == ["/", "/", ""];
    SplitFirst('\0', "/\0/\0");
    assert "\0" + "/\0/\0" == "\0/\0/\0";
  }
}
