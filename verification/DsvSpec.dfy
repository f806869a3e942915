/** d3's delimiter-separated values on values: the formatter, the parser, and when one undoes the other. */
module DsvSpec {

  /** d3 builds the formats from a comma (csv) and a tab (tsv). */
  predicate Delimiter(d: char) { d == ',' || d == '\t' }

  // ---------------------------------------------------------------- formatter

  /** `reFormat`: a field that holds a quote, the delimiter or a newline is written in quotes. */
  predicate NeedsQuotes(f: string, d: char) { '"' in f || d in f || '\n' in f }

  function Escape(f: string): string {
    if f == "" then "" else (if f[0] == '"' then "\"\"" else [f[0]]) + Escape(f[1..])
  }

  function FormatValue(f: string, d: char): string {
    if NeedsQuotes(f, d) then "\"" + Escape(f) + "\"" else f
  }

  function Quotes(f: string): nat { if f == "" then 0 else (if f[0] == '"' then 1 else 0) + Quotes(f[1..]) }

  lemma {:induction false} EscapeLength(f: string)
    ensures |Escape(f)| == |f| + Quotes(f)
  {
    if f != "" { EscapeLength(f[1..]); }
  }

  /** A field is written as it is exactly if it has no quote, no delimiter and no newline; otherwise it is put in quotes
      and its own quotes are doubled. */
  lemma WrittenAsIs(f: string, d: char)
    ensures FormatValue(f, d) == f <==> '"' !in f && d !in f && '\n' !in f
    ensures FormatValue(f, d) != f ==>
              var text := FormatValue(f, d);
              |text| == |f| + Quotes(f) + 2 && text[0] == text[|text| - 1] == '"' && text[1..|text| - 1] == Escape(f)
  {
    EscapeLength(f);
  }

  function FormatRow(row: seq<string>, d: char): string {
    if row == [] then ""
    else if |row| == 1 then FormatValue(row[0], d)
    else FormatValue(row[0], d) + [d] + FormatRow(row[1..], d)
  }

  function FormatRows(rows: seq<seq<string>>, d: char): string {
    if rows == [] then ""
    else if |rows| == 1 then FormatRow(rows[0], d)
    else FormatRow(rows[0], d) + "\n" + FormatRows(rows[1..], d)
  }

  // ---------------------------------------------------------------- parser

  /** One field off the text: its value, the text behind it, and whether a line ended with it. */
  datatype Cut = Cut(field: string, rest: string, eol: bool)

  /** Every pair of quotes becomes one. */
  function Unescape(s: string): string {
    if s == "" then ""
    else if |s| > 1 && s[0] == '"' && s[1] == '"' then "\"" + Unescape(s[2..])
    else [s[0]] + Unescape(s[1..])
  }

  /** The position of the closing quote in the text behind an opening one; past the end if there is none. */
  function Close(s: string): (k: nat)
    ensures k <= |s| + 1
  {
    if s == "" then 1
    else if s[0] != '"' then 1 + Close(s[1..])
    else if |s| > 1 && s[1] == '"' then 2 + Close(s[2..])
    else 0
  }

  function From(s: string, i: nat): string { if i < |s| then s[i..] else "" }

  function At(s: string, i: nat, c: char): bool { i < |s| && s[i] == c }

  /** A quoted field, from behind its opening quote; the character behind the closing quote is skipped. */
  function Quoted(s: string): (c: Cut)
    ensures s != "" ==> |c.rest| < |s|
    ensures s == "" ==> c.rest == ""
  {
    var k := Close(s);
    var raw := if k < |s| then s[..k] else s;
    if At(s, k + 1, '\r') then Cut(Unescape(raw), From(s, if At(s, k + 2, '\n') then k + 3 else k + 2), true)
    else Cut(Unescape(raw), From(s, k + 2), At(s, k + 1, '\n'))
  }

  /** A plain field runs to the next delimiter or line end. */
  function Plain(s: string, d: char): (c: Cut)
    ensures s != "" ==> |c.rest| < |s|
    ensures s == "" ==> c.rest == ""
  {
    if s == "" then Cut("", "", false)
    else if s[0] == '\n' then Cut("", s[1..], true)
    else if s[0] == '\r' then Cut("", if At(s, 1, '\n') then s[2..] else s[1..], true)
    else if s[0] == d then Cut("", s[1..], false)
    else
      var c := Plain(s[1..], d);
      c.(field := [s[0]] + c.field)
  }

  /** `token`, where a field starts. */
  function Field(s: string, d: char): (c: Cut)
    requires s != ""
    ensures |c.rest| < |s|
  {
    if s[0] == '"' then Quoted(s[1..]) else Plain(s, d)
  }

  /** The fields up to the end of the line or the text, and the text behind them. */
  function ParseRow(s: string, d: char): (r: (seq<string>, string))
    requires s != ""
    ensures |r.1| < |s|
    decreases |s|
  {
    var c := Field(s, d);
    if c.eol || c.rest == "" then ([c.field], c.rest)
    else
      var (row, rest) := ParseRow(c.rest, d);
      ([c.field] + row, rest)
  }

  /** `parseRows`. */
  function Parse(s: string, d: char): seq<seq<string>>
    decreases |s|
  {
    if s == "" then []
    else
      var (row, rest) := ParseRow(s, d);
      [row] + Parse(rest, d)
  }

  // ---------------------------------------------------------------- one field

  /** A carriage return in a field that is not written in quotes ends its line. */
  predicate RawReturn(f: string, d: char) { '\r' in f && !NeedsQuotes(f, d) }

  lemma {:induction false} UnescapeEscape(f: string)
    ensures Unescape(Escape(f)) == f
  {
    if f != "" {
      UnescapeEscape(f[1..]);
      var e := Escape(f[1..]);
      if f[0] == '"' {
        assert ("\"\"" + e)[2..] == e;
      } else {
        assert ([f[0]] + e)[1..] == e;
      }
    }
  }

  /** The closing quote is the one the formatter wrote. */
  lemma {:induction false} CloseEscape(f: string, rest: string)
    requires !At(rest, 0, '"')
    ensures Close(Escape(f) + "\"" + rest) == |Escape(f)|
  {
    var s := Escape(f) + "\"" + rest;
    if f == "" {
      assert s[0] == '"' && !At(s, 1, '"');
    } else {
      CloseEscape(f[1..], rest);
      var t := Escape(f[1..]) + "\"" + rest;
      if f[0] == '"' {
        assert s[0] == '"' && s[1] == '"' && s[2..] == t;
      } else {
        assert s[0] == f[0] && s[1..] == t;
      }
    }
  }

  /** What can follow a field: nothing, the delimiter or a line end. */
  predicate Follows(rest: string, d: char) { rest == "" || rest[0] == d || EndsLine(rest) }

  /** A line ends with a newline, a carriage return, or both. */
  predicate EndsLine(rest: string) { At(rest, 0, '\n') || At(rest, 0, '\r') }

  /** What is behind a delimiter or a line end. */
  function Skip(rest: string): string {
    if At(rest, 0, '\r') && At(rest, 1, '\n') then From(rest, 2) else From(rest, 1)
  }

  lemma QuotedText(f: string, rest: string, d: char)
    requires Delimiter(d) && Follows(rest, d)
    ensures Quoted(Escape(f) + "\"" + rest) == Cut(f, Skip(rest), EndsLine(rest))
  {
    CloseEscape(f, rest);
    UnescapeEscape(f);
    hide Close, Escape, Unescape, At, From;
    BehindQuote(Escape(f), rest);
  }

  /** What follows a closing quote. */
  lemma BehindQuote(escaped: string, rest: string)
    ensures var s, k := escaped + "\"" + rest, |escaped|;
            && s[..k] == escaped && From(s, k + 2) == From(rest, 1) && From(s, k + 3) == From(rest, 2)
            && (forall c :: At(s, k + 1, c) == At(rest, 0, c)) && (forall c :: At(s, k + 2, c) == At(rest, 1, c))
  {
    var s, k := escaped + "\"" + rest, |escaped|;
    assert forall i :: 0 <= i < |rest| ==> s[k + 1 + i] == rest[i];
  }

  lemma QuotedField(f: string, rest: string, d: char)
    requires Delimiter(d) && NeedsQuotes(f, d) && Follows(rest, d)
    ensures Field(FormatValue(f, d) + rest, d) == Cut(f, Skip(rest), EndsLine(rest))
  {
    QuotedText(f, rest, d);
    hide *;
    InQuotes(f, d);
    Regroup(['"'], Escape(f) + "\"", rest);
    QuoteFirst(Escape(f) + "\"" + rest, d);
  }

  lemma Regroup(a: string, b: string, c: string)
    ensures a + b + c == a + (b + c)
  {
  }

  lemma InQuotes(f: string, d: char)
    requires NeedsQuotes(f, d)
    ensures FormatValue(f, d) == ['"'] + (Escape(f) + "\"")
  {
  }

  lemma QuoteFirst(body: string, d: char)
    ensures Field(['"'] + body, d) == Quoted(body)
  {
    assert (['"'] + body)[1..] == body;
  }

  lemma {:induction false} PlainField(f: string, rest: string, d: char)
    requires Delimiter(d) && d !in f && '\n' !in f && Follows(rest, d)
    ensures '\r' !in f ==> Plain(f + rest, d) == Cut(f, Skip(rest), EndsLine(rest))
    ensures '\r' in f ==> |Plain(f + rest, d).field| < |f| && Plain(f + rest, d).eol
  {
    hide *;
    if f == "" {
      PlainEnd(rest, d);
      assert f + rest == rest;
    } else {
      var c, g := f[0], f[1..];
      assert f == [c] + g && f + rest == [c] + (g + rest) && c in f;
      PlainStep(c, g + rest, d);
      PlainField(g, rest, d);
    }
  }

  lemma PlainEnd(rest: string, d: char)
    requires Delimiter(d) && Follows(rest, d)
    ensures Plain(rest, d) == Cut("", Skip(rest), EndsLine(rest))
  {
  }

  lemma PlainStep(c: char, s: string, d: char)
    requires c != d && c != '\n'
    ensures c != '\r' ==> Plain([c] + s, d) == Plain(s, d).(field := [c] + Plain(s, d).field)
    ensures c == '\r' ==> Plain([c] + s, d).field == "" && Plain([c] + s, d).eol
  {
    assert ([c] + s)[1..] == s;
  }

  lemma {:induction false} NeverClosed(s: string)
    requires '"' !in s
    ensures Close(s) == |s| + 1 && Unescape(s) == s
  {
    if s != "" {
      assert s[0] in s && forall c :: c in s[1..] ==> c in s;
      NeverClosed(s[1..]);
    }
  }

  /** A quote that is never closed takes all the text that is left. */
  lemma Unclosed(f: string, d: char)
    requires '"' !in f
    ensures Parse("\"" + f, d) == [[f]]
  {
    NeverClosed(f);
    var text := "\"" + f;
    assert text[1..] == f;
    assert Field(text, d) == Cut(f, "", false);
  }

  /** A field that does not start with a quote is read as it stands, with any quotes in it. */
  lemma ReadAsIs(f: string, rest: string, d: char)
    requires Delimiter(d) && f != "" && f[0] != '"' && d !in f && '\n' !in f && '\r' !in f && Follows(rest, d)
    ensures Field(f + rest, d) == Cut(f, Skip(rest), EndsLine(rest))
  {
    PlainField(f, rest, d);
  }

  lemma OneField(f: string, rest: string, d: char)
    requires Delimiter(d) && Follows(rest, d) && FormatValue(f, d) + rest != ""
    ensures !RawReturn(f, d) ==> Field(FormatValue(f, d) + rest, d) == Cut(f, Skip(rest), EndsLine(rest))
    ensures RawReturn(f, d) ==>
              |Field(FormatValue(f, d) + rest, d).field| < |f| && Field(FormatValue(f, d) + rest, d).eol
  {
    if NeedsQuotes(f, d) {
      QuotedField(f, rest, d);
    } else {
      PlainField(f, rest, d);
      if f != "" {
        assert (f + rest)[0] == f[0] && f[0] in f;
      } else {
        assert f + rest == rest;
      }
    }
  }

  // ---------------------------------------------------------------- rows

  predicate SoundRow(row: seq<string>, d: char) {
    row != [] && forall i :: 0 <= i < |row| ==> !RawReturn(row[i], d)
  }

  /** Exactly the tables that survive: no row is empty, the very last field is not, and no carriage return is
      written without quotes. */
  predicate Sound(rows: seq<seq<string>>, d: char) {
    && (forall i :: 0 <= i < |rows| ==> SoundRow(rows[i], d))
    && (rows != [] && rows[|rows| - 1] != [] ==> rows[|rows| - 1][|rows[|rows| - 1]| - 1] != "")
  }

  lemma RowText(row: seq<string>, tail: string, d: char)
    requires |row| > 1
    ensures FormatRow(row, d) + tail == FormatValue(row[0], d) + ([d] + (FormatRow(row[1..], d) + tail))
  {
  }

  /** A field in front of the delimiter, and the fields behind it. */
  lemma FieldInFront(f: string, rest: string, d: char)
    requires Delimiter(d)
    ensures var r := ParseRow(FormatValue(f, d) + ([d] + rest), d);
            && (RawReturn(f, d) ==> r.0 != [] && r.0[0] != f)
            && (!RawReturn(f, d) && rest == "" ==> r.0 == [f])
            && (!RawReturn(f, d) && rest != "" ==> r == ([f] + ParseRow(rest, d).0, ParseRow(rest, d).1))
  {
    OneField(f, [d] + rest, d);
    assert Skip([d] + rest) == rest;
    hide Field, FormatValue, RawReturn;
  }

  /** The last field of a row, in front of a line end or the end of the text. */
  lemma FieldAtEnd(f: string, tail: string, d: char)
    requires Delimiter(d) && (tail == "" || EndsLine(tail)) && FormatValue(f, d) + tail != ""
    ensures var r := ParseRow(FormatValue(f, d) + tail, d);
            && (RawReturn(f, d) ==> r.0 != [f])
            && (!RawReturn(f, d) ==> r == ([f], Skip(tail)))
  {
    OneField(f, tail, d);
    hide Field, FormatValue, RawReturn;
  }

  /** A row survives in front of a tail: it is sound, and not the end of the text with an empty last field. */
  predicate Survives(row: seq<string>, tail: string, d: char)
    requires row != []
  {
    SoundRow(row, d) && (tail != "" || row[|row| - 1] != "")
  }

  /** The row is read back in front of the tail if it survives, and otherwise not. */
  ghost predicate ReadBack(row: seq<string>, tail: string, d: char)
    requires row != [] && FormatRow(row, d) + tail != ""
  {
    var r := ParseRow(FormatRow(row, d) + tail, d);
    if Survives(row, tail, d) then r == (row, Skip(tail)) else r.0 != row
  }

  lemma MoreFields(row: seq<string>, tail: string, d: char)
    requires Delimiter(d) && |row| > 1
    requires FormatRow(row[1..], d) + tail != "" ==> ReadBack(row[1..], tail, d)
    ensures FormatRow(row, d) + tail != "" && ReadBack(row, tail, d)
  {
    var rest := FormatRow(row[1..], d) + tail;
    RowText(row, tail, d);
    FieldInFront(row[0], rest, d);
    SoundTail(row, d);
    if rest == "" { EmptyRowText(row[1..], d); }
    hide ParseRow, FormatValue, FormatRow, SoundRow, RawReturn, Skip;
    assert row[1..][|row| - 2] == row[|row| - 1];
    var r := ParseRow(FormatRow(row, d) + tail, d);
    if RawReturn(row[0], d) {
      assert r.0 != row;
    } else if rest == "" {
      assert |r.0| == 1;
    } else {
      InFront(row, ParseRow(rest, d).0);
    }
  }

  lemma InFront(row: seq<string>, others: seq<string>)
    requires row != []
    ensures [row[0]] + others == row <==> others == row[1..]
  {
    assert ([row[0]] + others)[1..] == others;
  }

  /** A row that nothing but a line end follows parses back exactly if it is sound, unless it is the end of
      the text and ends with an empty field. */
  lemma {:induction false} OneRow(row: seq<string>, tail: string, d: char)
    requires Delimiter(d) && row != [] && (tail == "" || EndsLine(tail)) && FormatRow(row, d) + tail != ""
    ensures ReadBack(row, tail, d)
  {
    if |row| == 1 {
      assert row == [row[0]];
      FieldAtEnd(row[0], tail, d);
    } else {
      hide ReadBack, FormatRow;
      if FormatRow(row[1..], d) + tail != "" { OneRow(row[1..], tail, d); }
      MoreFields(row, tail, d);
    }
  }

  lemma SoundTail(row: seq<string>, d: char)
    requires |row| > 1
    ensures SoundRow(row, d) <==> !RawReturn(row[0], d) && SoundRow(row[1..], d)
  {
    if !RawReturn(row[0], d) && SoundRow(row[1..], d) {
      forall i | 0 <= i < |row| ensures !RawReturn(row[i], d) {
        assert i > 0 ==> row[i] == row[1..][i - 1];
      }
    }
    if SoundRow(row, d) {
      forall i | 0 <= i < |row| - 1 ensures !RawReturn(row[1..][i], d) {
        assert row[1..][i] == row[i + 1];
      }
    }
  }

  lemma EmptyRowText(row: seq<string>, d: char)
    requires row != [] && FormatRow(row, d) == ""
    ensures row == [""] && SoundRow(row, d)
  {
  }

  // ---------------------------------------------------------------- the round trip

  /** Parsing undoes formatting for exactly the sound tables. */
  lemma {:induction false} RoundTrip(rows: seq<seq<string>>, d: char)
    requires Delimiter(d)
    ensures Parse(FormatRows(rows, d), d) == rows <==> Sound(rows, d)
  {
    hide ParseRow, FormatRow, SoundRow;
    if |rows| == 1 {
      assert rows == [rows[0]];
      LastRow(rows[0], d);
    } else if rows != [] {
      hide Sound, Parse;
      var rest := rows[1..];
      RoundTrip(rest, d);
      SoundTable(rows, d);
      FirstRow(rows[0], FormatRows(rest, d), d);
      assert FormatRows(rows, d) == FormatRow(rows[0], d) + "\n" + FormatRows(rest, d);
      var parsed := Parse(FormatRows(rows, d), d);
      assert [rows[0]] + rest == rows;
      assert parsed == rows ==> parsed[0] == rows[0] && parsed[1..] == rest;
    }
  }

  /** Rows with this line end between them. */
  function Lines(rows: seq<seq<string>>, d: char, eol: string): string {
    if rows == [] then ""
    else if |rows| == 1 then FormatRow(rows[0], d)
    else FormatRow(rows[0], d) + eol + Lines(rows[1..], d, eol)
  }

  /** Line ends are newlines, carriage returns, or carriage returns with newlines: a sound table is read from a text
      with any of them. */
  lemma {:induction false} AnyLineEnd(rows: seq<seq<string>>, d: char, eol: string)
    requires Delimiter(d) && Sound(rows, d) && (eol == "\n" || eol == "\r" || eol == "\r\n")
    ensures Parse(Lines(rows, d, eol), d) == rows
    ensures Lines(rows, d, "\n") == FormatRows(rows, d)
  {
    hide ParseRow, FormatRow, SoundRow;
    if |rows| == 1 {
      assert rows == [rows[0]];
      LastRow(rows[0], d);
    } else if rows != [] {
      hide Sound, Parse;
      var rest := rows[1..];
      SoundTable(rows, d);
      AnyLineEnd(rest, d, eol);
      if eol == "\r" { NoNewline(rest, d); }
      LineInFront(rows[0], eol, Lines(rest, d, eol), d);
      assert [rows[0]] + rest == rows;
    }
  }

  lemma NoNewline(rows: seq<seq<string>>, d: char)
    requires Delimiter(d)
    ensures !At(Lines(rows, d, "\r"), 0, '\n')
  {
    if rows != [] {
      RowStart(rows[0], d);
      hide FormatRow;
    }
  }

  lemma RowStart(row: seq<string>, d: char)
    requires Delimiter(d)
    ensures !At(FormatRow(row, d), 0, '\n')
  {
    if row != [] {
      assert row[0] != "" ==> row[0][0] in row[0];
    }
  }

  /** A sound row is read in front of a line end, and the text behind it on its own. */
  lemma LineInFront(row: seq<string>, eol: string, others: string, d: char)
    requires Delimiter(d) && SoundRow(row, d)
    requires eol == "\n" || eol == "\r\n" || (eol == "\r" && !At(others, 0, '\n'))
    ensures Parse(FormatRow(row, d) + eol + others, d) == [row] + Parse(others, d)
  {
    var tail := eol + others;
    assert FormatRow(row, d) + tail == FormatRow(row, d) + eol + others;
    assert Skip(tail) == others;
    hide FormatRow, ParseRow;
    OneRow(row, tail, d);
  }

  /** The least table that does not survive: a carriage return alone is not quoted. */
  lemma CarriageReturnLost(d: char)
    requires Delimiter(d)
    ensures Parse(FormatRows([["\r"]], d), d) != [["\r"]]
  {
    assert RawReturn([["\r"]][0][0], d);
    assert !SoundRow([["\r"]][0], d);
    RoundTrip([["\r"]], d);
  }

  /** The first row of several comes back exactly if it is sound, and then the rest is parsed on its own. */
  lemma FirstRow(row: seq<string>, others: string, d: char)
    requires Delimiter(d)
    ensures var parsed := Parse(FormatRow(row, d) + "\n" + others, d);
            && parsed != []
            && (SoundRow(row, d) ==> parsed == [row] + Parse(others, d))
            && (!SoundRow(row, d) ==> parsed[0] != row)
  {
    hide SoundRow;
    var tail := "\n" + others;
    var text := FormatRow(row, d) + tail;
    assert text == FormatRow(row, d) + "\n" + others;
    assert Skip(tail) == others;
    if row == [] {
      assert text == tail;
      assert Field(text, d) == Cut("", others, true);
      Unsound(d);
    } else {
      hide FormatRow, ParseRow;
      OneRow(row, tail, d);
    }
  }

  lemma Unsound(d: char)
    ensures !SoundRow([], d)
  {
  }

  lemma LastRow(row: seq<string>, d: char)
    requires Delimiter(d)
    ensures Parse(FormatRows([row], d), d) == [row] <==> Sound([row], d)
  {
    hide ParseRow;
    var text := FormatRow(row, d);
    assert text + "" == text;
    if text == "" {
      if row != [] { EmptyRowText(row, d); }
    } else {
      OneRow(row, "", d);
      assert Parse(text, d)[0] == ParseRow(text, d).0;
      assert [row][0] == row;
    }
  }

  lemma SoundTable(rows: seq<seq<string>>, d: char)
    requires |rows| > 1
    ensures Sound(rows, d) <==> SoundRow(rows[0], d) && Sound(rows[1..], d)
  {
    var rest := rows[1..];
    assert rest[|rest| - 1] == rows[|rows| - 1];
    if SoundRow(rows[0], d) && Sound(rest, d) {
      forall i | 0 <= i < |rows| ensures SoundRow(rows[i], d) {
        assert i > 0 ==> rows[i] == rest[i - 1];
      }
    }
    if Sound(rows, d) {
      forall i | 0 <= i < |rest| ensures SoundRow(rest[i], d) {
        assert rest[i] == rows[i + 1];
      }
    }
  }
}
