/** d3's parser of delimiter-separated values: a cursor that hands out tokens, and the loop that makes rows of them. */
module Dsv {
  import opened DsvSpec

  datatype Token = EndOfFile | EndOfLine | Value(value: string)

  lemma FromFrom(s: string, i: nat, k: nat)
    ensures From(From(s, i), k) == From(s, i + k)
  {
  }

  lemma CloseStep(text: string, i: nat)
    requires i < |text|
    ensures Close(From(text, i)) == if text[i] != '"' then 1 + Close(From(text, i + 1))
                                    else if At(text, i + 1, '"') then 2 + Close(From(text, i + 2))
                                    else 0
  {
    FromFrom(text, i, 1);
    FromFrom(text, i, 2);
    var s := From(text, i);
    assert s[1..] == From(s, 1);
    assert |s| > 1 ==> s[2..] == From(s, 2);
  }

  lemma NothingToClose(text: string)
    ensures Close(From(text, |text|)) == 1
  {
  }

  lemma PlainStep(text: string, i: nat, d: char)
    requires i < |text|
    ensures Plain(From(text, i), d) ==
            if text[i] == '\n' then Cut("", From(text, i + 1), true)
            else if text[i] == '\r' then Cut("", From(text, if At(text, i + 1, '\n') then i + 2 else i + 1), true)
            else if text[i] == d then Cut("", From(text, i + 1), false)
            else var c := Plain(From(text, i + 1), d); c.(field := [text[i]] + c.field)
  {
    FromFrom(text, i, 1);
    FromFrom(text, i, 2);
    var s := From(text, i);
    assert s[1..] == From(s, 1);
    assert |s| > 1 ==> s[2..] == From(s, 2);
  }

  /** A plain field that starts at j has been read as far as i. */
  predicate ReadTo(whole: Cut, text: string, j: nat, i: nat, d: char) {
    j <= i <= |text| &&
    var c := Plain(From(text, i), d);
    whole == Cut(text[j..i] + c.field, c.rest, c.eol)
  }

  lemma ReadFrom(text: string, j: nat, d: char)
    requires j < |text|
    ensures ReadTo(Plain(From(text, j), d), text, j, j, d)
  {
    hide Plain;
    assert text[j..j] == [];
  }

  lemma ReadStep(whole: Cut, text: string, j: nat, i: nat, d: char)
    requires ReadTo(whole, text, j, i, d) && i < |text|
    ensures if text[i] == '\n' then whole == Cut(text[j..i], From(text, i + 1), true)
            else if text[i] == '\r' then
              whole == Cut(text[j..i], From(text, if At(text, i + 1, '\n') then i + 2 else i + 1), true)
            else if text[i] == d then whole == Cut(text[j..i], From(text, i + 1), false)
            else ReadTo(whole, text, j, i + 1, d)
  {
    hide Plain;
    PlainStep(text, i, d);
    assert text[j..i] + [] == text[j..i];
    Longer(text, j, i, Plain(From(text, i + 1), d).field);
  }

  lemma Longer(text: string, j: nat, i: nat, more: string)
    requires j <= i < |text|
    ensures text[j..i] + ([text[i]] + more) == text[j..i + 1] + more
  {
    assert text[j..i + 1] == text[j..i] + [text[i]];
    assert text[j..i] + [text[i]] + more == text[j..i] + ([text[i]] + more);
  }

  lemma ReadEnd(whole: Cut, text: string, j: nat, d: char)
    requires ReadTo(whole, text, j, |text|, d)
    ensures whole == Cut(text[j..], "", false)
  {
    assert text[j..|text|] + [] == text[j..];
  }

  /** The rows so far, the line at hand, and the rows of the text behind it are all there is. */
  ghost predicate Ahead(rows: seq<seq<string>>, line: (seq<string>, string), text: string, d: char) {
    Parse(text, d) == rows + [line.0] + Parse(line.1, d)
  }

  lemma RowsStart(text: string, d: char)
    ensures if text == "" then Parse(text, d) == [] else Ahead([], ParseRow(text, d), text, d)
  {
    hide ParseRow;
  }

  lemma RowsStep(rows: seq<seq<string>>, line: (seq<string>, string), text: string, d: char)
    requires Ahead(rows, line, text, d)
    ensures if line.1 == "" then Parse(text, d) == rows + [line.0]
            else Ahead(rows + [line.0], ParseRow(line.1, d), text, d)
  {
    hide ParseRow;
  }

  /** A quoted field in terms of the position of its closing quote in the whole text. */
  lemma QuotedAt(text: string, j: nat, i: nat)
    requires j < |text| && i == j + 1 + Close(From(text, j + 1))
    ensures Quoted(From(text, j + 1)) ==
            Cut(Unescape(text[j + 1..if i < |text| then i else |text|]),
                From(text, if At(text, i + 1, '\r') && At(text, i + 2, '\n') then i + 3 else i + 2),
                At(text, i + 1, '\r') || At(text, i + 1, '\n'))
  {
    hide Close, Unescape, At, From;
    var s := From(text, j + 1);
    var k := Close(s);
    FromFrom(text, j + 1, k + 2);
    FromFrom(text, j + 1, k + 3);
    AtFrom(text, j + 1, k + 1);
    AtFrom(text, j + 1, k + 2);
    Between(text, j + 1, k);
  }

  lemma AtFrom(s: string, i: nat, k: nat)
    ensures forall c :: At(From(s, i), k, c) == At(s, i + k, c)
  {
  }

  lemma Between(s: string, i: nat, k: nat)
    requires i <= |s|
    ensures var t := From(s, i);
            (if k < |t| then t[..k] else t) == s[i..if i + k < |s| then i + k else |s|]
  {
  }

  /** What the parser still makes of a line behind a field: the further fields, and the text behind the line. */
  function Tail(eol: bool, rest: string, d: char): (seq<string>, string) {
    if eol || rest == "" then ([], rest) else ParseRow(rest, d)
  }

  lemma RowStep(s: string, d: char)
    requires s != ""
    ensures var c := Field(s, d);
            var tail := Tail(c.eol, c.rest, d);
            ParseRow(s, d) == ([c.field] + tail.0, tail.1)
  {
    hide Field;
    assert [Field(s, d).field] + [] == [Field(s, d).field];
  }

  /** The line is made of the fields collected so far, the field at hand, and the tail. */
  predicate Midway(row: seq<string>, field: string, tail: (seq<string>, string), line: (seq<string>, string)) {
    row + [field] + tail.0 == line.0 && tail.1 == line.1
  }

  lemma MidwayStart(field: string, tail: (seq<string>, string))
    ensures Midway([], field, tail, ([field] + tail.0, tail.1))
  {
    assert [] + [field] == [field];
  }

  lemma NextField(row: seq<string>, field: string, s: string, d: char, line: (seq<string>, string))
    requires s != "" && Midway(row, field, ParseRow(s, d), line)
    ensures var c := Field(s, d); Midway(row + [field], c.field, Tail(c.eol, c.rest, d), line)
  {
    RowStep(s, d);
    hide Tail, ParseRow, Field;
    var c := Field(s, d);
    var tail := Tail(c.eol, c.rest, d);
    assert row + [field] + ([c.field] + tail.0) == row + [field] + [c.field] + tail.0;
  }

  lemma LastField(row: seq<string>, field: string, rest: string, line: (seq<string>, string))
    requires Midway(row, field, ([], rest), line)
    ensures line == (row + [field], rest)
  {
    assert row + [field] + [] == row + [field];
  }

  class Tokenizer {
    const text: string
    const delimiter: char
    var I: nat
    var eol: bool

    constructor (text: string, delimiter: char)
      ensures this.text == text && this.delimiter == delimiter && Rest() == text && !eol
    {
      this.text := text;
      this.delimiter := delimiter;
      I := 0;
      eol := false;
    }

    /** The text not read yet; the cursor may stand behind its end. */
    ghost function Rest(): string
      reads this`I
    {
      From(text, I)
    }

    /** The next token. A field is the specification's; a line end is reported once, unless the text ends with it. */
    method Token() returns (t: Token)
      modifies this`I, this`eol
      ensures old(Rest()) == "" ==> t == EndOfFile && Rest() == ""
      ensures old(Rest()) != "" && old(eol) ==> t == EndOfLine && !eol && Rest() == old(Rest())
      ensures old(Rest()) != "" && !old(eol) ==> t.Value? && Field(old(Rest()), delimiter) == Cut(t.value, Rest(), eol)
    {
      if I >= |text| {
        return EndOfFile;
      }
      if eol {
        eol := false;
        return EndOfLine;
      }
      var value;
      if text[I] == '"' {
        FromFrom(text, I, 1);
        value := QuotedValue();
      } else {
        value := PlainValue();
      }
      t := Value(value);
    }

    /** The branch for a field that starts with a quote. */
    method QuotedValue() returns (value: string)
      requires I < |text| && text[I] == '"' && !eol
      modifies this`I, this`eol
      ensures Quoted(old(From(text, I + 1))) == Cut(value, Rest(), eol)
    {
      hide Close, Unescape, Quoted;
      var j := I;
      var i := FindClose(j);
      QuotedAt(text, j, i);
      I := i + 2;
      if At(text, i + 1, '\r') {
        eol := true;
        if At(text, i + 2, '\n') {
          I := I + 1;
        }
      } else if At(text, i + 1, '\n') {
        eol := true;
      }
      value := Unescape(text[j + 1..if i < |text| then i else |text|]);
    }

    /** The scan for the closing quote, stepping over doubled ones. */
    method FindClose(j: nat) returns (i: nat)
      requires j < |text|
      ensures i == j + 1 + Close(From(text, j + 1))
    {
      hide Close, From;
      var N := |text|;
      i := j;
      NothingToClose(text);
      while true
        invariant j <= i <= N
        invariant Close(From(text, j + 1)) == if i < N then i - j + Close(From(text, i + 1)) else N - j
        decreases N - i
      {
        var more := i < N;
        i := i + 1;
        if !more {
          break;
        }
        if i < N { CloseStep(text, i); }
        if At(text, i, '"') {
          if !At(text, i + 1, '"') {
            break;
          }
          i := i + 1;
        }
      }
    }

    /** The branch for any other field. */
    method PlainValue() returns (value: string)
      requires I < |text| && !eol
      modifies this`I, this`eol
      ensures Plain(old(Rest()), delimiter) == Cut(value, Rest(), eol)
    {
      hide Plain, ReadTo;
      var j := I;
      ReadFrom(text, j, delimiter);
      ghost var whole := Plain(Rest(), delimiter);
      while I < |text|
        invariant j <= I <= |text| && !eol
        invariant ReadTo(whole, text, j, I, delimiter)
      {
        var c, k := text[I], 1;
        ReadStep(whole, text, j, I, delimiter);
        I := I + 1;
        if c == '\n' {
          eol := true;
        } else if c == '\r' {
          eol := true;
          if At(text, I, '\n') {
            I, k := I + 1, k + 1;
          }
        } else if c != delimiter {
          continue;
        }
        return text[j..I - k];
      }
      ReadEnd(whole, text, j, delimiter);
      value := text[j..];
    }

    /** What is still made of the line the cursor is in. */
    ghost function Line(): (seq<string>, string)
      reads this`I, this`eol
    {
      Tail(eol, Rest(), delimiter)
    }

    /** The rows of the whole text. */
    method ParseRows() returns (rows: seq<seq<string>>)
      requires Rest() == text && !eol
      modifies this`I, this`eol
      ensures rows == Parse(text, delimiter)
    {
      hide Parse, ParseRow, Field, Tail, Ahead;
      if text != "" { RowStep(text, delimiter); }
      RowsStart(text, delimiter);
      rows := [];
      var t := Token();
      while t != EndOfFile
        invariant !t.EndOfLine?
        invariant t.EndOfFile? ==> Parse(text, delimiter) == rows && Rest() == ""
        invariant t.Value? ==> Ahead(rows, ([t.value] + Line().0, Line().1), text, delimiter)
        decreases |Rest()| + if t.Value? then 1 else 0
      {
        var row;
        RowsStep(rows, ([t.value] + Line().0, Line().1), text, delimiter);
        row, t := ReadLine(t);
        if Rest() != "" { RowStep(Rest(), delimiter); }
        rows := rows + [row];
        t := Token();
      }
    }

    /** The inner loop: fields are collected until the line or the text ends. */
    method ReadLine(first: Token) returns (row: seq<string>, t: Token)
      requires first.Value?
      modifies this`I, this`eol
      ensures row == [first.value] + old(Line().0)
      ensures Rest() == old(Line().1) && |Rest()| <= old(|Rest()|)
      ensures t == (if Rest() == "" then EndOfFile else EndOfLine) && (t.EndOfLine? ==> !eol)
    {
      hide ParseRow, Field, Midway;
      ghost var line := ([first.value] + Line().0, Line().1);
      row, t := [], first;
      MidwayStart(first.value, Line());
      while t != EndOfLine && t != EndOfFile
        invariant |Rest()| <= old(|Rest()|)
        invariant t.Value? ==> Midway(row, t.value, Line(), line)
        invariant !t.Value? ==> line == (row, Rest())
        invariant !t.Value? ==> t == (if Rest() == "" then EndOfFile else EndOfLine) && (t.EndOfLine? ==> !eol)
        decreases |Rest()| + if t.Value? then 1 else 0
      {
        if eol || Rest() == "" {
          LastField(row, t.value, Rest(), line);
        } else {
          NextField(row, t.value, Rest(), delimiter, line);
        }
        row := row + [t.value];
        t := Token();
      }
    }
  }

  /** Rows are formatted and parsed again: exactly the sound tables come back. */
  method FormatAndParse(rows: seq<seq<string>>, delimiter: char) returns (parsed: seq<seq<string>>)
    requires Delimiter(delimiter)
    ensures parsed == rows <==> Sound(rows, delimiter)
  {
    hide *;
    var tokenizer := new Tokenizer(FormatRows(rows, delimiter), delimiter);
    parsed := tokenizer.ParseRows();
    RoundTrip(rows, delimiter);
  }
}
