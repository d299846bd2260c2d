/** CSV printing, and reading it back by the rules of section 2 of RFC 4180 with LF as line break. */
module Csv {
  import opened Basics

  /** A cell value: null or undefined, or the text it prints as. */
  datatype Cell = Blank | Text(text: string)

  function TextOf(cell: Cell): string {
    match cell
    case Blank => ""
    case Text(text) => text
  }

  predicate IsSpecial(c: char) {
    c == '"' || c == ',' || c == '\n' || c == '\r'
  }

  function DoubleQuotes(text: string): string {
    if text == "" then ""
    else (if text[0] == '"' then "\"\"" else [text[0]]) + DoubleQuotes(text[1..])
  }

  /** `escapeCsv`. */
  function Escape(cell: Cell): string {
    match cell
    case Blank => ""
    case Text(text) => if exists c :: c in text && IsSpecial(c) then "\"" + DoubleQuotes(text) + "\"" else text
  }

  /** A text is printed as it stands exactly when it has no quote, comma, line feed or carriage return. */
  lemma PrintedPlainIff(text: string)
    ensures Escape(Text(text)) == text <==> '"' !in text && ',' !in text && '\n' !in text && '\r' !in text
  {
    DoubledLength(text);
    if exists c :: c in text && IsSpecial(c) {
      assert |Escape(Text(text))| > |text|;
    } else {
      forall c | c in text
        ensures c != '"' && c != ',' && c != '\n' && c != '\r'
      {
        assert !IsSpecial(c);
      }
    }
  }

  lemma {:induction false} DoubledLength(text: string)
    ensures |DoubleQuotes(text)| >= |text|
  {
    if text != "" {
      DoubledLength(text[1..]);
    }
  }

  /** `parts.join(separator)`. */
  function Join(parts: seq<string>, separator: char): string {
    if parts == [] then ""
    else if |parts| == 1 then parts[0]
    else parts[0] + [separator] + Join(parts[1..], separator)
  }

  function Line(cells: seq<Cell>): string {
    Join(seq(|cells|, i requires 0 <= i < |cells| => Escape(cells[i])), ',')
  }

  function Texts(cells: seq<Cell>): seq<string> {
    seq(|cells|, i requires 0 <= i < |cells| => TextOf(cells[i]))
  }

  function Body(rows: seq<seq<Cell>>): string {
    Join(seq(|rows|, i requires 0 <= i < |rows| => Line(rows[i])), '\n')
  }

  /** `toCsv`: `header` and every row have one cell per column. */
  function ToCsv(header: seq<string>, rows: seq<seq<Cell>>): string {
    var body := Body(rows);
    Line(seq(|header|, i requires 0 <= i < |header| => Text(header[i]))) + "\n" + body + (if body != "" then "\n" else "")
  }

  // ---------------------------------------------------------------- reading

  datatype Read<T> = Bad | Got(value: T, rest: string)

  /** The rest of a quoted field after its opening quote. */
  function ReadQuoted(s: string): (r: Read<string>)
    ensures r.Got? ==> |r.rest| < |s|
  {
    if s == "" then Bad
    else if s[0] == '"' then
      if |s| > 1 && s[1] == '"' then
        var more := ReadQuoted(s[2..]);
        if more.Bad? then Bad else Got("\"" + more.value, more.rest)
      else Got("", s[1..])
    else
      var more := ReadQuoted(s[1..]);
      if more.Bad? then Bad else Got([s[0]] + more.value, more.rest)
  }

  /** A field without quotes: up to a comma, a line break or the end. */
  function ReadPlain(s: string): (r: Read<string>)
    ensures r.Got? ==> |r.rest| <= |s|
  {
    if s == "" || s[0] == ',' || s[0] == '\n' then Got("", s)
    else if IsSpecial(s[0]) then Bad
    else
      var more := ReadPlain(s[1..]);
      if more.Bad? then Bad else Got([s[0]] + more.value, more.rest)
  }

  function ReadField(s: string): (r: Read<string>)
    ensures r.Got? ==> |r.rest| <= |s|
  {
    if s != "" && s[0] == '"' then ReadQuoted(s[1..]) else ReadPlain(s)
  }

  /** Fields separated by commas. */
  function ReadRecord(s: string): (r: Read<seq<string>>)
    ensures r.Got? ==> |r.rest| <= |s|
    decreases |s|
  {
    var field := ReadField(s);
    if field.Bad? then Bad
    else if field.rest != "" && field.rest[0] == ',' then
      var more := ReadRecord(field.rest[1..]);
      if more.Bad? then Bad else Got([field.value] + more.value, more.rest)
    else Got([field.value], field.rest)
  }

  /** Records separated by line breaks; the last one may end in a line break. */
  function Decode(s: string): Option<seq<seq<string>>>
    decreases |s|
  {
    if s == "" then Some([])
    else
      var record := ReadRecord(s);
      if record.Bad? then None
      else if record.rest == "" then Some([record.value])
      else if record.rest[0] != '\n' then None
      else
        var more := Decode(record.rest[1..]);
        if more.None? then None else Some([record.value] + more.value)
  }

  // ---------------------------------------------------------------- printing and reading back

  /** What may follow a field. */
  predicate FieldEnd(rest: string) {
    rest == "" || rest[0] == ',' || rest[0] == '\n'
  }

  /** One more character of quoted text; a quote is written twice. */
  lemma QuotedCharReads(c: char, tail: string, text: string, rest: string)
    requires ReadQuoted(tail) == Got(text, rest)
    ensures ReadQuoted((if c == '"' then "\"\"" else [c]) + tail) == Got([c] + text, rest)
  {
    if c == '"' {
      assert ("\"\"" + tail)[2..] == tail;
    } else {
      assert ([c] + tail)[1..] == tail;
    }
  }

  lemma QuoteEnds(rest: string)
    requires FieldEnd(rest)
    ensures ReadQuoted("\"" + rest) == Got("", rest)
  {
    assert ("\"" + rest)[1..] == rest;
  }

  lemma {:induction false} QuotedReadsBack(text: string, rest: string)
    requires FieldEnd(rest)
    ensures ReadQuoted(DoubleQuotes(text) + "\"" + rest) == Got(text, rest)
  {
    hide ReadQuoted, FieldEnd;
    var s := DoubleQuotes(text) + "\"" + rest;
    if text == "" {
      QuoteEnds(rest);
      assert s == "\"" + rest;
    } else {
      var tail := DoubleQuotes(text[1..]) + "\"" + rest;
      QuotedReadsBack(text[1..], rest);
      QuotedCharReads(text[0], tail, text[1..], rest);
      assert s == (if text[0] == '"' then "\"\"" else [text[0]]) + tail;
      assert text == [text[0]] + text[1..];
    }
  }

  lemma {:induction false} PlainReadsBack(text: string, rest: string)
    requires FieldEnd(rest) && forall c :: c in text ==> !IsSpecial(c)
    ensures ReadPlain(text + rest) == Got(text, rest)
  {
    var s := text + rest;
    if text == "" {
      assert s == rest;
    } else {
      assert text[0] in text;
      PlainReadsBack(text[1..], rest);
      assert text == [text[0]] + text[1..] && s[0] == text[0];
      assert s[1..] == text[1..] + rest;
    }
  }

  lemma EscapedText(cell: Cell)
    ensures var text := TextOf(cell);
      if exists c :: c in text && IsSpecial(c) then Escape(cell) == "\"" + DoubleQuotes(text) + "\""
      else Escape(cell) == text && (text != "" ==> !IsSpecial(text[0]))
  {
    hide DoubleQuotes;
    var text := TextOf(cell);
    assert text != "" ==> text[0] in text;
  }

  lemma QuotedFieldReads(text: string, rest: string)
    requires FieldEnd(rest)
    ensures ReadField("\"" + DoubleQuotes(text) + "\"" + rest) == Got(text, rest)
  {
    hide ReadQuoted, ReadPlain, DoubleQuotes, FieldEnd;
    QuotedReadsBack(text, rest);
    assert ("\"" + DoubleQuotes(text) + "\"" + rest)[1..] == DoubleQuotes(text) + "\"" + rest;
  }

  lemma PlainFieldReads(text: string, rest: string)
    requires FieldEnd(rest) && forall c :: c in text ==> !IsSpecial(c)
    ensures ReadField(text + rest) == Got(text, rest)
  {
    hide ReadQuoted, ReadPlain;
    PlainReadsBack(text, rest);
    assert text != "" ==> (text + rest)[0] == text[0] && text[0] in text;
  }

  lemma FieldReadsBack(cell: Cell, rest: string)
    requires FieldEnd(rest)
    ensures ReadField(Escape(cell) + rest) == Got(TextOf(cell), rest)
  {
    hide ReadField, DoubleQuotes, FieldEnd, Escape, TextOf;
    var text := TextOf(cell);
    EscapedText(cell);
    if exists c :: c in text && IsSpecial(c) {
      QuotedFieldReads(text, rest);
    } else {
      PlainFieldReads(text, rest);
    }
  }

  lemma {:induction false} RecordReadsBack(cells: seq<Cell>, rest: string)
    requires cells != [] && (rest == "" || rest[0] == '\n')
    ensures ReadRecord(Line(cells) + rest) == Got(Texts(cells), rest)
  {
    hide ReadField, Escape;
    if |cells| == 1 {
      FieldReadsBack(cells[0], rest);
      assert Line(cells) == Escape(cells[0]);
      assert Texts(cells) == [TextOf(cells[0])];
    } else {
      hide Line;
      var others := cells[1..];
      RecordReadsBack(others, rest);
      LineSplits(cells);
      var after := [','] + (Line(others) + rest);
      FieldReadsBack(cells[0], after);
      assert Line(cells) + rest == Escape(cells[0]) + after;
      assert after[1..] == Line(others) + rest;
      assert Texts(cells) == [TextOf(cells[0])] + Texts(others);
    }
  }

  lemma LineSplits(cells: seq<Cell>)
    requires |cells| > 1
    ensures Line(cells) == Escape(cells[0]) + [','] + Line(cells[1..])
  {
    var parts := seq(|cells|, i requires 0 <= i < |cells| => Escape(cells[i]));
    var others := cells[1..];
    assert parts[1..] == seq(|others|, i requires 0 <= i < |others| => Escape(others[i]));
  }

  lemma BodySplits(rows: seq<seq<Cell>>)
    requires |rows| > 1
    ensures Body(rows) == Line(rows[0]) + ['\n'] + Body(rows[1..])
  {
    var parts := seq(|rows|, i requires 0 <= i < |rows| => Line(rows[i]));
    var others := rows[1..];
    assert parts[1..] == seq(|others|, i requires 0 <= i < |others| => Line(others[i]));
  }

  function AllTexts(rows: seq<seq<Cell>>): seq<seq<string>> {
    seq(|rows|, i requires 0 <= i < |rows| => Texts(rows[i]))
  }

  lemma DecodeNothing()
    ensures Decode("") == Some([])
  {
  }

  lemma LineReadsBack(cells: seq<Cell>, after: string)
    requires cells != []
    ensures Decode(Line(cells) + ("\n" + after))
         == match Decode(after) case None => None case Some(more) => Some([Texts(cells)] + more)
  {
    RecordReadsBack(cells, "\n" + after);
    assert ("\n" + after)[1..] == after;
  }

  /** A body ended by a line break reads back as its rows. */
  lemma {:induction false} BodyReadsBack(rows: seq<seq<Cell>>)
    requires rows != [] && forall i :: 0 <= i < |rows| ==> rows[i] != []
    ensures Decode(Body(rows) + "\n") == Some(AllTexts(rows))
  {
    hide Decode, Line;
    if |rows| == 1 {
      assert Body(rows) + "\n" == Line(rows[0]) + ("\n" + "");
      LineReadsBack(rows[0], "");
      DecodeNothing();
      assert AllTexts(rows) == [Texts(rows[0])] + [];
    } else {
      BodySplits(rows);
      BodyReadsBack(rows[1..]);
      var after := Body(rows[1..]) + "\n";
      assert Body(rows) + "\n" == Line(rows[0]) + ("\n" + after);
      LineReadsBack(rows[0], after);
      assert AllTexts(rows) == [Texts(rows[0])] + AllTexts(rows[1..]);
    }
  }

  /** The one table whose body prints as nothing although it has a row: a single empty cell. */
  predicate IsLoneEmptyCell(rows: seq<seq<Cell>>) {
    |rows| == 1 && |rows[0]| == 1 && TextOf(rows[0][0]) == ""
  }

  lemma EmptyBodyIff(rows: seq<seq<Cell>>)
    requires forall i :: 0 <= i < |rows| ==> rows[i] != []
    ensures Body(rows) == "" <==> rows == [] || IsLoneEmptyCell(rows)
  {
    if |rows| > 1 {
      BodySplits(rows);
    } else if |rows| == 1 {
      assert Body(rows) == Line(rows[0]);
      if |rows[0]| > 1 {
        LineSplits(rows[0]);
      } else {
        assert Line(rows[0]) == Escape(rows[0][0]);
        if TextOf(rows[0][0]) != "" {
          assert TextOf(rows[0][0])[0] in TextOf(rows[0][0]);
        }
      }
    }
  }

  /**
    * Printing is reversible: reading a printed table gives back the header and the text of every cell, for all
    * strings, exactly unless the table is one column with one empty cell, whose row prints as nothing.
    */
  lemma CsvReadsBackIff(header: seq<string>, rows: seq<seq<Cell>>)
    requires |header| >= 1 && forall i :: 0 <= i < |rows| ==> |rows[i]| == |header|
    ensures Decode(ToCsv(header, rows)) == Some([header] + AllTexts(rows)) <==> !IsLoneEmptyCell(rows)
  {
    hide Body, Line, Decode, ReadRecord;
    var cells := seq(|header|, i requires 0 <= i < |header| => Text(header[i]));
    assert Texts(cells) == header;
    EmptyBodyIff(rows);
    var body := Body(rows);
    var after := body + (if body != "" then "\n" else "");
    assert ToCsv(header, rows) == Line(cells) + ("\n" + after);
    LineReadsBack(cells, after);
    if body == "" {
      assert after == "";
      DecodeNothing();
      assert [header] + [] == [header];
      assert |[header] + AllTexts(rows)| == 1 + |rows|;
      assert rows == [] ==> AllTexts(rows) == [];
    } else {
      BodyReadsBack(rows);
    }
  }

  /** With two or more columns every table reads back. */
  lemma TablesReadBack(header: seq<string>, rows: seq<seq<Cell>>)
    requires |header| >= 2 && forall i :: 0 <= i < |rows| ==> |rows[i]| == |header|
    ensures Decode(ToCsv(header, rows)) == Some([header] + AllTexts(rows))
  {
    hide ToCsv, Decode;
    CsvReadsBackIff(header, rows);
  }
}
