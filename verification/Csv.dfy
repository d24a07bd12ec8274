// CSV of a view (web/src/vizModel.ts), and a reader in the form of section 2
// of RFC 4180 with a line feed in place of CR LF.

module Csv {
  import opened Text
  import opened Wrappers

  type Table = seq<seq<string>>

  // ----- printing -----

  predicate NeedsQuotes(text: string) {
    '"' in text || ',' in text || '\n' in text
  }

  /** Every quote written twice. */
  function Doubled(text: string): string {
    if text == "" then ""
    else if text[0] == '"' then "\"\"" + Doubled(text[1..])
    else [text[0]] + Doubled(text[1..])
  }

  function Escape(text: string): string {
    if NeedsQuotes(text) then "\"" + (Doubled(text) + "\"") else text
  }

  lemma {:induction false} DoubledLength(text: string)
    ensures |Doubled(text)| >= |text|
  {
    if text != "" { DoubledLength(text[1..]); }
  }

  /** A cell is written as it is exactly when it holds no quote, comma or line feed. */
  lemma EscapedWhenNeeded(text: string)
    ensures Escape(text) == text <==> '"' !in text && ',' !in text && '\n' !in text
  {
    DoubledLength(text);
  }

  function RowText(row: seq<string>): string {
    Join(seq(|row|, i requires 0 <= i < |row| => Escape(row[i])), ",")
  }

  function TableText(table: Table): string {
    Join(seq(|table|, i requires 0 <= i < |table| => RowText(table[i])), "\n")
  }

  function ToCsv(headers: seq<string>, rows: Table): string {
    TableText([headers] + rows)
  }

  // ----- reading -----

  datatype Field = Field(text: string, rest: string)

  /** The inside of a quoted field, up to and including its closing quote. */
  function ReadQuoted(s: string): (r: Option<Field>)
    ensures r.Some? ==> |r.value.rest| < |s|
  {
    if s == "" then None
    else if s[0] != '"' then
      match ReadQuoted(s[1..])
      case None => None
      case Some(f) => Some(Field([s[0]] + f.text, f.rest))
    else if |s| > 1 && s[1] == '"' then
      match ReadQuoted(s[2..])
      case None => None
      case Some(f) => Some(Field("\"" + f.text, f.rest))
    else Some(Field("", s[1..]))
  }

  /** A field without quotes ends at a comma, at a line feed or at the end; a quote in it is an error. */
  function ReadPlain(s: string): (r: Option<Field>)
    ensures r.Some? ==> |r.value.rest| <= |s|
  {
    if s == "" || s[0] == ',' || s[0] == '\n' then Some(Field("", s))
    else if s[0] == '"' then None
    else
      match ReadPlain(s[1..])
      case None => None
      case Some(f) => Some(Field([s[0]] + f.text, f.rest))
  }

  function ReadField(s: string): (r: Option<Field>)
    ensures r.Some? ==> |r.value.rest| <= |s|
  {
    if s != "" && s[0] == '"' then ReadQuoted(s[1..]) else ReadPlain(s)
  }

  /** Records separated by line feeds, each of one or more fields separated by commas. */
  function Read(s: string): (table: Option<Table>)
    ensures table.Some? ==> table.value != [] && forall i :: 0 <= i < |table.value| ==> table.value[i] != []
    decreases |s|
  {
    match ReadField(s)
    case None => None
    case Some(f) =>
      if f.rest == "" then Some([[f.text]])
      else if f.rest[0] != ',' && f.rest[0] != '\n' then None
      else
        match Read(f.rest[1..])
        case None => None
        case Some(more) =>
          if f.rest[0] == '\n' then Some([[f.text]] + more)
          else Some([[f.text] + more[0]] + more[1..])
  }

  /** A reader that takes a final line feed as the end of the last record, as RFC 4180 permits. */
  function ReadEnded(s: string): Option<Table> {
    match Read(s)
    case None => None
    case Some(table) =>
      if |table| > 1 && table[|table| - 1] == [""] then Some(table[..|table| - 1]) else Some(table)
  }

  // ----- fields -----

  /** What may follow a field. */
  ghost predicate Boundary(rest: string) {
    rest == "" || rest[0] == ',' || rest[0] == '\n'
  }

  lemma HeadAndRest<T>(s: seq<T>)
    requires s != []
    ensures [s[0]] + s[1..] == s
  {
  }

  lemma QuotedEnd(rest: string)
    requires Boundary(rest)
    ensures ReadQuoted("\"" + rest) == Some(Field("", rest))
  {
    assert ("\"" + rest)[1..] == rest;
  }

  lemma QuotedChar(c: char, inner: string, f: Field)
    requires ReadQuoted(inner) == Some(f)
    ensures ReadQuoted(Doubled([c]) + inner) == Some(Field([c] + f.text, f.rest))
  {
    assert [c][1..] == "" && Doubled("") == "";
    if c == '"' {
      assert Doubled([c]) + inner == "\"\"" + inner;
      assert ("\"\"" + inner)[2..] == inner;
    } else {
      assert Doubled([c]) + inner == [c] + inner;
      assert ([c] + inner)[1..] == inner;
    }
  }

  lemma DoubledStep(text: string)
    requires text != ""
    ensures Doubled(text) == Doubled([text[0]]) + Doubled(text[1..])
  {
    assert [text[0]][1..] == "" && Doubled("") == "";
  }

  lemma {:induction false} QuotedRoundTrip(text: string, rest: string)
    requires Boundary(rest)
    ensures ReadQuoted(Doubled(text) + ("\"" + rest)) == Some(Field(text, rest))
  {
    var tail := "\"" + rest;
    if text == "" {
      QuotedEnd(rest);
      assert Doubled(text) + tail == tail;
    } else {
      QuotedRoundTrip(text[1..], rest);
      QuotedChar(text[0], Doubled(text[1..]) + tail, Field(text[1..], rest));
      DoubledStep(text);
      Regroup(Doubled([text[0]]), Doubled(text[1..]), tail);
      HeadAndRest(text);
    }
  }

  lemma {:induction false} PlainRoundTrip(text: string, rest: string)
    requires Boundary(rest) && !NeedsQuotes(text)
    ensures ReadPlain(text + rest) == Some(Field(text, rest))
  {
    if text == "" {
      assert text + rest == rest;
    } else {
      PlainRoundTrip(text[1..], rest);
      assert (text + rest)[1..] == text[1..] + rest;
      assert [text[0]] + text[1..] == text;
    }
  }

  lemma QuotedFieldRoundTrip(text: string, rest: string)
    requires Boundary(rest)
    ensures ReadField("\"" + (Doubled(text) + "\"") + rest) == Some(Field(text, rest))
  {
    var s, inside := "\"" + (Doubled(text) + "\"") + rest, Doubled(text) + ("\"" + rest);
    assert s == "\"" + inside;
    assert s[1..] == inside;
    QuotedRoundTrip(text, rest);
  }

  lemma PlainFieldRoundTrip(text: string, rest: string)
    requires Boundary(rest) && !NeedsQuotes(text)
    ensures ReadField(text + rest) == Some(Field(text, rest))
  {
    PlainRoundTrip(text, rest);
    assert text + rest != "" ==> (text + rest)[0] == if text != "" then text[0] else rest[0];
  }

  /** Any text at all is read back from its escaped form. */
  lemma FieldRoundTrip(text: string, rest: string)
    requires Boundary(rest)
    ensures ReadField(Escape(text) + rest) == Some(Field(text, rest))
  {
    if NeedsQuotes(text) { QuotedFieldRoundTrip(text, rest); } else { PlainFieldRoundTrip(text, rest); }
  }

  // ----- rows and tables -----

  lemma RowTextStep(row: seq<string>)
    requires row != []
    ensures RowText(row) == if |row| == 1 then Escape(row[0]) else Escape(row[0]) + ("," + RowText(row[1..]))
  {
    var cells := seq(|row|, i requires 0 <= i < |row| => Escape(row[i]));
    assert cells[1..] == seq(|row| - 1, i requires 0 <= i < |row| - 1 => Escape(row[1..][i]));
  }

  lemma ReadLast(s: string, text: string)
    requires ReadField(s) == Some(Field(text, ""))
    ensures Read(s) == Some([[text]])
  {
  }

  lemma ReadBeforeRow(s: string, text: string, below: string)
    requires ReadField(s) == Some(Field(text, "\n" + below)) && Read(below).Some?
    ensures Read(s) == Some([[text]] + Read(below).value)
  {
    assert ("\n" + below)[1..] == below;
  }

  lemma ReadBeforeCell(s: string, text: string, beside: string)
    requires ReadField(s) == Some(Field(text, "," + beside)) && Read(beside).Some?
    ensures Read(s) == Some([[text] + Read(beside).value[0]] + Read(beside).value[1..])
  {
    assert ("," + beside)[1..] == beside;
  }

  /** A printed row before more records is read as that row and then as those. */
  lemma {:induction false} RowRoundTrip(row: seq<string>, below: string)
    requires row != [] && Read(below).Some?
    ensures Read(RowText(row) + ("\n" + below)) == Some([row] + Read(below).value)
    decreases |row|
  {
    RowTextStep(row);
    var rest := "\n" + below;
    if |row| == 1 {
      assert row == [row[0]];
      FieldRoundTrip(row[0], rest);
      ReadBeforeRow(RowText(row) + rest, row[0], below);
    } else {
      RowRoundTrip(row[1..], below);
      CellThenRow(row, rest, Read(below).value);
    }
  }

  /** So is the last row. */
  lemma {:induction false} LastRowRoundTrip(row: seq<string>)
    requires row != []
    ensures Read(RowText(row)) == Some([row])
    decreases |row|
  {
    RowTextStep(row);
    if |row| == 1 {
      assert row == [row[0]];
      FieldRoundTrip(row[0], "");
      assert RowText(row) + "" == RowText(row);
      ReadLast(RowText(row), row[0]);
    } else {
      LastRowRoundTrip(row[1..]);
      var nothing: Table := [];
      assert RowText(row[1..]) + "" == RowText(row[1..]) && [row[1..]] + nothing == [row[1..]];
      CellThenRow(row, "", nothing);
      assert RowText(row) + "" == RowText(row) && [row] + nothing == [row];
    }
  }

  lemma FirstOf(row: seq<string>, more: Table)
    ensures ([row] + more)[0] == row && ([row] + more)[1..] == more
  {
  }

  lemma CellThenRow(row: seq<string>, rest: string, more: Table)
    requires |row| > 1 && Read(RowText(row[1..]) + rest) == Some([row[1..]] + more)
    ensures Read(RowText(row) + rest) == Some([row] + more)
  {
    var others := RowText(row[1..]);
    RowTextStep(row);
    FieldRoundTrip(row[0], "," + (others + rest));
    Regroup(Escape(row[0]), "," + others, rest);
    Regroup(",", others, rest);
    ReadBeforeCell(RowText(row) + rest, row[0], others + rest);
    FirstOf(row[1..], more);
    HeadAndRest(row);
  }

  lemma TableTextStep(table: Table)
    requires table != []
    ensures TableText(table) == RowText(table[0]) + if |table| == 1 then "" else "\n" + TableText(table[1..])
  {
    var lines := seq(|table|, i requires 0 <= i < |table| => RowText(table[i]));
    assert lines[1..] == seq(|table| - 1, i requires 0 <= i < |table| - 1 => RowText(table[1..][i]));
  }

  lemma {:induction false} TableRoundTrip(table: Table)
    requires table != [] && forall i :: 0 <= i < |table| ==> table[i] != []
    ensures Read(TableText(table)) == Some(table)
  {
    TableTextStep(table);
    if |table| == 1 {
      LastRowRoundTrip(table[0]);
      assert table == [table[0]];
      assert RowText(table[0]) + "" == RowText(table[0]);
    } else {
      TableRoundTrip(table[1..]);
      RowRoundTrip(table[0], TableText(table[1..]));
      assert [table[0]] + table[1..] == table;
    }
  }

  // ----- the round trip -----

  ghost predicate EveryRowHasColumns(headers: seq<string>, rows: Table) {
    headers != [] && forall i :: 0 <= i < |rows| ==> rows[i] != []
  }

  /** The reader gives the table back exactly when no row is without columns. */
  lemma RoundTrip(headers: seq<string>, rows: Table)
    ensures Read(ToCsv(headers, rows)) == Some([headers] + rows) <==> EveryRowHasColumns(headers, rows)
  {
    var table := [headers] + rows;
    assert forall i :: 0 <= i < |rows| ==> table[i + 1] == rows[i];
    if EveryRowHasColumns(headers, rows) {
      TableRoundTrip(table);
    } else if headers == [] {
      assert table[0] == [];
    }
  }

  /** A reader that accepts a final line feed also needs a last row that is not one empty cell. */
  lemma EndedRoundTrip(headers: seq<string>, rows: Table)
    requires EveryRowHasColumns(headers, rows)
    ensures ReadEnded(ToCsv(headers, rows)) == Some([headers] + rows) <==> rows == [] || rows[|rows| - 1] != [""]
  {
    RoundTrip(headers, rows);
  }
}
