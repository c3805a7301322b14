/** Reading and writing CSV records (src/csvio.rs; the quoting of section 2 of RFC 4180). A
    character stands for its UTF-8 bytes: the special characters are ASCII, so no byte of
    another character looks like one. */
module CsvRecords {
  import opened Options

  datatype CsvOptions = CsvOptions(delimiter: char, quote: char, hasHeader: bool)

  datatype CsvError = UnterminatedQuote(row: nat)

  type Record = seq<string>

  datatype Parsed = Parsed(header: Option<Record>, rows: seq<Record>)

  predicate Ascii(o: CsvOptions) { o.delimiter < 128 as char && o.quote < 128 as char }

  /** The delimiter and the quote are ASCII, differ, and are no line feeds. */
  predicate Sane(o: CsvOptions)
  {
    Ascii(o) && o.delimiter != o.quote && o.delimiter != '\n' && o.quote != '\n'
  }

  predicate LineEnd(c: char) { c == '\n' || c == '\r' }

  // ----- reading ---------------------------------------------------------------------------

  datatype State = State(field: string, record: Record, rows: seq<Record>, inQuotes: bool, started: bool)

  function Fresh(rows: seq<Record>): State { State("", [], rows, false, false) }

  /** Lines 96-101 and 113-116: a record with nothing on its line is no record. */
  function EndRecord(s: State): State
  {
    if s.started || s.field != "" || s.record != [] then Fresh(s.rows + [s.record + [s.field]])
    else s.(started := false)
  }

  /** The reader's state after the rest of the text (lines 68-106). */
  function Read(o: CsvOptions, text: string, s: State): State
  {
    if text == "" then s
    else
      var b := text[0];
      if s.inQuotes then
        if b == o.quote then
          if |text| > 1 && text[1] == o.quote then Read(o, text[2..], s.(field := s.field + [o.quote]))
          else Read(o, text[1..], s.(inQuotes := false))
        else Read(o, text[1..], s.(field := s.field + [b]))
      else if b == o.quote && s.field == "" then Read(o, text[1..], s.(inQuotes := true, started := true))
      else if b == o.delimiter then Read(o, text[1..], s.(record := s.record + [s.field], field := "", started := true))
      else if LineEnd(b) then
        Read(o, text[if b == '\r' && |text| > 1 && text[1] == '\n' then 2 else 1..], EndRecord(s))
      else Read(o, text[1..], s.(field := s.field + [b], started := true))
  }

  function Records(o: CsvOptions, text: string): Result<seq<Record>, CsvError>
  {
    var s := Read(o, text, Fresh([]));
    if s.inQuotes then Err(UnterminatedQuote(|s.rows|)) else Ok(EndRecord(s).rows)
  }

  /** Lines 118-123. */
  function WithHeader(o: CsvOptions, rows: seq<Record>): Parsed
  {
    if o.hasHeader && rows != [] then Parsed(Some(rows[0]), rows[1..]) else Parsed(None, rows)
  }

  /** Lines 55-124. */
  method ParseRecords(o: CsvOptions, input: string) returns (r: Result<Parsed, CsvError>)
    ensures r == match Records(o, input) case Ok(rows) => Ok(WithHeader(o, rows)) case Err(e) => Err(e)
    ensures r.Err? <==> Records(o, input).Err?
    ensures r.Ok? ==>
              var all := Records(o, input).value;
              if o.hasHeader && all != [] then r.value.header.Some? && [r.value.header.value] + r.value.rows == all
              else r.value.header == None && r.value.rows == all
  {
    var rows: seq<Record>, record: Record, field: string, inQuotes, started, i := [], [], "", false, false, 0;
    assert input[0..] == input;
    while i < |input|
      invariant 0 <= i <= |input|
      invariant Read(o, input, Fresh([])) == Read(o, input[i..], State(field, record, rows, inQuotes, started))
    {
      var b := input[i];
      DropTwo(input, i);
      if inQuotes {
        if b == o.quote {
          if i + 1 < |input| && input[i + 1] == o.quote {
            field := field + [o.quote];
            i := i + 2;
            continue;
          }
          inQuotes := false;
          i := i + 1;
        } else {
          field := field + [b];
          i := i + 1;
        }
      } else if b == o.quote && field == "" {
        inQuotes := true;
        started := true;
        i := i + 1;
      } else if b == o.delimiter {
        record := record + [field];
        field := "";
        started := true;
        i := i + 1;
      } else if LineEnd(b) {
        if b == '\r' && i + 1 < |input| && input[i + 1] == '\n' {
          i := i + 1;
        }
        i := i + 1;
        if started || field != "" || record != [] {
          record := record + [field];
          rows := rows + [record];
          field := "";
          record := [];
        }
        started := false;
      } else {
        started := true;
        field := field + [b];
        i := i + 1;
      }
    }
    if inQuotes {
      return Err(UnterminatedQuote(|rows|));
    }
    if started || field != "" || record != [] {
      rows := rows + [record + [field]];
    }
    return Ok(WithHeader(o, rows));
  }

  lemma DropTwo(text: string, i: nat)
    requires i < |text|
    ensures text[i..][0] == text[i] && text[i..][1..] == text[i + 1..]
    ensures i + 1 < |text| ==> text[i..][1] == text[i + 1] && text[i..][2..] == text[i + 2..]
  {
  }

  // ----- writing ---------------------------------------------------------------------------

  predicate Special(o: CsvOptions, c: char)
  {
    c == o.delimiter || c == o.quote || LineEnd(c)
  }

  predicate NeedsQuote(o: CsvOptions, cell: string)
  {
    exists i :: 0 <= i < |cell| && Special(o, cell[i])
  }

  /** Quotes doubled. */
  function Escaped(o: CsvOptions, cell: string): string
  {
    if cell == "" then ""
    else (if cell[0] == o.quote then [o.quote, o.quote] else [cell[0]]) + Escaped(o, cell[1..])
  }

  function CellText(o: CsvOptions, cell: string): string
  {
    if NeedsQuote(o, cell) then [o.quote] + Escaped(o, cell) + [o.quote] else cell
  }

  function CellsText(o: CsvOptions, cells: Record): string
  {
    if cells == [] then ""
    else if |cells| == 1 then CellText(o, cells[0])
    else CellText(o, cells[0]) + [o.delimiter] + CellsText(o, cells[1..])
  }

  function RowText(o: CsvOptions, cells: Record): string
  {
    CellsText(o, cells) + "\n"
  }

  function AllText(o: CsvOptions, rows: seq<Record>): string
  {
    if rows == [] then "" else RowText(o, rows[0]) + AllText(o, rows[1..])
  }

  lemma {:induction false} EscapedSnoc(o: CsvOptions, cell: string, c: char)
    ensures Escaped(o, cell + [c]) == Escaped(o, cell) + if c == o.quote then [o.quote, o.quote] else [c]
  {
    if cell == "" {
      assert [c][1..] == "";
      assert cell + [c] == [c];
    } else {
      EscapedSnoc(o, cell[1..], c);
      assert (cell + [c])[1..] == cell[1..] + [c];
    }
  }

  lemma {:induction false} CellsSnoc(o: CsvOptions, cells: Record, cell: string)
    ensures CellsText(o, cells + [cell])
            == CellsText(o, cells) + (if cells == [] then "" else [o.delimiter]) + CellText(o, cell)
  {
    hide CellText;
    if cells == [] {
      assert cells + [cell] == [cell];
    } else {
      CellsSnoc(o, cells[1..], cell);
      assert (cells + [cell])[1..] == cells[1..] + [cell];
    }
  }

  /** Lines 313-337. */
  method WriteRow(out0: string, cells: Record, o: CsvOptions) returns (out: string)
    ensures out == out0 + RowText(o, cells)
  {
    hide CellText;
    out := out0;
    var first := true;
    assert cells[..0] == [];
    for n := 0 to |cells|
      invariant out == out0 + CellsText(o, cells[..n]) && first == (n == 0)
    {
      CellsSnoc(o, cells[..n], cells[n]);
      assert cells[..n + 1] == cells[..n] + [cells[n]];
      if !first {
        out := out + [o.delimiter];
      }
      first := false;
      out := WriteCell(out, cells[n], o);
    }
    assert cells[..|cells|] == cells;
    out := out + "\n";
  }

  /** Lines 320-334. */
  method WriteCell(out0: string, cell: string, o: CsvOptions) returns (out: string)
    ensures out == out0 + CellText(o, cell)
  {
    out := out0;
    var needsQuote := false;
    for i := 0 to |cell|
      invariant needsQuote <==> exists j :: 0 <= j < i && Special(o, cell[j])
    {
      if Special(o, cell[i]) {
        needsQuote := true;
      }
    }
    if needsQuote {
      out := out + [o.quote];
      assert cell[..0] == "";
      for i := 0 to |cell|
        invariant out == out0 + [o.quote] + Escaped(o, cell[..i])
      {
        EscapedSnoc(o, cell[..i], cell[i]);
        assert cell[..i + 1] == cell[..i] + [cell[i]];
        if cell[i] == o.quote {
          out := out + [o.quote];
        }
        out := out + [cell[i]];
      }
      assert cell[..|cell|] == cell;
      out := out + [o.quote];
    } else {
      out := out + cell;
    }
  }

  method WriteRows(rows: seq<Record>, o: CsvOptions) returns (out: string)
    ensures out == AllText(o, rows)
  {
    hide AllText, RowText;
    out := "";
    assert rows[0..] == rows;
    for n := 0 to |rows|
      invariant out + AllText(o, rows[n..]) == AllText(o, rows)
    {
      TextFrom(o, rows, n);
      assert out + (RowText(o, rows[n]) + AllText(o, rows[n + 1..]))
        == (out + RowText(o, rows[n])) + AllText(o, rows[n + 1..]);
      out := WriteRow(out, rows[n], o);
    }
    NoText(o);
    assert rows[|rows|..] == [] && out + "" == out;
  }

  lemma TextFrom(o: CsvOptions, rows: seq<Record>, n: nat)
    requires n < |rows|
    ensures AllText(o, rows[n..]) == RowText(o, rows[n]) + AllText(o, rows[n + 1..])
  {
    assert rows[n..][1..] == rows[n + 1..];
    hide RowText;
  }

  lemma NoText(o: CsvOptions)
    ensures AllText(o, []) == ""
  {
  }

  // ----- reading what was written ------------------------------------------------------------

  /** What follows a cell: the delimiter or the end of the line. */
  predicate AfterCell(o: CsvOptions, rest: string)
  {
    rest != "" && (rest[0] == o.delimiter || rest[0] == '\n')
  }

  /** The text of a quoted cell is read back up to its closing quote. */
  lemma {:induction false} ReadEscaped(o: CsvOptions, cell: string, rest: string, s: State)
    requires s.inQuotes && (rest == "" || rest[0] != o.quote)
    ensures Read(o, Escaped(o, cell) + [o.quote] + rest, s)
            == Read(o, rest, s.(field := s.field + cell, inQuotes := false))
    decreases |cell|
  {
    var text := Escaped(o, cell) + [o.quote] + rest;
    if cell == "" {
      assert text == [o.quote] + rest && text[1..] == rest;
      assert s.field + cell == s.field;
    } else {
      var next := Escaped(o, cell[1..]) + [o.quote] + rest;
      var grown := s.(field := s.field + [cell[0]]);
      ReadEscaped(o, cell[1..], rest, grown);
      assert s.field + [cell[0]] + cell[1..] == s.field + cell;
      if cell[0] == o.quote {
        assert text == [o.quote, o.quote] + next && text[2..] == next;
      } else {
        assert text == [cell[0]] + next && text[1..] == next;
      }
    }
  }

  lemma {:induction false} ReadPlain(o: CsvOptions, cell: string, rest: string, s: State)
    requires Sane(o) && !s.inQuotes && !NeedsQuote(o, cell)
    ensures Read(o, cell + rest, s) == Read(o, rest, s.(field := s.field + cell, started := s.started || cell != ""))
    decreases |cell|
  {
    var text := cell + rest;
    if cell == "" {
      assert text == rest && s.field + cell == s.field;
    } else {
      assert !Special(o, cell[0]) && text[0] == cell[0] && text[1..] == cell[1..] + rest;
      forall i | 0 <= i < |cell[1..]| ensures !Special(o, cell[1..][i]) {
        assert cell[1..][i] == cell[i + 1];
      }
      ReadPlain(o, cell[1..], rest, s.(field := s.field + [cell[0]], started := true));
      assert s.field + [cell[0]] + cell[1..] == s.field + cell;
    }
  }

  /** A written cell is read back. */
  lemma ReadCell(o: CsvOptions, cell: string, rest: string, s: State)
    requires Sane(o) && !s.inQuotes && s.field == "" && AfterCell(o, rest)
    ensures Read(o, CellText(o, cell) + rest, s) == Read(o, rest, s.(field := cell, started := s.started || cell != ""))
  {
    hide Read;
    if NeedsQuote(o, cell) {
      var body := Escaped(o, cell) + [o.quote] + rest;
      var begun := s.(inQuotes := true, started := true);
      assert CellText(o, cell) + rest == [o.quote] + body;
      OpenQuote(o, body, s);
      ReadEscaped(o, cell, rest, begun);
      assert s.field + cell == cell;
    } else {
      ReadPlain(o, cell, rest, s);
      assert s.field + cell == cell;
    }
  }

  lemma OpenQuote(o: CsvOptions, body: string, s: State)
    requires !s.inQuotes && s.field == ""
    ensures Read(o, [o.quote] + body, s) == Read(o, body, s.(inQuotes := true, started := true))
  {
    assert ([o.quote] + body)[1..] == body;
  }

  lemma ReadDelimiter(o: CsvOptions, rest: string, s: State)
    requires Sane(o) && !s.inQuotes
    ensures Read(o, [o.delimiter] + rest, s)
            == Read(o, rest, s.(record := s.record + [s.field], field := "", started := true))
  {
    assert ([o.delimiter] + rest)[1..] == rest;
  }

  lemma ReadLineEnd(o: CsvOptions, rest: string, s: State)
    requires Sane(o) && !s.inQuotes
    ensures Read(o, "\n" + rest, s) == Read(o, rest, EndRecord(s))
  {
    assert ("\n" + rest)[1..] == rest;
  }

  /** The rest of a row, after some of its cells. */
  lemma {:induction false} ReadCells(o: CsvOptions, cells: Record, rest: string, s: State)
    requires Sane(o) && !s.inQuotes && s.field == "" && cells != []
    requires s.record != [] ==> s.started
    ensures Read(o, CellsText(o, cells) + "\n" + rest, s) ==
      Read(o, rest, if s.record == [] && !s.started && cells == [""] then s else Fresh(s.rows + [s.record + cells]))
    decreases |cells|
  {
    hide Read, CellText;
    if |cells| == 1 {
      assert CellsText(o, cells) + "\n" + rest == CellText(o, cells[0]) + ("\n" + rest);
      ReadCell(o, cells[0], "\n" + rest, s);
      var filled := s.(field := cells[0], started := s.started || cells[0] != "");
      ReadLineEnd(o, rest, filled);
      assert cells == [cells[0]];
    } else {
      var tail := CellsText(o, cells[1..]) + "\n" + rest;
      assert CellsText(o, cells) + "\n" + rest == CellText(o, cells[0]) + ([o.delimiter] + tail);
      ReadCell(o, cells[0], [o.delimiter] + tail, s);
      var filled := s.(field := cells[0], started := s.started || cells[0] != "");
      ReadDelimiter(o, tail, filled);
      var next := filled.(record := filled.record + [filled.field], field := "", started := true);
      ReadCells(o, cells[1..], rest, next);
      assert s.record + [cells[0]] + cells[1..] == s.record + cells;
    }
  }

  /** A row of no cells and a row of one empty cell are both written as an empty line. */
  predicate Blank(row: Record)
  {
    row == [] || row == [""]
  }

  function NonBlank(rows: seq<Record>): (r: seq<Record>)
    ensures |r| <= |rows|
    ensures |r| == |rows| <==> forall i :: 0 <= i < |rows| ==> !Blank(rows[i])
  {
    if rows == [] then []
    else if Blank(rows[0]) then NonBlank(rows[1..])
    else [rows[0]] + NonBlank(rows[1..])
  }

  lemma {:induction false} ReadRows(o: CsvOptions, rows: seq<Record>, before: seq<Record>)
    requires Sane(o)
    ensures Read(o, AllText(o, rows), Fresh(before)) == Fresh(before + NonBlank(rows))
    decreases |rows|
  {
    if rows == [] {
      assert before + [] == before;
    } else {
      hide Read, CellsText;
      var rest := AllText(o, rows[1..]);
      if rows[0] == [] {
        NoCells(o);
        assert AllText(o, rows) == "\n" + rest;
        ReadLineEnd(o, rest, Fresh(before));
        ReadRows(o, rows[1..], before);
      } else {
        assert AllText(o, rows) == CellsText(o, rows[0]) + "\n" + rest;
        ReadCells(o, rows[0], rest, Fresh(before));
        assert [] + rows[0] == rows[0];
        if Blank(rows[0]) {
          ReadRows(o, rows[1..], before);
        } else {
          ReadRows(o, rows[1..], before + [rows[0]]);
          assert before + [rows[0]] + NonBlank(rows[1..]) == before + NonBlank(rows);
        }
      }
    }
  }

  lemma NoCells(o: CsvOptions)
    ensures CellsText(o, []) == ""
  {
  }

  lemma {:induction false} NonBlankAll(rows: seq<Record>)
    ensures NonBlank(rows) == rows <==> forall i :: 0 <= i < |rows| ==> !Blank(rows[i])
  {
    if rows != [] && !Blank(rows[0]) {
      NonBlankAll(rows[1..]);
      assert rows == [rows[0]] + rows[1..];
      if forall i :: 0 <= i < |rows[1..]| ==> !Blank(rows[1..][i]) {
        assert forall i :: 0 < i < |rows| ==> rows[i] == rows[1..][i - 1];
      }
    }
  }

  /** Reading what was written gives every row that is not blank, and so gives the rows back
      exactly when none is blank: whatever delimiters, quotes and line ends the cells hold. */
  lemma WrittenIsRead(o: CsvOptions, rows: seq<Record>)
    requires Sane(o)
    ensures Records(o, AllText(o, rows)) == Ok(NonBlank(rows))
    ensures Records(o, AllText(o, rows)) == Ok(rows) <==> forall i :: 0 <= i < |rows| ==> !Blank(rows[i])
  {
    ReadRows(o, rows, []);
    NonBlankAll(rows);
    assert [] + NonBlank(rows) == NonBlank(rows);
  }

  /** Every list of rows that are not blank is read back. */
  ghost predicate RoundTrips(o: CsvOptions)
  {
    forall rows: seq<Record> :: (forall i :: 0 <= i < |rows| ==> !Blank(rows[i])) ==>
      Records(o, AllText(o, rows)) == Ok(rows)
  }

  /** Among ASCII options the sane ones are exactly those under which rows are read back. */
  lemma RoundTripsIffSane(o: CsvOptions)
    requires Ascii(o)
    ensures RoundTrips(o) <==> Sane(o)
  {
    if Sane(o) {
      forall rows: seq<Record> | (forall i :: 0 <= i < |rows| ==> !Blank(rows[i]))
        ensures Records(o, AllText(o, rows)) == Ok(rows)
      {
        WrittenIsRead(o, rows);
      }
    } else {
      EmptyTwice(o);
      assert !Blank(["", ""]);
      hide Records, AllText;
      var rows: seq<Record> := [["", ""]];
      assert forall i :: 0 <= i < |rows| ==> rows[i] == ["", ""];
      assert Records(o, AllText(o, rows)) != Ok(rows);
    }
  }

  /** Two empty cells are written as the delimiter and a line feed, which insane options read
      otherwise. */
  lemma EmptyTwice(o: CsvOptions)
    requires Ascii(o) && !Sane(o)
    ensures Records(o, AllText(o, [["", ""]])) != Ok([["", ""]])
  {
    TwoEmptyText(o);
    var text := [o.delimiter, '\n'];
    var start := Fresh([]);
    assert text[1..] == "\n" && "\n"[1..] == "" && text[2..] == "";
    if o.delimiter == o.quote {
      var quoted := start.(inQuotes := true, started := true);
      assert Read(o, text, start) == Read(o, "\n", quoted);
      assert Read(o, "\n", quoted) == if o.quote == '\n' then quoted.(inQuotes := false) else quoted.(field := "\n");
    } else {
      var next := State("", [""], [], false, true);
      assert start.record + [start.field] == [""];
      assert Read(o, text, start) == Read(o, "\n", next);
      assert next.record + [next.field] == ["", ""];
      if o.quote == '\n' {
        assert Read(o, "\n", next) == next.(inQuotes := true);
      } else {
        assert Read(o, "\n", next) == State("", ["", ""], [], false, true);
      }
    }
  }

  lemma TwoEmptyText(o: CsvOptions)
    ensures AllText(o, [["", ""]]) == [o.delimiter, '\n']
  {
    var row: Record := ["", ""];
    var rows: seq<Record> := [row];
    assert row[1..] == [""] && rows[1..] == [];
    assert CellText(o, "") == "" && CellsText(o, [""]) == "";
    assert CellsText(o, row) == [o.delimiter];
    assert RowText(o, row) == [o.delimiter, '\n'] && AllText(o, []) == "";
  }

  /** A row of one empty cell is lost, and so is one of no cells. */
  lemma BlankRowCounterexample(o: CsvOptions)
    requires Sane(o)
    ensures Records(o, AllText(o, [[""]])) == Ok([]) && Records(o, AllText(o, [[]])) == Ok([])
  {
    WrittenIsRead(o, [[""]]);
    WrittenIsRead(o, [[]]);
    assert Blank([""]) && Blank([]);
  }
}
