/** CSV text as lines of cells (section 2 of RFC 4180, and what src/csvio.rs allows beyond it): a cell
    is a quoted part, or none, and whatever follows it up to the next delimiter or line end. Lines end
    with a line feed, a carriage return or both, and the last one may have no end. What the reader
    accepts is exactly the text of such lines, and it returns the cells of those that are not empty. */
module CsvGrammar {
  import opened Options
  import opened CsvRecords

  // ----- lines -------------------------------------------------------------------------------

  datatype Cell = Cell(quoted: Option<string>, tail: string)

  datatype Line = Line(first: Cell, more: seq<Cell>)

  /** The delimiter and the quote differ and are no line ends. */
  predicate Clean(o: CsvOptions)
  {
    o.delimiter != o.quote && o.delimiter !in "\n\r" && o.quote !in "\n\r"
  }

  predicate Ending(o: CsvOptions, c: char)
  {
    c == o.delimiter || c in "\n\r"
  }

  /** What follows the quoted part does not begin with a quote and holds nothing that ends a cell. */
  ghost predicate GoodCell(o: CsvOptions, c: Cell)
  {
    (c.tail == "" || c.tail[0] != o.quote) && forall i :: 0 <= i < |c.tail| ==> !Ending(o, c.tail[i])
  }

  /** The quoted part has its quotes doubled. */
  function CellSource(o: CsvOptions, c: Cell): string
  {
    (if c.quoted.Some? then [o.quote] + Escaped(o, c.quoted.value) + [o.quote] else "") + c.tail
  }

  function CellValue(c: Cell): string
  {
    (if c.quoted.Some? then c.quoted.value else "") + c.tail
  }

  ghost predicate GoodLine(o: CsvOptions, line: Line)
  {
    GoodCell(o, line.first) && forall i :: 0 <= i < |line.more| ==> GoodCell(o, line.more[i])
  }

  function MoreSource(o: CsvOptions, cells: seq<Cell>): string
  {
    if cells == [] then "" else [o.delimiter] + (CellSource(o, cells[0]) + MoreSource(o, cells[1..]))
  }

  function LineSource(o: CsvOptions, line: Line): string
  {
    CellSource(o, line.first) + MoreSource(o, line.more)
  }

  function Values(cells: seq<Cell>): (r: Record)
    ensures |r| == |cells|
  {
    if cells == [] then [] else [CellValue(cells[0])] + Values(cells[1..])
  }

  function LineValue(line: Line): Record { [CellValue(line.first)] + Values(line.more) }

  /** Nothing at all stands on the line. */
  predicate Empty(line: Line) { line == Line(Cell(None, ""), []) }

  /** The lines with their ends, and a last one without. */
  datatype File = File(lines: seq<(Line, string)>, last: Line)

  predicate Newline(end: string) { end in ["\n", "\r", "\r\n"] }

  ghost predicate GoodFile(o: CsvOptions, f: File)
  {
    GoodLine(o, f.last) && forall i :: 0 <= i < |f.lines| ==> GoodLine(o, f.lines[i].0) && Newline(f.lines[i].1)
  }

  function LinesSource(o: CsvOptions, lines: seq<(Line, string)>, last: string): string
  {
    if lines == [] then last else LineSource(o, lines[0].0) + (lines[0].1 + LinesSource(o, lines[1..], last))
  }

  function FileSource(o: CsvOptions, f: File): string { LinesSource(o, f.lines, LineSource(o, f.last)) }

  function LineRecords(line: Line): seq<Record> { if Empty(line) then [] else [LineValue(line)] }

  function LinesRecords(lines: seq<(Line, string)>): seq<Record>
  {
    if lines == [] then [] else LineRecords(lines[0].0) + LinesRecords(lines[1..])
  }

  function FileRecords(f: File): seq<Record> { LinesRecords(f.lines) + LineRecords(f.last) }

  // ----- lines are read as their cells -------------------------------------------------------

  lemma {:induction false} TailRead(o: CsvOptions, tail: string, rest: string, s: State)
    requires Clean(o) && !s.inQuotes && forall i :: 0 <= i < |tail| ==> !Ending(o, tail[i])
    requires s.field == "" && tail != "" ==> tail[0] != o.quote
    ensures Read(o, tail + rest, s) == Read(o, rest, s.(field := s.field + tail, started := s.started || tail != ""))
    decreases |tail|
  {
    if tail == "" {
      assert tail + rest == rest && s.field + tail == s.field;
    } else {
      assert (tail + rest)[0] == tail[0] && (tail + rest)[1..] == tail[1..] + rest;
      assert forall i :: 0 <= i < |tail| - 1 ==> tail[1..][i] == tail[i + 1];
      var grown := s.(field := s.field + [tail[0]], started := true);
      PlainStep(o, tail[0], tail + rest, s);
      TailRead(o, tail[1..], rest, grown);
      assert s.field + [tail[0]] + tail[1..] == s.field + tail;
    }
  }

  /** A character that neither ends a cell nor opens a quoted part. */
  lemma PlainStep(o: CsvOptions, b: char, text: string, s: State)
    requires Clean(o) && !s.inQuotes && !Ending(o, b) && (s.field == "" ==> b != o.quote) && text != "" && text[0] == b
    ensures Read(o, text, s) == Read(o, text[1..], s.(field := s.field + [b], started := true))
  {
  }

  lemma CellRead(o: CsvOptions, c: Cell, rest: string, s: State)
    requires Clean(o) && GoodCell(o, c) && !s.inQuotes && s.field == "" && (rest == "" || Ending(o, rest[0]))
    ensures Read(o, CellSource(o, c) + rest, s)
         == Read(o, rest, s.(field := CellValue(c), started := s.started || c != Cell(None, "")))
  {
    hide Read;
    if c.quoted.Some? {
      var q, after := c.quoted.value, c.tail + rest;
      var begun := s.(inQuotes := true, started := true);
      var body := Escaped(o, q) + [o.quote] + after;
      assert CellSource(o, c) + rest == [o.quote] + body;
      OpenQuote(o, body, s);
      ReadEscaped(o, q, after, begun);
      assert s.field + q == q;
      TailRead(o, c.tail, rest, begun.(field := q, inQuotes := false));
    } else {
      assert CellSource(o, c) + rest == c.tail + rest && "" + c.tail == c.tail;
      TailRead(o, c.tail, rest, s);
      assert s.field + c.tail == c.tail;
    }
  }

  lemma DelimiterStep(o: CsvOptions, rest: string, s: State)
    requires Clean(o) && !s.inQuotes
    ensures Read(o, [o.delimiter] + rest, s)
         == Read(o, rest, s.(record := s.record + [s.field], field := "", started := true))
  {
    assert ([o.delimiter] + rest)[1..] == rest;
  }

  /** The cells after the first one of a line. */
  lemma {:induction false} MoreRead(o: CsvOptions, cells: seq<Cell>, rest: string, s: State)
    requires Clean(o) && !s.inQuotes && forall i :: 0 <= i < |cells| ==> GoodCell(o, cells[i])
    requires rest == "" || rest[0] in "\n\r"
    ensures cells == [] ==> Read(o, MoreSource(o, cells) + rest, s) == Read(o, rest, s)
    ensures cells != [] ==>
              var all := s.record + [s.field] + Values(cells);
              Read(o, MoreSource(o, cells) + rest, s)
              == Read(o, rest, State(all[|all| - 1], all[..|all| - 1], s.rows, false, true))
    decreases |cells|
  {
    hide Read, CellSource, CellValue;
    if cells == [] {
      assert MoreSource(o, cells) + rest == rest;
    } else {
      var tail := MoreSource(o, cells[1..]) + rest;
      MoreStarts(o, cells[1..], rest);
      var next := State("", s.record + [s.field], s.rows, false, true);
      assert MoreSource(o, cells) + rest == [o.delimiter] + (CellSource(o, cells[0]) + tail);
      DelimiterStep(o, CellSource(o, cells[0]) + tail, s);
      CellRead(o, cells[0], tail, next);
      var filled := next.(field := CellValue(cells[0]));
      MoreRead(o, cells[1..], rest, filled);
      ValuesTaken(s.record + [s.field], cells);
    }
  }

  lemma ValuesTaken(record: Record, cells: seq<Cell>)
    requires cells != []
    ensures record + [CellValue(cells[0])] + Values(cells[1..]) == record + Values(cells)
    ensures |cells| == 1 ==> record + Values(cells) == record + [CellValue(cells[0])]
  {
    hide CellValue;
    var first, more := CellValue(cells[0]), Values(cells[1..]);
    assert Values(cells) == [first] + more;
    hide Values;
    Appended(record, first, more);
  }

  lemma Appended(record: Record, first: string, more: Record)
    ensures record + [first] + more == record + ([first] + more)
    ensures more == [] ==> record + ([first] + more) == record + [first]
  {
  }

  lemma MoreStarts(o: CsvOptions, cells: seq<Cell>, rest: string)
    requires rest == "" || rest[0] in "\n\r"
    ensures var text := MoreSource(o, cells) + rest; text == "" || Ending(o, text[0])
  {
    hide CellSource;
  }

  /** A line up to its end: either nothing stands on it, or its cells are in the field and the record. */
  lemma LineRead(o: CsvOptions, line: Line, rest: string, rows: seq<Record>) returns (s: State)
    requires Clean(o) && GoodLine(o, line) && (rest == "" || rest[0] in "\n\r")
    ensures Read(o, LineSource(o, line) + rest, Fresh(rows)) == Read(o, rest, s)
    ensures !s.inQuotes && EndRecord(s) == Fresh(rows + LineRecords(line))
  {
    hide Read, CellSource;
    var tail := MoreSource(o, line.more) + rest;
    MoreStarts(o, line.more, rest);
    assert LineSource(o, line) + rest == CellSource(o, line.first) + tail;
    CellRead(o, line.first, tail, Fresh(rows));
    var filled := Fresh(rows).(field := CellValue(line.first), started := line.first != Cell(None, ""));
    MoreRead(o, line.more, rest, filled);
    if line.more == [] {
      s := filled;
      assert [] + [filled.field] == LineValue(line);
      assert rows + [] == rows;
    } else {
      var all := [] + [filled.field] + Values(line.more);
      assert all == LineValue(line);
      s := State(all[|all| - 1], all[..|all| - 1], rows, false, true);
      assert s.record + [s.field] == LineValue(line);
    }
  }

  /** A line end, with what follows it: a line feed behind a carriage return belongs to it. */
  lemma EndRead(o: CsvOptions, end: string, rest: string, s: State)
    requires Clean(o) && Newline(end) && !s.inQuotes
    ensures Read(o, end + rest, s) == Read(o, rest, EndRecord(s))
         || (end == "\r" && rest != "" && rest[0] == '\n' && Read(o, end + rest, s) == Read(o, rest[1..], EndRecord(s)))
  {
    var text := end + rest;
    if end == "\r\n" {
      assert text[0] == '\r' && text[1] == '\n' && text[2..] == rest;
    } else {
      assert text[0] == end[0] && text[1..] == rest;
      if rest != "" && end == "\r" && rest[0] == '\n' {
        assert text[1] == '\n' && text[2..] == rest[1..];
      }
    }
  }

  /** An empty line changes nothing between records. */
  lemma FeedSkipped(o: CsvOptions, rest: string, rows: seq<Record>)
    requires Clean(o) && rest != "" && rest[0] == '\n'
    ensures Read(o, rest, Fresh(rows)) == Read(o, rest[1..], Fresh(rows))
  {
    assert EndRecord(Fresh(rows)) == Fresh(rows);
  }

  lemma {:induction false} LinesRead(o: CsvOptions, lines: seq<(Line, string)>, last: string, rows: seq<Record>)
    requires Clean(o) && forall i :: 0 <= i < |lines| ==> GoodLine(o, lines[i].0) && Newline(lines[i].1)
    ensures Read(o, LinesSource(o, lines, last), Fresh(rows)) == Read(o, last, Fresh(rows + LinesRecords(lines)))
    decreases |lines|
  {
    hide Read, LineSource, LineRecords;
    if lines == [] {
      assert rows + [] == rows;
    } else {
      var end, rest := lines[0].1, LinesSource(o, lines[1..], last);
      assert end != "" && (end + rest)[0] in "\n\r";
      var s := LineRead(o, lines[0].0, end + rest, rows);
      var next := rows + LineRecords(lines[0].0);
      EndRead(o, end, rest, s);
      if rest != "" && rest[0] == '\n' {
        FeedSkipped(o, rest, next);
      }
      LinesRead(o, lines[1..], last, next);
      assert next + LinesRecords(lines[1..]) == rows + LinesRecords(lines);
    }
  }

  lemma FileRead(o: CsvOptions, f: File)
    requires Clean(o) && GoodFile(o, f)
    ensures Records(o, FileSource(o, f)) == Ok(FileRecords(f))
  {
    hide Read, LinesSource, LineSource, LinesRecords, LineRecords;
    LinesRead(o, f.lines, LineSource(o, f.last), []);
    var rows := [] + LinesRecords(f.lines);
    var s := LineRead(o, f.last, "", rows);
    assert LineSource(o, f.last) + "" == LineSource(o, f.last);
    NothingLeft(o, s);
    assert rows + LineRecords(f.last) == FileRecords(f);
  }

  lemma NothingLeft(o: CsvOptions, s: State)
    ensures Read(o, "", s) == s
  {
  }

  // ----- whatever is read is the text of lines -----------------------------------------------

  /** A quoted part that is closed before the text ends. */
  lemma {:induction false} QuotedOf(o: CsvOptions, text: string, s: State) returns (q: string, rest: string)
    requires Clean(o) && s.inQuotes && !Read(o, text, s).inQuotes
    ensures text == Escaped(o, q) + [o.quote] + rest && (rest == "" || rest[0] != o.quote)
    decreases |text|
  {
    if text[0] != o.quote {
      var more;
      more, rest := QuotedOf(o, text[1..], s.(field := s.field + [text[0]]));
      q := [text[0]] + more;
      assert q[1..] == more && text == [text[0]] + text[1..];
    } else if |text| > 1 && text[1] == o.quote {
      var more;
      more, rest := QuotedOf(o, text[2..], s.(field := s.field + [o.quote]));
      q := [o.quote] + more;
      assert q[1..] == more && text == [o.quote, o.quote] + text[2..];
    } else {
      q, rest := "", text[1..];
      assert text == [o.quote] + rest;
    }
  }

  lemma {:induction false} TailOf(o: CsvOptions, text: string) returns (tail: string, rest: string)
    ensures text == tail + rest && (rest == "" || Ending(o, rest[0]))
    ensures forall i :: 0 <= i < |tail| ==> !Ending(o, tail[i])
  {
    if text == "" || Ending(o, text[0]) {
      tail, rest := "", text;
    } else {
      tail, rest := TailOf(o, text[1..]);
      tail := [text[0]] + tail;
    }
  }

  lemma CellOf(o: CsvOptions, text: string, s: State) returns (c: Cell, rest: string)
    requires Clean(o) && !s.inQuotes && s.field == "" && !Read(o, text, s).inQuotes
    ensures GoodCell(o, c) && text == CellSource(o, c) + rest && (rest == "" || Ending(o, rest[0]))
  {
    if text != "" && text[0] == o.quote {
      var q, after := QuotedOf(o, text[1..], s.(inQuotes := true, started := true));
      var tail;
      tail, rest := TailOf(o, after);
      c := Cell(Some(q), tail);
      assert text == [o.quote] + text[1..];
      assert Escaped(o, q) + [o.quote] + (tail + rest) == (Escaped(o, q) + [o.quote] + tail) + rest;
    } else {
      var tail;
      tail, rest := TailOf(o, text);
      c := Cell(None, tail);
      assert "" + tail == tail;
    }
  }

  lemma {:induction false} MoreOf(o: CsvOptions, text: string, s: State) returns (cells: seq<Cell>, rest: string)
    requires Clean(o) && !s.inQuotes && !Read(o, text, s).inQuotes && (text == "" || Ending(o, text[0]))
    ensures text == MoreSource(o, cells) + rest && (rest == "" || rest[0] in "\n\r")
    ensures forall i :: 0 <= i < |cells| ==> GoodCell(o, cells[i])
    decreases |text|
  {
    hide Read, CellSource, GoodCell;
    if text == "" || text[0] != o.delimiter {
      cells, rest := [], text;
      assert "" + text == text;
    } else {
      var next := State("", s.record + [s.field], s.rows, false, true);
      assert text == [o.delimiter] + text[1..];
      DelimiterStep(o, text[1..], s);
      var c, after := CellOf(o, text[1..], next);
      CellRead(o, c, after, next);
      var more;
      more, rest := MoreOf(o, after, next.(field := CellValue(c)));
      cells := [c] + more;
      assert cells[1..] == more;
      assert CellSource(o, c) + (MoreSource(o, more) + rest) == (CellSource(o, c) + MoreSource(o, more)) + rest;
    }
  }

  lemma LineOf(o: CsvOptions, text: string, rows: seq<Record>) returns (line: Line, rest: string)
    requires Clean(o) && !Read(o, text, Fresh(rows)).inQuotes
    ensures GoodLine(o, line) && text == LineSource(o, line) + rest && (rest == "" || rest[0] in "\n\r")
  {
    hide Read, CellSource, GoodCell;
    var c, after := CellOf(o, text, Fresh(rows));
    CellRead(o, c, after, Fresh(rows));
    var more;
    more, rest := MoreOf(o, after, Fresh(rows).(field := CellValue(c), started := c != Cell(None, "")));
    line := Line(c, more);
    assert CellSource(o, c) + (MoreSource(o, more) + rest) == (CellSource(o, c) + MoreSource(o, more)) + rest;
  }

  lemma {:induction false} FileOf(o: CsvOptions, text: string, rows: seq<Record>) returns (f: File)
    requires Clean(o) && !Read(o, text, Fresh(rows)).inQuotes
    ensures GoodFile(o, f) && text == FileSource(o, f)
    decreases |text|
  {
    hide Read, LineSource, GoodLine;
    var line, rest := LineOf(o, text, rows);
    if rest == "" {
      f := File([], line);
      assert LineSource(o, line) + "" == LineSource(o, line);
    } else {
      var end := if rest[0] == '\n' then "\n" else if |rest| > 1 && rest[1] == '\n' then "\r\n" else "\r";
      var after := rest[|end|..];
      assert rest == end + after;
      var s := LineRead(o, line, rest, rows);
      EndRead(o, end, after, s);
      var more := FileOf(o, after, rows + LineRecords(line));
      f := File([(line, end)] + more.lines, more.last);
      assert f.lines[1..] == more.lines;
    }
  }

  // ----- what the reader returns -------------------------------------------------------------

  /** A text is read as some records if and only if it is that of lines with these records. */
  lemma RecordsIff(o: CsvOptions, text: string, rows: seq<Record>)
    requires Clean(o)
    ensures Records(o, text) == Ok(rows) <==>
            exists f :: GoodFile(o, f) && text == FileSource(o, f) && rows == FileRecords(f)
  {
    hide Read, FileSource, FileRecords, GoodFile;
    if Records(o, text) == Ok(rows) {
      var f := FileOf(o, text, []);
      FileRead(o, f);
    }
    if f :| GoodFile(o, f) && text == FileSource(o, f) && rows == FileRecords(f) {
      FileRead(o, f);
    }
  }

  /** Otherwise a quoted part is never closed, and the error names the number of records before. */
  lemma OpenIsRefused(o: CsvOptions, lines: seq<(Line, string)>, cells: seq<Cell>, q: string)
    requires Clean(o) && forall i :: 0 <= i < |lines| ==> GoodLine(o, lines[i].0) && Newline(lines[i].1)
    requires forall i :: 0 <= i < |cells| ==> GoodCell(o, cells[i])
    ensures Records(o, LinesSource(o, lines, OpenSource(o, cells, q))) == Err(UnterminatedQuote(|LinesRecords(lines)|))
  {
    hide Read, LinesSource, OpenSource, LinesRecords;
    LinesRead(o, lines, OpenSource(o, cells, q), []);
    assert [] + LinesRecords(lines) == LinesRecords(lines);
    OpenRead(o, cells, q, Fresh(LinesRecords(lines)));
  }

  /** Some cells with their delimiters and a quoted part without its closing quote. */
  function OpenSource(o: CsvOptions, cells: seq<Cell>, q: string): string
  {
    if cells == [] then [o.quote] + Escaped(o, q)
    else CellSource(o, cells[0]) + ([o.delimiter] + OpenSource(o, cells[1..], q))
  }

  lemma {:induction false} OpenRead(o: CsvOptions, cells: seq<Cell>, q: string, s: State)
    requires Clean(o) && !s.inQuotes && s.field == "" && forall i :: 0 <= i < |cells| ==> GoodCell(o, cells[i])
    ensures Read(o, OpenSource(o, cells, q), s).inQuotes && Read(o, OpenSource(o, cells, q), s).rows == s.rows
    decreases |cells|
  {
    hide Read, CellSource, Escaped, GoodCell;
    if cells == [] {
      OpenQuote(o, Escaped(o, q), s);
      NeverClosed(o, q, s.(inQuotes := true, started := true));
    } else {
      var rest := OpenSource(o, cells[1..], q);
      CellRead(o, cells[0], [o.delimiter] + rest, s);
      var filled := s.(field := CellValue(cells[0]), started := s.started || cells[0] != Cell(None, ""));
      DelimiterStep(o, rest, filled);
      OpenRead(o, cells[1..], q, State("", filled.record + [filled.field], s.rows, false, true));
    }
  }

  lemma {:induction false} NeverClosed(o: CsvOptions, q: string, s: State)
    requires s.inQuotes
    ensures Read(o, Escaped(o, q), s).inQuotes && Read(o, Escaped(o, q), s).rows == s.rows
    decreases |q|
  {
    if q != "" {
      var rest := Escaped(o, q[1..]);
      NeverClosed(o, q[1..], s.(field := s.field + [q[0]]));
      if q[0] == o.quote {
        assert Escaped(o, q)[2..] == rest;
      } else {
        assert Escaped(o, q)[1..] == rest;
      }
    }
  }

  // ----- rows with any line ends -------------------------------------------------------------

  /** Rows as they are written, but each with a line end of its own. */
  function WithEnds(o: CsvOptions, rows: seq<Record>, ends: seq<string>): string
    requires |ends| == |rows|
  {
    if rows == [] then "" else CellsText(o, rows[0]) + (ends[0] + WithEnds(o, rows[1..], ends[1..]))
  }

  function Written(o: CsvOptions, cell: string): Cell
  {
    if NeedsQuote(o, cell) then Cell(Some(cell), "") else Cell(None, cell)
  }

  lemma WrittenIs(o: CsvOptions, cell: string)
    requires Clean(o)
    ensures GoodCell(o, Written(o, cell)) && CellSource(o, Written(o, cell)) == CellText(o, cell)
    ensures CellValue(Written(o, cell)) == cell && (Written(o, cell) == Cell(None, "") <==> cell == "")
  {
    if !NeedsQuote(o, cell) {
      assert "" + cell == cell;
      assert forall i :: 0 <= i < |cell| ==> !Special(o, cell[i]);
    } else {
      assert cell + "" == cell;
    }
  }

  lemma {:induction false} RowIs(o: CsvOptions, cells: Record) returns (line: Line)
    requires Clean(o) && cells != []
    ensures GoodLine(o, line) && LineSource(o, line) == CellsText(o, cells) && LineValue(line) == cells
    ensures Empty(line) <==> cells == [""]
    decreases |cells|
  {
    hide CellSource, CellText, Written, GoodCell, CellValue;
    WrittenIs(o, cells[0]);
    if |cells| == 1 {
      line := Line(Written(o, cells[0]), []);
      assert CellText(o, cells[0]) + "" == CellText(o, cells[0]);
    } else {
      var rest := RowIs(o, cells[1..]);
      line := Line(Written(o, cells[0]), [rest.first] + rest.more);
      assert line.more[1..] == rest.more;
      assert CellText(o, cells[0]) + ([o.delimiter] + CellsText(o, cells[1..])) == CellsText(o, cells);
    }
  }

  lemma {:induction false} RowsAre(o: CsvOptions, rows: seq<Record>, ends: seq<string>)
    returns (lines: seq<(Line, string)>)
    requires Clean(o) && |ends| == |rows| && forall i :: 0 <= i < |ends| ==> Newline(ends[i])
    ensures forall i :: 0 <= i < |lines| ==> GoodLine(o, lines[i].0) && Newline(lines[i].1)
    ensures LinesSource(o, lines, "") == WithEnds(o, rows, ends) && LinesRecords(lines) == NonBlank(rows)
    decreases |rows|
  {
    hide LineSource, CellsText, GoodLine, LineValue;
    if rows == [] {
      lines := [];
    } else {
      var line := Line(Cell(None, ""), []);
      if rows[0] == [] {
        EmptyLine(o);
      } else {
        line := RowIs(o, rows[0]);
      }
      var more := RowsAre(o, rows[1..], ends[1..]);
      lines := [(line, ends[0])] + more;
      assert lines[1..] == more;
    }
  }

  lemma EmptyLine(o: CsvOptions)
    ensures var line := Line(Cell(None, ""), []);
            GoodLine(o, line) && LineSource(o, line) == "" == CellsText(o, [])
  {
  }

  /** Whatever line ends rows are written with, and in whatever mixture, reading gives every row that is
      not blank. */
  lemma AnyLineEnds(o: CsvOptions, rows: seq<Record>, ends: seq<string>)
    requires Clean(o) && |ends| == |rows| && forall i :: 0 <= i < |ends| ==> Newline(ends[i])
    ensures Records(o, WithEnds(o, rows, ends)) == Ok(NonBlank(rows))
  {
    var lines := RowsAre(o, rows, ends);
    EmptyLine(o);
    var f := File(lines, Line(Cell(None, ""), []));
    FileRead(o, f);
    assert NonBlank(rows) + [] == NonBlank(rows);
    hide Records;
  }
}
