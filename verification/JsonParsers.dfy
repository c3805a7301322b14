/** The parser's cursor over a document and the writers' growing output (src/json.rs). */
module JsonParsers {
  import opened Options
  import opened JsonText

  /** The outcome of a parsing step, and what it leaves unread, are what reading the text
      gives. */
  ghost predicate Agrees<T>(r: Result<T, JsonError>, read: Read<T>, unread: string)
  {
    match r
    case Ok(value) => read == Ok((value, unread))
    case Err(error) => read == Err(error)
  }

  predicate AllDigits(digits: string)
  {
    forall i :: 0 <= i < |digits| ==> IsDigit(digits[i])
  }

  lemma MoreDigits(digits: string, b: char, rest: string)
    requires AllDigits(digits) && IsDigit(b) && rest != "" && rest[0] == b
    ensures AllDigits(digits + [b]) && (digits + [b]) + rest[1..] == digits + rest
  {
  }

  class Parser {
    const bytes: string
    var pos: nat
    var depth: nat

    ghost predicate Valid()
      reads this
    {
      pos <= |bytes|
    }

    ghost function Unread(): string
      requires Valid()
      reads this
    {
      bytes[pos..]
    }

    /** Lines 271-279. */
    constructor (input: string)
      ensures Valid() && Unread() == input && depth == 0
    {
      bytes, pos, depth := input, 0, 0;
    }

    /** Lines 289-291. */
    function Peek(): (r: Option<char>)
      requires Valid()
      reads this
      ensures r == if Unread() == "" then None else Some(Unread()[0])
    {
      if pos < |bytes| then Some(bytes[pos]) else None
    }

    /** Lines 293-303. */
    method Bump() returns (r: Option<char>)
      requires Valid()
      modifies `pos
      ensures Valid() && r == old(Peek())
      ensures Unread() == if r.None? then old(Unread()) else old(Unread())[1..]
    {
      r := Peek();
      if r.Some? {
        pos := pos + 1;
      }
    }

    /** Lines 305-313. */
    method SkipWs()
      requires Valid()
      modifies `pos
      ensures Valid() && Unread() == SkipWhite(old(Unread())) && pos >= old(pos)
    {
      while Peek().Some? && White(Peek().value)
        invariant Valid() && SkipWhite(Unread()) == SkipWhite(old(Unread())) && pos >= old(pos)
        decreases |bytes| - pos
      {
        var b := Bump();
      }
    }

    /** Lines 463-476. */
    method ParseHex4() returns (r: Result<int, JsonError>)
      requires Valid()
      modifies `pos
      ensures Valid() && Agrees(r, ReadHex4(old(Unread())), Unread())
    {
      var v, k := 0, 0;
      while k < 4
        invariant Valid() && 0 <= k <= 4 && v >= 0
        invariant ReadHex(Unread(), 4 - k, v) == ReadHex4(old(Unread()))
      {
        var b := Bump();
        if b.None? {
          return Err(TruncatedUnicode);
        }
        var d := HexValue(b.value);
        if d.None? {
          return Err(InvalidHexDigit);
        }
        v, k := v * 16 + d.value, k + 1;
      }
      return Ok(v);
    }

    /** Lines 413-429. */
    method ParseUnicode() returns (r: Result<char, JsonError>)
      requires Valid()
      modifies `pos
      ensures Valid() && Agrees(r, ReadUnicode(old(Unread())), Unread())
    {
      hide ReadHex4;
      var cp := ParseHex4();
      if cp.Err? {
        return Err(cp.error);
      }
      if cp.value < 0xD800 || cp.value > 0xDBFF {
        return Ok(CharOf(cp.value));
      }
      var b := Bump();
      if b != Some('\\') {
        return Err(ExpectedLowSurrogate);
      }
      b := Bump();
      if b != Some('u') {
        return Err(ExpectedLowSurrogate);
      }
      var low := ParseHex4();
      if low.Err? {
        return Err(low.error);
      }
      if low.value < 0xDC00 || low.value > 0xDFFF {
        return Err(InvalidLowSurrogate);
      }
      return Ok(CharOf(0x10000 + (cp.value - 0xD800) * 1024 + (low.value - 0xDC00)));
    }

    /** Lines 403-431. */
    method ParseEscape() returns (r: Result<char, JsonError>)
      requires Valid()
      modifies `pos
      ensures Valid() && Agrees(r, ReadEscape(old(Unread())), Unread())
    {
      hide ReadUnicode;
      var b := Bump();
      if b.None? {
        return Err(UnterminatedEscape);
      }
      match b.value
      case '\"' => r := Ok('\"');
      case '\\' => r := Ok('\\');
      case '/' => r := Ok('/');
      case 'n' => r := Ok('\n');
      case 't' => r := Ok('\t');
      case 'r' => r := Ok('\r');
      case 'b' => r := Ok(BACKSPACE);
      case 'f' => r := Ok(FORM_FEED);
      case 'u' => r := ParseUnicode();
      case _ => r := Err(InvalidEscape);
    }

    /** Lines 395-461. */
    method ParseString() returns (r: Result<string, JsonError>)
      requires Valid()
      modifies `pos
      ensures Valid() && Agrees(r, ReadString(old(Unread())), Unread())
    {
      hide ReadEscape;
      if Peek() != Some('\"') {
        return Err(ExpectedString);
      }
      var b := Bump();
      var text := "";
      while true
        invariant Valid() && old(Unread()) != ""
        invariant ReadChars(Unread(), text) == ReadString(old(Unread()))
        decreases |bytes| - pos
      {
        b := Bump();
        if b.None? {
          return Err(UnterminatedString);
        }
        if b.value == '\"' {
          return Ok(text);
        } else if b.value == '\\' {
          var c := ParseEscape();
          if c.Err? {
            return Err(c.error);
          }
          text := text + [c.value];
        } else if b.value as int < 0x20 {
          return Err(ControlCharacter);
        } else {
          text := text + [b.value];
        }
      }
    }

    /** Lines 510-516. */
    method ParseDigits() returns (digits: string)
      requires Valid()
      modifies `pos
      ensures Valid() && old(Unread()) == digits + Unread()
      ensures forall i :: 0 <= i < |digits| ==> IsDigit(digits[i])
      ensures Unread() == "" || !IsDigit(Unread()[0])
    {
      digits := "";
      ghost var all := Unread();
      while Peek().Some? && IsDigit(Peek().value)
        invariant Valid() && AllDigits(digits) && all == digits + Unread()
        decreases |bytes| - pos
      {
        ghost var rest := Unread();
        var b := Bump();
        MoreDigits(digits, b.value, rest);
        digits := digits + [b.value];
      }
    }

    /** Lines 505-544. */
    method ParseNumber() returns (r: Result<int, JsonError>)
      requires Valid() && Unread() != "" && (IsDigit(Unread()[0]) || Unread()[0] == '-')
      modifies `pos
      ensures Valid() && Agrees(r, ReadNumber(old(Unread())), Unread())
    {
      hide ReadNumber, DigitsValue, DigitRun;
      var negative := Peek() == Some('-');
      if negative {
        var b := Bump();
      }
      var digits := ParseDigits();
      NumberIs(old(Unread()), negative, digits, Unread());
      if Peek() == Some('.') || Peek() == Some('e') || Peek() == Some('E') {
        return Err(NotAnInteger);
      }
      if digits == "" {
        return Err(InvalidNumber);
      }
      return Ok(if negative then -DigitsValue(digits) else DigitsValue(digits));
    }

    /** Lines 478-503: one of the three words. */
    method ParseWord(word: string, j: Json) returns (r: Option<Json>)
      requires Valid()
      modifies `pos
      ensures Valid() && r == if Starts(old(Unread()), word) then Some(j) else None
      ensures Unread() == if r.Some? then old(Unread())[|word|..] else old(Unread())
    {
      if word <= bytes[pos..] {
        pos := pos + |word|;
        return Some(j);
      }
      return None;
    }

    /** Lines 315-326. */
    method ParseValue() returns (r: Result<Json, JsonError>)
      requires Valid()
      modifies `pos, `depth
      ensures Valid() && Agrees(r, ReadValue(old(Unread()), old(depth)), Unread())
      ensures r.Ok? ==> depth == old(depth) && pos > old(pos)
      decreases |bytes| - pos, 2
    {
      hide SkipWhite, ReadString, ReadNumber, ReadItems, ReadFields;
      SkipWs();
      SkipAgain(old(Unread()), depth);
      match Peek()
      case None => r := Err(ExpectedValue);
      case Some(c) =>
        if c == '{' {
          r := ParseObject();
        } else if c == '[' {
          r := ParseArray();
        } else if c == '\"' {
          var s := ParseString();
          if s.Err? {
            return Err(s.error);
          }
          r := Ok(Text(s.value));
        } else if c == 't' || c == 'f' {
          var word := ParseWord("true", Bool(true));
          if word.None? {
            word := ParseWord("false", Bool(false));
          }
          r := if word.Some? then Ok(word.value) else Err(InvalidLiteral);
        } else if c == 'n' {
          var word := ParseWord("null", Null);
          r := if word.Some? then Ok(word.value) else Err(InvalidLiteral);
        } else if c == '-' || IsDigit(c) {
          var n := ParseNumber();
          if n.Err? {
            return Err(n.error);
          }
          r := Ok(Number(n.value));
        } else {
          r := Err(ExpectedValue);
        }
    }

    /** Lines 368-393. */
    method ParseArray() returns (r: Result<Json, JsonError>)
      requires Valid() && Peek() == Some('[')
      modifies `pos, `depth
      ensures Valid() && Agrees(r, ReadValue(old(Unread()), old(depth)), Unread())
      ensures r.Ok? ==> depth == old(depth) && pos > old(pos)
      decreases |bytes| - pos, 1
    {
      hide SkipWhite, ReadValue, ReadItems, ReadFields;
      StartsNotWhite(Unread());
      Brackets(Unread(), Unread()[1..], depth);
      depth := depth + 1;
      if depth > MAX_DEPTH {
        return Err(TooDeep);
      }
      var b := Bump();
      var items := [];
      SkipWs();
      if Peek() == Some(']') {
        b := Bump();
        depth := depth - 1;
        return Ok(Array(items));
      }
      while true
        invariant Valid() && depth == old(depth) + 1 && pos > old(pos)
        invariant ReadItems(Unread(), depth, items) == ReadValue(old(Unread()), old(depth))
        decreases |bytes| - pos
      {
        ItemStep(Unread(), depth, items);
        var value := ParseValue();
        if value.Err? {
          return Err(value.error);
        }
        items := items + [value.value];
        SkipWs();
        b := Bump();
        if b == Some(']') {
          depth := depth - 1;
          return Ok(Array(items));
        }
        if b != Some(',') {
          return Err(ExpectedCommaOrBracket);
        }
      }
    }

    /** Lines 337-366. */
    method ParseObject() returns (r: Result<Json, JsonError>)
      requires Valid() && Peek() == Some('{')
      modifies `pos, `depth
      ensures Valid() && Agrees(r, ReadValue(old(Unread()), old(depth)), Unread())
      ensures r.Ok? ==> depth == old(depth) && pos > old(pos)
      decreases |bytes| - pos, 1
    {
      hide SkipWhite, ReadValue, ReadItems, ReadFields, ReadString, Put;
      StartsNotWhite(Unread());
      Brackets(Unread(), Unread()[1..], depth);
      depth := depth + 1;
      if depth > MAX_DEPTH {
        return Err(TooDeep);
      }
      var b := Bump();
      var fields := [];
      SkipWs();
      if Peek() == Some('}') {
        b := Bump();
        depth := depth - 1;
        return Ok(Object(fields));
      }
      while true
        invariant Valid() && depth == old(depth) + 1 && pos > old(pos)
        invariant ReadFields(Unread(), depth, fields) == ReadValue(old(Unread()), old(depth))
        decreases |bytes| - pos
      {
        NextStep(Unread(), depth, fields);
        SkipWs();
        var key := ParseString();
        if key.Err? {
          return Err(key.error);
        }
        SkipWs();
        if Peek() != Some(':') {
          return Err(ExpectedColon);
        }
        b := Bump();
        var value := ParseValue();
        if value.Err? {
          return Err(value.error);
        }
        fields := Put(fields, Field(key.value, value.value));
        SkipWs();
        b := Bump();
        if b == Some('}') {
          depth := depth - 1;
          return Ok(Object(fields));
        }
        if b != Some(',') {
          return Err(ExpectedCommaOrBrace);
        }
      }
    }
  }
  /** What is still to be written of a list from place i on, the comma before it included
      in the compact form, the one after it in the pretty form. */
  function ItemsFrom(items: seq<Json>, i: nat, l: Layout): string
    requires i <= |items|
  {
    (if l.Compact? && 0 < i < |items| then "," else "") + ItemsText(items[i..], l)
  }

  function FieldsFrom(fields: seq<Field>, i: nat, l: Layout): string
    requires i <= |fields|
  {
    (if l.Compact? && 0 < i < |fields| then "," else "") + FieldsText(fields[i..], l)
  }

  lemma FromEnds(items: seq<Json>, fields: seq<Field>, l: Layout)
    ensures ItemsFrom(items, 0, l) == ItemsText(items, l) && ItemsFrom(items, |items|, l) == ""
    ensures FieldsFrom(fields, 0, l) == FieldsText(fields, l) && FieldsFrom(fields, |fields|, l) == ""
  {
    assert items[0..] == items && items[|items|..] == [] && fields[0..] == fields && fields[|fields|..] == [];
  }

  lemma ItemsNext(items: seq<Json>, i: nat, l: Layout)
    requires i < |items|
    ensures
      var before, after := if l.Compact? && i > 0 then "," else "", if l.Pretty? && i + 1 < |items| then "," else "";
      ItemsFrom(items, i, l) == before + (NewLine(l) + (Printed(items[i], l) + (after + ItemsFrom(items, i + 1, l))))
  {
    hide Printed, NewLine, ItemsText;
    ItemsSplit(items[i..], l);
    assert items[i..][1..] == items[i + 1..];
    FromEnds(items, [], l);
  }

  lemma FieldsNext(fields: seq<Field>, i: nat, l: Layout)
    requires i < |fields|
    ensures
      var before, after := if l.Compact? && i > 0 then "," else "", if l.Pretty? && i + 1 < |fields| then "," else "";
      FieldsFrom(fields, i, l) == before +
        (NewLine(l) + (QuotedText(fields[i].key)
          + (AfterKey(l) + (Printed(fields[i].value, l) + (after + FieldsFrom(fields, i + 1, l))))))
  {
    hide Printed, NewLine, FieldsText, QuotedText, AfterKey;
    FieldsSplit(fields[i..], l);
    assert fields[i..][1..] == fields[i + 1..];
    FromEnds([], fields, l);
    assert FieldsMore(fields[i..], l)
      == (if l.Pretty? && i + 1 < |fields| then "," else "") + FieldsFrom(fields, i + 1, l);
  }

  /** What stands before an item and after a key, in the two forms. */
  lemma Gaps(depth: nat)
    ensures NewLine(Compact) == "" && AfterKey(Compact) == ":"
    ensures NewLine(Pretty(depth)) == "\n" + Indent(depth) && AfterKey(Pretty(depth)) == ": "
  {
  }

  lemma Joined6(a: string, b: string, c: string, d: string, e: string, f: string, g: string)
    ensures (((((a + b) + c) + d) + e) + f) + g == a + (b + (c + (d + (e + (f + g)))))
  {
  }

  lemma EscapedNext(s: string, i: nat)
    requires i < |s|
    ensures EscapeAll(s[i..]) == Escape(s[i]) + EscapeAll(s[i + 1..])
  {
    hide Escape;
    assert s[i..][1..] == s[i + 1..];
  }

  /** The growing output of the writers. */
  class Writer {
    var out: string

    constructor ()
      ensures out == ""
    {
      out := "";
    }

    /** Lines 242-258. */
    method WriteString(s: string)
      modifies this
      ensures out == old(out) + QuotedText(s)
    {
      hide Escape;
      out := out + "\"";
      var i := 0;
      while i < |s|
        invariant 0 <= i <= |s| && out + EscapeAll(s[i..]) == old(out) + "\"" + EscapeAll(s)
      {
        EscapedNext(s, i);
        out := out + Escape(s[i]);
        i := i + 1;
      }
      assert s[i..] == "" && EscapeAll("") == "";
      assert out == old(out) + "\"" + EscapeAll(s);
      out := out + "\"";
    }

    /** Lines 153-183. */
    method WriteCompact(j: Json)
      modifies this
      ensures out == old(out) + Printed(j, Compact)
      decreases j
    {
      match j
      case Null => out := out + "null";
      case Bool(b) => out := out + if b then "true" else "false";
      case Number(n) => out := out + NumberText(n);
      case Text(s) => WriteString(s);
      case Array(items) =>
        out := out + "[";
        WriteItems(items);
        out := out + "]";
        CompactIs(j);
      case Object(fields) =>
        out := out + "{";
        WriteFields(fields);
        out := out + "}";
        CompactIs(j);
    }

    /** Lines 162-167. */
    method WriteItems(items: seq<Json>)
      modifies this
      ensures out == old(out) + ItemsText(items, Compact)
      decreases items
    {
      hide *;
      ghost var goal := old(out) + ItemsText(items, Compact);
      FromEnds(items, [], Compact);
      Gaps(0);
      var i := 0;
      while i < |items|
        invariant 0 <= i <= |items| && out + ItemsFrom(items, i, Compact) == goal
      {
        ItemsNext(items, i, Compact);
        ghost var before, comma := out, if i > 0 then "," else "";
        out := out + if i > 0 then "," else "";
        WriteCompact(items[i]);
        Joined(before, comma, Printed(items[i], Compact), ItemsFrom(items, i + 1, Compact));
        i := i + 1;
      }
    }

    /** Lines 172-179. */
    method WriteFields(fields: seq<Field>)
      modifies this
      ensures out == old(out) + FieldsText(fields, Compact)
      decreases fields
    {
      hide *;
      ghost var goal := old(out) + FieldsText(fields, Compact);
      FromEnds([], fields, Compact);
      Gaps(0);
      var i := 0;
      while i < |fields|
        invariant 0 <= i <= |fields| && out + FieldsFrom(fields, i, Compact) == goal
      {
        FieldsNext(fields, i, Compact);
        ghost var before, comma, key := out, if i > 0 then "," else "", QuotedText(fields[i].key);
        ghost var value, more := Printed(fields[i].value, Compact), FieldsFrom(fields, i + 1, Compact);
        out := out + if i > 0 then "," else "";
        WriteString(fields[i].key);
        out := out + ":";
        WriteCompact(fields[i].value);
        Joined(before + comma, key, ":", value + more);
        Joined(((before + comma) + key), ":", value, more);
        Joined(before, comma, key, ":" + (value + more));
        i := i + 1;
      }
    }

    /** Lines 186-190. */
    method WriteIndent(d: nat)
      modifies this
      ensures out == old(out) + Indent(d)
    {
      var i := 0;
      while i < d
        invariant 0 <= i <= d && out == old(out) + Indent(i)
      {
        out := out + "  ";
        i := i + 1;
      }
    }

    /** Lines 185-222. */
    method WritePretty(j: Json, depth: nat)
      modifies this
      ensures out == old(out) + Printed(j, Pretty(depth))
      decreases j
    {
      hide *;
      PrettyIs(j, depth);
      ghost var before, indent, l := out, Indent(depth), Pretty(depth + 1);
      if j.Array? && j.items != [] {
        out := out + "[\n";
        WritePrettyItems(j.items, depth, old(out) + "[");
        WriteIndent(depth);
        out := out + "]";
        Joined6(before, "[", ItemsText(j.items, l), "\n", indent, "]", "");
      } else if j.Object? && j.fields != [] {
        out := out + "{\n";
        WritePrettyFields(j.fields, depth, old(out) + "{");
        WriteIndent(depth);
        out := out + "}";
        Joined6(before, "{", FieldsText(j.fields, l), "\n", indent, "}", "");
      } else {
        WriteCompact(j);
      }
    }

    /** Lines 194-201, each item on a line of its own. */
    method WritePrettyItems(items: seq<Json>, depth: nat, ghost start: string)
      requires out == start + "\n"
      modifies this
      ensures out == (start + ItemsText(items, Pretty(depth + 1))) + "\n"
      decreases items
    {
      hide *;
      var l := Pretty(depth + 1);
      ghost var goal, written := start + ItemsText(items, l), start;
      FromEnds(items, [], l);
      Gaps(depth + 1);
      var i := 0;
      while i < |items|
        invariant 0 <= i <= |items| && out == written + "\n" && written + ItemsFrom(items, i, l) == goal
      {
        ItemsNext(items, i, l);
        ghost var before, comma := written, if i + 1 < |items| then "," else "";
        WriteIndent(depth + 1);
        WritePretty(items[i], depth + 1);
        out := out + if i + 1 < |items| then "," else "";
        written := out;
        out := out + "\n";
        Joined6(before, "\n", Indent(depth + 1), Printed(items[i], l), comma, "", ItemsFrom(items, i + 1, l));
        i := i + 1;
      }
    }

    /** Lines 207-216. */
    method WritePrettyFields(fields: seq<Field>, depth: nat, ghost start: string)
      requires out == start + "\n"
      modifies this
      ensures out == (start + FieldsText(fields, Pretty(depth + 1))) + "\n"
      decreases fields
    {
      hide *;
      var l := Pretty(depth + 1);
      ghost var goal, written := start + FieldsText(fields, l), start;
      FromEnds([], fields, l);
      Gaps(depth + 1);
      var i := 0;
      while i < |fields|
        invariant 0 <= i <= |fields| && out == written + "\n" && written + FieldsFrom(fields, i, l) == goal
      {
        FieldsNext(fields, i, l);
        ghost var before, comma := written, if i + 1 < |fields| then "," else "";
        ghost var key, value, more := QuotedText(fields[i].key), Printed(fields[i].value, l),
              FieldsFrom(fields, i + 1, l);
        WriteIndent(depth + 1);
        WriteString(fields[i].key);
        out := out + ": ";
        WritePretty(fields[i].value, depth + 1);
        out := out + if i + 1 < |fields| then "," else "";
        written := out;
        out := out + "\n";
        Joined6(before, "\n" + Indent(depth + 1), key, ": ", value, comma, more);
        Joined(before, "\n", Indent(depth + 1), "");
        i := i + 1;
      }
    }
  }

  lemma CompactIs(j: Json)
    ensures j.Array? ==> Printed(j, Compact) == "[" + ItemsText(j.items, Compact) + "]"
    ensures j.Object? ==> Printed(j, Compact) == "{" + FieldsText(j.fields, Compact) + "}"
  {
  }

  lemma PrettyIs(j: Json, depth: nat)
    ensures j.Array? && j.items != [] ==>
      Printed(j, Pretty(depth)) == "[" + (ItemsText(j.items, Pretty(depth + 1)) + ("\n" + (Indent(depth) + "]")))
    ensures j.Object? && j.fields != [] ==>
      Printed(j, Pretty(depth)) == "{" + (FieldsText(j.fields, Pretty(depth + 1)) + ("\n" + (Indent(depth) + "}")))
    ensures !((j.Array? && j.items != []) || (j.Object? && j.fields != [])) ==>
            Printed(j, Pretty(depth)) == Printed(j, Compact)
  {
    hide Indent, ItemsText, FieldsText, QuotedText, NumberText;
    var l := Pretty(depth + 1);
    if j.Array? && j.items != [] {
      Joined("[", ItemsText(j.items, l), "\n" + Indent(depth), "]");
    } else if j.Object? && j.fields != [] {
      Joined("{", FieldsText(j.fields, l), "\n" + Indent(depth), "}");
    }
    assert ("\n" + Indent(depth)) + "]" == "\n" + (Indent(depth) + "]");
    assert ("\n" + Indent(depth)) + "}" == "\n" + (Indent(depth) + "}");
  }

  /** Lines 46-55: the parser gives what the document reads as. */
  method Parse(input: string) returns (r: Result<Json, JsonError>)
    ensures r == Document(input)
  {
    hide ReadValue;
    var p := new Parser(input);
    p.SkipWs();
    r := p.ParseValue();
    if r.Err? {
      return;
    }
    p.SkipWs();
    if p.Peek().Some? {
      return Err(TrailingCharacters);
    }
  }

  /** Whatever is written, compact or pretty, parses back to the same value, unless it is
      nested deeper than the parser goes. */
  method WriteThenParse(j: Json, pretty: bool) returns (r: Result<Json, JsonError>)
    requires Proper(j)
    ensures r == if Depth(j) <= MAX_DEPTH then Ok(j) else Err(TooDeep)
  {
    hide Printed, Document, Depth, Proper;
    var w := new Writer();
    if pretty {
      w.WritePretty(j, 0);
    } else {
      w.WriteCompact(j);
    }
    var l := if pretty then Pretty(0) else Compact;
    assert w.out == Printed(j, l);
    PrintedIsRead(j, l);
    r := Parse(w.out);
  }
}
