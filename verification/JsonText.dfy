/** JSON text (src/json.rs; sections 4, 5 and 7 of RFC 8259). Numbers are integers; a
    character stands for its UTF-8 bytes, and an object's map is the list of its fields in
    ascending order of keys. */
module JsonText {
  import opened Options

  datatype Json =
    | Null
    | Bool(b: bool)
    | Number(n: int)
    | Text(s: string)
    | Array(items: seq<Json>)
    | Object(fields: seq<Field>)

  datatype Field = Field(key: string, value: Json)

  datatype JsonError =
    | TrailingCharacters | ExpectedValue | TooDeep
    | ExpectedColon | ExpectedCommaOrBrace | ExpectedCommaOrBracket
    | ExpectedString | UnterminatedString | UnterminatedEscape | InvalidEscape | ControlCharacter
    | TruncatedUnicode | InvalidHexDigit | ExpectedLowSurrogate | InvalidLowSurrogate
    | InvalidLiteral | InvalidNumber | NotAnInteger

  const MAX_DEPTH: nat := 128

  /** A value and what follows it in the text. */
  type Read<T> = Result<(T, string), JsonError>

  // ----- whitespace, keys ------------------------------------------------------------------

  predicate White(c: char) { c == ' ' || c == '\t' || c == '\n' || c == '\r' }

  predicate AllWhite(s: string)
  {
    forall i :: 0 <= i < |s| ==> White(s[i])
  }

  function SkipWhite(text: string): (r: string)
    ensures |r| <= |text| && (r != "" ==> !White(r[0]))
  {
    if text != "" && White(text[0]) then SkipWhite(text[1..]) else text
  }

  lemma {:induction false} SkipsWhite(white: string, rest: string)
    requires AllWhite(white)
    ensures SkipWhite(white + rest) == SkipWhite(rest)
  {
    if white == "" {
      assert white + rest == rest;
    } else {
      assert (white + rest)[1..] == white[1..] + rest;
      SkipsWhite(white[1..], rest);
    }
  }

  predicate KeyLess(a: string, b: string)
  {
    if b == "" then false
    else if a == "" then true
    else a[0] < b[0] || (a[0] == b[0] && KeyLess(a[1..], b[1..]))
  }

  ghost predicate Sorted(fields: seq<Field>)
  {
    forall i, j :: 0 <= i < j < |fields| ==> KeyLess(fields[i].key, fields[j].key)
  }

  /** Inserting into the map: an equal key's value is replaced. */
  function Put(fields: seq<Field>, f: Field): seq<Field>
  {
    if fields == [] then [f]
    else if KeyLess(f.key, fields[0].key) then [f] + fields
    else if f.key == fields[0].key then [f] + fields[1..]
    else [fields[0]] + Put(fields[1..], f)
  }

  /** Inserting one field after the other. */
  function PutAll(acc: seq<Field>, fields: seq<Field>): seq<Field>
    decreases |fields|
  {
    if fields == [] then acc else PutAll(Put(acc, fields[0]), fields[1..])
  }

  /** Keys are in the order of their first different characters, a prefix first. */
  lemma {:induction false} KeyLessIs(a: string, b: string)
    ensures KeyLess(a, b) <==> a < b || exists n: nat :: Differ(a, b, n) && a[n] < b[n]
  {
    if a != "" && b != "" {
      var a', b' := a[1..], b[1..];
      KeyLessIs(a', b');
      if a[0] == b[0] {
        assert a == [a[0]] + a' && b == [b[0]] + b';
        if n: nat :| Differ(a', b', n) && a'[n] < b'[n] {
          assert a[..n + 1] == [a[0]] + a'[..n] && b[..n + 1] == [b[0]] + b'[..n];
          assert Differ(a, b, n + 1);
        }
        if n: nat :| Differ(a, b, n) && a[n] < b[n] {
          assert n > 0;
          assert a'[..n - 1] == a[..n][1..] && b'[..n - 1] == b[..n][1..];
          assert Differ(a', b', n - 1);
        }
      } else {
        assert Differ(a, b, 0);
        forall n: nat | 0 < n < |a| && n < |b|
          ensures a[..n] != b[..n]
        {
          assert a[..n][0] == a[0] && b[..n][0] == b[0];
        }
      }
    }
  }

  /** The first place at which two keys differ. */
  ghost predicate Differ(a: string, b: string, n: nat)
  {
    n < |a| && n < |b| && a[..n] == b[..n] && a[n] != b[n]
  }

  lemma {:induction false} KeyLessTrans(a: string, b: string, c: string)
    ensures KeyLess(a, b) && KeyLess(b, c) ==> KeyLess(a, c)
    ensures KeyLess(a, b) || a == b || KeyLess(b, a)
  {
    if a != "" && b != "" {
      KeyLessTrans(a[1..], b[1..], if c == "" then "" else c[1..]);
      assert a == [a[0]] + a[1..] && b == [b[0]] + b[1..];
    }
  }

  /** The value of the first field with a key. */
  function Get(fields: seq<Field>, k: string): Option<Json>
  {
    if fields == [] then None else if fields[0].key == k then Some(fields[0].value) else Get(fields[1..], k)
  }

  /** The value of the last one. */
  function LastOf(fields: seq<Field>, k: string): Option<Json>
  {
    if fields == [] then None
    else if fields[|fields| - 1].key == k then Some(fields[|fields| - 1].value)
    else LastOf(fields[..|fields| - 1], k)
  }

  ghost predicate Above(fields: seq<Field>, k: string)
  {
    forall i :: 0 <= i < |fields| ==> KeyLess(k, fields[i].key)
  }

  lemma SortedFirst(fields: seq<Field>)
    requires fields != []
    ensures Sorted(fields) <==> Above(fields[1..], fields[0].key) && Sorted(fields[1..])
  {
    hide KeyLess;
    assert forall i :: 0 < i < |fields| ==> fields[i] == fields[1..][i - 1];
    assert forall i :: 0 <= i < |fields| - 1 ==> fields[1..][i] == fields[i + 1];
  }

  lemma {:induction false} AboveNone(fields: seq<Field>, k: string)
    requires Above(fields, k)
    ensures Get(fields, k) == None
  {
    if fields != [] {
      KeyLessNot(k, fields[0].key);
      assert forall i :: 0 <= i < |fields| - 1 ==> fields[1..][i] == fields[i + 1];
      AboveNone(fields[1..], k);
    }
  }

  lemma AboveLess(fields: seq<Field>, k: string, m: string)
    requires Above(fields, m) && KeyLess(k, m)
    ensures Above(fields, k)
  {
    forall i | 0 <= i < |fields| ensures KeyLess(k, fields[i].key) {
      KeyLessTrans(k, m, fields[i].key);
    }
  }

  /** Inserting gives the key its new value, leaves all others what they had, and keeps the order. */
  lemma {:induction false} PutGets(fields: seq<Field>, f: Field)
    requires Sorted(fields)
    ensures Sorted(Put(fields, f))
    ensures forall k :: Get(Put(fields, f), k) == if k == f.key then Some(f.value) else Get(fields, k)
    ensures forall k :: Above(fields, k) && KeyLess(k, f.key) ==> Above(Put(fields, f), k)
  {
    hide KeyLess, Sorted;
    if fields == [] {
      OneSorted(f);
    } else {
      var first, rest := fields[0], fields[1..];
      SortedFirst(fields);
      KeyLessTrans(f.key, first.key, first.key);
      if KeyLess(f.key, first.key) {
        assert ([f] + fields)[1..] == fields;
        AboveLess(rest, f.key, first.key);
        SortedFirst([f] + fields);
      } else if f.key == first.key {
        assert ([f] + rest)[1..] == rest;
        SortedFirst([f] + rest);
      } else {
        PutGets(rest, f);
        assert ([first] + Put(rest, f))[1..] == Put(rest, f);
        SortedFirst([first] + Put(rest, f));
      }
    }
  }

  lemma OneSorted(f: Field)
    ensures Sorted([f]) && [f][1..] == []
  {
  }

  /** So inserting a list of fields gives each of its keys the last value listed. */
  lemma {:induction false} PutAllGets(acc: seq<Field>, fields: seq<Field>, k: string)
    requires Sorted(acc)
    ensures Sorted(PutAll(acc, fields))
    ensures Get(PutAll(acc, fields), k) == if LastOf(fields, k).Some? then LastOf(fields, k) else Get(acc, k)
    decreases |fields|
  {
    hide Put, Sorted;
    if fields != [] {
      PutGets(acc, fields[0]);
      PutAllGets(Put(acc, fields[0]), fields[1..], k);
      LastFirst(fields, k);
    }
  }

  lemma {:induction false} LastFirst(fields: seq<Field>, k: string)
    requires fields != []
    ensures LastOf(fields, k) == if LastOf(fields[1..], k).Some? then LastOf(fields[1..], k)
                                 else if fields[0].key == k then Some(fields[0].value) else None
  {
    var n := |fields| - 1;
    if n > 0 {
      assert fields[1..][..n - 1] == fields[..n][1..];
      LastFirst(fields[..n], k);
    }
  }

  /** There is one sorted list with given values under its keys. */
  lemma {:induction false} SortedUnique(a: seq<Field>, b: seq<Field>)
    requires Sorted(a) && Sorted(b) && forall k :: Get(a, k) == Get(b, k)
    ensures a == b
  {
    hide KeyLess, Sorted;
    GetFirst(a);
    GetFirst(b);
    if a != [] && b != [] {
      SortedFirst(a);
      SortedFirst(b);
      KeyLessTrans(a[0].key, b[0].key, b[0].key);
      FirstKeys(a, b);
      FirstKeys(b, a);
      forall k ensures Get(a[1..], k) == Get(b[1..], k) {
        assert Get(a, k) == Get(b, k);
        if k == a[0].key {
          AboveNone(a[1..], k);
          AboveNone(b[1..], k);
        }
      }
      SortedUnique(a[1..], b[1..]);
      assert a == [a[0]] + a[1..] && b == [b[0]] + b[1..];
    }
  }

  lemma GetFirst(fields: seq<Field>)
    ensures fields != [] ==> Get(fields, fields[0].key) == Some(fields[0].value)
  {
  }

  lemma FirstKeys(a: seq<Field>, b: seq<Field>)
    requires a != [] && b != [] && Above(b[1..], b[0].key) && Get(a, a[0].key) == Get(b, a[0].key)
    ensures !KeyLess(a[0].key, b[0].key)
  {
    if KeyLess(a[0].key, b[0].key) {
      KeyLessNot(a[0].key, b[0].key);
      AboveLess(b[1..], a[0].key, b[0].key);
      AboveNone(b[1..], a[0].key);
      assert false;
    }
  }

  lemma {:induction false} KeyLessNot(a: string, b: string)
    requires KeyLess(a, b)
    ensures !KeyLess(b, a) && a != b
  {
    if a != "" && a[0] == b[0] {
      KeyLessNot(a[1..], b[1..]);
      assert a == [a[0]] + a[1..] && b == [b[0]] + b[1..];
    }
  }

  /** Inserting a key above all others appends it. */
  lemma {:induction false} PutLast(fields: seq<Field>, f: Field)
    requires forall i :: 0 <= i < |fields| ==> KeyLess(fields[i].key, f.key)
    ensures Put(fields, f) == fields + [f]
  {
    if fields != [] {
      KeyLessNot(fields[0].key, f.key);
      PutLast(fields[1..], f);
      assert fields == [fields[0]] + fields[1..];
    }
  }

  // ----- strings -----------------------------------------------------------------------------

  const BACKSPACE: char := 8 as char
  const FORM_FEED: char := 12 as char
  const REPLACEMENT: char := 0xFFFD as char

  function HexDigit(d: int): char
    requires 0 <= d < 16
  {
    if d < 10 then ('0' as int + d) as char else ('a' as int + (d - 10)) as char
  }

  function HexValue(c: char): (r: Option<int>)
    ensures r.Some? ==> 0 <= r.value < 16
  {
    if '0' <= c <= '9' then Some(c as int - '0' as int)
    else if 'a' <= c <= 'f' then Some(c as int - 'a' as int + 10)
    else if 'A' <= c <= 'F' then Some(c as int - 'A' as int + 10)
    else None
  }

  /** Lines 245-254. */
  function Escape(c: char): string
  {
    if c == '\"' then "\\\""
    else if c == '\\' then "\\\\"
    else if c == '\n' then "\\n"
    else if c == '\r' then "\\r"
    else if c == '\t' then "\\t"
    else if c == BACKSPACE then "\\b"
    else if c == FORM_FEED then "\\f"
    else if c as int < 0x20 then "\\u00" + [HexDigit(c as int / 16), HexDigit(c as int % 16)]
    else [c]
  }

  function EscapeAll(s: string): string
  {
    if s == "" then "" else Escape(s[0]) + EscapeAll(s[1..])
  }

  function QuotedText(s: string): string { "\"" + EscapeAll(s) + "\"" }

  /** The four digits at the start of the text (lines 463-476). */
  function ReadHex4(text: string): (r: Read<int>)
    ensures r.Ok? ==> |r.value.1| == |text| - 4 && 0 <= r.value.0 < 0x10000
  {
    ReadHex(text, 4, 0)
  }

  function ReadHex(text: string, n: nat, v: int): (r: Read<int>)
    requires v >= 0
    ensures r.Ok? ==> |r.value.1| == |text| - n && 0 <= r.value.0
    ensures r.Ok? && n == 4 && v == 0 ==> r.value.0 < 0x10000
    ensures r.Ok? && n == 3 && v < 0x10 ==> r.value.0 < 0x10000
    ensures r.Ok? && n == 2 && v < 0x100 ==> r.value.0 < 0x10000
    ensures r.Ok? && n == 1 && v < 0x1000 ==> r.value.0 < 0x10000
    decreases n
  {
    if n == 0 then Ok((v, text))
    else if text == "" then Err(TruncatedUnicode)
    else
      var d := HexValue(text[0]);
      if d.None? then Err(InvalidHexDigit) else ReadHex(text[1..], n - 1, v * 16 + d.value)
  }

  function CharOf(cp: int): char
    requires 0 <= cp < 0x110000
  {
    if cp < 0xD800 || cp >= 0xE000 then cp as char else REPLACEMENT
  }

  /** After `\u`: one code point, or the two halves of one (lines 413-429). */
  function ReadUnicode(text: string): (r: Read<char>)
    ensures r.Ok? ==> |r.value.1| < |text|
  {
    match ReadHex4(text)
    case Err(e) => Err(e)
    case Ok((cp, rest)) =>
      if 0xD800 <= cp <= 0xDBFF then
        if |rest| < 2 || rest[0] != '\\' || rest[1] != 'u' then Err(ExpectedLowSurrogate)
        else
          match ReadHex4(rest[2..])
          case Err(e) => Err(e)
          case Ok((low, rest')) =>
            if 0xDC00 <= low <= 0xDFFF then Ok((CharOf(0x10000 + (cp - 0xD800) * 1024 + (low - 0xDC00)), rest'))
            else Err(InvalidLowSurrogate)
      else Ok((CharOf(cp), rest))
  }

  /** After a backslash (lines 403-431). */
  function ReadEscape(text: string): (r: Read<char>)
    ensures r.Ok? ==> |r.value.1| < |text|
  {
    if text == "" then Err(UnterminatedEscape)
    else
      var c, rest := text[0], text[1..];
      if c == '\"' || c == '\\' || c == '/' then Ok((c, rest))
      else if c == 'n' then Ok(('\n', rest))
      else if c == 't' then Ok(('\t', rest))
      else if c == 'r' then Ok(('\r', rest))
      else if c == 'b' then Ok((BACKSPACE, rest))
      else if c == 'f' then Ok((FORM_FEED, rest))
      else if c == 'u' then ReadUnicode(rest)
      else Err(InvalidEscape)
  }

  /** The rest of a string, up to its closing quote (lines 398-459). */
  function ReadChars(text: string, acc: string): (r: Read<string>)
    ensures r.Ok? ==> |r.value.1| < |text|
    decreases |text|
  {
    if text == "" then Err(UnterminatedString)
    else
      var c := text[0];
      if c == '\"' then Ok((acc, text[1..]))
      else if c == '\\' then
        match ReadEscape(text[1..])
        case Err(e) => Err(e)
        case Ok((d, rest)) => ReadChars(rest, acc + [d])
      else if c as int < 0x20 then Err(ControlCharacter)
      else ReadChars(text[1..], acc + [c])
  }

  function ReadString(text: string): (r: Read<string>)
    ensures r.Ok? ==> |r.value.1| < |text|
  {
    if text == "" || text[0] != '\"' then Err(ExpectedString) else ReadChars(text[1..], "")
  }

  /** A written character is read back. */
  lemma ReadEscaped(c: char, rest: string, acc: string)
    ensures ReadChars(Escape(c) + rest, acc) == ReadChars(rest, acc + [c])
  {
    var text := Escape(c) + rest;
    if Escape(c) == [c] {
      assert text[1..] == rest;
    } else {
      assert text[0] == '\\';
      UnescapeIt(c, rest);
      assert text[1..] == Escape(c)[1..] + rest;
    }
  }

  lemma UnescapeIt(c: char, rest: string)
    requires Escape(c) != [c]
    ensures ReadEscape(Escape(c)[1..] + rest) == Ok((c, rest))
  {
    var text := Escape(c)[1..] + rest;
    if c as int < 0x20 && Escape(c)[1] == 'u' {
      var x, y := c as int / 16, c as int % 16;
      var digits: string := ['0', '0', HexDigit(x), HexDigit(y)];
      assert text == "u" + (digits + rest) && text[1..] == digits + rest;
      HexBack(x);
      HexBack(y);
      FourDigits(x, y, rest);
    } else {
      assert text[1..] == rest;
    }
  }

  lemma HexBack(d: int)
    requires 0 <= d < 16
    ensures HexValue(HexDigit(d)) == Some(d)
  {
  }

  lemma FourDigits(x: int, y: int, rest: string)
    requires 0 <= x < 16 && 0 <= y < 16
    ensures ReadHex4(['0', '0', HexDigit(x), HexDigit(y)] + rest) == Ok((x * 16 + y, rest))
  {
    var text: string := ['0', '0', HexDigit(x), HexDigit(y)] + rest;
    HexBack(x);
    HexBack(y);
    hide HexDigit;
    assert text[1..] == ['0', HexDigit(x), HexDigit(y)] + rest;
    assert text[1..][1..] == [HexDigit(x), HexDigit(y)] + rest;
    assert text[1..][1..][1..] == [HexDigit(y)] + rest;
    assert text[1..][1..][1..][1..] == rest;
    assert ReadHex(text, 4, 0) == ReadHex(text[1..], 3, 0);
    assert ReadHex(text[1..], 3, 0) == ReadHex(text[1..][1..], 2, 0);
    assert ReadHex(text[1..][1..], 2, 0) == ReadHex(text[1..][1..][1..], 1, x);
    assert ReadHex(text[1..][1..][1..], 1, x) == ReadHex(rest, 0, x * 16 + y);
  }

  lemma QuoteEnds(rest: string, acc: string)
    ensures ReadChars("\"" + rest, acc) == Ok((acc, rest))
  {
    assert ("\"" + rest)[1..] == rest;
  }

  lemma {:induction false} ReadEscapedAll(s: string, rest: string, acc: string)
    ensures ReadChars(EscapeAll(s) + "\"" + rest, acc) == Ok((acc + s, rest))
    decreases |s|
  {
    hide ReadChars, Escape;
    if s == "" {
      assert EscapeAll(s) + "\"" + rest == "\"" + rest;
      QuoteEnds(rest, acc);
      assert acc + s == acc;
    } else {
      var more := EscapeAll(s[1..]) + "\"" + rest;
      assert EscapeAll(s) + "\"" + rest == Escape(s[0]) + more;
      ReadEscaped(s[0], more, acc);
      ReadEscapedAll(s[1..], rest, acc + [s[0]]);
      assert acc + [s[0]] + s[1..] == acc + s;
    }
  }

  /** A written string is read back, whatever characters it holds. */
  lemma StringBack(s: string, rest: string)
    ensures ReadString(QuotedText(s) + rest) == Ok((s, rest))
  {
    var body := EscapeAll(s) + "\"" + rest;
    assert QuotedText(s) + rest == "\"" + body && ("\"" + body)[1..] == body;
    ReadEscapedAll(s, rest, "");
    assert "" + s == s;
  }

  // ----- numbers -------------------------------------------------------------------------------

  predicate IsDigit(c: char) { '0' <= c <= '9' }

  function DigitText(d: int): string
    requires 0 <= d < 10
  {
    [('0' as int + d) as char]
  }

  function Decimal(n: nat): (r: string)
    ensures r != "" && forall i :: 0 <= i < |r| ==> IsDigit(r[i])
  {
    if n < 10 then DigitText(n) else Decimal(n / 10) + DigitText(n % 10)
  }

  /** Lines 231-236, for numbers with a magnitude below 10^15. */
  function NumberText(n: int): (r: string)
    ensures r != "" && (IsDigit(r[0]) || r[0] == '-')
  {
    if n < 0 then "-" + Decimal(-n) else Decimal(n)
  }

  function DigitsValue(digits: string): int
    requires forall i :: 0 <= i < |digits| ==> IsDigit(digits[i])
  {
    if digits == "" then 0
    else DigitsValue(digits[..|digits| - 1]) * 10 + (digits[|digits| - 1] as int - '0' as int)
  }

  /** How many digits the text starts with. */
  function DigitRun(text: string): (n: nat)
    ensures n <= |text| && (forall i :: 0 <= i < n ==> IsDigit(text[i])) && (n < |text| ==> !IsDigit(text[n]))
  {
    if text == "" || !IsDigit(text[0]) then 0 else 1 + DigitRun(text[1..])
  }

  /** Lines 505-544. Fractions and exponents are not modelled. */
  function ReadNumber(text: string): (r: Read<int>)
    requires text != "" && (IsDigit(text[0]) || text[0] == '-')
    ensures r.Ok? ==> |r.value.1| < |text|
  {
    var sign := if text[0] == '-' then 1 else 0;
    var tail := text[sign..];
    var n := DigitRun(tail);
    var digits, rest := tail[..n], tail[n..];
    if rest != "" && (rest[0] == '.' || rest[0] == 'e' || rest[0] == 'E') then Err(NotAnInteger)
    else if n == 0 then Err(InvalidNumber)
    else Ok((if sign == 1 then -DigitsValue(digits) else DigitsValue(digits), rest))
  }

  lemma {:induction false} DecimalValue(n: nat)
    ensures DigitsValue(Decimal(n)) == n
  {
    var r := Decimal(n);
    if n < 10 {
      assert r[..0] == "";
    } else {
      DecimalValue(n / 10);
      assert r[..|r| - 1] == Decimal(n / 10);
    }
  }

  lemma {:induction false} RunIs(digits: string, rest: string)
    requires (forall i :: 0 <= i < |digits| ==> IsDigit(digits[i])) && (rest == "" || !IsDigit(rest[0]))
    ensures DigitRun(digits + rest) == |digits|
  {
    if digits == "" {
      assert digits + rest == rest;
    } else {
      RunIs(digits[1..], rest);
      assert (digits + rest)[1..] == digits[1..] + rest;
    }
  }

  /** Nothing that could go on with a number follows. */
  predicate AfterNumber(rest: string)
  {
    rest == "" || !(IsDigit(rest[0]) || rest[0] == '.' || rest[0] == 'e' || rest[0] == 'E')
  }

  lemma NumberBack(n: int, rest: string)
    requires AfterNumber(rest)
    ensures NumberText(n) + rest != "" && (IsDigit((NumberText(n) + rest)[0]) || (NumberText(n) + rest)[0] == '-')
    ensures ReadNumber(NumberText(n) + rest) == Ok((n, rest))
  {
    hide DigitsValue, Decimal, DigitRun;
    var m := if n < 0 then -n else n;
    var digits, text := Decimal(m), NumberText(n) + rest;
    var sign := if n < 0 then 1 else 0;
    assert text[sign..] == digits + rest;
    RunIs(digits, rest);
    assert (digits + rest)[..|digits|] == digits && (digits + rest)[|digits|..] == rest;
    DecimalValue(m);
  }

  // ----- reading values ----------------------------------------------------------------------

  function Starts(text: string, word: string): bool { word <= text }

  /** Lines 315-326, on the rest of the text at a nesting depth. */
  function ReadValue(text: string, depth: nat): (r: Read<Json>)
    ensures r.Ok? ==> |r.value.1| < |text|
    decreases |text|, 2
  {
    var t := SkipWhite(text);
    if t == "" then Err(ExpectedValue)
    else
      var c := t[0];
      if c == '{' then
        if depth + 1 > MAX_DEPTH then Err(TooDeep)
        else
          var u := SkipWhite(t[1..]);
          if u != "" && u[0] == '}' then Ok((Object([]), u[1..])) else ReadFields(u, depth + 1, [])
      else if c == '[' then
        if depth + 1 > MAX_DEPTH then Err(TooDeep)
        else
          var u := SkipWhite(t[1..]);
          if u != "" && u[0] == ']' then Ok((Array([]), u[1..])) else ReadItems(u, depth + 1, [])
      else if c == '\"' then
        match ReadString(t)
        case Err(e) => Err(e)
        case Ok((s, rest)) => Ok((Text(s), rest))
      else if c == 't' || c == 'f' then
        if Starts(t, "true") then Ok((Bool(true), t[4..]))
        else if Starts(t, "false") then Ok((Bool(false), t[5..]))
        else Err(InvalidLiteral)
      else if c == 'n' then
        if Starts(t, "null") then Ok((Null, t[4..])) else Err(InvalidLiteral)
      else if c == '-' || IsDigit(c) then
        match ReadNumber(t)
        case Err(e) => Err(e)
        case Ok((n, rest)) => Ok((Number(n), rest))
      else Err(ExpectedValue)
  }

  /** The items of an array after `acc` (lines 381-390). */
  function ReadItems(text: string, depth: nat, acc: seq<Json>): (r: Read<Json>)
    ensures r.Ok? ==> |r.value.1| < |text|
    decreases |text|, 3
  {
    match ReadValue(text, depth)
    case Err(e) => Err(e)
    case Ok((v, rest)) =>
      var t := SkipWhite(rest);
      if t != "" && t[0] == ',' then ReadItems(t[1..], depth, acc + [v])
      else if t != "" && t[0] == ']' then Ok((Array(acc + [v]), t[1..]))
      else Err(ExpectedCommaOrBracket)
  }

  /** The fields of an object after those of `acc` (lines 350-363). */
  function ReadFields(text: string, depth: nat, acc: seq<Field>): (r: Read<Json>)
    ensures r.Ok? ==> |r.value.1| < |text|
    decreases |text|, 3
  {
    match ReadString(SkipWhite(text))
    case Err(e) => Err(e)
    case Ok((key, rest)) =>
      var c := SkipWhite(rest);
      if c == "" || c[0] != ':' then Err(ExpectedColon)
      else
        match ReadValue(c[1..], depth)
        case Err(e) => Err(e)
        case Ok((v, rest')) =>
          var t := SkipWhite(rest');
          if t != "" && t[0] == ',' then ReadFields(t[1..], depth, Put(acc, Field(key, v)))
          else if t != "" && t[0] == '}' then Ok((Object(Put(acc, Field(key, v))), t[1..]))
          else Err(ExpectedCommaOrBrace)
  }

  /** Lines 46-55. */
  function Document(text: string): Result<Json, JsonError>
  {
    match ReadValue(SkipWhite(text), 0)
    case Err(e) => Err(e)
    case Ok((v, rest)) => if SkipWhite(rest) != "" then Err(TrailingCharacters) else Ok(v)
  }

  // ----- step by step ------------------------------------------------------------------------

  lemma SkipAgain(text: string, depth: nat)
    ensures ReadValue(SkipWhite(text), depth) == ReadValue(text, depth)
    ensures SkipWhite(SkipWhite(text)) == SkipWhite(text)
  {
    hide ReadFields, ReadItems, ReadString, ReadNumber;
  }

  lemma StartsNotWhite(text: string)
    requires text != "" && !White(text[0])
    ensures SkipWhite(text) == text
  {
  }

  /** What a sign, the digits after it and the text after those read as. */
  lemma NumberIs(text: string, negative: bool, digits: string, rest: string)
    requires text != "" && (IsDigit(text[0]) || text[0] == '-') && (negative <==> text[0] == '-')
    requires text[if negative then 1 else 0..] == digits + rest
    requires (forall i :: 0 <= i < |digits| ==> IsDigit(digits[i])) && (rest == "" || !IsDigit(rest[0]))
    ensures ReadNumber(text) ==
      if rest != "" && (rest[0] == '.' || rest[0] == 'e' || rest[0] == 'E') then Err(NotAnInteger)
      else if digits == "" then Err(InvalidNumber)
      else Ok((if negative then -DigitsValue(digits) else DigitsValue(digits), rest))
  {
    hide DigitsValue, DigitRun;
    var tail := digits + rest;
    RunIs(digits, rest);
    assert tail[..|digits|] == digits && tail[|digits|..] == rest;
  }

  lemma NextStep(text: string, depth: nat, acc: seq<Field>)
    ensures ReadFields(text, depth, acc) ==
      var k := ReadString(SkipWhite(text));
      if k.Err? then Err(k.error)
      else
        var c := SkipWhite(k.value.1);
        if c == "" || c[0] != ':' then Err(ExpectedColon)
        else
          var r := ReadValue(c[1..], depth);
          if r.Err? then Err(r.error)
          else
            var t, fields := SkipWhite(r.value.1), Put(acc, Field(k.value.0, r.value.0));
            if t != "" && t[0] == ',' then ReadFields(t[1..], depth, fields)
            else if t != "" && t[0] == '}' then Ok((Object(fields), t[1..]))
            else Err(ExpectedCommaOrBrace)
  {
    hide ReadValue, ReadString, SkipWhite, Put;
  }

  // ----- writing values ------------------------------------------------------------------------

  /** Compact, or indented for a nesting depth. */
  datatype Layout = Compact | Pretty(depth: nat)

  function Inner(l: Layout): Layout
  {
    match l case Compact => Compact case Pretty(d) => Pretty(d + 1)
  }

  function Indent(d: nat): (r: string)
    ensures AllWhite(r)
  {
    if d == 0 then "" else Indent(d - 1) + "  "
  }

  /** What stands before an item, and before a closing bracket. */
  function NewLine(l: Layout): (r: string)
    ensures AllWhite(r)
  {
    match l case Compact => "" case Pretty(d) => "\n" + Indent(d)
  }

  function AfterKey(l: Layout): string
  {
    match l case Compact => ":" case Pretty(_) => ": "
  }

  function Printed(j: Json, l: Layout): string
    decreases j, 1
  {
    match j
    case Null => "null"
    case Bool(b) => if b then "true" else "false"
    case Number(n) => NumberText(n)
    case Text(s) => QuotedText(s)
    case Array(items) => if items == [] then "[]" else "[" + ItemsText(items, Inner(l)) + NewLine(l) + "]"
    case Object(fields) => if fields == [] then "{}" else "{" + FieldsText(fields, Inner(l)) + NewLine(l) + "}"
  }

  function ItemsText(items: seq<Json>, l: Layout): string
    decreases items, 0
  {
    if items == [] then ""
    else ItemText(items[0], l) + (if |items| > 1 then "," else "") + ItemsText(items[1..], l)
  }

  function ItemText(item: Json, l: Layout): string
    decreases item, 2
  {
    NewLine(l) + Printed(item, l)
  }

  function FieldsText(fields: seq<Field>, l: Layout): string
    decreases fields, 0
  {
    if fields == [] then ""
    else FieldText(fields[0], l) + (if |fields| > 1 then "," else "") + FieldsText(fields[1..], l)
  }

  function FieldText(f: Field, l: Layout): string
    decreases f, 2
  {
    NewLine(l) + QuotedText(f.key) + AfterKey(l) + Printed(f.value, l)
  }

  // ----- reading what was written ----------------------------------------------------------------

  /** How deep arrays and objects are nested. */
  function Depth(j: Json): nat
    decreases j, 1
  {
    match j
    case Array(items) => 1 + ItemsDepth(items)
    case Object(fields) => 1 + FieldsDepth(fields)
    case _ => 0
  }

  function Deeper(a: nat, b: nat): nat { if a > b then a else b }

  function ItemsDepth(items: seq<Json>): nat
    decreases items, 0
  {
    if items == [] then 0 else Deeper(Depth(items[0]), ItemsDepth(items[1..]))
  }

  function FieldsDepth(fields: seq<Field>): nat
    decreases fields, 0
  {
    if fields == [] then 0 else Deeper(Depth(fields[0].value), FieldsDepth(fields[1..]))
  }

  /** Objects are maps: their keys ascend, all the way down. */
  ghost predicate Proper(j: Json)
    decreases j
  {
    match j
    case Array(items) => forall i :: 0 <= i < |items| ==> Proper(items[i])
    case Object(fields) => Sorted(fields) && forall i :: 0 <= i < |fields| ==> Proper(fields[i].value)
    case _ => true
  }

  /** What a document means: an object gives every key listed its last value. */
  function Normal(j: Json): Json
    decreases j, 1
  {
    match j
    case Array(items) => Array(NormalItems(items))
    case Object(fields) => Object(PutAll([], NormalFields(fields)))
    case _ => j
  }

  function NormalItems(items: seq<Json>): (r: seq<Json>)
    ensures |r| == |items|
    decreases items, 0
  {
    if items == [] then [] else [Normal(items[0])] + NormalItems(items[1..])
  }

  function NormalFields(fields: seq<Field>): (r: seq<Field>)
    ensures |r| == |fields| && forall i :: 0 <= i < |r| ==> r[i].key == fields[i].key
    decreases fields, 0
  {
    if fields == [] then [] else [Field(fields[0].key, Normal(fields[0].value))] + NormalFields(fields[1..])
  }

  /** An object in order means itself. */
  lemma {:induction false} ProperIsNormal(j: Json)
    requires Proper(j)
    ensures Normal(j) == j
    decreases j, 1
  {
    match j
    case Array(items) => ItemsAreNormal(items);
    case Object(fields) =>
      FieldsAreNormal(fields);
      PutAllAppends([], fields);
      assert [] + fields == fields;
    case _ =>
  }

  lemma {:induction false} ItemsAreNormal(items: seq<Json>)
    requires forall i :: 0 <= i < |items| ==> Proper(items[i])
    ensures NormalItems(items) == items
    decreases items, 0
  {
    if items != [] {
      ProperIsNormal(items[0]);
      ItemsAreNormal(items[1..]);
    }
  }

  lemma {:induction false} FieldsAreNormal(fields: seq<Field>)
    requires forall i :: 0 <= i < |fields| ==> Proper(fields[i].value)
    ensures NormalFields(fields) == fields
    decreases fields, 0
  {
    if fields != [] {
      ProperIsNormal(fields[0].value);
      FieldsAreNormal(fields[1..]);
    }
  }

  lemma {:induction false} PutAllAppends(acc: seq<Field>, fields: seq<Field>)
    requires Sorted(acc + fields)
    ensures PutAll(acc, fields) == acc + fields
    decreases |fields|
  {
    hide KeyLess, Put;
    if fields == [] {
      assert acc + fields == acc;
    } else {
      AppendedLast(acc, fields);
      assert fields[0] == Field(fields[0].key, fields[0].value);
      assert Put(acc, fields[0]) == acc + [fields[0]];
      assert (acc + [fields[0]]) + fields[1..] == acc + fields;
      PutAllAppends(acc + [fields[0]], fields[1..]);
    }
  }

  /** What follows a value: nothing, white space or punctuation. */
  predicate AfterValue(rest: string)
  {
    rest == "" || White(rest[0]) || rest[0] == ',' || rest[0] == ']' || rest[0] == '}'
  }

  /** No printed value starts with white space or a closing bracket. */
  lemma PrintedStarts(j: Json, l: Layout, rest: string)
    ensures var text := Printed(j, l) + rest;
            text != "" && !White(text[0]) && text[0] != ']' && text[0] != '}' && SkipWhite(text) == text
  {
  }

  lemma SkipTo(white: string, j: Json, l: Layout, rest: string)
    requires AllWhite(white)
    ensures SkipWhite(white + (Printed(j, l) + rest)) == Printed(j, l) + rest
  {
    SkipsWhite(white, Printed(j, l) + rest);
    PrintedStarts(j, l, rest);
  }

  /** What follows the first item, up to the closing bracket. */
  function ItemsMore(items: seq<Json>, l: Layout): string
    requires items != []
  {
    if |items| > 1 then "," + ItemsText(items[1..], l) else ""
  }

  function FieldsMore(fields: seq<Field>, l: Layout): string
    requires fields != []
  {
    if |fields| > 1 then "," + FieldsText(fields[1..], l) else ""
  }

  lemma ItemsSplit(items: seq<Json>, l: Layout)
    requires items != []
    ensures ItemsText(items, l) == NewLine(l) + (Printed(items[0], l) + ItemsMore(items, l))
  {
    hide Printed, NewLine;
    var a, b := NewLine(l), Printed(items[0], l);
    var comma, c := if |items| > 1 then "," else "", ItemsText(items[1..], l);
    assert ItemsText(items, l) == ((a + b) + comma) + c;
    assert comma + c == ItemsMore(items, l);
    Joined(a, b, comma, c);
  }

  lemma Joined(a: string, b: string, c: string, d: string)
    ensures ((a + b) + c) + d == a + (b + (c + d))
  {
  }

  lemma FieldsSplit(fields: seq<Field>, l: Layout)
    requires fields != []
    ensures FieldsText(fields, l) == NewLine(l)
            + (QuotedText(fields[0].key) + (AfterKey(l) + (Printed(fields[0].value, l) + FieldsMore(fields, l))))
  {
    hide Printed, NewLine, AfterKey, QuotedText;
    var a, k, z, b := NewLine(l), QuotedText(fields[0].key), AfterKey(l), Printed(fields[0].value, l);
    var comma, c := if |fields| > 1 then "," else "", FieldsText(fields[1..], l);
    assert FieldsText(fields, l) == ((((a + k) + z) + b) + comma) + c;
    assert comma + c == FieldsMore(fields, l);
    Joined((a + k) + z, b, comma, c);
    Joined(a, k, z, b + (comma + c));
  }

  lemma Regroup(a: string, b: string, c: string, d: string)
    ensures (a + (b + c)) + d == a + (b + (c + d))
  {
  }

  /** After an item comes a comma, or white space and the closing bracket. */
  lemma ClosesWith(white: string, bracket: char, rest: string)
    requires AllWhite(white) && (bracket == ']' || bracket == '}')
    ensures SkipWhite(white + ([bracket] + rest)) == [bracket] + rest && AfterValue(white + ([bracket] + rest))
  {
    SkipsWhite(white, [bracket] + rest);
  }

  /** A printed value is read back if it is not nested too deep; otherwise that is the
      error. */
  lemma {:induction false} ValueBack(j: Json, l: Layout, white: string, rest: string, depth: nat)
    requires AllWhite(white) && AfterValue(rest) && depth <= MAX_DEPTH
    ensures ReadValue(white + (Printed(j, l) + rest), depth)
            == if depth + Depth(j) <= MAX_DEPTH then Ok((Normal(j), rest)) else Err(TooDeep)
    decreases j, 1
  {
    hide *;
    SkipTo(white, j, l, rest);
    match j
    case Null => AtomBack(j, l, white, rest, depth);
    case Bool(b) => AtomBack(j, l, white, rest, depth);
    case Number(n) => AtomBack(j, l, white, rest, depth);
    case Text(s) => AtomBack(j, l, white, rest, depth);
    case Array(items) => ArrayBack(items, l, white, rest, depth);
    case Object(fields) => ObjectBack(fields, l, white, rest, depth);
  }

  lemma AtomBack(j: Json, l: Layout, white: string, rest: string, depth: nat)
    requires !j.Array? && !j.Object? && AfterValue(rest) && SkipWhite(white + (Printed(j, l) + rest))
             == Printed(j, l) + rest
    ensures ReadValue(white + (Printed(j, l) + rest), depth) == Ok((j, rest)) && Depth(j) == 0 && Normal(j) == j
  {
    hide SkipWhite, ReadFields, ReadItems, ReadString, ReadNumber, NumberText;
    var text := Printed(j, l) + rest;
    match j
    case Null => assert text[4..] == rest;
    case Bool(b) => assert text[if b then 4 else 5..] == rest;
    case Number(n) => NumberBack(n, rest);
    case Text(s) => StringBack(s, rest);
  }

  /** An opening bracket is followed by its closing one or by items. */
  lemma Brackets(text: string, inside: string, depth: nat)
    requires SkipWhite(text) != "" && SkipWhite(text)[1..] == inside
    ensures SkipWhite(text)[0] == '[' ==>
      ReadValue(text, depth) ==
        (if depth + 1 > MAX_DEPTH then Err(TooDeep)
         else
           var u := SkipWhite(inside);
           if u != "" && u[0] == ']' then Ok((Array([]), u[1..])) else ReadItems(u, depth + 1, []))
    ensures SkipWhite(text)[0] == '{' ==>
      ReadValue(text, depth) ==
        (if depth + 1 > MAX_DEPTH then Err(TooDeep)
         else
           var u := SkipWhite(inside);
           if u != "" && u[0] == '}' then Ok((Object([]), u[1..])) else ReadFields(u, depth + 1, []))
  {
    hide SkipWhite, ReadFields, ReadItems;
  }

  lemma {:induction false} ArrayBack(items: seq<Json>, l: Layout, white: string, rest: string, depth: nat)
    requires SkipWhite(white + (Printed(Array(items), l) + rest)) == Printed(Array(items), l) + rest
    ensures ReadValue(white + (Printed(Array(items), l) + rest), depth) ==
      if depth + Depth(Array(items)) <= MAX_DEPTH then Ok((Normal(Array(items)), rest)) else Err(TooDeep)
    decreases items, 2
  {
    hide SkipWhite, ReadValue, ReadItems, ItemsText, NewLine, ItemsDepth;
    var text := Printed(Array(items), l) + rest;
    if items == [] {
      assert text == "[" + ("]" + rest) && text[1..] == "]" + rest && ("]" + rest)[1..] == rest;
      assert "" + ("]" + rest) == "]" + rest;
      ClosesWith("", ']', rest);
      Brackets(white + text, "]" + rest, depth);
      NoDepth();
    } else {
      var first, close, more := Printed(items[0], Inner(l)), NewLine(l) + ("]" + rest), ItemsMore(items, Inner(l));
      ItemsSplit(items, Inner(l));
      var inside := NewLine(Inner(l)) + (first + (more + close));
      Regroup(NewLine(Inner(l)), first, more, close);
      assert text == "[" + (ItemsText(items, Inner(l)) + close);
      assert text[1..] == inside;
      SkipTo(NewLine(Inner(l)), items[0], Inner(l), more + close);
      PrintedStarts(items[0], Inner(l), more + close);
      Brackets(white + text, inside, depth);
      if depth + 1 <= MAX_DEPTH {
        assert "" + (first + (more + close)) == first + (more + close);
        ItemsBack(items, Inner(l), NewLine(l), "", rest, depth + 1, []);
        assert [] + NormalItems(items) == NormalItems(items);
      }
    }
  }

  lemma NoDepth()
    ensures ItemsDepth([]) == 0 && FieldsDepth([]) == 0
  {
  }

  lemma {:induction false} ItemsBack(items: seq<Json>, l: Layout, closing: string, white: string, rest: string,
          depth: nat, acc: seq<Json>)
    requires items != [] && AllWhite(white) && AllWhite(closing) && depth <= MAX_DEPTH
    ensures ReadItems(white + (Printed(items[0], l) + (ItemsMore(items, l) + (closing + ("]" + rest)))), depth, acc) ==
      if depth + ItemsDepth(items) <= MAX_DEPTH then Ok((Array(acc + NormalItems(items)), rest)) else Err(TooDeep)
    decreases items, 0
  {
    hide *;
    var first, close := items[0], closing + ("]" + rest);
    var after := ItemsMore(items, l) + close;
    ClosesWith(closing, ']', rest);
    ItemStep(white + (Printed(first, l) + after), depth, acc);
    ItemsTaken(items, l, acc);
    if |items| == 1 {
      assert after == close;
      ValueBack(first, l, white, after, depth);
      assert ("]" + rest)[1..] == rest;
    } else {
      var next := ItemsText(items[1..], l) + close;
      Comma(ItemsText(items[1..], l), close);
      CommaFirst(next);
      ValueBack(first, l, white, after, depth);
      NextItem(items[1..], l, close);
      ItemsBack(items[1..], l, closing, NewLine(l), rest, depth, acc + [Normal(first)]);
    }
  }

  lemma ItemsTaken(items: seq<Json>, l: Layout, acc: seq<Json>)
    requires items != []
    ensures |items| == 1 ==> ItemsMore(items, l) == "" && ItemsDepth(items) == Depth(items[0])
    ensures |items| == 1 ==> acc + NormalItems(items) == acc + [Normal(items[0])]
    ensures |items| > 1 ==> ItemsMore(items, l) == "," + ItemsText(items[1..], l)
    ensures acc + [Normal(items[0])] + NormalItems(items[1..]) == acc + NormalItems(items)
    ensures var first, others := Depth(items[0]), ItemsDepth(items[1..]);
            ItemsDepth(items) == if first > others then first else others
  {
    hide Depth, ItemsText, Normal;
    if |items| == 1 {
      NoDepth();
      assert items[1..] == [];
    }
  }

  /** One item up to what follows it. */
  lemma ItemStep(text: string, depth: nat, acc: seq<Json>)
    ensures ReadItems(text, depth, acc) ==
      var r := ReadValue(text, depth);
      if r.Err? then Err(r.error)
      else
        var t := SkipWhite(r.value.1);
        if t != "" && t[0] == ',' then ReadItems(t[1..], depth, acc + [r.value.0])
        else if t != "" && t[0] == ']' then Ok((Array(acc + [r.value.0]), t[1..]))
        else Err(ExpectedCommaOrBracket)
  {
  }

  lemma NextItem(items: seq<Json>, l: Layout, close: string)
    requires items != []
    ensures ItemsText(items, l) + close == NewLine(l) + (Printed(items[0], l) + (ItemsMore(items, l) + close))
  {
    hide ItemsText, NewLine, Printed, ItemsMore;
    ItemsSplit(items, l);
    Regroup(NewLine(l), Printed(items[0], l), ItemsMore(items, l), close);
  }

  lemma Comma(a: string, b: string)
    ensures ("," + a) + b == "," + (a + b)
  {
  }

  lemma CommaFirst(next: string)
    ensures SkipWhite("," + next) == "," + next && AfterValue("," + next) && ("," + next)[0] == ','
            && ("," + next)[1..] == next
  {
  }

  lemma {:induction false} ObjectBack(fields: seq<Field>, l: Layout, white: string, rest: string, depth: nat)
    requires SkipWhite(white + (Printed(Object(fields), l) + rest)) == Printed(Object(fields), l) + rest
    ensures ReadValue(white + (Printed(Object(fields), l) + rest), depth) ==
      if depth + Depth(Object(fields)) <= MAX_DEPTH then Ok((Normal(Object(fields)), rest)) else Err(TooDeep)
    decreases fields, 2
  {
    hide SkipWhite, ReadValue, ReadFields, FieldsText, NewLine, FieldsDepth, QuotedText, AfterKey, FieldsMore,
         AfterValue;
    var text := Printed(Object(fields), l) + rest;
    if fields == [] {
      assert text == "{" + ("}" + rest) && text[1..] == "}" + rest && ("}" + rest)[1..] == rest;
      assert "" + ("}" + rest) == "}" + rest;
      ClosesWith("", '}', rest);
      Brackets(white + text, "}" + rest, depth);
      NoDepth();
    } else {
      var key, close := QuotedText(fields[0].key), NewLine(l) + ("}" + rest);
      var after := AfterKey(Inner(l)) + (Printed(fields[0].value, Inner(l)) + FieldsMore(fields, Inner(l)));
      FieldsSplit(fields, Inner(l));
      var inside := NewLine(Inner(l)) + (key + (after + close));
      Regroup(NewLine(Inner(l)), key, after, close);
      assert text == "{" + (FieldsText(fields, Inner(l)) + close);
      assert text[1..] == inside;
      SkipsWhite(NewLine(Inner(l)), key + (after + close));
      QuoteFirst(fields[0].key, after + close);
      Brackets(white + text, inside, depth);
      if depth + 1 <= MAX_DEPTH {
        assert "" + (key + (after + close)) == key + (after + close);
        FieldsBack(fields, Inner(l), NewLine(l), "", rest, depth + 1, []);
        Regroup(AfterKey(Inner(l)), Printed(fields[0].value, Inner(l)), FieldsMore(fields, Inner(l)), close);
      }
    }
  }

  lemma QuoteFirst(s: string, rest: string)
    ensures QuotedText(s) + rest != "" && (QuotedText(s) + rest)[0] == '\"'
            && SkipWhite(QuotedText(s) + rest) == QuotedText(s) + rest
  {
  }

  /** One field up to what follows its value. */
  lemma FieldStep(key: string, l: Layout, white: string, tail: string, depth: nat, acc: seq<Field>)
    requires AllWhite(white)
    ensures var text := white + (QuotedText(key) + (AfterKey(l) + tail));
            ReadFields(text, depth, acc) ==
              var r := ReadValue((if l.Compact? then "" else " ") + tail, depth);
              if r.Err? then Err(r.error)
              else
                var t := SkipWhite(r.value.1);
                var fields := Put(acc, Field(key, r.value.0));
                if t != "" && t[0] == ',' then ReadFields(t[1..], depth, fields)
                else if t != "" && t[0] == '}' then Ok((Object(fields), t[1..]))
                else Err(ExpectedCommaOrBrace)
  {
    hide ReadString, ReadValue, QuotedText, Put;
    var after := AfterKey(l) + tail;
    SkipsWhite(white, QuotedText(key) + after);
    QuoteFirst(key, after);
    StringBack(key, after);
    assert after[0] == ':' && SkipWhite(after) == after;
    assert after[1..] == (if l.Compact? then "" else " ") + tail;
    hide SkipWhite;
  }

  lemma {:induction false} FieldsBack(fields: seq<Field>, l: Layout, closing: string, white: string, rest: string,
          depth: nat, acc: seq<Field>)
    requires fields != [] && AllWhite(white) && AllWhite(closing) && depth <= MAX_DEPTH
    ensures var value := AfterKey(l)
            + (Printed(fields[0].value, l) + (FieldsMore(fields, l) + (closing + ("}" + rest))));
            ReadFields(white + (QuotedText(fields[0].key) + value), depth, acc) ==
            if depth + FieldsDepth(fields) <= MAX_DEPTH then Ok((Object(PutAll(acc, NormalFields(fields))), rest))
            else Err(TooDeep)
    decreases fields, 0
  {
    hide *;
    var f, close := fields[0], closing + ("}" + rest);
    var after := FieldsMore(fields, l) + close;
    var gap := if l.Compact? then "" else " ";
    GapIsWhite();
    FieldStep(f.key, l, white, Printed(f.value, l) + after, depth, acc);
    var put := Put(acc, Field(f.key, Normal(f.value)));
    AllPut(acc, fields);
    ClosesWith(closing, '}', rest);
    FieldsParts(fields, l);
    if |fields| == 1 {
      assert after == close;
      ValueBack(f.value, l, gap, after, depth);
      assert ("}" + rest)[1..] == rest;
    } else {
      var next := FieldsText(fields[1..], l) + close;
      Comma(FieldsText(fields[1..], l), close);
      CommaFirst(next);
      ValueBack(f.value, l, gap, after, depth);
      NextField(fields[1..], l, close);
      FieldsBack(fields[1..], l, closing, NewLine(l), rest, depth, put);
    }
  }

  lemma AllPut(acc: seq<Field>, fields: seq<Field>)
    requires fields != []
    ensures var put := Put(acc, Field(fields[0].key, Normal(fields[0].value)));
            && PutAll(acc, NormalFields(fields)) == PutAll(put, NormalFields(fields[1..]))
            && (|fields| == 1 ==> PutAll(acc, NormalFields(fields)) == put)
  {
    hide Put, Normal;
    var all := NormalFields(fields);
    assert all[1..] == NormalFields(fields[1..]);
  }

  lemma GapIsWhite()
    ensures AllWhite("") && AllWhite(" ")
  {
  }

  lemma FieldsParts(fields: seq<Field>, l: Layout)
    requires fields != []
    ensures |fields| == 1 ==> FieldsMore(fields, l) == "" && FieldsDepth(fields) == Depth(fields[0].value)
    ensures |fields| > 1 ==> FieldsMore(fields, l) == "," + FieldsText(fields[1..], l)
    ensures var first, others := Depth(fields[0].value), FieldsDepth(fields[1..]);
            FieldsDepth(fields) == if first > others then first else others
  {
    hide Depth, FieldsText;
    if |fields| == 1 {
      NoDepth();
      assert fields[1..] == [];
    }
  }

  lemma NextField(fields: seq<Field>, l: Layout, close: string)
    requires fields != []
    ensures FieldsText(fields, l) + close ==
      NewLine(l) + (QuotedText(fields[0].key)
        + (AfterKey(l) + (Printed(fields[0].value, l) + (FieldsMore(fields, l) + close))))
  {
    hide FieldsText, NewLine, QuotedText, AfterKey, Printed, FieldsMore;
    FieldsSplit(fields, l);
    var a, b, c, d, e := NewLine(l), QuotedText(fields[0].key), AfterKey(l), Printed(fields[0].value, l),
      FieldsMore(fields, l);
    assert (a + (b + (c + (d + e)))) + close == a + (b + (c + (d + (e + close))));
  }

  lemma AppendedLast(acc: seq<Field>, fields: seq<Field>)
    requires fields != [] && Sorted(acc + fields)
    ensures forall v: Json :: Put(acc, Field(fields[0].key, v)) == acc + [Field(fields[0].key, v)]
  {
    var all, n := acc + fields, |acc|;
    forall v: Json ensures Put(acc, Field(fields[0].key, v)) == acc + [Field(fields[0].key, v)] {
      forall i | 0 <= i < |acc| ensures KeyLess(acc[i].key, fields[0].key) {
        assert all[i] == acc[i] && all[n] == fields[0];
      }
      PutLast(acc, Field(fields[0].key, v));
    }
  }

  /** The text of any value, compact or pretty and its objects' fields in any order and with repeated
      keys, is read as what it means, unless it is nested too deep. */
  lemma AnyOrderIsRead(j: Json, l: Layout)
    ensures Document(Printed(j, l)) == if Depth(j) <= MAX_DEPTH then Ok(Normal(j)) else Err(TooDeep)
  {
    hide ReadValue, Printed, Depth, Normal;
    assert Printed(j, l) + "" == Printed(j, l) && "" + (Printed(j, l) + "") == Printed(j, l);
    PrintedStarts(j, l, "");
    ValueBack(j, l, "", "", 0);
  }

  /** Of an object's fields that is the sorted object with each listed key's last value and no other
      key. */
  lemma FieldsAreRead(fields: seq<Field>, l: Layout, k: string)
    requires Depth(Object(fields)) <= MAX_DEPTH
    ensures var r := Document(Printed(Object(fields), l));
            r.Ok? && r.value.Object? && Sorted(r.value.fields)
            && Get(r.value.fields, k) == LastOf(NormalFields(fields), k)
  {
    hide Printed, Depth, NormalFields, PutAll;
    AnyOrderIsRead(Object(fields), l);
    PutAllGets([], NormalFields(fields), k);
  }

  /** A document, compact or pretty, is read back exactly when it is not nested deeper than
      the parser goes; a deeper one is refused as such. */
  lemma PrintedIsRead(j: Json, l: Layout)
    requires Proper(j)
    ensures Document(Printed(j, l)) == if Depth(j) <= MAX_DEPTH then Ok(j) else Err(TooDeep)
    ensures Document(Printed(j, l)) == Ok(j) <==> Depth(j) <= MAX_DEPTH
  {
    hide Document, Printed, Depth, Proper, Normal;
    AnyOrderIsRead(j, l);
    ProperIsNormal(j);
  }

  /** An empty array in `n` others. */
  function Nested(n: nat): (j: Json)
    ensures Proper(j) && Depth(j) == n + 1
  {
    if n == 0 then Array([])
    else
      var inner := Nested(n - 1);
      assert ItemsDepth([inner]) == Depth(inner) by { assert [inner][1..] == []; }
      Array([inner])
  }

  /** 129 arrays inside one another are printed, but not read back. */
  lemma DeepCounterexample(l: Layout)
    ensures Document(Printed(Nested(128), l)) == Err(TooDeep) && Document(Printed(Nested(127), l)) == Ok(Nested(127))
  {
    PrintedIsRead(Nested(128), l);
    PrintedIsRead(Nested(127), l);
  }
}
