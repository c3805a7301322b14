/** The grammar of JSON text (sections 2 to 7 of RFC 8259) as trees of its tokens: white space in any
    place, strings of any escapes, fields in any order. What the parser accepts is exactly the text of
    such trees, nested at most 128 deep, and it returns what the tree means. Numbers are digits behind
    an optional sign, and may begin with zeros, which the parser allows. */
module JsonGrammar {
  import opened Options
  import opened JsonText

  // ----- tokens ------------------------------------------------------------------------------

  const SPACES: string := [0x20 as char, 0x09 as char, 0x0A as char, 0x0D as char]
  const DIGITS: string := "0123456789"
  const LOWER: string := "0123456789abcdef"
  const UPPER: string := "0123456789ABCDEF"

  /** The letters after a backslash, and what they stand for. */
  const LETTERS: string := "\"\\/bfnrt"
  const MEANT: string := ['\"', '\\', '/', 8 as char, 12 as char, 10 as char, 13 as char, 9 as char]

  predicate Gap(s: string)
  {
    forall i :: 0 <= i < |s| ==> s[i] in SPACES
  }

  function PlaceOf(c: char, s: string): (i: nat)
    ensures i <= |s| && (i < |s| ==> s[i] == c) && (i == |s| ==> c !in s)
  {
    if s == "" || s[0] == c then 0 else 1 + PlaceOf(c, s[1..])
  }

  predicate Hex(c: char) { c in LOWER || c in UPPER }

  function HexPlace(c: char): nat
  {
    if c in LOWER then PlaceOf(c, LOWER) else PlaceOf(c, UPPER)
  }

  predicate Quad(s: string)
  {
    |s| == 4 && Hex(s[0]) && Hex(s[1]) && Hex(s[2]) && Hex(s[3])
  }

  function QuadValue(s: string): nat
    requires |s| == 4
  {
    4096 * HexPlace(s[0]) + 256 * HexPlace(s[1]) + 16 * HexPlace(s[2]) + HexPlace(s[3])
  }

  /** One character of a string: itself, a letter behind a backslash, or one or two code units. */
  datatype Piece = Plain(c: char) | Short(c: char) | Unit(quad: string) | Pair(high: string, low: string)

  predicate GoodPiece(p: Piece)
  {
    match p
    case Plain(c) => c as int >= 0x20 && c != '\"' && c != '\\'
    case Short(c) => c in LETTERS
    case Unit(quad) => Quad(quad) && !(0xD800 <= QuadValue(quad) < 0xDC00)
    case Pair(high, low) =>
      Quad(high) && Quad(low) && 0xD800 <= QuadValue(high) < 0xDC00 && 0xDC00 <= QuadValue(low) < 0xE000
  }

  function PieceText(p: Piece): string
  {
    match p
    case Plain(c) => [c]
    case Short(c) => ['\\', c]
    case Unit(quad) => "\\u" + quad
    case Pair(high, low) => "\\u" + (high + ("\\u" + low))
  }

  /** A lone low surrogate is no character and is replaced. */
  function PieceChar(p: Piece): char
    requires GoodPiece(p)
  {
    match p
    case Plain(c) => c
    case Short(c) => MEANT[PlaceOf(c, LETTERS)]
    case Unit(quad) =>
      var n := QuadValue(quad);
      if 0xDC00 <= n < 0xE000 || n >= 0x110000 then 0xFFFD as char else n as char
    case Pair(high, low) =>
      var h, l := QuadValue(high) - 0xD800, QuadValue(low) - 0xDC00;
      (0x10000 + 0x400 * h + l) as char
  }

  predicate GoodPieces(ps: seq<Piece>)
  {
    forall i :: 0 <= i < |ps| ==> GoodPiece(ps[i])
  }

  function PiecesText(ps: seq<Piece>): string
  {
    if ps == [] then "" else PieceText(ps[0]) + PiecesText(ps[1..])
  }

  function PiecesChars(ps: seq<Piece>): (r: string)
    requires GoodPieces(ps)
    ensures |r| == |ps|
  {
    if ps == [] then "" else [PieceChar(ps[0])] + PiecesChars(ps[1..])
  }

  function Quoted(ps: seq<Piece>): string { "\"" + (PiecesText(ps) + "\"") }

  predicate Digits(s: string)
  {
    forall i :: 0 <= i < |s| ==> s[i] in DIGITS
  }

  /** The number that decimal digits stand for. */
  function DigitsNumber(s: string): int
  {
    if s == "" then 0 else 10 * DigitsNumber(s[..|s| - 1]) + PlaceOf(s[|s| - 1], DIGITS)
  }

  // ----- trees -------------------------------------------------------------------------------

  datatype Tree =
    | NullWord
    | TrueWord
    | FalseWord
    | Num(negative: bool, digits: string)
    | Str(pieces: seq<Piece>)
    | Arr(gap: string, items: seq<Item>)
    | Obj(gap: string, members: seq<Member>)

  /** An item with the white space around it. */
  datatype Item = Item(before: string, value: Tree, after: string)

  datatype Member = Member(before: string, key: seq<Piece>, colon: string, gap: string, value: Tree, after: string)

  /** An empty array or object may hold white space. */
  ghost predicate Good(t: Tree)
    decreases t
  {
    match t
    case Num(_, digits) => digits != "" && Digits(digits)
    case Str(pieces) => GoodPieces(pieces)
    case Arr(gap, items) =>
      && Gap(gap) && (items != [] ==> gap == "")
      && forall i :: 0 <= i < |items| ==> Gap(items[i].before) && Gap(items[i].after) && Good(items[i].value)
    case Obj(gap, members) =>
      && Gap(gap) && (members != [] ==> gap == "")
      && forall i :: 0 <= i < |members| ==>
           && Gap(members[i].before) && GoodPieces(members[i].key) && Gap(members[i].colon) && Gap(members[i].gap)
           && Good(members[i].value) && Gap(members[i].after)
    case _ => true
  }

  function TextOf(t: Tree): string
    decreases t, 1
  {
    match t
    case NullWord => "null"
    case TrueWord => "true"
    case FalseWord => "false"
    case Num(negative, digits) => if negative then "-" + digits else digits
    case Str(pieces) => Quoted(pieces)
    case Arr(gap, items) => "[" + (if items == [] then gap + "]" else ItemsOf(items))
    case Obj(gap, members) => "{" + (if members == [] then gap + "}" else MembersOf(members))
  }

  /** The items with commas between them, and the closing bracket. */
  function ItemsOf(items: seq<Item>): string
    decreases items, 0
  {
    if items == [] then ""
    else
      var m := items[0];
      m.before + (TextOf(m.value) + (m.after + if |items| == 1 then "]" else "," + ItemsOf(items[1..])))
  }

  function MembersOf(members: seq<Member>): string
    decreases members, 0
  {
    if members == [] then ""
    else
      var m := members[0];
      m.before + (Quoted(m.key) + (m.colon + (":" + (m.gap + (TextOf(m.value)
        + (m.after + if |members| == 1 then "}" else "," + MembersOf(members[1..])))))))
  }

  /** What a tree means: an object gives each of its keys the last value. */
  ghost function Meaning(t: Tree): Json
    requires Good(t)
    decreases t, 1
  {
    match t
    case NullWord => Null
    case TrueWord => Bool(true)
    case FalseWord => Bool(false)
    case Num(negative, digits) => Number(if negative then -DigitsNumber(digits) else DigitsNumber(digits))
    case Str(pieces) => Text(PiecesChars(pieces))
    case Arr(_, items) => Array(ItemMeanings(items))
    case Obj(_, members) => Object(PutAll([], MemberMeanings(members)))
  }

  ghost function ItemMeanings(items: seq<Item>): seq<Json>
    requires forall i :: 0 <= i < |items| ==> Good(items[i].value)
    decreases items, 0
  {
    if items == [] then [] else [Meaning(items[0].value)] + ItemMeanings(items[1..])
  }

  ghost function MemberMeanings(members: seq<Member>): seq<Field>
    requires forall i :: 0 <= i < |members| ==> Good(members[i].value) && GoodPieces(members[i].key)
    decreases members, 0
  {
    if members == [] then []
    else [Field(PiecesChars(members[0].key), Meaning(members[0].value))] + MemberMeanings(members[1..])
  }

  function Height(t: Tree): nat
    decreases t, 1
  {
    match t
    case Arr(_, items) => 1 + ItemsHeight(items)
    case Obj(_, members) => 1 + MembersHeight(members)
    case _ => 0
  }

  function ItemsHeight(items: seq<Item>): nat
    decreases items, 0
  {
    if items == [] then 0
    else var a, b := Height(items[0].value), ItemsHeight(items[1..]); if a > b then a else b
  }

  function MembersHeight(members: seq<Member>): nat
    decreases members, 0
  {
    if members == [] then 0
    else var a, b := Height(members[0].value), MembersHeight(members[1..]); if a > b then a else b
  }

  // ----- tokens are read as what they stand for ----------------------------------------------

  lemma {:induction false} PlaceIs(s: string, i: nat)
    requires i < |s| && forall j :: 0 <= j < i ==> s[j] != s[i]
    ensures PlaceOf(s[i], s) == i
  {
    if i > 0 {
      assert s[1..][i - 1] == s[i];
      forall j | 0 <= j < i - 1
        ensures s[1..][j] != s[1..][i - 1]
      {
        assert s[1..][j] == s[j + 1];
      }
      PlaceIs(s[1..], i - 1);
    }
  }

  lemma WhiteIs(c: char)
    ensures White(c) <==> c in SPACES
  {
    assert SPACES[0] == ' ' && SPACES[1] == '\t' && SPACES[2] == '\n' && SPACES[3] == '\r';
  }

  lemma GapIs(s: string)
    ensures Gap(s) <==> AllWhite(s)
  {
    forall i | 0 <= i < |s|
      ensures White(s[i]) <==> s[i] in SPACES
    {
      WhiteIs(s[i]);
    }
  }

  lemma LowerAt(k: nat)
    requires k < 16
    ensures LOWER[k] as int == if k < 10 then 48 + k else 87 + k
    ensures UPPER[k] as int == if k < 10 then 48 + k else 55 + k
  {
    assert LOWER[0] == '0' && LOWER[1] == '1' && LOWER[2] == '2' && LOWER[3] == '3' && LOWER[4] == '4';
    assert LOWER[5] == '5' && LOWER[6] == '6' && LOWER[7] == '7' && LOWER[8] == '8' && LOWER[9] == '9';
    assert LOWER[10] == 'a' && LOWER[11] == 'b' && LOWER[12] == 'c' && LOWER[13] == 'd' && LOWER[14] == 'e';
    assert UPPER[0] == '0' && UPPER[1] == '1' && UPPER[2] == '2' && UPPER[3] == '3' && UPPER[4] == '4';
    assert UPPER[5] == '5' && UPPER[6] == '6' && UPPER[7] == '7' && UPPER[8] == '8' && UPPER[9] == '9';
    assert UPPER[10] == 'A' && UPPER[11] == 'B' && UPPER[12] == 'C' && UPPER[13] == 'D' && UPPER[14] == 'E';
  }

  lemma DigitAt(k: nat)
    requires k < 10
    ensures DIGITS[k] as int == 48 + k && DIGITS == LOWER[..10]
  {
    LowerAt(k);
    assert DIGITS == LOWER[..10];
  }

  lemma LowerIs(c: char)
    ensures c in LOWER <==> '0' <= c <= '9' || 'a' <= c <= 'f'
    ensures c in LOWER ==> PlaceOf(c, LOWER) == if c <= '9' then c as int - 48 else c as int - 87
  {
    forall k | 0 <= k < 16
      ensures LOWER[k] as int == if k < 10 then 48 + k else 87 + k
    {
      LowerAt(k);
    }
    if '0' <= c <= '9' || 'a' <= c <= 'f' {
      var k := if c <= '9' then c as int - 48 else c as int - 87;
      assert LOWER[k] == c;
      PlaceIs(LOWER, k);
    }
  }

  lemma UpperIs(c: char)
    ensures c in UPPER <==> '0' <= c <= '9' || 'A' <= c <= 'F'
    ensures c in UPPER ==> PlaceOf(c, UPPER) == if c <= '9' then c as int - 48 else c as int - 55
  {
    forall k | 0 <= k < 16
      ensures UPPER[k] as int == if k < 10 then 48 + k else 55 + k
    {
      LowerAt(k);
    }
    if '0' <= c <= '9' || 'A' <= c <= 'F' {
      var k := if c <= '9' then c as int - 48 else c as int - 55;
      assert UPPER[k] == c;
      PlaceIs(UPPER, k);
    }
  }

  lemma HexIs(c: char)
    ensures HexValue(c) == if Hex(c) then Some(HexPlace(c)) else None
  {
    hide PlaceOf;
    LowerIs(c);
    UpperIs(c);
  }

  lemma DigitIs(c: char)
    ensures IsDigit(c) <==> c in DIGITS
    ensures IsDigit(c) ==> PlaceOf(c, DIGITS) == c as int - '0' as int
  {
    forall k | 0 <= k < 10
      ensures DIGITS[k] as int == 48 + k
    {
      DigitAt(k);
    }
    if IsDigit(c) {
      assert DIGITS[c as int - 48] == c;
      PlaceIs(DIGITS, c as int - 48);
    }
  }

  lemma {:induction false} DigitsAre(s: string)
    ensures Digits(s) <==> forall i :: 0 <= i < |s| ==> IsDigit(s[i])
    ensures Digits(s) ==> DigitsNumber(s) == DigitsValue(s)
  {
    forall i | 0 <= i < |s|
      ensures IsDigit(s[i]) <==> s[i] in DIGITS
    {
      DigitIs(s[i]);
    }
    if s != "" {
      DigitsAre(s[..|s| - 1]);
      DigitIs(s[|s| - 1]);
    }
  }

  /** Four hexadecimal digits, and nothing else, are read as their number. */
  lemma QuadRead(text: string)
    ensures ReadHex4(text).Ok? <==> |text| >= 4 && Quad(text[..4])
    ensures ReadHex4(text).Ok? ==> ReadHex4(text) == Ok((QuadValue(text[..4]), text[4..]))
  {
    hide HexValue, Hex, HexPlace;
    if |text| > 0 { HexIs(text[0]); }
    if |text| > 1 { HexIs(text[1]); }
    if |text| > 2 { HexIs(text[2]); }
    if |text| > 3 { HexIs(text[3]); }
    HexSteps(text);
  }

  lemma HexSteps(text: string)
    ensures ReadHex4(text) ==
      if |text| < 1 then Err(TruncatedUnicode) else if HexValue(text[0]).None? then Err(InvalidHexDigit)
      else if |text| < 2 then Err(TruncatedUnicode) else if HexValue(text[1]).None? then Err(InvalidHexDigit)
      else if |text| < 3 then Err(TruncatedUnicode) else if HexValue(text[2]).None? then Err(InvalidHexDigit)
      else if |text| < 4 then Err(TruncatedUnicode) else if HexValue(text[3]).None? then Err(InvalidHexDigit)
      else Ok((4096 * HexValue(text[0]).value + 256 * HexValue(text[1]).value + 16 * HexValue(text[2]).value
               + HexValue(text[3]).value, text[4..]))
  {
    hide HexValue;
    if |text| >= 1 {
      var t1 := text[1..];
      if |text| >= 2 {
        var t2 := t1[1..];
        assert t1[0] == text[1];
        if |text| >= 3 {
          var t3 := t2[1..];
          assert t2[0] == text[2];
          if |text| >= 4 {
            assert t3[0] == text[3] && t3[1..] == text[4..];
          }
        }
      }
    }
  }

  lemma LettersAre()
    ensures LETTERS == ['\"', '\\', '/', 'b', 'f', 'n', 'r', 't']
    ensures MEANT == ['\"', '\\', '/', BACKSPACE, FORM_FEED, '\n', '\r', '\t']
  {
    assert MEANT[3] == BACKSPACE && MEANT[4] == FORM_FEED && MEANT[5] == '\n' && MEANT[6] == '\r' && MEANT[7] == '\t';
  }

  lemma LetterMeans(c: char)
    requires c in LETTERS
    ensures c in {'\"', '\\', '/', 'b', 'f', 'n', 'r', 't'}
    ensures MEANT[PlaceOf(c, LETTERS)]
         == if c == 'b' then BACKSPACE else if c == 'f' then FORM_FEED else if c == 'n' then '\n'
            else if c == 'r' then '\r' else if c == 't' then '\t' else c
  {
    hide PlaceOf;
    LettersAre();
    var k :| 0 <= k < 8 && LETTERS[k] == c;
    PlaceIs(LETTERS, k);
  }

  /** A letter behind a backslash. */
  lemma LetterRead(c: char, rest: string)
    ensures c in LETTERS ==> ReadEscape([c] + rest) == Ok((MEANT[PlaceOf(c, LETTERS)], rest))
    ensures c !in LETTERS && c != 'u' ==> ReadEscape([c] + rest) == Err(InvalidEscape)
  {
    hide PlaceOf, ReadUnicode;
    assert ([c] + rest)[1..] == rest;
    if c in LETTERS {
      LetterMeans(c);
    } else {
      LettersAll(c);
    }
  }

  lemma LettersAll(c: char)
    requires c !in LETTERS
    ensures c !in {'\"', '\\', '/', 'b', 'f', 'n', 'r', 't'}
  {
    assert LETTERS[0] == '\"' && LETTERS[1] == '\\' && LETTERS[2] == '/' && LETTERS[3] == 'b';
    assert LETTERS[4] == 'f' && LETTERS[5] == 'n' && LETTERS[6] == 'r' && LETTERS[7] == 't';
  }

  lemma UnitRead(quad: string, rest: string)
    requires GoodPiece(Unit(quad))
    ensures ReadUnicode(quad + rest) == Ok((PieceChar(Unit(quad)), rest))
  {
    hide ReadHex4, Hex, HexPlace;
    QuadRead(quad + rest);
    assert (quad + rest)[..4] == quad && (quad + rest)[4..] == rest;
  }

  lemma PairRead(high: string, low: string, rest: string)
    requires GoodPiece(Pair(high, low))
    ensures ReadUnicode(high + ("\\u" + low) + rest) == Ok((PieceChar(Pair(high, low)), rest))
  {
    hide ReadHex4, Hex, HexPlace;
    var text, after := high + ("\\u" + low) + rest, "\\u" + (low + rest);
    assert text[..4] == high && text[4..] == after;
    QuadRead(text);
    assert after[2..] == low + rest;
    QuadRead(low + rest);
    assert (low + rest)[..4] == low && (low + rest)[4..] == rest;
  }

  lemma EscapeFirst(rest: string, acc: string)
    ensures var r := ReadEscape(rest);
            ReadChars("\\" + rest, acc) == if r.Err? then Err(r.error) else ReadChars(r.value.1, acc + [r.value.0])
  {
    hide ReadEscape;
    assert ("\\" + rest)[1..] == rest;
  }

  /** A piece of a string is read as its character. */
  lemma PieceRead(p: Piece, rest: string, acc: string)
    requires GoodPiece(p)
    ensures ReadChars(PieceText(p) + rest, acc) == ReadChars(rest, acc + [PieceChar(p)])
  {
    match p
    case Plain(c) => PlainRead(c, rest, acc);
    case Short(c) => ShortPiece(c, rest, acc);
    case Unit(quad) => UnitPiece(quad, rest, acc);
    case Pair(high, low) => PairPiece(high, low, rest, acc);
  }

  lemma ShortPiece(c: char, rest: string, acc: string)
    requires c in LETTERS
    ensures ReadChars(PieceText(Short(c)) + rest, acc) == ReadChars(rest, acc + [PieceChar(Short(c))])
  {
    hide ReadEscape, ReadChars;
    PieceMeans(Short(c));
    hide PieceChar;
    assert PieceText(Short(c)) + rest == "\\" + ([c] + rest);
    EscapeFirst([c] + rest, acc);
    LetterRead(c, rest);
  }

  lemma UnitPiece(quad: string, rest: string, acc: string)
    requires GoodPiece(Unit(quad))
    ensures ReadChars(PieceText(Unit(quad)) + rest, acc) == ReadChars(rest, acc + [PieceChar(Unit(quad))])
  {
    hide ReadEscape, ReadUnicode, ReadChars, PieceChar, GoodPiece;
    assert PieceText(Unit(quad)) + rest == "\\" + ("u" + (quad + rest));
    EscapeFirst("u" + (quad + rest), acc);
    CodeFirst(quad + rest);
    UnitRead(quad, rest);
  }

  lemma PairPiece(high: string, low: string, rest: string, acc: string)
    requires GoodPiece(Pair(high, low))
    ensures ReadChars(PieceText(Pair(high, low)) + rest, acc) == ReadChars(rest, acc + [PieceChar(Pair(high, low))])
  {
    hide ReadEscape, ReadUnicode, ReadChars, PieceChar, GoodPiece;
    var more := high + ("\\u" + low) + rest;
    assert PieceText(Pair(high, low)) + rest == "\\" + ("u" + more);
    EscapeFirst("u" + more, acc);
    CodeFirst(more);
    PairRead(high, low, rest);
  }

  lemma PieceMeans(p: Piece)
    requires GoodPiece(p)
    ensures p.Plain? ==> PieceChar(p) == p.c
    ensures p.Short? ==> p.c in LETTERS && PieceChar(p) == MEANT[PlaceOf(p.c, LETTERS)]
  {
  }

  lemma PlainRead(c: char, rest: string, acc: string)
    requires c as int >= 0x20 && c != '\"' && c != '\\'
    ensures ReadChars([c] + rest, acc) == ReadChars(rest, acc + [c])
  {
    assert ([c] + rest)[1..] == rest;
  }

  lemma CodeFirst(rest: string)
    ensures ReadEscape("u" + rest) == ReadUnicode(rest)
  {
    hide ReadUnicode;
    assert ("u" + rest)[1..] == rest;
  }

  lemma {:induction false} PiecesRead(ps: seq<Piece>, rest: string, acc: string)
    requires GoodPieces(ps)
    ensures ReadChars(PiecesText(ps) + ("\"" + rest), acc) == Ok((acc + PiecesChars(ps), rest))
    decreases |ps|
  {
    hide *;
    PiecesTaken(ps);
    if ps == [] {
      QuoteEnds(rest, acc);
      assert PiecesText(ps) + ("\"" + rest) == "\"" + rest && acc + PiecesChars(ps) == acc;
    } else {
      var more := PiecesText(ps[1..]) + ("\"" + rest);
      assert PiecesText(ps) + ("\"" + rest) == PieceText(ps[0]) + more;
      PieceRead(ps[0], more, acc);
      PiecesRead(ps[1..], rest, acc + [PieceChar(ps[0])]);
      assert acc + [PieceChar(ps[0])] + PiecesChars(ps[1..]) == acc + PiecesChars(ps);
    }
  }

  lemma PiecesTaken(ps: seq<Piece>)
    requires GoodPieces(ps)
    ensures ps == [] ==> PiecesText(ps) == "" == PiecesChars(ps)
    ensures ps != [] ==>
              && GoodPiece(ps[0]) && GoodPieces(ps[1..]) && PiecesText(ps) == PieceText(ps[0]) + PiecesText(ps[1..])
              && PiecesChars(ps) == [PieceChar(ps[0])] + PiecesChars(ps[1..])
  {
    hide PieceText, PieceChar, GoodPiece;
  }

  lemma QuotedRead(ps: seq<Piece>, rest: string)
    requires GoodPieces(ps)
    ensures ReadString(Quoted(ps) + rest) == Ok((PiecesChars(ps), rest))
    ensures Quoted(ps) + rest != "" && (Quoted(ps) + rest)[0] == '\"'
  {
    hide ReadChars, PiecesText, PiecesChars;
    var text := Quoted(ps) + rest;
    assert text[1..] == PiecesText(ps) + ("\"" + rest);
    PiecesRead(ps, rest, "");
    assert "" + PiecesChars(ps) == PiecesChars(ps);
  }

  lemma NumRead(negative: bool, digits: string, rest: string)
    requires digits != "" && Digits(digits) && AfterNumber(rest)
    ensures var text := TextOf(Num(negative, digits)) + rest;
            && text != "" && (IsDigit(text[0]) || text[0] == '-')
            && ReadNumber(text) == Ok((if negative then -DigitsNumber(digits) else DigitsNumber(digits), rest))
  {
    hide ReadNumber, DigitsNumber, DigitsValue;
    var text := TextOf(Num(negative, digits)) + rest;
    DigitsAre(digits);
    assert text[if negative then 1 else 0..] == digits + rest;
    NumberIs(text, negative, digits, rest);
  }

  // ----- trees are read as what they mean ----------------------------------------------------

  /** A value does not start with white space or a closing bracket. */
  lemma TreeStarts(t: Tree, rest: string)
    requires Good(t)
    ensures var text := TextOf(t) + rest;
            && text != "" && !White(text[0]) && text[0] != ']' && text[0] != '}'
            && (t.Arr? <==> text[0] == '[') && (t.Obj? <==> text[0] == '{')
  {
    if t.Num? {
      DigitsAre(t.digits);
    }
  }

  lemma SkipGap(gap: string, rest: string)
    requires Gap(gap) && (rest == "" || !White(rest[0]))
    ensures SkipWhite(gap + rest) == rest
  {
    GapIs(gap);
    SkipsWhite(gap, rest);
  }

  lemma GapFollows(gap: string, c: char, rest: string)
    requires Gap(gap) && (c == ',' || c == ']' || c == '}')
    ensures AfterValue(gap + ([c] + rest)) && SkipWhite(gap + ([c] + rest)) == [c] + rest
  {
    GapIs(gap);
    SkipGap(gap, [c] + rest);
  }

  /** The text of a tree is read as what the tree means, unless it is nested too deep. */
  lemma {:induction false} TreeRead(t: Tree, gap: string, rest: string, depth: nat)
    requires Good(t) && Gap(gap) && AfterValue(rest) && depth <= MAX_DEPTH
    ensures ReadValue(gap + (TextOf(t) + rest), depth)
         == if depth + Height(t) <= MAX_DEPTH then Ok((Meaning(t), rest)) else Err(TooDeep)
    decreases t, 2
  {
    hide ReadValue, ReadString, ReadNumber, SkipWhite, Quoted, PiecesChars, DigitsNumber, Gap;
    TreeStarts(t, rest);
    SkipGap(gap, TextOf(t) + rest);
    ValueIs(gap + (TextOf(t) + rest), TextOf(t) + rest, depth);
    match t
    case NullWord => assert (TextOf(t) + rest)[4..] == rest;
    case TrueWord => assert (TextOf(t) + rest)[4..] == rest;
    case FalseWord => assert (TextOf(t) + rest)[5..] == rest;
    case Num(negative, digits) => NumRead(negative, digits, rest);
    case Str(pieces) => QuotedRead(pieces, rest);
    case Arr(_, _) => ArrRead(t, gap, rest, depth);
    case Obj(_, _) => ObjRead(t, gap, rest, depth);
  }

  /** What a value is, by its first character. */
  lemma ValueIs(text: string, t: string, depth: nat)
    requires SkipWhite(text) == t != ""
    ensures var r, c := ReadValue(text, depth), t[0];
            && (c == '\"' ==> var s := ReadString(t);
                  r == if s.Err? then Err(s.error) else Ok((Text(s.value.0), s.value.1)))
            && ("true" <= t ==> r == Ok((Bool(true), t[4..]))) && ("false" <= t ==> r == Ok((Bool(false), t[5..])))
            && ("null" <= t ==> r == Ok((Null, t[4..])))
            && (c == '-' || IsDigit(c) ==> var n := ReadNumber(t);
                  r == if n.Err? then Err(n.error) else Ok((Number(n.value.0), n.value.1)))
  {
    hide SkipWhite, ReadString, ReadNumber, ReadFields, ReadItems;
    assert "true"[0] == 't' && "false"[0] == 'f' && "null"[0] == 'n';
  }

  lemma {:induction false} ArrRead(t: Tree, gap: string, rest: string, depth: nat)
    requires Good(t) && t.Arr? && depth <= MAX_DEPTH
    requires SkipWhite(gap + (TextOf(t) + rest)) == TextOf(t) + rest
    ensures ReadValue(gap + (TextOf(t) + rest), depth)
         == if depth + Height(t) <= MAX_DEPTH then Ok((Meaning(t), rest)) else Err(TooDeep)
    decreases t, 1
  {
    hide ReadValue, ReadItems, SkipWhite, ItemsOf, Gap, ItemsHeight, ItemMeanings;
    var items, text := t.items, TextOf(t) + rest;
    var inside := (if items == [] then t.gap + "]" else ItemsOf(items)) + rest;
    assert text == "[" + inside && text[0] == '[' && text[1..] == inside;
    Brackets(gap + text, inside, depth);
    if items == [] {
      assert inside == t.gap + ("]" + rest) && ("]" + rest)[1..] == rest;
      SkipGap(t.gap, "]" + rest);
      NoItems();
    } else {
      ItemsStart(items, rest);
      if depth + 1 <= MAX_DEPTH {
        ItemsSkip(inside, depth + 1, []);
        ItemsRead(items, rest, depth + 1, []);
        assert [] + ItemMeanings(items) == ItemMeanings(items);
      }
    }
  }

  lemma NoItems()
    ensures ItemsHeight([]) == 0 && ItemMeanings([]) == [] && MembersHeight([]) == 0 && MemberMeanings([]) == []
  {
  }

  lemma ItemsSkip(text: string, depth: nat, acc: seq<Json>)
    ensures ReadItems(SkipWhite(text), depth, acc) == ReadItems(text, depth, acc)
  {
    hide ReadValue, SkipWhite;
    SkipAgain(text, depth);
    ItemStep(text, depth, acc);
    ItemStep(SkipWhite(text), depth, acc);
  }

  /** What is left after the first item. */
  function ItemsTail(items: seq<Item>): string
    requires items != []
  {
    if |items| == 1 then "]" else "," + ItemsOf(items[1..])
  }

  lemma ItemsParts(items: seq<Item>, rest: string)
    requires items != []
    ensures ItemsOf(items) + rest
         == items[0].before + (TextOf(items[0].value) + (items[0].after + (ItemsTail(items) + rest)))
  {
    hide TextOf;
    var a, b, c, d := items[0].before, TextOf(items[0].value), items[0].after, ItemsTail(items);
    assert ItemsOf(items) == a + (b + (c + d));
    Regrouped(a, b, c, d, rest);
  }

  lemma Regrouped(a: string, b: string, c: string, d: string, rest: string)
    ensures (a + (b + (c + d))) + rest == a + (b + (c + (d + rest)))
  {
  }

  lemma ItemsStart(items: seq<Item>, rest: string)
    requires items != [] && Gap(items[0].before) && Good(items[0].value)
    ensures var u := SkipWhite(ItemsOf(items) + rest); u != "" && u[0] != ']'
  {
    hide SkipWhite, TextOf, ItemsOf;
    ItemsParts(items, rest);
    var m, more := items[0], items[0].after + (ItemsTail(items) + rest);
    TreeStarts(m.value, more);
    SkipGap(m.before, TextOf(m.value) + more);
  }

  lemma {:induction false} ItemsRead(items: seq<Item>, rest: string, depth: nat, acc: seq<Json>)
    requires items != [] && depth <= MAX_DEPTH
    requires forall i :: 0 <= i < |items| ==> Gap(items[i].before) && Gap(items[i].after) && Good(items[i].value)
    ensures ReadItems(ItemsOf(items) + rest, depth, acc)
         == if depth + ItemsHeight(items) <= MAX_DEPTH then Ok((Array(acc + ItemMeanings(items)), rest))
            else Err(TooDeep)
    decreases items, 0
  {
    hide *;
    var m, tail := items[0], ItemsTail(items) + rest;
    ItemsParts(items, rest);
    ItemStep(ItemsOf(items) + rest, depth, acc);
    TailIs(items, rest);
    ItemsMeant(items, acc);
    GapFollows(m.after, tail[0], tail[1..]);
    assert tail == [tail[0]] + tail[1..];
    TreeRead(m.value, m.before, m.after + tail, depth);
    if |items| > 1 {
      ItemsRead(items[1..], rest, depth, acc + [Meaning(m.value)]);
    }
  }

  lemma TailIs(items: seq<Item>, rest: string)
    requires items != []
    ensures var tail := ItemsTail(items) + rest;
            && tail != "" && tail[0] == (if |items| == 1 then ']' else ',')
            && tail[1..] == if |items| == 1 then rest else ItemsOf(items[1..]) + rest
  {
    hide ItemsOf;
  }

  lemma ItemsMeant(items: seq<Item>, acc: seq<Json>)
    requires items != [] && forall i :: 0 <= i < |items| ==> Good(items[i].value)
    ensures var a, b := Height(items[0].value), ItemsHeight(items[1..]);
            ItemsHeight(items) == (if a > b then a else b) && (|items| == 1 ==> b == 0)
    ensures acc + ItemMeanings(items) == acc + [Meaning(items[0].value)] + ItemMeanings(items[1..])
    ensures |items| == 1 ==> acc + ItemMeanings(items) == acc + [Meaning(items[0].value)]
  {
    hide *;
    NoItems();
    ItemsTaken(items);
    var first, more := Meaning(items[0].value), ItemMeanings(items[1..]);
    if |items| == 1 {
      assert items[1..] == [];
    }
    Appended(acc, first, more);
  }

  lemma Appended(acc: seq<Json>, first: Json, more: seq<Json>)
    ensures acc + ([first] + more) == acc + [first] + more
    ensures more == [] ==> acc + ([first] + more) == acc + [first]
  {
  }

  lemma ItemsTaken(items: seq<Item>)
    requires items != [] && forall i :: 0 <= i < |items| ==> Good(items[i].value)
    ensures ItemMeanings(items) == [Meaning(items[0].value)] + ItemMeanings(items[1..])
    ensures var a, b := Height(items[0].value), ItemsHeight(items[1..]); ItemsHeight(items) == if a > b then a else b
  {
    hide Height, Meaning, Good;
  }

  lemma {:induction false} ObjRead(t: Tree, gap: string, rest: string, depth: nat)
    requires Good(t) && t.Obj? && depth <= MAX_DEPTH
    requires SkipWhite(gap + (TextOf(t) + rest)) == TextOf(t) + rest
    ensures ReadValue(gap + (TextOf(t) + rest), depth)
         == if depth + Height(t) <= MAX_DEPTH then Ok((Meaning(t), rest)) else Err(TooDeep)
    decreases t, 1
  {
    hide ReadValue, ReadFields, SkipWhite, MembersOf, Gap, MembersHeight, MemberMeanings, PutAll;
    var members, text := t.members, TextOf(t) + rest;
    var inside := (if members == [] then t.gap + "}" else MembersOf(members)) + rest;
    assert text == "{" + inside && text[0] == '{' && text[1..] == inside;
    Brackets(gap + text, inside, depth);
    if members == [] {
      assert inside == t.gap + ("}" + rest) && ("}" + rest)[1..] == rest;
      SkipGap(t.gap, "}" + rest);
      NoItems();
      NothingPut();
    } else {
      MembersStart(members, rest);
      if depth + 1 <= MAX_DEPTH {
        MembersSkip(inside, depth + 1, []);
        MembersRead(members, rest, depth + 1, []);
      }
    }
  }

  lemma NothingPut()
    ensures PutAll([], []) == []
  {
  }

  lemma MembersSkip(text: string, depth: nat, acc: seq<Field>)
    ensures ReadFields(SkipWhite(text), depth, acc) == ReadFields(text, depth, acc)
  {
    hide ReadValue, ReadString, SkipWhite, Put;
    SkipAgain(text, depth);
    NextStep(text, depth, acc);
    NextStep(SkipWhite(text), depth, acc);
  }

  function MembersTail(members: seq<Member>): string
    requires members != []
  {
    if |members| == 1 then "}" else "," + MembersOf(members[1..])
  }

  /** A member and what follows it. */
  function MemberText(m: Member, rest: string): string
  {
    m.before + (Quoted(m.key) + (m.colon + (":" + (m.gap + (TextOf(m.value) + (m.after + rest))))))
  }

  lemma MembersParts(members: seq<Member>, rest: string)
    requires members != []
    ensures MembersOf(members) + rest == MemberText(members[0], MembersTail(members) + rest)
  {
    hide TextOf, Quoted;
    var m, d := members[0], MembersTail(members);
    assert MembersOf(members) == MemberText(m, d);
    hide MembersOf, MembersTail;
    var inner := TextOf(m.value) + (m.after + d);
    assert inner + rest == TextOf(m.value) + (m.after + (d + rest));
    var value := ":" + (m.gap + inner);
    assert value + rest == ":" + (m.gap + (inner + rest));
    Regrouped(m.before, Quoted(m.key), m.colon, value, rest);
  }

  lemma MembersStart(members: seq<Member>, rest: string)
    requires members != [] && Gap(members[0].before)
    ensures var u := SkipWhite(MembersOf(members) + rest); u != "" && u[0] != '}'
  {
    hide SkipWhite, TextOf, MembersOf;
    MembersParts(members, rest);
    var m := members[0];
    SkipGap(m.before, Quoted(m.key) + (m.colon + (":" + (m.gap + (TextOf(m.value)
      + (m.after + (MembersTail(members) + rest)))))));
  }

  /** The first member up to its value. */
  lemma MemberKey(m: Member, more: string, depth: nat, acc: seq<Field>)
    requires Gap(m.before) && GoodPieces(m.key) && Gap(m.colon)
    ensures var text := m.before + (Quoted(m.key) + (m.colon + (":" + more)));
            ReadFields(text, depth, acc) ==
              var r := ReadValue(more, depth);
              if r.Err? then Err(r.error)
              else
                var t, fields := SkipWhite(r.value.1), Put(acc, Field(PiecesChars(m.key), r.value.0));
                if t != "" && t[0] == ',' then ReadFields(t[1..], depth, fields)
                else if t != "" && t[0] == '}' then Ok((Object(fields), t[1..]))
                else Err(ExpectedCommaOrBrace)
  {
    hide ReadValue, ReadString, SkipWhite, Put, Quoted, PiecesChars, ReadFields, Gap;
    var after := m.colon + (":" + more);
    QuotedRead(m.key, after);
    SkipGap(m.before, Quoted(m.key) + after);
    SkipGap(m.colon, ":" + more);
    assert (":" + more)[1..] == more;
    NextStep(m.before + (Quoted(m.key) + after), depth, acc);
  }

  lemma {:induction false} MembersRead(members: seq<Member>, rest: string, depth: nat, acc: seq<Field>)
    requires members != [] && depth <= MAX_DEPTH
    requires forall i :: 0 <= i < |members| ==>
               && Gap(members[i].before) && GoodPieces(members[i].key) && Gap(members[i].colon)
               && Gap(members[i].gap) && Good(members[i].value) && Gap(members[i].after)
    ensures ReadFields(MembersOf(members) + rest, depth, acc)
         == if depth + MembersHeight(members) <= MAX_DEPTH
            then Ok((Object(PutAll(acc, MemberMeanings(members))), rest)) else Err(TooDeep)
    decreases members, 0
  {
    hide *;
    var m, tail := members[0], MembersTail(members) + rest;
    var f := Field(PiecesChars(m.key), Meaning(m.value));
    MembersParts(members, rest);
    MemberTextIs(m, tail);
    MemberKey(m, m.gap + (TextOf(m.value) + (m.after + tail)), depth, acc);
    MembersTailIs(members, rest);
    GapFollows(m.after, tail[0], tail[1..]);
    assert tail == [tail[0]] + tail[1..];
    TreeRead(m.value, m.gap, m.after + tail, depth);
    MeaningsPut(members, acc);
    if |members| > 1 {
      MembersRead(members[1..], rest, depth, Put(acc, f));
    }
  }

  lemma MemberTextIs(m: Member, rest: string)
    ensures MemberText(m, rest)
         == m.before + (Quoted(m.key) + (m.colon + (":" + (m.gap + (TextOf(m.value) + (m.after + rest))))))
  {
  }

  lemma MembersTailIs(members: seq<Member>, rest: string)
    requires members != []
    ensures var tail := MembersTail(members) + rest;
            && tail != "" && tail[0] == (if |members| == 1 then '}' else ',')
            && tail[1..] == if |members| == 1 then rest else MembersOf(members[1..]) + rest
  {
    hide MembersOf;
  }

  lemma MeaningsPut(members: seq<Member>, acc: seq<Field>)
    requires members != []
    requires forall i :: 0 <= i < |members| ==> Good(members[i].value) && GoodPieces(members[i].key)
    ensures var put := Put(acc, Field(PiecesChars(members[0].key), Meaning(members[0].value)));
            && PutAll(acc, MemberMeanings(members)) == PutAll(put, MemberMeanings(members[1..]))
            && (|members| == 1 ==> PutAll(acc, MemberMeanings(members)) == put)
    ensures var a, b := Height(members[0].value), MembersHeight(members[1..]);
            MembersHeight(members) == (if a > b then a else b) && (|members| == 1 ==> b == 0)
  {
    hide Put, Meaning, PiecesChars, Height, Good;
    NoItems();
    if |members| == 1 {
      assert members[1..] == [];
    }
    var all := MemberMeanings(members);
    assert all[1..] == MemberMeanings(members[1..]);
  }

  // ----- whatever is read is the text of a tree ----------------------------------------------

  lemma {:induction false} GapOf(text: string) returns (gap: string)
    ensures Gap(gap) && text == gap + SkipWhite(text)
  {
    if text != "" && White(text[0]) {
      gap := GapOf(text[1..]);
      WhiteIs(text[0]);
      gap := [text[0]] + gap;
      assert text == [text[0]] + text[1..];
    } else {
      gap := "";
    }
  }

  lemma UnicodeOf(text: string) returns (p: Piece, rest: string)
    requires ReadUnicode(text).Ok?
    ensures GoodPiece(p) && "\\u" + text == PieceText(p) + rest
  {
    hide ReadHex4, Hex, HexPlace;
    QuadRead(text);
    var quad, after := text[..4], text[4..];
    assert text == quad + after;
    if 0xD800 <= QuadValue(quad) < 0xDC00 {
      var more := after[2..];
      assert after == "\\u" + more;
      QuadRead(more);
      p, rest := Pair(quad, more[..4]), more[4..];
      assert more == more[..4] + rest;
      assert "\\u" + (quad + ("\\u" + (more[..4] + rest))) == PieceText(p) + rest;
    } else {
      p, rest := Unit(quad), after;
    }
  }

  lemma PieceOf(text: string, acc: string) returns (p: Piece, rest: string)
    requires text != "" && text[0] != '\"' && ReadChars(text, acc).Ok?
    ensures GoodPiece(p) && text == PieceText(p) + rest
  {
    hide ReadEscape, ReadUnicode, PlaceOf, QuadValue;
    var more := text[1..];
    assert text == [text[0]] + more;
    if text[0] == '\\' {
      EscapeFirst(more, acc);
      EscapeThere(more);
      var c, after := more[0], more[1..];
      assert more == [c] + after;
      LetterRead(c, after);
      if c in LETTERS {
        p, rest := Short(c), after;
      } else {
        assert more == "u" + after;
        CodeFirst(after);
        p, rest := UnicodeOf(after);
      }
    } else {
      p, rest := Plain(text[0]), more;
    }
  }

  lemma EscapeThere(text: string)
    requires ReadEscape(text).Ok?
    ensures text != ""
  {
  }

  lemma {:induction false} PiecesOf(text: string, acc: string) returns (ps: seq<Piece>)
    requires ReadChars(text, acc).Ok?
    ensures GoodPieces(ps)
    ensures var r := ReadChars(text, acc).value; text == PiecesText(ps) + ("\"" + r.1) && r.0 == acc + PiecesChars(ps)
    decreases |text|
  {
    hide PieceText, PieceChar, GoodPiece;
    if text[0] == '\"' {
      ps := [];
      assert text == "\"" + text[1..];
    } else {
      var p, rest := PieceOf(text, acc);
      PieceRead(p, rest, acc);
      PieceLonger(p, rest);
      hide ReadChars;
      var more := PiecesOf(rest, acc + [PieceChar(p)]);
      ps := [p] + more;
      assert ps[1..] == more;
      assert acc + [PieceChar(p)] + PiecesChars(more) == acc + PiecesChars(ps);
    }
  }

  lemma PieceLonger(p: Piece, rest: string)
    ensures |PieceText(p) + rest| > |rest|
  {
  }

  lemma QuotedOf(text: string) returns (ps: seq<Piece>)
    requires ReadString(text).Ok?
    ensures GoodPieces(ps)
    ensures var r := ReadString(text).value; text == Quoted(ps) + r.1 && r.0 == PiecesChars(ps)
  {
    hide ReadChars, PiecesText, PiecesChars;
    ps := PiecesOf(text[1..], "");
    var rest := ReadString(text).value.1;
    assert "" + PiecesChars(ps) == PiecesChars(ps);
    assert text == "\"" + text[1..];
    assert "\"" + (PiecesText(ps) + ("\"" + rest)) == Quoted(ps) + rest;
  }

  lemma NumOf(text: string) returns (t: Tree)
    requires text != "" && (IsDigit(text[0]) || text[0] == '-') && ReadNumber(text).Ok?
    ensures t.Num? && Good(t)
    ensures var r := ReadNumber(text).value; text == TextOf(t) + r.1 && Meaning(t) == Number(r.0)
  {
    hide DigitsValue, DigitsNumber, DigitRun;
    var sign := if text[0] == '-' then 1 else 0;
    var tail := text[sign..];
    var digits := tail[..DigitRun(tail)];
    NumParts(text, sign, tail, digits);
    DigitsAre(digits);
    t := Num(text[0] == '-', digits);
    hide ReadNumber;
  }

  lemma NumParts(text: string, sign: nat, tail: string, digits: string)
    requires text != "" && (IsDigit(text[0]) || text[0] == '-') && ReadNumber(text).Ok?
    requires sign == (if text[0] == '-' then 1 else 0) && tail == text[sign..] && digits == tail[..DigitRun(tail)]
    ensures digits != "" && forall i :: 0 <= i < |digits| ==> IsDigit(digits[i])
    ensures var r := ReadNumber(text).value;
            && text == (if sign == 1 then "-" + digits else digits) + r.1
            && r.0 == (if sign == 1 then -DigitsValue(digits) else DigitsValue(digits))
  {
    hide DigitsValue, DigitRun;
    var rest := tail[DigitRun(tail)..];
    assert |digits| == DigitRun(tail);
    NumIs(text, sign, tail, digits, rest);
    hide ReadNumber;
    Parted(text, sign, tail, digits, rest);
  }

  lemma NumIs(text: string, sign: nat, tail: string, digits: string, rest: string)
    requires text != "" && (IsDigit(text[0]) || text[0] == '-') && ReadNumber(text).Ok?
    requires sign == (if text[0] == '-' then 1 else 0) && tail == text[sign..] && digits == tail[..DigitRun(tail)]
    requires rest == tail[DigitRun(tail)..]
    ensures digits != "" && forall i :: 0 <= i < |digits| ==> IsDigit(digits[i])
    ensures ReadNumber(text) == Ok((if sign == 1 then -DigitsValue(digits) else DigitsValue(digits), rest))
  {
    hide DigitsValue;
  }

  lemma Parted(text: string, sign: nat, tail: string, digits: string, rest: string)
    requires text != "" && sign == (if text[0] == '-' then 1 else 0) && tail == text[sign..]
    requires |digits| <= |tail| && digits == tail[..|digits|] && rest == tail[|digits|..]
    ensures text == (if sign == 1 then "-" + digits else digits) + rest
  {
    assert tail == digits + rest;
    assert text == text[..sign] + tail;
  }

  /** What is read as a value is the text of a tree that means it, not nested too deep. */
  lemma {:induction false} TreeOf(text: string, depth: nat) returns (gap: string, t: Tree)
    requires ReadValue(text, depth).Ok? && depth <= MAX_DEPTH
    ensures Good(t) && Gap(gap) && depth + Height(t) <= MAX_DEPTH
    ensures var r := ReadValue(text, depth).value; text == gap + (TextOf(t) + r.1) && Meaning(t) == r.0
    decreases |text|, 2
  {
    hide ReadValue, ReadString, ReadNumber, SkipWhite, PiecesChars, Quoted, DigitsNumber, ReadItems, ReadFields, Gap,
         Digits, GoodPieces;
    gap := GapOf(text);
    var u := SkipWhite(text);
    ValueStarts(text, depth);
    ValueIs(text, u, depth);
    if u[0] == '\"' {
      var ps := QuotedOf(u);
      t := Str(ps);
    } else if u[0] == '-' || IsDigit(u[0]) {
      t := NumOf(u);
    } else if u[0] == '[' {
      t := ArrOf(text, u, depth);
    } else if u[0] == '{' {
      t := ObjOf(text, u, depth);
    } else {
      t := if "null" <= u then NullWord else if "true" <= u then TrueWord else FalseWord;
    }
  }

  /** A value begins with a character that says what it is. */
  lemma ValueStarts(text: string, depth: nat)
    requires ReadValue(text, depth).Ok?
    ensures var u := SkipWhite(text);
            && u != "" && |u| <= |text|
            && (u[0] in {'\"', '-', '[', '{'} || IsDigit(u[0]) || "null" <= u || "true" <= u || "false" <= u)
  {
    hide SkipWhite, ReadString, ReadNumber, ReadFields, ReadItems;
  }

  lemma ArrOf(text: string, u: string, depth: nat) returns (t: Tree)
    requires ReadValue(text, depth).Ok? && depth <= MAX_DEPTH && u == SkipWhite(text) != "" && u[0] == '['
    ensures t.Arr? && Good(t) && depth + Height(t) <= MAX_DEPTH
    ensures var r := ReadValue(text, depth).value; u == TextOf(t) + r.1 && Meaning(t) == r.0
    decreases |text|, 1
  {
    hide ReadValue, SkipWhite, ReadItems, Gap, ItemsOf, ItemsHeight, ItemMeanings;
    var inside := u[1..];
    assert u == "[" + inside;
    Brackets(text, inside, depth);
    var gap := GapOf(inside);
    var v := SkipWhite(inside);
    NoItems();
    if v != "" && v[0] == ']' {
      assert v == "]" + v[1..];
      t := Arr(gap, []);
      assert gap + ("]" + v[1..]) == (gap + "]") + v[1..];
    } else {
      ItemsSkip(inside, depth + 1, []);
      var items := ItemsTree(inside, depth + 1, []);
      t := Arr("", items);
      NoGap();
      assert [] + ItemMeanings(items) == ItemMeanings(items);
    }
  }

  lemma NoGap()
    ensures Gap("")
  {
  }

  lemma {:induction false} ItemsTree(text: string, depth: nat, acc: seq<Json>) returns (items: seq<Item>)
    requires ReadItems(text, depth, acc).Ok? && depth <= MAX_DEPTH
    ensures items != [] && depth + ItemsHeight(items) <= MAX_DEPTH
    ensures forall i :: 0 <= i < |items| ==> Gap(items[i].before) && Gap(items[i].after) && Good(items[i].value)
    ensures var r := ReadItems(text, depth, acc).value;
            text == ItemsOf(items) + r.1 && r.0 == Array(acc + ItemMeanings(items))
    decreases |text|, 3
  {
    hide *;
    ItemStep(text, depth, acc);
    var gap, v := TreeOf(text, depth);
    var rest := ReadValue(text, depth).value.1;
    var after := GapOf(rest);
    var t := SkipWhite(rest);
    var first := Item(gap, v, after);
    ShorterRest(text, rest, t);
    if t[0] == ',' {
      var more := ItemsTree(t[1..], depth, acc + [Meaning(v)]);
      items := [first] + more;
      assert items[1..] == more;
    } else {
      items := [first];
    }
    ItemsMeant(items, acc);
    var end := ReadItems(text, depth, acc).value.1;
    TailIs(items, end);
    ItemsParts(items, end);
    FirstAndRest(t, ItemsTail(items) + end);
    assert TextOf(v) + (after + t) == TextOf(v) + rest;
  }

  lemma FirstAndRest(a: string, b: string)
    requires a != "" && b != "" && a[0] == b[0] && a[1..] == b[1..]
    ensures a == b
  {
    assert a == [a[0]] + a[1..] && b == [b[0]] + b[1..];
  }

  lemma ShorterRest(text: string, rest: string, t: string)
    ensures |rest| < |text| && t == SkipWhite(rest) && t != "" ==> |t[1..]| < |text|
  {
    hide SkipWhite;
  }

  lemma ObjOf(text: string, u: string, depth: nat) returns (t: Tree)
    requires ReadValue(text, depth).Ok? && depth <= MAX_DEPTH && u == SkipWhite(text) != "" && u[0] == '{'
    ensures t.Obj? && Good(t) && depth + Height(t) <= MAX_DEPTH
    ensures var r := ReadValue(text, depth).value; u == TextOf(t) + r.1 && Meaning(t) == r.0
    decreases |text|, 1
  {
    hide ReadValue, SkipWhite, ReadFields, Gap, MembersOf, MembersHeight, MemberMeanings, PutAll, GoodPieces;
    var inside := u[1..];
    assert u == "{" + inside;
    Brackets(text, inside, depth);
    var gap := GapOf(inside);
    var v := SkipWhite(inside);
    NoItems();
    NothingPut();
    if v != "" && v[0] == '}' {
      assert v == "}" + v[1..];
      t := Obj(gap, []);
      assert gap + ("}" + v[1..]) == (gap + "}") + v[1..];
    } else {
      MembersSkip(inside, depth + 1, []);
      var members := MembersTree(inside, depth + 1, []);
      t := Obj("", members);
      NoGap();
    }
  }

  lemma {:induction false} MembersTree(text: string, depth: nat, acc: seq<Field>) returns (members: seq<Member>)
    requires ReadFields(text, depth, acc).Ok? && depth <= MAX_DEPTH
    ensures members != [] && depth + MembersHeight(members) <= MAX_DEPTH
    ensures forall i :: 0 <= i < |members| ==>
               && Gap(members[i].before) && GoodPieces(members[i].key) && Gap(members[i].colon)
               && Gap(members[i].gap) && Good(members[i].value) && Gap(members[i].after)
    ensures var r := ReadFields(text, depth, acc).value;
            text == MembersOf(members) + r.1 && r.0 == Object(PutAll(acc, MemberMeanings(members)))
    decreases |text|, 3
  {
    hide *;
    NextStep(text, depth, acc);
    var before := GapOf(text);
    var u := SkipWhite(text);
    var key := QuotedOf(u);
    var rest := ReadString(u).value.1;
    var colon := GapOf(rest);
    var c := SkipWhite(rest);
    KeyShorter(text, rest, c);
    var gap, v := TreeOf(c[1..], depth);
    var rest' := ReadValue(c[1..], depth).value.1;
    var after := GapOf(rest');
    var t := SkipWhite(rest');
    var first := Member(before, key, colon, gap, v, after);
    ShorterRest(c[1..], rest', t);
    if t[0] == ',' {
      var more := MembersTree(t[1..], depth, Put(acc, Field(PiecesChars(key), Meaning(v))));
      members := [first] + more;
      assert members[1..] == more;
    } else {
      members := [first];
    }
    MeaningsPut(members, acc);
    var end := ReadFields(text, depth, acc).value.1;
    MembersTailIs(members, end);
    MembersParts(members, end);
    MemberTextIs(first, t);
    FirstAndRest(t, MembersTail(members) + end);
    FirstAndRest(c, ":" + c[1..]);
  }

  lemma KeyShorter(text: string, rest: string, c: string)
    ensures var key := ReadString(SkipWhite(text));
            key.Ok? && rest == key.value.1 && c == SkipWhite(rest) && c != "" ==> |c[1..]| < |text|
  {
    hide SkipWhite, ReadString;
  }

  // ----- documents ---------------------------------------------------------------------------

  /** The text is that of a tree nested at most 128 deep, with white space around it. */
  ghost predicate Derives(text: string, lead: string, t: Tree, trail: string)
  {
    Gap(lead) && Good(t) && Gap(trail) && Height(t) <= MAX_DEPTH && text == lead + (TextOf(t) + trail)
  }

  /** A document is read as a value if and only if it is the text of a tree that means this value. */
  lemma DocumentIff(text: string, v: Json)
    ensures Document(text) == Ok(v) <==> exists lead, t, trail :: Derives(text, lead, t, trail) && Meaning(t) == v
  {
    hide ReadValue, Meaning, TextOf, Height, Gap, SkipWhite, Good;
    SkipAgain(text, 0);
    if Document(text) == Ok(v) {
      var lead, t := TreeOf(text, 0);
      var rest := ReadValue(text, 0).value.1;
      var trail := GapOf(rest);
      assert trail + "" == trail;
      assert Derives(text, lead, t, trail);
    }
    if lead, t, trail :| Derives(text, lead, t, trail) && Meaning(t) == v {
      TrailFollows(trail);
      TreeRead(t, lead, trail, 0);
    }
  }

  lemma TrailFollows(trail: string)
    requires Gap(trail)
    ensures AfterValue(trail) && SkipWhite(trail) == ""
  {
    GapIs(trail);
    SkipsWhite(trail, "");
    assert trail + "" == trail;
  }

  /** A deeper one is refused as such. */
  lemma DeeperIsRefused(lead: string, t: Tree, trail: string)
    requires Gap(lead) && Good(t) && Gap(trail) && Height(t) > MAX_DEPTH
    ensures Document(lead + (TextOf(t) + trail)) == Err(TooDeep)
  {
    hide ReadValue, Meaning, TextOf, Height, Gap, SkipWhite, Good;
    TrailFollows(trail);
    SkipAgain(lead + (TextOf(t) + trail), 0);
    TreeRead(t, lead, trail, 0);
  }
}
