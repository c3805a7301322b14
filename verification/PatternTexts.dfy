/** What LIKE patterns, globs and the small regular expressions mean as they are written
    (src/pattern.rs): each character or group of characters stands for certain characters of the
    text, without looking at how a pattern is read. */
module PatternTexts {
  import opened Patterns

  datatype Member = Single(c: char) | Span(lo: char, hi: char)

  /** What stands for one character: itself, escaped or plain, any at all, or one of a class. */
  datatype Piece = Escaped(c: char) | Plain(c: char) | Any | OneOf(mark: string, members: seq<Member>)

  /** Once, or any number of times. */
  datatype Atom = Atom(piece: Piece, many: bool)

  datatype Language = Like | Glob | Regular

  // ----- what is meant -----------------------------------------------------------------------

  predicate Has(m: Member, c: char)
  {
    match m
    case Single(x) => c == x
    case Span(lo, hi) => lo <= c <= hi
  }

  predicate Means(p: Piece, c: char)
  {
    match p
    case OneOf(mark, members) => (mark == "") == exists m :: m in members && Has(m, c)
    case Any => true
    case _ => c == p.c
  }

  predicate Stands(a: Atom, s: string)
  {
    (a.many || |s| == 1) && forall i :: 0 <= i < |s| ==> Means(a.piece, s[i])
  }

  /** The text is cut into as many parts as there are atoms, and each atom stands for its part. */
  ghost predicate StandFor(atoms: seq<Atom>, text: string)
  {
    exists parts: seq<string> ::
      |parts| == |atoms| && Concat(parts) == text && forall i :: 0 <= i < |atoms| ==> Stands(atoms[i], parts[i])
  }

  // ----- how it is written ---------------------------------------------------------------------

  function MemberText(m: Member): string
  {
    match m
    case Single(c) => [c]
    case Span(lo, hi) => [lo, '-', hi]
  }

  function MembersText(members: seq<Member>): string
  {
    if members == [] then "" else MemberText(members[0]) + MembersText(members[1..])
  }

  function PieceText(lang: Language, p: Piece): string
  {
    match p
    case Escaped(c) => ['\\', c]
    case Plain(c) => [c]
    case Any => if lang.Like? then "_" else if lang.Glob? then "?" else "."
    case OneOf(mark, members) => "[" + mark + MembersText(members) + "]"
  }

  function AtomText(lang: Language, a: Atom): string
  {
    if lang.Regular? then PieceText(lang, a.piece) + (if a.many then "*" else "")
    else if a.many then if lang.Like? then "%" else "*"
    else PieceText(lang, a.piece)
  }

  function TextOf(lang: Language, atoms: seq<Atom>): string
  {
    if atoms == [] then "" else AtomText(lang, atoms[0]) + TextOf(lang, atoms[1..])
  }

  function Special(lang: Language): string
  {
    match lang
    case Like => "\\%_"
    case Glob => "\\*?["
    case Regular => "\\.*[^$"
  }

  function FirstOf(m: Member): char
  {
    match m
    case Single(c) => c
    case Span(lo, _) => lo
  }

  /** A hyphen is a member of its own only where it cannot be taken for a span's. */
  predicate MembersOk(members: seq<Member>)
  {
    members == []
    || (var m, others := members[0], members[1..];
        && FirstOf(m) != ']' && (m.Span? ==> m.hi != ']') && MembersOk(others)
        && (m.Single? && others != [] && FirstOf(others[0]) == '-' ==> others == [Single('-')]))
  }

  predicate PieceOk(lang: Language, p: Piece)
  {
    match p
    case Plain(c) => c !in Special(lang)
    case OneOf(mark, members) =>
      && !lang.Like? && MembersOk(members) && mark in ["", "!", "^"]
      && (mark == "" && members != [] ==> FirstOf(members[0]) !in "!^")
    case _ => true
  }

  /** In LIKE patterns and globs only a run of any characters is written for many. */
  predicate Written(lang: Language, atoms: seq<Atom>)
  {
    forall i :: 0 <= i < |atoms| ==>
      PieceOk(lang, atoms[i].piece) && (atoms[i].many && !lang.Regular? ==> atoms[i].piece == Any)
  }

  // ----- reading it gives what is meant -----------------------------------------------------------

  function RangeOf(m: Member): (char, char)
  {
    match m
    case Single(c) => (c, c)
    case Span(lo, hi) => (lo, hi)
  }

  function RangesOf(members: seq<Member>): seq<(char, char)>
  {
    if members == [] then [] else [RangeOf(members[0])] + RangesOf(members[1..])
  }

  function KindOf(p: Piece): Element
  {
    match p
    case OneOf(mark, members) => Class(mark != "", RangesOf(members))
    case Any => AnyChar
    case _ => Literal(p.c)
  }

  function TokensOf(atoms: seq<Atom>): seq<Token>
  {
    seq(|atoms|, i requires 0 <= i < |atoms| =>
      if atoms[i].many then Many(KindOf(atoms[i].piece)) else One(KindOf(atoms[i].piece)))
  }

  predicate Covers(ranges: seq<(char, char)>, c: char)
  {
    exists i :: 0 <= i < |ranges| && ranges[i].0 <= c <= ranges[i].1
  }

  lemma CoversFirst(r: (char, char), more: seq<(char, char)>, c: char)
    ensures Covers([r] + more, c) <==> r.0 <= c <= r.1 || Covers(more, c)
  {
    var ranges := [r] + more;
    assert ranges[0] == r && ranges[1..] == more;
    if i :| 0 <= i < |more| && more[i].0 <= c <= more[i].1 {
      assert ranges[i + 1] == more[i];
    }
  }

  lemma {:induction false} InRanges(members: seq<Member>, c: char)
    ensures Covers(RangesOf(members), c) <==> exists m :: m in members && Has(m, c)
  {
    if members != [] {
      var m, others := members[0], members[1..];
      InRanges(others, c);
      CoversFirst(RangeOf(m), RangesOf(others), c);
      hide Covers;
      assert members == [m] + others;
      assert (exists n :: n in members && Has(n, c)) <==> Has(m, c) || exists n :: n in others && Has(n, c);
    }
  }

  lemma HoldsIfMeant(p: Piece, c: char)
    ensures Holds(KindOf(p), c) <==> Means(p, c)
  {
    if p.OneOf? {
      InRanges(p.members, c);
    }
  }

  /** The tokens of the atoms spell exactly the texts that the atoms stand for. */
  lemma SpellsIfMeant(atoms: seq<Atom>, text: string)
    ensures Spells(TokensOf(atoms), text) <==> StandFor(atoms, text)
  {
    hide Holds, Means;
    forall p, c ensures Holds(KindOf(p), c) <==> Means(p, c) {
      HoldsIfMeant(p, c);
    }
    var tokens := TokensOf(atoms);
    forall i, s: string | 0 <= i < |atoms| ensures Fits(tokens[i], s) <==> Stands(atoms[i], s) {
    }
    if parts: seq<string> :| Splits(tokens, text, parts) {
      assert forall i :: 0 <= i < |atoms| ==> Stands(atoms[i], parts[i]);
    }
    if parts: seq<string> :| |parts| == |atoms| && Concat(parts) == text
                             && forall i :: 0 <= i < |atoms| ==> Stands(atoms[i], parts[i]) {
      assert Splits(tokens, text, parts);
    }
  }

  lemma SpanRead(lo: char, hi: char, after: string)
    requires lo != ']' && hi != ']'
    ensures ReadRanges([lo, '-', hi] + after) == ([(lo, hi)] + ReadRanges(after).0, ReadRanges(after).1)
  {
    var text := [lo, '-', hi] + after;
    assert text[1..][2..] == after;
    assert ReadRange(text) == ([(lo, hi)], after);
  }

  lemma SingleRead(c: char, after: string)
    requires c != ']' && after != "" && after[0] != '-'
    ensures ReadRanges([c] + after) == ([(c, c)] + ReadRanges(after).0, ReadRanges(after).1)
  {
    var text := [c] + after;
    assert text[1..] == after;
    assert ReadRange(text) == ([(c, c)], after);
  }

  lemma MembersFirst(m: Member, others: seq<Member>, rest: string)
    ensures MembersText([m] + others) + rest == MemberText(m) + (MembersText(others) + rest)
    ensures RangesOf([m] + others) == [RangeOf(m)] + RangesOf(others)
  {
    assert ([m] + others)[1..] == others;
  }

  lemma MembersOkFirst(m: Member, others: seq<Member>)
    requires MembersOk([m] + others)
    ensures MembersOk(others) && FirstOf(m) != ']' && (m.Span? ==> m.hi != ']')
    ensures m.Single? && others != [] && FirstOf(others[0]) == '-' ==> others == [Single('-')]
  {
    assert ([m] + others)[1..] == others;
  }

  lemma {:induction false} MembersBack(members: seq<Member>, rest: string)
    requires MembersOk(members)
    ensures ReadRanges(MembersText(members) + ("]" + rest)) == (RangesOf(members), rest)
    decreases |members|
  {
    hide ReadRanges;
    if members == [] {
      ClassEnd(rest);
      assert MembersText(members) + ("]" + rest) == "]" + rest;
    } else {
      hide MembersText, RangesOf, MembersOk, RangeOf, MemberText;
      var m, others := members[0], members[1..];
      assert members == [m] + others;
      MembersOkFirst(m, others);
      MembersBack(others, rest);
      if m.Single? && others == [Single('-')] {
        HyphenBack(m.c, rest);
      } else {
        MemberBack(m, others, rest);
      }
    }
  }

  lemma MemberBack(m: Member, others: seq<Member>, rest: string)
    requires FirstOf(m) != ']' && (m.Span? ==> m.hi != ']')
    requires m.Single? && others != [] ==> FirstOf(others[0]) != '-'
    requires ReadRanges(MembersText(others) + ("]" + rest)) == (RangesOf(others), rest)
    ensures ReadRanges(MembersText([m] + others) + ("]" + rest)) == (RangesOf([m] + others), rest)
  {
    var end := "]" + rest;
    FirstMember(others, rest);
    MembersFirst(m, others, end);
    hide ReadRanges, MembersText, RangesOf;
    if m.Span? {
      SpanRead(m.lo, m.hi, MembersText(others) + end);
    } else {
      SingleRead(m.c, MembersText(others) + end);
    }
  }

  lemma HyphenBack(c: char, rest: string)
    requires c != ']'
    ensures ReadRanges(MembersText([Single(c), Single('-')]) + ("]" + rest))
            == (RangesOf([Single(c), Single('-')]), rest)
  {
    hide ReadRanges;
    var hyphen := [Single('-')];
    MembersFirst(Single(c), hyphen, "]" + rest);
    assert [Single(c)] + hyphen == [Single(c), Single('-')];
    HyphenText(hyphen, rest);
    HyphenLast(c, rest);
    assert [c] + (['-', ']'] + rest) == [c, '-', ']'] + rest;
    assert [(c, c)] + [('-', '-')] == [(c, c), ('-', '-')];
  }

  lemma ClassEnd(rest: string)
    ensures ReadRanges("]" + rest) == ([], rest)
  {
    assert ("]" + rest)[1..] == rest;
  }

  lemma HyphenLast(c: char, rest: string)
    requires c != ']'
    ensures ReadRanges([c, '-', ']'] + rest) == ([(c, c), ('-', '-')], rest)
  {
    var text := [c, '-', ']'] + rest;
    assert text[1..][1..] == "]" + rest;
    assert ReadRange(text) == ([(c, c), ('-', '-')], "]" + rest);
    ClassEnd(rest);
    assert [(c, c), ('-', '-')] + [] == [(c, c), ('-', '-')];
  }

  lemma HyphenText(members: seq<Member>, rest: string)
    requires members == [Single('-')]
    ensures MembersText(members) + ("]" + rest) == ['-', ']'] + rest && RangesOf(members) == [('-', '-')]
  {
    assert MembersText(members[1..]) == "";
  }

  lemma FirstMember(members: seq<Member>, rest: string)
    ensures (MembersText(members) + ("]" + rest))[0] == if members == [] then ']' else FirstOf(members[0])
  {
  }

  lemma ClassMarked(mark: string, inner: string)
    requires mark in ["", "!", "^"] && inner != "" && (mark == "" ==> inner[0] != '!' && inner[0] != '^')
    ensures ReadClass(mark + inner) == (Class(mark != "", ReadRanges(inner).0), ReadRanges(inner).1)
  {
    hide ReadRanges;
    if mark == "" {
      assert mark + inner == inner;
    } else {
      assert (mark + inner)[1..] == inner;
    }
  }

  lemma ClassText(mark: string, members: string, rest: string)
    ensures var text := "[" + mark + members + "]" + rest;
            text[0] == '[' && text[1..] == mark + (members + ("]" + rest))
  {
  }

  lemma ClassBack(p: Piece, lang: Language, rest: string)
    requires p.OneOf? && PieceOk(lang, p)
    ensures var text := PieceText(lang, p) + rest; text[0] == '[' && ReadClass(text[1..]) == (KindOf(p), rest)
  {
    hide ReadRanges, MembersOk, MembersText, RangesOf, ReadClass;
    var inner, text := MembersText(p.members) + ("]" + rest), PieceText(lang, p) + rest;
    ClassText(p.mark, MembersText(p.members), rest);
    MembersBack(p.members, rest);
    FirstMember(p.members, rest);
    ClassMarked(p.mark, inner);
  }

  lemma TokensFirst(atoms: seq<Atom>)
    requires atoms != []
    ensures TokensOf(atoms)
            == [if atoms[0].many then Many(KindOf(atoms[0].piece)) else One(KindOf(atoms[0].piece))]
               + TokensOf(atoms[1..])
  {
  }

  /** A LIKE pattern, with a backslash at its end that stands for itself or without. */
  lemma {:induction false} LikeBack(atoms: seq<Atom>, slash: bool)
    requires Written(Like, atoms)
    ensures LikeTokens(TextOf(Like, atoms) + (if slash then "\\" else ""))
            == TokensOf(atoms) + if slash then [One(Literal('\\'))] else []
  {
    hide KindOf;
    var end := if slash then "\\" else "";
    var text := TextOf(Like, atoms) + end;
    if atoms == [] {
      assert text == end;
      assert LikeTokens("") == [];
    } else {
      var head, after := AtomText(Like, atoms[0]), TextOf(Like, atoms[1..]) + end;
      assert text == head + after && text[|head|..] == after;
      LikeBack(atoms[1..], slash);
      TokensFirst(atoms);
      LikeStep(atoms[0], after);
    }
  }

  lemma LikeStep(a: Atom, after: string)
    requires Written(Like, [a])
    ensures LikeTokens(AtomText(Like, a) + after)
            == [if a.many then Many(KindOf(a.piece)) else One(KindOf(a.piece))] + LikeTokens(after)
  {
    assert [a][0] == a;
    var text := AtomText(Like, a) + after;
    assert text[|AtomText(Like, a)|..] == after;
  }

  lemma GlobStep(a: Atom, after: string)
    requires Written(Glob, [a])
    ensures GlobTokens(AtomText(Glob, a) + after)
            == [if a.many then Many(KindOf(a.piece)) else One(KindOf(a.piece))] + GlobTokens(after)
  {
    hide ReadClass;
    assert [a][0] == a;
    var text := AtomText(Glob, a) + after;
    assert text[|AtomText(Glob, a)|..] == after;
    if a.piece.OneOf? {
      ClassBack(a.piece, Glob, after);
    }
    if a.piece.Escaped? {
      assert text[1..][1..] == after;
    }
  }

  lemma {:induction false} GlobBack(atoms: seq<Atom>, slash: bool)
    requires Written(Glob, atoms)
    ensures GlobTokens(TextOf(Glob, atoms) + (if slash then "\\" else "")) == TokensOf(atoms)
  {
    hide KindOf;
    var end := if slash then "\\" else "";
    var text := TextOf(Glob, atoms) + end;
    if atoms == [] {
      assert text == end;
      assert GlobTokens("") == [];
    } else {
      var head, after := AtomText(Glob, atoms[0]), TextOf(Glob, atoms[1..]) + end;
      assert text == head + after;
      GlobBack(atoms[1..], slash);
      TokensFirst(atoms);
      GlobStep(atoms[0], after);
    }
  }

  lemma RegularStep(a: Atom, after: string)
    requires Written(Regular, [a]) && (after == "" || after[0] != '*')
    ensures ReadAtoms(AtomText(Regular, a) + after)
            == ([if a.many then Many(KindOf(a.piece)) else One(KindOf(a.piece))] + ReadAtoms(after).0,
                ReadAtoms(after).1)
  {
    hide ReadKind, KindOf, PieceText, PieceOk;
    assert [a][0] == a;
    var star := if a.many then "*" else "";
    var text := AtomText(Regular, a) + after;
    KindRead(a.piece, star + after);
    assert text == PieceText(Regular, a.piece) + (star + after);
    assert a.many ==> (star + after)[1..] == after;
    assert !a.many ==> star + after == after;
  }

  lemma KindRead(p: Piece, after: string)
    requires PieceOk(Regular, p)
    ensures var text := PieceText(Regular, p) + after; text[0] != '$' && ReadKind(text) == (KindOf(p), after)
  {
    hide ReadClass, MembersText, RangesOf;
    var text := PieceText(Regular, p) + after;
    match p
    case OneOf(_, _) => ClassBack(p, Regular, after);
    case Escaped(c) => assert text[2..] == after;
    case Plain(c) => assert text[1..] == after;
    case Any => assert text[1..] == after;
  }

  lemma {:induction false} RegularBack(atoms: seq<Atom>, dollar: bool)
    requires Written(Regular, atoms)
    ensures ReadAtoms(TextOf(Regular, atoms) + (if dollar then "$" else "")) == (TokensOf(atoms), dollar)
  {
    var end := if dollar then "$" else "";
    var text := TextOf(Regular, atoms) + end;
    if atoms == [] {
      assert text == end && TokensOf(atoms) == [] && ReadAtoms("") == ([], false) && ReadAtoms("$") == ([], true);
    } else {
      hide KindOf, ReadAtoms;
      var head, after := AtomText(Regular, atoms[0]), TextOf(Regular, atoms[1..]) + end;
      assert text == head + after;
      RegularBack(atoms[1..], dollar);
      FirstWritten(atoms[1..], end);
      TokensFirst(atoms);
      RegularStep(atoms[0], after);
    }
  }

  lemma FirstWritten(atoms: seq<Atom>, end: string)
    requires Written(Regular, atoms) && (end == "" || end == "$")
    ensures var text := TextOf(Regular, atoms) + end; text != "" ==> text[0] != '*' && text[0] != '^'
  {
    if atoms != [] {
      PieceFirst(atoms[0].piece);
      var head := AtomText(Regular, atoms[0]);
      assert head[0] == PieceText(Regular, atoms[0].piece)[0];
      hide AtomText, PieceText;
      assert TextOf(Regular, atoms) == head + TextOf(Regular, atoms[1..]);
      assert (TextOf(Regular, atoms) + end)[0] == head[0];
    } else {
      assert TextOf(Regular, atoms) + end == end;
    }
  }

  lemma PieceFirst(p: Piece)
    requires PieceOk(Regular, p)
    ensures var text := PieceText(Regular, p); text != "" && text[0] != '*' && text[0] != '^'
  {
    hide MembersText;
  }

  // ----- what a pattern matches ---------------------------------------------------------------------

  /** A LIKE pattern matches exactly the texts that its characters stand for; a backslash at its end
      stands for itself. */
  lemma LikeMeans(atoms: seq<Atom>, slash: bool, text: string)
    requires Written(Like, atoms)
    ensures Spells(LikeTokens(TextOf(Like, atoms) + (if slash then "\\" else "")), text)
            <==> StandFor(atoms + (if slash then [Atom(Escaped('\\'), false)] else []), text)
  {
    hide Spells, StandFor, LikeTokens;
    LikeBack(atoms, slash);
    var all := atoms + if slash then [Atom(Escaped('\\'), false)] else [];
    assert TokensOf(all) == TokensOf(atoms) + if slash then [One(Literal('\\'))] else [];
    SpellsIfMeant(all, text);
  }

  /** There are no other LIKE patterns. */
  lemma {:induction false} LikeWritten(pattern: string) returns (atoms: seq<Atom>, slash: bool)
    ensures Written(Like, atoms) && pattern == TextOf(Like, atoms) + if slash then "\\" else ""
  {
    if pattern == "" || pattern == "\\" {
      return [], pattern != "";
    }
    var c := pattern[0];
    var a := if c == '\\' then Atom(Escaped(pattern[1]), false)
             else if c == '%' then Atom(Any, true)
             else if c == '_' then Atom(Any, false)
             else Atom(Plain(c), false);
    var head := AtomText(Like, a);
    assert pattern == head + pattern[|head|..];
    atoms, slash := LikeWritten(pattern[|head|..]);
    assert ([a] + atoms)[1..] == atoms;
    atoms := [a] + atoms;
  }

  /** A glob whose classes are closed matches exactly the texts that its characters stand for; a
      backslash at its end is dropped. */
  lemma GlobMeans(atoms: seq<Atom>, slash: bool, text: string)
    requires Written(Glob, atoms)
    ensures Spells(GlobTokens(TextOf(Glob, atoms) + (if slash then "\\" else "")), text) <==> StandFor(atoms, text)
  {
    hide Spells, StandFor, GlobTokens;
    GlobBack(atoms, slash);
    SpellsIfMeant(atoms, text);
  }

  /** A regular expression is found exactly where its atoms stand for a stretch of the text, which is
      at the text's start if a caret is in front and at its end if a dollar sign is behind. */
  lemma RegularMeans(r: Regex, pattern: string, caret: bool, atoms: seq<Atom>, dollar: bool, text: string, start: nat,
          end: nat)
    requires Written(Regular, atoms)
    requires pattern == (if caret then "^" else "") + (TextOf(Regular, atoms) + if dollar then "$" else "")
    requires r.anchoredStart <==> pattern != "" && pattern[0] == '^'
    requires (r.atoms, r.anchoredEnd) == ReadAtoms(if r.anchoredStart then pattern[1..] else pattern)
    ensures Finds(r, text, start, end)
            <==> start <= end <= |text| && (caret ==> start == 0) && (dollar ==> end == |text|)
                 && StandFor(atoms, text[start..end])
  {
    hide Spells, StandFor, ReadAtoms, TokensOf, TextOf;
    FirstWritten(atoms, if dollar then "$" else "");
    RegularBack(atoms, dollar);
    assert caret ==> pattern[1..] == TextOf(Regular, atoms) + if dollar then "$" else "";
    assert !caret ==> pattern == TextOf(Regular, atoms) + if dollar then "$" else "";
    if start <= end <= |text| {
      SpellsIfMeant(atoms, text[start..end]);
    }
  }
}
