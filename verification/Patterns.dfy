/** LIKE patterns, globs and the small regular expressions (src/pattern.rs). */
module Patterns {
  import opened Options

  datatype Element =
    | Literal(c: char)
    | AnyChar
    | Class(negated: bool, ranges: seq<(char, char)>)

  /** One character of a kind, or any number of them: `%` of a LIKE pattern and `*` of a glob
      are `Many(AnyChar)`. */
  datatype Token = One(kind: Element) | Many(kind: Element)

  const RUN := Many(AnyChar)

  // ----- the language of a pattern ---------------------------------------------------------

  /** Lines 161-164 and 299-305. */
  predicate Holds(e: Element, c: char)
  {
    match e
    case Literal(l) => l == c
    case AnyChar => true
    case Class(negated, ranges) => (exists i :: 0 <= i < |ranges| && ranges[i].0 <= c <= ranges[i].1) != negated
  }

  predicate AllHold(e: Element, s: string)
  {
    forall i :: 0 <= i < |s| ==> Holds(e, s[i])
  }

  predicate Fits(t: Token, piece: string)
  {
    (t.One? ==> |piece| == 1) && AllHold(t.kind, piece)
  }

  function Concat(pieces: seq<string>): string
  {
    if pieces == [] then "" else pieces[0] + Concat(pieces[1..])
  }

  ghost predicate Splits(tokens: seq<Token>, text: string, pieces: seq<string>)
  {
    |pieces| == |tokens| && Concat(pieces) == text && forall i :: 0 <= i < |tokens| ==> Fits(tokens[i], pieces[i])
  }

  /** The text falls into consecutive pieces, one for each token. */
  ghost predicate Spells(tokens: seq<Token>, text: string)
  {
    exists pieces: seq<string> :: Splits(tokens, text, pieces)
  }

  lemma SpellsNothing(text: string)
    ensures Spells([], text) <==> text == ""
  {
    if text == "" {
      assert Splits([], text, []);
    }
  }

  /** A text is spelled by cutting off a piece for the first token. */
  lemma CutFirst(tokens: seq<Token>, text: string, k: nat)
    requires tokens != [] && k <= |text| && Fits(tokens[0], text[..k]) && Spells(tokens[1..], text[k..])
    ensures Spells(tokens, text)
  {
    var others: seq<string> :| Splits(tokens[1..], text[k..], others);
    var pieces := [text[..k]] + others;
    assert pieces[1..] == others && text[..k] + text[k..] == text;
    forall i | 0 <= i < |tokens| ensures Fits(tokens[i], pieces[i]) {
      assert i > 0 ==> tokens[i] == tokens[1..][i - 1] && pieces[i] == others[i - 1];
    }
    assert Splits(tokens, text, pieces);
  }

  lemma FirstPiece(tokens: seq<Token>, text: string) returns (k: nat)
    requires tokens != [] && Spells(tokens, text)
    ensures k <= |text| && Fits(tokens[0], text[..k]) && Spells(tokens[1..], text[k..])
  {
    var pieces: seq<string> :| Splits(tokens, text, pieces);
    k := |pieces[0]|;
    assert text[..k] == pieces[0] && text[k..] == Concat(pieces[1..]);
    assert Splits(tokens[1..], text[k..], pieces[1..]);
  }

  /** What one step of a matcher on the first token comes to. */
  lemma OneFirst(tokens: seq<Token>, text: string)
    requires tokens != [] && tokens[0].One?
    ensures Spells(tokens, text) <==> text != "" && Holds(tokens[0].kind, text[0]) && Spells(tokens[1..], text[1..])
  {
    hide Spells;
    if text != "" && Holds(tokens[0].kind, text[0]) && Spells(tokens[1..], text[1..]) {
      assert Fits(tokens[0], text[..1]);
      CutFirst(tokens, text, 1);
    }
    if Spells(tokens, text) {
      var k := FirstPiece(tokens, text);
      assert k == 1 && text[..1][0] == text[0];
    }
  }

  // ----- matching ----------------------------------------------------------------------------

  /** Lines 60-79, and lines 166-189 for globs: a run tries every length, shortest first. */
  method WildcardMatch(tokens: seq<Token>, ti: nat, text: string, si: nat) returns (b: bool)
    requires ti <= |tokens| && si <= |text| && (forall i :: 0 <= i < |tokens| && tokens[i].Many? ==> tokens[i] == RUN)
    ensures b <==> Spells(tokens[ti..], text[si..])
    decreases |tokens| - ti
  {
    hide Spells, Fits, Holds;
    if ti == |tokens| {
      SpellsNothing(text[si..]);
      return si == |text|;
    }
    assert tokens[ti..][1..] == tokens[ti + 1..];
    if tokens[ti].One? {
      OneFirst(tokens[ti..], text[si..]);
      if si == |text| || !HoldsNow(tokens[ti].kind, text[si]) {
        return false;
      }
      assert text[si..][1..] == text[si + 1..];
      b := WildcardMatch(tokens, ti + 1, text, si + 1);
      return;
    }
    var skip := si;
    while skip <= |text|
      invariant si <= skip <= |text| + 1
      invariant forall k :: si <= k < skip ==> !Spells(tokens[ti + 1..], text[k..])
    {
      var found := WildcardMatch(tokens, ti + 1, text, skip);
      if found {
        AnyRunFits(text[si..][..skip - si]);
        assert text[si..][skip - si..] == text[skip..];
        CutFirst(tokens[ti..], text[si..], skip - si);
        return true;
      }
      skip := skip + 1;
    }
    SomeSkip(tokens, ti, text, si);
    return false;
  }

  lemma SomeSkip(tokens: seq<Token>, ti: nat, text: string, si: nat)
    requires ti < |tokens| && si <= |text|
    ensures Spells(tokens[ti..], text[si..]) ==> exists k :: si <= k <= |text| && Spells(tokens[ti..][1..], text[k..])
  {
    hide Spells;
    if Spells(tokens[ti..], text[si..]) {
      var k := FirstPiece(tokens[ti..], text[si..]);
      assert text[si..][k..] == text[si + k..];
    }
  }

  function HoldsNow(e: Element, c: char): (b: bool)
    ensures b == Holds(e, c)
  {
    Holds(e, c)
  }

  lemma AnyRunFits(s: string)
    ensures Fits(RUN, s)
  {
  }

  datatype Regex = Regex(atoms: seq<Token>, anchoredStart: bool, anchoredEnd: bool)

  /** The atoms from one on spell a stretch of the text from a place on; up to its end if the
      end is anchored. */
  ghost predicate MatchesUpTo(r: Regex, ai: nat, text: string, si: nat, end: nat)
    requires ai <= |r.atoms|
  {
    si <= end <= |text| && (r.anchoredEnd ==> end == |text|) && Spells(r.atoms[ai..], text[si..end])
  }

  ghost predicate MatchesFrom(r: Regex, ai: nat, text: string, si: nat)
    requires ai <= |r.atoms|
  {
    exists end: nat :: MatchesUpTo(r, ai, text, si, end)
  }

  /** Lines 274-297: a starred atom first takes all it can, then gives back. */
  method MatchFrom(r: Regex, ai: nat, text: string, si: nat) returns (b: bool)
    requires ai <= |r.atoms| && si <= |text|
    ensures b <==> MatchesFrom(r, ai, text, si)
    decreases |r.atoms| - ai
  {
    hide Spells, Fits, MatchesFrom, Holds;
    if ai == |r.atoms| {
      DoneMatching(r, text, si);
      return !r.anchoredEnd || si == |text|;
    }
    var atom := r.atoms[ai];
    if atom.One? {
      StepOne(r, ai, text, si);
      if si == |text| || !HoldsNow(atom.kind, text[si]) {
        return false;
      }
      b := MatchFrom(r, ai + 1, text, si + 1);
      return;
    }
    var count := 0;
    while si + count < |text| && HoldsNow(atom.kind, text[si + count])
      invariant si + count <= |text| && forall k :: si <= k < si + count ==> Holds(atom.kind, text[k])
    {
      count := count + 1;
    }
    var take, next := count, ai + 1;
    while take >= 0
      invariant -1 <= take <= count
      invariant forall k :: si + take < k <= si + count ==> !MatchesFrom(r, next, text, k)
    {
      var found := MatchFrom(r, next, text, si + take);
      if found {
        TakeMany(r, ai, text, si, take);
        return true;
      }
      take := take - 1;
    }
    SomeTaken(r, ai, text, si, count, next);
    return false;
  }

  lemma DoneMatching(r: Regex, text: string, si: nat)
    requires si <= |text|
    ensures MatchesFrom(r, |r.atoms|, text, si) <==> !r.anchoredEnd || si == |text|
  {
    if !r.anchoredEnd || si == |text| {
      SpellsNothing(text[si..si]);
      assert r.atoms[|r.atoms|..] == [];
      assert MatchesUpTo(r, |r.atoms|, text, si, si);
    }
    if MatchesFrom(r, |r.atoms|, text, si) {
      var end: nat :| MatchesUpTo(r, |r.atoms|, text, si, end);
      SpellsNothing(text[si..end]);
    }
  }

  lemma StepOne(r: Regex, ai: nat, text: string, si: nat)
    requires ai < |r.atoms| && r.atoms[ai].One? && si <= |text|
    ensures MatchesFrom(r, ai, text, si) <==>
            si < |text| && Holds(r.atoms[ai].kind, text[si]) && MatchesFrom(r, ai + 1, text, si + 1)
  {
    hide Spells, Holds;
    assert r.atoms[ai..][1..] == r.atoms[ai + 1..];
    if si < |text| && Holds(r.atoms[ai].kind, text[si]) && MatchesFrom(r, ai + 1, text, si + 1) {
      var end: nat :| MatchesUpTo(r, ai + 1, text, si + 1, end);
      OneFirst(r.atoms[ai..], text[si..end]);
      assert text[si..end][1..] == text[si + 1..end];
      assert MatchesUpTo(r, ai, text, si, end);
    }
    if MatchesFrom(r, ai, text, si) {
      var end: nat :| MatchesUpTo(r, ai, text, si, end);
      OneFirst(r.atoms[ai..], text[si..end]);
      assert text[si..end][1..] == text[si + 1..end];
      assert MatchesUpTo(r, ai + 1, text, si + 1, end);
    }
  }

  lemma TakeMany(r: Regex, ai: nat, text: string, si: nat, take: nat)
    requires ai < |r.atoms| && r.atoms[ai].Many? && si + take <= |text|
    requires (forall k :: si <= k < si + take ==> Holds(r.atoms[ai].kind, text[k]))
             && MatchesFrom(r, ai + 1, text, si + take)
    ensures MatchesFrom(r, ai, text, si)
  {
    hide Spells, Holds;
    var end: nat :| MatchesUpTo(r, ai + 1, text, si + take, end);
    var stretch := text[si..end];
    assert stretch[take..] == text[si + take..end] && r.atoms[ai..][1..] == r.atoms[ai + 1..];
    assert Fits(r.atoms[ai], stretch[..take]);
    CutFirst(r.atoms[ai..], stretch, take);
    assert MatchesUpTo(r, ai, text, si, end);
  }

  lemma SomeTaken(r: Regex, ai: nat, text: string, si: nat, count: nat, next: nat)
    requires next == ai + 1 && ai < |r.atoms| && r.atoms[ai].Many? && si + count <= |text|
    requires si + count < |text| ==> !Holds(r.atoms[ai].kind, text[si + count])
    ensures MatchesFrom(r, ai, text, si) ==> exists k :: si <= k <= si + count && MatchesFrom(r, next, text, k)
  {
    hide Spells, Holds;
    if MatchesFrom(r, ai, text, si) {
      var end: nat :| MatchesUpTo(r, ai, text, si, end);
      var stretch := text[si..end];
      var k := FirstPiece(r.atoms[ai..], stretch);
      var first := stretch[..k];
      forall j | si <= j < si + k ensures Holds(r.atoms[ai].kind, text[j]) {
        assert first[j - si] == text[j];
      }
      assert stretch[k..] == text[si + k..end] && r.atoms[ai..][1..] == r.atoms[ai + 1..];
      assert MatchesUpTo(r, next, text, si + k, end);
      assert MatchesFrom(r, next, text, si + k);
    }
  }

  /** A stretch of the text that the expression's atoms spell, from the start and up to the
      end where those are anchored. */
  ghost predicate Finds(r: Regex, text: string, start: nat, end: nat)
  {
    && start <= end <= |text|
    && (r.anchoredStart ==> start == 0)
    && (r.anchoredEnd ==> end == |text|)
    && Spells(r.atoms, text[start..end])
  }

  lemma FoundFrom(r: Regex, text: string, start: nat)
    requires start <= |text| && (r.anchoredStart ==> start == 0)
    ensures MatchesFrom(r, 0, text, start) <==> exists end: nat :: Finds(r, text, start, end)
  {
    hide Spells;
    assert r.atoms[0..] == r.atoms;
    if MatchesFrom(r, 0, text, start) {
      var end: nat :| MatchesUpTo(r, 0, text, start, end);
      assert Finds(r, text, start, end);
    }
    if end: nat :| Finds(r, text, start, end) {
      assert MatchesUpTo(r, 0, text, start, end);
    }
  }

  /** Lines 257-268. */
  method IsMatch(r: Regex, text: string) returns (b: bool)
    ensures b <==> exists start: nat, end: nat :: Finds(r, text, start, end)
  {
    hide Spells, MatchesFrom;
    if r.anchoredStart {
      FoundFrom(r, text, 0);
      b := MatchFrom(r, 0, text, 0);
      return;
    }
    var start := 0;
    while start <= |text|
      invariant 0 <= start <= |text| + 1
      invariant forall from: nat, end: nat :: from < start ==> !Finds(r, text, from, end)
    {
      FoundFrom(r, text, start);
      b := MatchFrom(r, 0, text, start);
      if b {
        return;
      }
      start := start + 1;
    }
    return false;
  }

  // ----- compiling -----------------------------------------------------------------------------

  /** A LIKE pattern read character by character. */
  function LikeTokens(pattern: string): (tokens: seq<Token>)
    ensures forall i :: 0 <= i < |tokens| && tokens[i].Many? ==> tokens[i] == RUN
  {
    if pattern == "" then []
    else if pattern[0] == '\\' && |pattern| > 1 then [One(Literal(pattern[1]))] + LikeTokens(pattern[2..])
    else if pattern[0] == '%' then [RUN] + LikeTokens(pattern[1..])
    else if pattern[0] == '_' then [One(AnyChar)] + LikeTokens(pattern[1..])
    else [One(Literal(pattern[0]))] + LikeTokens(pattern[1..])
  }

  /** The next range of a class; a hyphen before the bracket stands for itself
      (lines 143-156). */
  function ReadRange(s: string): (r: (seq<(char, char)>, string))
    requires s != ""
    ensures |r.1| < |s|
  {
    var c, t := s[0], s[1..];
    if t == "" || t[0] != '-' then ([(c, c)], t)
    else if |t| > 1 && t[1] != ']' then ([(c, t[1])], t[2..])
    else ([(c, c), ('-', '-')], t[1..])
  }

  /** The ranges of a class up to its bracket, or to the end. */
  function ReadRanges(s: string): (r: (seq<(char, char)>, string))
    ensures |r.1| <= |s|
    decreases |s|
  {
    if s == "" then ([], "")
    else if s[0] == ']' then ([], s[1..])
    else
      var next := ReadRange(s);
      var more := ReadRanges(next.1);
      (next.0 + more.0, more.1)
  }

  function ReadClass(s: string): (r: (Element, string))
    ensures |r.1| <= |s|
  {
    var negated := s != "" && (s[0] == '!' || s[0] == '^');
    var ranges := ReadRanges(if negated then s[1..] else s);
    (Class(negated, ranges.0), ranges.1)
  }

  /** A glob read character by character; a backslash at its end is dropped. */
  function GlobTokens(pattern: string): (tokens: seq<Token>)
    ensures forall i :: 0 <= i < |tokens| && tokens[i].Many? ==> tokens[i] == RUN
    decreases |pattern|
  {
    if pattern == "" then []
    else
      var c, rest := pattern[0], pattern[1..];
      if c == '*' then [RUN] + GlobTokens(rest)
      else if c == '?' then [One(AnyChar)] + GlobTokens(rest)
      else if c == '[' then
        var kind := ReadClass(rest);
        [One(kind.0)] + GlobTokens(kind.1)
      else if c == '\\' then if rest == "" then [] else [One(Literal(rest[0]))] + GlobTokens(rest[1..])
      else [One(Literal(c))] + GlobTokens(rest)
  }

  lemma TwoRuns(after: seq<Token>, text: string)
    ensures Spells([RUN, RUN] + after, text) <==> Spells([RUN] + after, text)
  {
    hide Spells, Fits;
    var two, one := [RUN, RUN] + after, [RUN] + after;
    assert two[1..] == one && one[1..] == after;
    if Spells(two, text) {
      var k := FirstPiece(two, text);
      var m := FirstPiece(one, text[k..]);
      AnyRunFits(text[..k + m]);
      assert text[k..][m..] == text[k + m..];
      CutFirst(one, text, k + m);
    }
    if Spells(one, text) {
      AnyRunFits(text[..0]);
      assert text[0..] == text;
      CutFirst(two, text, 0);
    }
  }

  /** Two runs in a row spell what one does. */
  lemma {:induction false} Collapse(before: seq<Token>, after: seq<Token>, text: string)
    ensures Spells(before + ([RUN, RUN] + after), text) <==> Spells(before + ([RUN] + after), text)
    decreases |before|
  {
    hide Spells, Fits;
    var two, one := before + ([RUN, RUN] + after), before + ([RUN] + after);
    if before == [] {
      assert two == [RUN, RUN] + after && one == [RUN] + after;
      TwoRuns(after, text);
    } else {
      assert two[1..] == before[1..] + ([RUN, RUN] + after) && one[1..] == before[1..] + ([RUN] + after);
      if Spells(two, text) {
        var k := FirstPiece(two, text);
        Collapse(before[1..], after, text[k..]);
        CutFirst(one, text, k);
      }
      if Spells(one, text) {
        var k := FirstPiece(one, text);
        Collapse(before[1..], after, text[k..]);
        CutFirst(two, text, k);
      }
    }
  }

  /** Two token lists that spell the same texts. */
  ghost predicate SameTexts(a: seq<Token>, b: seq<Token>)
  {
    forall text: string :: Spells(a, text) <==> Spells(b, text)
  }

  lemma Collapsed(tokens: seq<Token>, after: seq<Token>)
    requires tokens != [] && tokens[|tokens| - 1] == RUN
    ensures SameTexts(tokens + ([RUN] + after), tokens + after)
  {
    hide Spells;
    var before := tokens[..|tokens| - 1];
    assert tokens + ([RUN] + after) == before + ([RUN, RUN] + after) && tokens + after == before + ([RUN] + after);
    forall text: string ensures Spells(tokens + ([RUN] + after), text) <==> Spells(tokens + after, text) {
      Collapse(before, after, text);
    }
  }

  ghost predicate OnlyRuns(tokens: seq<Token>)
  {
    forall i :: 0 <= i < |tokens| && tokens[i].Many? ==> tokens[i] == RUN
  }

  ghost predicate NoTwoRuns(tokens: seq<Token>)
  {
    forall i :: 0 < i < |tokens| ==> !(tokens[i - 1].Many? && tokens[i].Many?)
  }

  lemma NoTokens()
    ensures OnlyRuns([]) && NoTwoRuns([])
  {
  }

  lemma Grown(tokens: seq<Token>, t: Token)
    requires OnlyRuns(tokens) && NoTwoRuns(tokens)
    requires t.One? || (t == RUN && (tokens == [] || tokens[|tokens| - 1] != RUN))
    ensures OnlyRuns(tokens + [t]) && NoTwoRuns(tokens + [t])
  {
  }

  /** Lines 28-51: runs in a row are compiled to one, and the texts matched stay the same. */
  method CompileLike(pattern: string) returns (tokens: seq<Token>)
    ensures OnlyRuns(tokens) && NoTwoRuns(tokens) && SameTexts(tokens, LikeTokens(pattern))
  {
    hide SameTexts, OnlyRuns, NoTwoRuns, Spells;
    tokens := [];
    NoTokens();
    var rest := pattern;
    Same(tokens + LikeTokens(rest), LikeTokens(pattern));
    while rest != ""
      invariant OnlyRuns(tokens) && NoTwoRuns(tokens) && SameTexts(tokens + LikeTokens(rest), LikeTokens(pattern))
      decreases |rest|
    {
      var c := rest[0];
      ghost var was := tokens + LikeTokens(rest);
      if c == '\\' && |rest| > 1 {
        Grown(tokens, One(Literal(rest[1])));
        tokens, rest := tokens + [One(Literal(rest[1]))], rest[2..];
      } else if c == '%' && tokens != [] && tokens[|tokens| - 1] == RUN {
        Collapsed(tokens, LikeTokens(rest[1..]));
        rest := rest[1..];
      } else {
        var t := if c == '%' then RUN else One(if c == '_' then AnyChar else Literal(c));
        Grown(tokens, t);
        tokens, rest := tokens + [t], rest[1..];
      }
      Carried(was, tokens + LikeTokens(rest), LikeTokens(pattern));
    }
    assert tokens + LikeTokens("") == tokens;
  }

  lemma Same(a: seq<Token>, b: seq<Token>)
    requires a == b
    ensures SameTexts(a, b)
  {
  }

  lemma Carried(a: seq<Token>, b: seq<Token>, c: seq<Token>)
    requires (a == b || SameTexts(a, b)) && SameTexts(a, c)
    ensures SameTexts(b, c)
  {
  }

  /** Lines 130-159. */
  method ParseClass(s: string) returns (kind: Element, rest: string)
    ensures (kind, rest) == ReadClass(s)
  {
    hide ReadRange;
    var negated := s != "" && (s[0] == '!' || s[0] == '^');
    rest := if negated then s[1..] else s;
    ghost var all := ReadRanges(rest);
    var ranges: seq<(char, char)> := [];
    while rest != ""
      invariant all.0 == ranges + ReadRanges(rest).0 && all.1 == ReadRanges(rest).1
      decreases |rest|
    {
      if rest[0] == ']' {
        assert all.0 == ranges + [] == ranges;
        return Class(negated, ranges), rest[1..];
      }
      var next := ReadRange(rest);
      ranges, rest := ranges + next.0, next.1;
    }
    assert all.0 == ranges + [] == ranges;
    kind := Class(negated, ranges);
  }

  /** Lines 97-121. */
  method CompileGlob(pattern: string) returns (tokens: seq<Token>)
    ensures OnlyRuns(tokens) && NoTwoRuns(tokens) && SameTexts(tokens, GlobTokens(pattern))
  {
    hide SameTexts, ReadClass, OnlyRuns, NoTwoRuns, Spells;
    tokens := [];
    NoTokens();
    var rest := pattern;
    Same(tokens + GlobTokens(rest), GlobTokens(pattern));
    while rest != ""
      invariant OnlyRuns(tokens) && NoTwoRuns(tokens) && SameTexts(tokens + GlobTokens(rest), GlobTokens(pattern))
      decreases |rest|
    {
      var c := rest[0];
      ghost var was := tokens + GlobTokens(rest);
      var kind: Element;
      rest := rest[1..];
      if c == '*' {
        if tokens == [] || tokens[|tokens| - 1] != RUN {
          Grown(tokens, RUN);
          tokens := tokens + [RUN];
        } else {
          Collapsed(tokens, GlobTokens(rest));
        }
      } else if c == '[' {
        kind, rest := ParseClass(rest);
        Grown(tokens, One(kind));
        tokens := tokens + [One(kind)];
      } else if c != '\\' {
        kind := if c == '?' then AnyChar else Literal(c);
        Grown(tokens, One(kind));
        tokens := tokens + [One(kind)];
      } else if rest != "" {
        kind := Literal(rest[0]);
        Grown(tokens, One(kind));
        tokens, rest := tokens + [One(kind)], rest[1..];
      }
      Carried(was, tokens + GlobTokens(rest), GlobTokens(pattern));
    }
    assert tokens + GlobTokens("") == tokens;
  }

  /** A LIKE pattern matches exactly the texts it spells as it stands. */
  method MatchesLike(pattern: string, text: string) returns (b: bool)
    ensures b <==> Spells(LikeTokens(pattern), text)
  {
    hide Spells;
    var tokens := CompileLike(pattern);
    assert tokens[0..] == tokens && text[0..] == text;
    b := WildcardMatch(tokens, 0, text, 0);
  }

  /** So does a glob. */
  method MatchesGlob(pattern: string, text: string) returns (b: bool)
    ensures b <==> Spells(GlobTokens(pattern), text)
  {
    hide Spells;
    var tokens := CompileGlob(pattern);
    assert tokens[0..] == tokens && text[0..] == text;
    b := WildcardMatch(tokens, 0, text, 0);
  }

  /** A regular expression's atoms, and whether a dollar sign ends it. */
  function ReadAtoms(s: string): (seq<Token>, bool)
    decreases |s|
  {
    if s == "" then ([], false)
    else if s == "$" then ([], true)
    else
      var (kind, rest) := ReadKind(s);
      if rest != "" && rest[0] == '*' then
        var more := ReadAtoms(rest[1..]);
        ([Many(kind)] + more.0, more.1)
      else
        var more := ReadAtoms(rest);
        ([One(kind)] + more.0, more.1)
  }

  function ReadKind(s: string): (r: (Element, string))
    requires s != ""
    ensures |r.1| < |s|
  {
    if s[0] == '.' then (AnyChar, s[1..])
    else if s[0] == '[' then ReadClass(s[1..])
    else if s[0] == '\\' && |s| > 1 then (Literal(s[1]), s[2..])
    else (Literal(s[0]), s[1..])
  }

  /** Lines 224-242. */
  method ParseKind(s: string) returns (kind: Element, rest: string)
    requires s != ""
    ensures (kind, rest) == ReadKind(s)
  {
    hide ReadClass;
    var c := s[0];
    rest := s[1..];
    if c == '.' {
      kind := AnyChar;
    } else if c == '[' {
      kind, rest := ParseClass(rest);
    } else if c == '\\' && rest != "" {
      kind, rest := Literal(rest[0]), rest[1..];
    } else {
      kind := Literal(c);
    }
  }

  /** Lines 214-254. */
  method CompileRegex(pattern: string) returns (r: Regex)
    ensures r.anchoredStart <==> pattern != "" && pattern[0] == '^'
    ensures (r.atoms, r.anchoredEnd) == ReadAtoms(if r.anchoredStart then pattern[1..] else pattern)
  {
    hide ReadKind, ReadAtoms;
    var anchoredStart := pattern != "" && pattern[0] == '^';
    var rest := if anchoredStart then pattern[1..] else pattern;
    ghost var all := ReadAtoms(rest);
    var atoms: seq<Token> := [];
    while rest != ""
      invariant all.0 == atoms + ReadAtoms(rest).0 && all.1 == ReadAtoms(rest).1
      decreases |rest|
    {
      AtomsNext(atoms, rest);
      if rest == "$" {
        return Regex(atoms, anchoredStart, true);
      }
      var kind: Element;
      kind, rest := ParseKind(rest);
      if rest != "" && rest[0] == '*' {
        atoms, rest := atoms + [Many(kind)], rest[1..];
      } else {
        atoms := atoms + [One(kind)];
      }
    }
    AtomsNext(atoms, "");
    r := Regex(atoms, anchoredStart, false);
  }

  /** How the atoms of the rest go on behind those read so far. */
  lemma AtomsNext(atoms: seq<Token>, rest: string)
    ensures rest == "" ==> atoms + ReadAtoms(rest).0 == atoms && !ReadAtoms(rest).1
    ensures rest == "$" ==> atoms + ReadAtoms(rest).0 == atoms && ReadAtoms(rest).1
    ensures rest != "" && rest != "$" ==>
              var (kind, more) := ReadKind(rest);
              var starred := more != "" && more[0] == '*';
              var next := ReadAtoms(if starred then more[1..] else more);
              atoms + ReadAtoms(rest).0 == (atoms + [if starred then Many(kind) else One(kind)]) + next.0
              && ReadAtoms(rest).1 == next.1
  {
    hide ReadKind;
  }
}
