/** Single edit steps, one after the other, against the distance with transpositions
    (src/editdist.rs, lines 64-93). The table prices scripts, in which no stretch of the text is
    edited twice; steps may edit what earlier steps have made. */
module EditSteps {
  import opened EditDistance

  // ----- steps -------------------------------------------------------------------------------

  /** One insertion, deletion, replacement or exchange of neighbours, anywhere. */
  ghost predicate Changes(a: string, b: string, u: string, e: Edit, v: string)
  {
    !e.Keep? && a == u + Reads(e) + v && b == u + Writes(e) + v
  }

  ghost predicate OneStep(a: string, b: string)
  {
    exists u, e, v :: Changes(a, b, u, e, v)
  }

  /** A text after every step. */
  ghost predicate Path(p: seq<string>, a: string, b: string)
  {
    && p != [] && p[0] == a && p[|p| - 1] == b
    && forall i :: 0 <= i < |p| - 1 ==> OneStep(p[i], p[i + 1])
  }

  ghost predicate Reached(n: nat, a: string, b: string)
  {
    exists p :: Path(p, a, b) && |p| == n + 1
  }

  /** The least number of steps. */
  ghost predicate IsLeast(n: nat, a: string, b: string)
  {
    Reached(n, a, b) && forall m: nat :: Reached(m, a, b) ==> n <= m
  }

  // ----- steps that edit no stretch twice ----------------------------------------------------

  /** A text that nothing was done to. */
  function Kept(a: string): seq<Edit>
  {
    if a == [] then [] else Kept(a[..|a| - 1]) + [Keep(a[|a| - 1])]
  }

  ghost predicate Untouched(s: seq<Edit>)
  {
    forall i :: 0 <= i < |s| ==> s[i].Keep?
  }

  /** An edit of a stretch that nothing was done to. */
  ghost predicate Touches(s: seq<Edit>, t: seq<Edit>, u: seq<Edit>, w: seq<Edit>, e: Edit, v: seq<Edit>)
  {
    && s == u + w + v && t == u + [e] + v
    && !e.Keep? && Untouched(w) && Source(w) == Reads(e)
  }

  ghost predicate Touch(s: seq<Edit>, t: seq<Edit>)
  {
    exists u, w, e, v :: Touches(s, t, u, w, e, v)
  }

  /** What was done so far after every step, each step editing what no step before it edited: a
      character replaced or inserted, the place of a deleted one, or two exchanged ones together. */
  ghost predicate Single(q: seq<seq<Edit>>, a: string, b: string)
  {
    && q != [] && q[0] == Kept(a) && Target(q[|q| - 1]) == b
    && forall i :: 0 <= i < |q| - 1 ==> Touch(q[i], q[i + 1])
  }

  /** The texts of such steps. */
  function Texts(q: seq<seq<Edit>>): seq<string>
  {
    seq(|q|, i requires 0 <= i < |q| => Target(q[i]))
  }

  /** Some path of this many steps edits no stretch twice. */
  ghost predicate SinglyReached(n: nat, a: string, b: string)
  {
    exists q :: Single(q, a, b) && |q| == n + 1
  }

  lemma LastOf(s: seq<Edit>, e: Edit)
    ensures Source(s + [e]) == Source(s) + Reads(e) && Target(s + [e]) == Target(s) + Writes(e)
    ensures Cost(s + [e]) == Cost(s) + if e.Keep? then 0 else 1
  {
    assert (s + [e])[..|s|] == s;
    hide Reads, Writes;
  }

  lemma {:induction false} Concats(s: seq<Edit>, t: seq<Edit>)
    ensures Source(s + t) == Source(s) + Source(t) && Target(s + t) == Target(s) + Target(t)
            && Cost(s + t) == Cost(s) + Cost(t)
  {
    NoEdits();
    hide Source, Target, Cost, Reads, Writes;
    if t == [] {
      assert s + t == s && Source(s) + [] == Source(s) && Target(s) + [] == Target(s);
    } else {
      var r, e := t[..|t| - 1], t[|t| - 1];
      Concats(s, r);
      LastOf(r, e);
      LastOf(s + r, e);
      assert t == r + [e];
      assert s + (r + [e]) == (s + r) + [e];
      assert (Source(s) + Source(r)) + Reads(e) == Source(s) + (Source(r) + Reads(e));
      assert (Target(s) + Target(r)) + Writes(e) == Target(s) + (Target(r) + Writes(e));
    }
  }

  lemma NoEdits()
    ensures Source([]) == [] && Target([]) == [] && Cost([]) == 0
  {
  }

  lemma {:induction false} UntouchedIs(s: seq<Edit>)
    requires Untouched(s)
    ensures Target(s) == Source(s) && Cost(s) == 0
  {
    if s != [] {
      UntouchedIs(s[..|s| - 1]);
    }
  }

  lemma {:induction false} KeptIs(a: string)
    ensures Untouched(Kept(a)) && Source(Kept(a)) == a && Target(Kept(a)) == a && Cost(Kept(a)) == 0
  {
    NoEdits();
    assert Kept([]) == [];
    hide Kept, Source, Target, Cost;
    if a != [] {
      var b, c := a[..|a| - 1], a[|a| - 1];
      assert a == b + [c];
      KeptIs(b);
      KeptMore(b, c);
      LastOf(Kept(b), Keep(c));
    }
  }

  lemma KeptMore(b: string, c: char)
    ensures Kept(b + [c]) == Kept(b) + [Keep(c)]
  {
    assert (b + [c])[..|b|] == b;
  }

  lemma OneEdit(e: Edit)
    ensures Source([e]) == Reads(e) && Target([e]) == Writes(e) && Cost([e]) == if e.Keep? then 0 else 1
  {
    assert [e][..0] == [];
  }

  lemma {:induction false} KeptConcat(a: string, b: string)
    ensures Kept(a + b) == Kept(a) + Kept(b)
  {
    if b == [] {
      assert a + b == a;
    } else {
      KeptConcat(a, b[..|b| - 1]);
      assert (a + b)[..|a + b| - 1] == a + b[..|b| - 1];
    }
  }

  /** Such an edit is a step, and costs one. */
  lemma TouchIsStep(s: seq<Edit>, t: seq<Edit>)
    requires Touch(s, t)
    ensures OneStep(Target(s), Target(t)) && Source(t) == Source(s) && Cost(t) == Cost(s) + 1
  {
    var u, w, e, v :| Touches(s, t, u, w, e, v);
    Concats(u, w);
    Concats(u + w, v);
    Concats(u, [e]);
    Concats(u + [e], v);
    OneEdit(e);
    UntouchedIs(w);
    assert Changes(Target(s), Target(t), Target(u), e, Target(v));
  }

  lemma {:induction false} SingleCosts(q: seq<seq<Edit>>, n: nat)
    requires n < |q| && forall i :: 0 <= i < |q| - 1 ==> Touch(q[i], q[i + 1])
    ensures Source(q[n]) == Source(q[0]) && Cost(q[n]) == Cost(q[0]) + n
  {
    if n > 0 {
      SingleCosts(q, n - 1);
      TouchIsStep(q[n - 1], q[n]);
    }
  }

  /** Steps that edit no stretch twice are steps, and make a script of their number. */
  lemma SingleIsPath(q: seq<seq<Edit>>, a: string, b: string)
    requires Single(q, a, b)
    ensures Path(Texts(q), a, b) && |Texts(q)| == |q|
    ensures Edits(q[|q| - 1], a, b, true) && Cost(q[|q| - 1]) == |q| - 1
  {
    hide Source, Target, Cost, Kept, Touch;
    KeptIs(a);
    SingleCosts(q, |q| - 1);
    forall i | 0 <= i < |q| - 1 ensures OneStep(Texts(q)[i], Texts(q)[i + 1]) {
      TouchIsStep(q[i], q[i + 1]);
    }
  }

  /** States behind which a stretch is still untouched. */
  function Before(q: seq<seq<Edit>>, w: seq<Edit>): seq<seq<Edit>>
  {
    seq(|q|, i requires 0 <= i < |q| => q[i] + w)
  }

  lemma TouchBefore(s: seq<Edit>, t: seq<Edit>, w: seq<Edit>)
    requires Touch(s, t)
    ensures Touch(s + w, t + w)
  {
    var u, x, e, v :| Touches(s, t, u, x, e, v);
    assert s + w == u + x + (v + w) && t + w == u + [e] + (v + w);
    assert Touches(s + w, t + w, u, x, e, v + w);
  }

  /** Every script can be made edit by edit, from the left. */
  lemma {:induction false} MadeSingly(s: seq<Edit>) returns (q: seq<seq<Edit>>)
    ensures Single(q, Source(s), Target(s)) && |q| == Cost(s) + 1 && q[|q| - 1] == s
  {
    NoEdits();
    if s == [] {
      q := [[]];
    } else {
      hide Source, Target, Cost, Touch, Kept, Reads, Writes, Single;
      var r, e := s[..|s| - 1], s[|s| - 1];
      assert s == r + [e];
      LastOf(r, e);
      var front := MadeSingly(r);
      q := MoreKept(front, Source(r), Target(r), Reads(e));
      if e.Keep? {
        KeptOne(e);
      } else {
        LastTouch(r, e);
        OneMore(q, Source(s), Target(r) + Reads(e), s);
        q := q + [s];
      }
    }
  }

  lemma OneMore(q: seq<seq<Edit>>, a: string, b: string, s: seq<Edit>)
    requires Single(q, a, b) && Touch(q[|q| - 1], s)
    ensures Single(q + [s], a, Target(s))
  {
    hide Touch, Target, Kept;
  }

  lemma KeptOne(e: Edit)
    requires e.Keep?
    ensures Kept(Reads(e)) == [e] && Writes(e) == Reads(e)
  {
    assert Kept(Reads(e)[..0]) == [];
  }

  lemma LastTouch(r: seq<Edit>, e: Edit)
    requires !e.Keep?
    ensures Touch(r + Kept(Reads(e)), r + [e])
  {
    KeptIs(Reads(e));
    hide Source, Kept;
    assert Touches(r + Kept(Reads(e)), r + [e], r, Kept(Reads(e)), e, []);
  }

  /** The same steps before a stretch that is still untouched. */
  lemma MoreKept(front: seq<seq<Edit>>, a: string, b: string, c: string) returns (q: seq<seq<Edit>>)
    requires Single(front, a, b)
    ensures q == Before(front, Kept(c)) && Single(q, a + c, b + c)
  {
    hide Source, Target, Touch;
    q := Before(front, Kept(c));
    KeptConcat(a, c);
    KeptIs(c);
    Concats(front[|front| - 1], Kept(c));
    forall i | 0 <= i < |q| - 1 ensures Touch(q[i], q[i + 1]) {
      TouchBefore(front[i], front[i + 1], Kept(c));
    }
    hide Kept;
  }

  // ----- the least number of steps -----------------------------------------------------------

  /** There is one. */
  lemma LeastSteps(a: string, b: string) returns (n: nat)
    ensures IsLeast(n, a, b)
  {
    DistanceReached(a, b);
    n := Least(a, b, Distance(a, b, true));
  }

  lemma {:induction false} Least(a: string, b: string, bound: nat) returns (n: nat)
    requires Reached(bound, a, b)
    ensures IsLeast(n, a, b)
  {
    if m: nat :| Reached(m, a, b) && m < bound {
      n := Least(a, b, m);
    } else {
      n := bound;
    }
  }

  /** The distance is the number of some steps that edit no stretch twice. */
  lemma DistanceReached(a: string, b: string)
    ensures SinglyReached(Distance(a, b, true), a, b) && Reached(Distance(a, b, true), a, b)
  {
    hide Distance;
    var s := Attained(a, b, true);
    var q := MadeSingly(s);
    SingleIsPath(q, a, b);
  }

  /** The distance is at least the least number of steps, and equals it if and only if that many
      steps can do without editing any stretch twice. */
  lemma DistanceIffSingle(a: string, b: string, n: nat)
    requires IsLeast(n, a, b)
    ensures n <= Distance(a, b, true)
    ensures n == Distance(a, b, true) <==> SinglyReached(n, a, b)
  {
    hide Distance;
    DistanceReached(a, b);
    if SinglyReached(n, a, b) {
      var q :| Single(q, a, b) && |q| == n + 1;
      SingleIsPath(q, a, b);
      Minimal(q[n], a, b, true);
    }
  }

  /** Two steps turn CA into ABC, while the table says three: the second step inserts between what
      the first one exchanged. So the triangle inequality fails with transpositions. */
  lemma TwiceEditedCounterexample()
    ensures IsLeast(2, "CA", "ABC") && Distance("CA", "ABC", true) == 3
    ensures Distance("CA", "AC", true) + Distance("AC", "ABC", true) < Distance("CA", "ABC", true)
  {
    ShortDistances();
    hide Distance;
    assert "CA" == "" + Reads(Swap('C', 'A')) + "" && "AC" == "" + Writes(Swap('C', 'A')) + "";
    assert Changes("CA", "AC", "", Swap('C', 'A'), "");
    assert "AC" == "A" + Reads(Insert('B')) + "C" && "ABC" == "A" + Writes(Insert('B')) + "C";
    assert Changes("AC", "ABC", "A", Insert('B'), "C");
    var p := ["CA", "AC", "ABC"];
    assert Path(p, "CA", "ABC");
    NotInOne();
  }

  lemma NotInOne()
    ensures forall m: nat :: Reached(m, "CA", "ABC") ==> m >= 2
  {
    forall m: nat | Reached(m, "CA", "ABC") ensures m >= 2 {
      var p :| Path(p, "CA", "ABC") && |p| == m + 1;
      assert m == 1 ==> OneStep(p[0], p[1]);
      OneInserted("ABC");
    }
  }

  lemma OneInserted(b: string)
    requires |b| == 3
    ensures OneStep("CA", b) ==> b[0] == 'C' || b[1..] == "CA"
  {
    if OneStep("CA", b) {
      var u, e, v :| Changes("CA", b, u, e, v);
      assert |Writes(e)| == |Reads(e)| + 1;
      assert e.Insert? && "CA" == u + v;
      if u == [] {
        assert b == [e.c] + v;
      } else {
        assert u[0] == (u + v)[0] && b[0] == u[0];
      }
    }
  }

  lemma ShortDistances()
    ensures Distance("CA", "AC", true) == 1 && Distance("AC", "ABC", true) == 1 && Distance("CA", "ABC", true) == 3
  {
  }
}
