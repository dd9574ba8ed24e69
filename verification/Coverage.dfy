/** Which stretches of a text a pass leaves whole. */
module Coverage {
  import opened Regex
  import opened Substitution
  import opened Pipeline
  import opened Glue
  import opened Search
  import opened Settling
  import opened Residue

  /** Some stretch that is kept contains positions i to j. */
  ghost predicate Whole(p: Pieces, i: nat, j: nat) {
    exists a: nat, b: nat :: Keeps(p, a, b) && a <= i && j <= b
  }

  // ------------------------------------------------------------- one scan

  lemma KeepsCut(h: string, rest: Pieces, a: nat, b: nat)
    ensures Keeps(Cut("", h, rest), a, b)
       <==> (a == 0 && b == 0) || (|h| <= a && |h| <= b && Keeps(rest, a - |h|, b - |h|))
  {}

  lemma KeepsPrepend(u: string, rest: Pieces, a: nat, b: nat)
    requires u != "" && Solid(rest)
    ensures Keeps(Prepend(u, rest), a, b)
       <==> if a == 0 then b == |u| + |rest.kept|
            else |u| < a && |u| <= b && Keeps(rest, a - |u|, b - |u|)
  {}

  lemma KeepsStart(p: Pieces)
    ensures Keeps(p, 0, |p.kept|)
  {}

  lemma KeptStartsOnce(p: Pieces, b: nat)
    requires Solid(p) && Keeps(p, 0, b)
    ensures b == |p.kept|
  {}

  /** No kept stretch overlaps a masked match. */
  lemma {:induction false} KeptApart(g: Gate, st: Stage, pw: bool, s: string, a: nat, b: nat, i: nat, j: nat)
    requires Sound(st) && Keeps(Split(g, st, pw, s), a, b) && Masked(g, st, pw, s, i, j)
    ensures b <= i || j <= a
    decreases |s|
  {
    hide Sub, Split, Step, Masked, Keeps;
    MaskedNonempty(g, st, pw, s, i, j);
    Unfold(g, st, pw, s);
    var (n, hot) := Step(g, st, pw, s);
    var rest := Split(g, st, Word(s[n - 1]), s[n..]);
    SplitSolid(g, st, Word(s[n - 1]), s[n..]);
    MaskedShift(g, st, pw, s, i, j);
    KeepsStart(rest);
    if hot {
      KeepsCut(s[..n], rest, a, b);
      if n <= i && n <= a { KeptApart(g, st, Word(s[n - 1]), s[n..], a - n, b - n, i - n, j - n); }
    } else {
      KeepsPrepend(s[..n], rest, a, b);
      if a == 0 {
        KeptApart(g, st, Word(s[n - 1]), s[n..], 0, |rest.kept|, i - n, j - n);
      } else {
        KeptApart(g, st, Word(s[n - 1]), s[n..], a - n, b - n, i - n, j - n);
      }
    }
  }

  lemma WholeShift(g: Gate, st: Stage, pw: bool, s: string, i: nat, j: nat)
    requires s != "" && i < j <= |s|
    ensures var (n, hot) := Step(g, st, pw, s);
            var rest := Split(g, st, Word(s[n - 1]), s[n..]);
            && (n <= i && Whole(rest, i - n, j - n) ==> Whole(Split(g, st, pw, s), i, j))
            && (!hot && i < n && j <= n ==> Whole(Split(g, st, pw, s), i, j))
            && (!hot && i < n < j && Whole(rest, 0, j - n) ==> Whole(Split(g, st, pw, s), i, j))
  {
    hide Sub, Split, Step, Keeps;
    Unfold(g, st, pw, s);
    var (n, hot) := Step(g, st, pw, s);
    var rest := Split(g, st, Word(s[n - 1]), s[n..]);
    var p := Split(g, st, pw, s);
    SplitSolid(g, st, Word(s[n - 1]), s[n..]);
    if !hot {
      KeepsPrepend(s[..n], rest, 0, n + |rest.kept|);
      assert Keeps(p, 0, n + |rest.kept|);
    }
    if a: nat, b: nat :| Keeps(rest, a, b) && n <= i && a <= i - n && j - n <= b {
      if hot {
        KeepsCut(s[..n], rest, n + a, n + b);
        assert Keeps(p, n + a, n + b);
      } else if a > 0 {
        KeepsPrepend(s[..n], rest, n + a, n + b);
        assert Keeps(p, n + a, n + b);
      } else {
        KeptStartsOnce(rest, b);
      }
    }
    if b: nat :| Keeps(rest, 0, b) && n < j && j - n <= b { KeptStartsOnce(rest, b); }
  }

  /** What no masked match overlaps is left whole. */
  lemma {:induction false} UntouchedWhole(g: Gate, st: Stage, pw: bool, s: string, i: nat, j: nat)
    requires Sound(st) && i < j <= |s|
    requires forall h: nat, k: nat | Masked(g, st, pw, s, h, k) :: k <= i || j <= h
    ensures Whole(Split(g, st, pw, s), i, j)
    decreases |s|
  {
    hide Sub, Split, Step, Masked, Whole;
    var (n, hot) := Step(g, st, pw, s);
    var pw', t := Word(s[n - 1]), s[n..];
    WholeShift(g, st, pw, s, i, j);
    MaskedShift(g, st, pw, s, 0, n);
    forall h: nat, k: nat | Masked(g, st, pw', t, h, k) ensures n + k <= i || j <= n + h {
      MaskedNonempty(g, st, pw', t, h, k);
      MaskedShift(g, st, pw, s, n + h, n + k);
    }
    if n <= i {
      UntouchedWhole(g, st, pw', t, i - n, j - n);
    } else if n < j {
      UntouchedWhole(g, st, pw', t, 0, j - n);
    }
  }

  /** A stretch survives a substitution whole exactly when no masked match
    * overlaps it.
    */
  lemma WholeIff(g: Gate, st: Stage, s: string, i: nat, j: nat)
    requires Sound(st) && i < j <= |s|
    ensures Whole(Split(g, st, false, s), i, j)
       <==> forall h: nat, k: nat | Masked(g, st, false, s, h, k) :: k <= i || j <= h
  {
    hide Split, Masked, Keeps;
    if a: nat, b: nat :| Keeps(Split(g, st, false, s), a, b) && a <= i && j <= b {
      forall h: nat, k: nat | Masked(g, st, false, s, h, k) ensures k <= i || j <= h {
        MaskedNonempty(g, st, false, s, h, k);
        KeptApart(g, st, false, s, a, b, h, k);
      }
    }
    if forall h: nat, k: nat | Masked(g, st, false, s, h, k) :: k <= i || j <= h {
      UntouchedWhole(g, st, false, s, i, j);
    }
  }

  // ------------------------------------------------------------ a whole pass

  lemma {:induction false} JoinKeeps(p: Pieces, h: string, q: Pieces, a: nat, b: nat)
    requires Keeps(Join(p, h, q), a, b)
    ensures Keeps(p, a, b) || (|Origin(p)| + |h| <= a && |Origin(p)| + |h| <= b
                               && Keeps(q, a - |Origin(p)| - |h|, b - |Origin(p)| - |h|))
    decreases p
  {
    if p.Cut? && !(a == 0 && b == |p.kept|) {
      var n := |p.kept| + |p.hit|;
      JoinKeeps(p.rest, h, q, a - n, b - n);
    }
  }

  lemma {:induction false} KeepsInside(p: Pieces, a: nat, b: nat)
    requires Keeps(p, a, b)
    ensures a <= b <= |Origin(p)|
    decreases p
  {
    if p.Cut? && !(a == 0 && b == |p.kept|) {
      var n := |p.kept| + |p.hit|;
      KeepsInside(p.rest, a - n, b - n);
    }
  }

  /** Later stages only cut up what earlier ones kept. */
  lemma {:induction false} ExpandKeeps(g: Gate, stages: seq<Stage>, p: Pieces, a: nat, b: nat)
    requires AllSound(stages) && Keeps(Expand(g, stages, p), a, b)
    ensures Whole(p, a, b)
    decreases p
  {
    hide Plan;
    PlanCorrect(g, stages, p.kept);
    KeepsStart(p);
    if p.Tail? {
      KeepsInside(Plan(g, stages, p.kept), a, b);
      assert Keeps(p, 0, |p.kept|);
    } else {
      JoinKeeps(Plan(g, stages, p.kept), p.hit, Expand(g, stages, p.rest), a, b);
      if Keeps(Plan(g, stages, p.kept), a, b) {
        KeepsInside(Plan(g, stages, p.kept), a, b);
        assert Keeps(p, 0, |p.kept|);
      } else {
        var n := |p.kept| + |p.hit|;
        ExpandKeeps(g, stages, p.rest, a - n, b - n);
        var a': nat, b': nat :| Keeps(p.rest, a', b') && a' <= a - n && b - n <= b';
        assert Keeps(p, n + a', n + b');
      }
    }
  }

  /** What the first stage masks is left whole by no pass. */
  lemma FirstMaskedNotWhole(g: Gate, stages: seq<Stage>, s: string, i: nat, j: nat)
    requires AllSound(stages) && stages != [] && Masked(g, stages[0], false, s, i, j)
    ensures !Whole(Plan(g, stages, s), i, j)
  {
    hide Split, Masked, Keeps, Expand;
    MaskedNonempty(g, stages[0], false, s, i, j);
    if a: nat, b: nat :| Keeps(Plan(g, stages, s), a, b) && a <= i && j <= b {
      ExpandKeeps(g, stages[1..], Split(g, stages[0], false, s), a, b);
      var a': nat, b': nat :| Keeps(Split(g, stages[0], false, s), a', b') && a' <= a && b <= b';
      KeptApart(g, stages[0], false, s, a', b', i, j);
    }
  }

  lemma RestView(l: bool, p: Pieces, a: nat, b: nat)
    requires p.Cut? && p.hit != "" && a <= b <= |Origin(p.rest)|
    ensures var n, s, u := |p.kept| + |p.hit|, Origin(p), Origin(p.rest);
            && n + b <= |s| && s[n + a..n + b] == u[a..b] && s[n + b..] == u[b..]
            && PrevWord(l, s, n + a) == PrevWord(EndsWord(p.hit), u, a)
  {
    hide Origin, Word;
    var m, n, s, u := |p.kept|, |p.kept| + |p.hit|, Origin(p), Origin(p.rest);
    CutLayout(p);
    RestSlice(p, a, b);
    RestSlice(p, b, |u|);
    assert s[n + b..] == s[n + b..n + |u|] && u[b..] == u[b..|u|];
    if a == 0 {
      assert s[m..n][|p.hit| - 1] == s[n - 1];
    } else {
      assert s[n..][a - 1] == s[n + a - 1];
    }
  }

  /** What holds along the kept stretches, told by positions. */
  lemma {:induction false} AlongAt(
      q: (bool, string, string) -> bool, l: bool, p: Pieces, y: string, a: nat, b: nat)
    requires Along(q, l, p, y) && Keeps(p, a, b)
    ensures a <= b <= |Origin(p)|
    ensures q(PrevWord(l, Origin(p), a), Origin(p)[a..b], Origin(p)[b..] + y)
    decreases p
  {
    hide Origin, PrevWord;
    KeepsInside(p, a, b);
    if p.Cut? && !(a == 0 && b == |p.kept|) {
      var n := |p.kept| + |p.hit|;
      KeepsInside(p.rest, a - n, b - n);
      AlongAt(q, EndsWord(p.hit), p.rest, y, a - n, b - n);
      RestView(l, p, a - n, b - n);
    } else {
      FirstView(l, p, y);
    }
  }

  lemma FirstView(l: bool, p: Pieces, y: string)
    ensures |p.kept| <= |Origin(p)| && Origin(p)[0..|p.kept|] == p.kept
    ensures Origin(p)[|p.kept|..] + y == if p.Tail? then y else p.hit + Origin(p.rest) + y
    ensures PrevWord(l, Origin(p), 0) == l
  {
    if p.Cut? { assert Origin(p)[|p.kept|..] == p.hit + Origin(p.rest); }
  }

  lemma OccursWithin(p: Pattern, s: string, a: nat, b: nat, i: nat, j: nat)
    requires Proper(p) && Occurs(p, s, i, j) && a <= i && j <= b <= |s|
    ensures Occurs(p, s[a..b], i - a, j - a)
  {
    SliceSlice(s, a, b, i - a, j - a);
    ProperEnds(p, s[i..j]);
  }

  /** A match with boundaries of its own in s needs none made by a cut. */
  lemma NotFlush(p: Pattern, s: string, a: nat, b: nat, i: nat, j: nat)
    requires Proper(p) && Occurs(p, s, i, j) && a <= i && j <= b <= |s|
    ensures !Flush(p, PrevWord(false, s, a), s[a..b], AtWord(s[b..]), i - a, j - a)
  {
    ProperEnds(p, s[i..j]);
  }

  /** A match that has the boundaries it asks for in the text itself is never left
    * whole, whatever is masked around it.
    */
  lemma OccurrenceNotWhole(g: Gate, stages: seq<Stage>, x: nat, s: string, i: nat, j: nat)
    requires AllSound(stages) && x < |stages| && !stages[x].gated
    requires Occurs(stages[x].re.pat, s, i, j)
    ensures !Whole(Plan(g, stages, s), i, j)
  {
    hide Plan, Keeps, Along, Occurs, Flush, Proper;
    var p := stages[x].re.pat;
    PlanCorrect(g, stages, s);
    PlanHushed(g, stages, x, false, s, "");
    if a: nat, b: nat :| Keeps(Plan(g, stages, s), a, b) && a <= i && j <= b {
      AlongAt(HushedQ(p), false, Plan(g, stages, s), "", a, b);
      assert s[b..] + "" == s[b..];
      OccursWithin(p, s, a, b, i, j);
      NotFlush(p, s, a, b, i, j);
    }
  }
}
