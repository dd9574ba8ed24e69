/** What a pass leaves: no match of a pattern without `\b`, and no boundary that
  * a pattern closed on both sides could have made.
  */
module Residue {
  import opened Regex
  import opened Substitution
  import opened Pipeline
  import opened Glue
  import opened Settling

  lemma {:induction false} HushedQuiet(g: Gate, st: Stage, l: bool, p: Pieces)
    requires Sound(st) && !st.gated && !st.re.pat.left && !st.re.pat.right
    requires Along(HushedQ(st.re.pat), l, p, "")
    ensures KeptQuiet(g, [st], p)
    decreases p
  {
    hide Split, Occurs;
    QuietIffNoOccurrence(g, st, p.kept);
    if p.Cut? { HushedQuiet(g, st, EndsWord(p.hit), p.rest); }
  }

  /** A pattern without `\b` on either side never matches in the output of a
    * pass: later stages cannot rebuild what its stage removed.
    */
  lemma NoResidue(g: Gate, stages: seq<Stage>, k: nat, s: string, i: nat, j: nat)
    requires AllSound(stages) && k < |stages|
    requires !stages[k].gated && !stages[k].re.pat.left && !stages[k].re.pat.right
    ensures !Occurs(stages[k].re.pat, Run(g, stages, s), i, j)
  {
    hide Run, Plan, Split, Occurs, Load;
    var st, p := stages[k], Plan(g, stages, s);
    PlanCorrect(g, stages, s);
    PlanHushed(g, stages, k, false, s, "");
    HushedQuiet(g, st, false, p);
    RenderLoad(g, [st], p);
    RunLoad(g, [st], Render(p));
    assert Quiet(g, [st], Render(p));
    assert Split(g, [st][0], false, Render(p)).Tail?;
    QuietIffNoOccurrence(g, st, Render(p));
  }

  // ------------------------------------------------ cuts that make no boundary

  /** A cut between two word characters is at a text that satisfies f if its
    * front made the boundary, and e if its back did.
    */
  ghost predicate Sealed(f: string -> bool, e: string -> bool, p: Pieces) {
    p.Cut? ==>
      && (EndsWord(p.kept) && AtWord(p.hit) ==> f(p.hit))
      && (EndsWord(p.hit) && AtWord(p.rest.kept) ==> e(p.hit))
      && Sealed(f, e, p.rest)
  }

  /** The front of a match of p is anchored, or never a word character. */
  ghost predicate ClosedBefore(p: Pattern) {
    p.left || forall h: string :: Lang(p.atoms, h) ==> !AtWord(h)
  }

  ghost predicate ClosedAfter(p: Pattern) {
    p.right || forall h: string :: Lang(p.atoms, h) ==> !EndsWord(h)
  }

  function LastKept(p: Pieces): string
    decreases p
  {
    match p
    case Tail(k) => k
    case Cut(_, _, rest) => LastKept(rest)
  }

  lemma {:induction false} KeptEnds(p: Pieces)
    ensures AtWord(p.kept) ==> AtWord(Origin(p))
    ensures EndsWord(LastKept(p)) ==> EndsWord(Origin(p))
    decreases p
  {
    if p.Cut? { KeptEnds(p.rest); }
  }

  lemma {:induction false} JoinSealed(f: string -> bool, e: string -> bool, p: Pieces, h: string, q: Pieces)
    requires Sealed(f, e, p) && Sealed(f, e, q)
    requires EndsWord(LastKept(p)) && AtWord(h) ==> f(h)
    requires EndsWord(h) && AtWord(q.kept) ==> e(h)
    ensures Sealed(f, e, Join(p, h, q))
    decreases p
  {
    if p.Cut? { JoinSealed(f, e, p.rest, h, q); }
  }

  /** The first cut of a scan is at a match; on a closed side of it, no two word
    * characters are parted.
    */
  lemma {:induction false} ClosedCut(g: Gate, st: Stage, pw: bool, s: string)
    requires Sound(st) && Split(g, st, pw, s).Cut?
    ensures var p := Split(g, st, pw, s);
            && Lang(st.re.pat.atoms, p.hit)
            && (ClosedBefore(st.re.pat) ==>
                  !(EndsWord(p.kept) && AtWord(p.hit)) && !(p.kept == "" && pw && AtWord(p.hit)))
            && (ClosedAfter(st.re.pat) ==> !(EndsWord(p.hit) && AtWord(Origin(p.rest))))
    decreases |s|
  {
    hide Sub, Split, Step, ClosedBefore, ClosedAfter, Match;
    Unfold(g, st, pw, s);
    var (n, hot) := Step(g, st, pw, s);
    SplitSub(g, st, Word(s[n - 1]), s[n..]);
    if hot {
      StepExact(g, st, pw, s, n);
      ClosedMatch(st.re.pat, pw, s, n);
    } else {
      ClosedCut(g, st, Word(s[n - 1]), s[n..]);
    }
  }

  lemma ClosedMatch(p: Pattern, pw: bool, s: string, n: nat)
    requires Proper(p) && Match(p, pw, s, n)
    ensures Lang(p.atoms, s[..n])
    ensures ClosedBefore(p) ==> !(pw && AtWord(s[..n]))
    ensures ClosedAfter(p) ==> !(EndsWord(s[..n]) && AtWord(s[n..]))
  {
    ProperEnds(p, s[..n]);
  }

  lemma {:induction false} SplitSealed(
      g: Gate, st: Stage, pw: bool, s: string, f: string -> bool, e: string -> bool)
    requires Sound(st)
    requires ClosedBefore(st.re.pat) || forall h: string :: Lang(st.re.pat.atoms, h) ==> f(h)
    requires ClosedAfter(st.re.pat) || forall h: string :: Lang(st.re.pat.atoms, h) ==> e(h)
    ensures Sealed(f, e, Split(g, st, pw, s))
    decreases |s|
  {
    hide Sub, Split, Step, ClosedBefore, ClosedAfter;
    var p := Split(g, st, pw, s);
    FirstCut(g, st, pw, s);
    SplitSub(g, st, pw, s);
    if p.Cut? {
      ClosedCut(g, st, pw, s);
      KeptEnds(p.rest);
      SplitSealed(g, st, EndsWord(p.hit), Origin(p.rest), f, e);
    }
  }

  ghost predicate ClosedExcept(stages: seq<Stage>, f: string -> bool, e: string -> bool) {
    forall i | 0 <= i < |stages| ::
      && (ClosedBefore(stages[i].re.pat) || forall h: string :: Lang(stages[i].re.pat.atoms, h) ==> f(h))
      && (ClosedAfter(stages[i].re.pat) || forall h: string :: Lang(stages[i].re.pat.atoms, h) ==> e(h))
  }

  lemma ClosedRest(stages: seq<Stage>, f: string -> bool, e: string -> bool)
    requires stages != [] && ClosedExcept(stages, f, e)
    ensures ClosedExcept(stages[1..], f, e)
  {
    hide ClosedBefore, ClosedAfter;
    var rest := stages[1..];
    forall i | 0 <= i < |rest|
      ensures && (ClosedBefore(rest[i].re.pat) || forall h: string :: Lang(rest[i].re.pat.atoms, h) ==> f(h))
              && (ClosedAfter(rest[i].re.pat) || forall h: string :: Lang(rest[i].re.pat.atoms, h) ==> e(h))
    {
      assert rest[i] == stages[i + 1];
    }
  }

  lemma {:induction false} PlanSealed(g: Gate, stages: seq<Stage>, s: string, f: string -> bool, e: string -> bool)
    requires AllSound(stages) && ClosedExcept(stages, f, e)
    ensures Sealed(f, e, Plan(g, stages, s))
    decreases |stages|, 0
  {
    hide Split, ClosedBefore, ClosedAfter;
    if stages != [] {
      SplitSealed(g, stages[0], false, s, f, e);
      ClosedRest(stages, f, e);
      ExpandSealed(g, stages[1..], Split(g, stages[0], false, s), f, e);
    }
  }

  lemma {:induction false} ExpandSealed(g: Gate, stages: seq<Stage>, p: Pieces, f: string -> bool, e: string -> bool)
    requires AllSound(stages) && ClosedExcept(stages, f, e) && Sealed(f, e, p)
    ensures Sealed(f, e, Expand(g, stages, p))
    ensures AtWord(Expand(g, stages, p).kept) ==> AtWord(p.kept)
    decreases |stages|, 1, p
  {
    hide Split, Plan, ClosedExcept;
    var q := Plan(g, stages, p.kept);
    PlanSealed(g, stages, p.kept, f, e);
    PlanCorrect(g, stages, p.kept);
    KeptEnds(q);
    if p.Cut? {
      ExpandSealed(g, stages, p.rest, f, e);
      JoinSealed(f, e, q, p.hit, Expand(g, stages, p.rest));
    }
  }

  lemma CutLayout(p: Pieces)
    requires p.Cut?
    ensures var m, n, s := |p.kept|, |p.kept| + |p.hit|, Origin(p);
            && |s| == n + |Origin(p.rest)|
            && s[..m] == p.kept && s[m..n] == p.hit && s[n..] == Origin(p.rest)
  {
    var s := Origin(p);
    assert s == p.kept + p.hit + Origin(p.rest);
    assert s[..|p.kept| + |p.hit|] == p.kept + p.hit;
  }

  lemma RestSlice(p: Pieces, i: nat, j: nat)
    requires p.Cut? && i <= j <= |Origin(p.rest)|
    ensures var n, s := |p.kept| + |p.hit|, Origin(p);
            n + j <= |s| && s[n + i..n + j] == Origin(p.rest)[i..j]
  {
    CutLayout(p);
    var n, s := |p.kept| + |p.hit|, Origin(p);
    SliceSlice(s, n, |s|, i, j);
    assert s[n..|s|] == s[n..];
  }

  /** What stands before a kept stretch whose front was parted from a word
    * character.
    */
  lemma {:induction false} SealedBefore(f: string -> bool, e: string -> bool, p: Pieces, a: nat, b: nat)
      returns (h: nat)
    requires Sealed(f, e, p) && Solid(p) && Keeps(p, a, b) && 0 < a <= b <= |Origin(p)|
    requires Word(Origin(p)[a - 1]) && AtWord(Origin(p)[a..b])
    ensures h < a && e(Origin(p)[h..a])
    decreases p
  {
    hide Origin, Word, Keeps;
    KeptWhere(p, a, b);
    var m, n := |p.kept|, |p.kept| + |p.hit|;
    CutLayout(p);
    RestSlice(p, a - n, b - n);
    if a == n {
      KeptStart(p.rest, b - n);
      assert p.hit[|p.hit| - 1] == Origin(p)[m..n][n - 1 - m];
      h := m;
    } else {
      RestSlice(p, a - n - 1, a - n);
      assert Origin(p)[a - 1] == Origin(p)[a - 1..a][0];
      h := SealedBefore(f, e, p.rest, a - n, b - n);
      RestSlice(p, h, a - n);
      h := n + h;
    }
  }

  /** What stands behind a kept stretch whose end was parted from a word
    * character.
    */
  lemma {:induction false} SealedBehind(f: string -> bool, e: string -> bool, p: Pieces, a: nat, b: nat)
      returns (h: nat)
    requires Sealed(f, e, p) && Solid(p) && Keeps(p, a, b) && a <= b < |Origin(p)|
    requires Word(Origin(p)[b]) && EndsWord(Origin(p)[a..b])
    ensures b < h <= |Origin(p)| && f(Origin(p)[b..h])
    decreases p
  {
    hide Origin, Word, Keeps;
    KeptShort(p, a, b);
    var m, n := |p.kept|, |p.kept| + |p.hit|;
    CutLayout(p);
    KeptWhere(p, a, b);
    if a == 0 {
      assert p.hit[0] == Origin(p)[m..n][0];
      h := n;
    } else {
      RestSlice(p, a - n, b - n);
      RestSlice(p, b - n, b - n + 1);
      assert Origin(p)[b] == Origin(p)[b..b + 1][0];
      h := SealedBehind(f, e, p.rest, a - n, b - n);
      RestSlice(p, b - n, h);
      h := n + h;
    }
  }

  lemma KeptWhere(p: Pieces, a: nat, b: nat)
    requires Keeps(p, a, b)
    ensures a == 0 ==> b == |p.kept| || (p.Cut? && p.hit == "")
    ensures a > 0 ==> p.Cut? && a >= |p.kept| + |p.hit| && b >= |p.kept| + |p.hit|
                      && Keeps(p.rest, a - |p.kept| - |p.hit|, b - |p.kept| - |p.hit|)
  {}

  lemma KeptShort(p: Pieces, a: nat, b: nat)
    requires Keeps(p, a, b) && b < |Origin(p)|
    ensures p.Cut?
  {}

  lemma KeptStart(p: Pieces, b: nat)
    requires Solid(p) && Keeps(p, 0, b)
    ensures b == |p.kept| && Origin(p)[0..b] == p.kept
  {}

  /** No word character touches the front of a cut text that satisfies f, or the
    * back of one that satisfies e.
    */
  ghost predicate Untouched(f: string -> bool, e: string -> bool, p: Pieces) {
    p.Cut? ==>
      && (f(p.hit) ==> !(EndsWord(p.kept) && AtWord(p.hit)))
      && (e(p.hit) ==> !(EndsWord(p.hit) && AtWord(p.rest.kept)))
      && Untouched(f, e, p.rest)
  }

  lemma {:induction false} SealedUnglued(f: string -> bool, e: string -> bool, l: bool, p: Pieces)
    requires Sealed(f, e, p) && Untouched(f, e, p) && !(l && AtWord(p.kept))
    ensures Unglued(l, p)
    decreases p
  {
    if p.Cut? { SealedUnglued(f, e, EndsWord(p.hit), p.rest); }
  }

  /** One pass is enough if no match of an open pattern that it masks is
    * touched by a word character on its open side.
    */
  lemma UntouchedSettles(g: Gate, stages: seq<Stage>, s: string, f: string -> bool, e: string -> bool)
    requires Orderly(stages) && ClosedExcept(stages, f, e) && Untouched(f, e, Plan(g, stages, s))
    ensures Run(g, stages, Run(g, stages, s)) == Run(g, stages, s)
  {
    hide Run, Plan, ClosedExcept, Untouched, Unglued;
    PlanSealed(g, stages, s, f, e);
    SealedUnglued(f, e, false, Plan(g, stages, s));
    UngluedSettles(g, stages, s);
  }

  lemma {:induction false} NothingTouched(f: string -> bool, p: Pieces)
    requires forall h: string :: !f(h)
    ensures Untouched(f, f, p)
    decreases p
  {
    if p.Cut? { NothingTouched(f, p.rest); }
  }

  /** Patterns closed on both sides never need a second pass. */
  lemma ClosedSettles(g: Gate, stages: seq<Stage>, s: string)
    requires Orderly(stages)
    requires forall i | 0 <= i < |stages| :: ClosedBefore(stages[i].re.pat) && ClosedAfter(stages[i].re.pat)
    ensures Run(g, stages, Run(g, stages, s)) == Run(g, stages, s)
  {
    hide Run, Plan, Orderly, ClosedBefore, ClosedAfter;
    var f: string -> bool := _ => false;
    NothingTouched(f, Plan(g, stages, s));
    UntouchedSettles(g, stages, s, f, f);
  }
}
