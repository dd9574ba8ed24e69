/** Exactly when one pass is enough. */
module Settling {
  import opened Regex
  import opened Substitution
  import opened Pipeline
  import opened Glue
  import opened Search

  /** A match inside a proper beginning of a match cannot end at a boundary:
    * whatever follows it, in the beginning or right after it, is a word
    * character.
    */
  ghost predicate TailGuard(p: Pattern) {
    forall w: string, i: nat, j: nat ::
      i <= j < |w| && Lang(p.atoms, w) && Lang(p.atoms, w[i..j]) ==> Word(w[j])
  }

  /** A match inside k does not depend on what follows k, unless it ends with k
    * and the text goes on with a word character.
    */
  lemma MatchClip(p: Pattern, pw: bool, k: string, y: string, n: nat)
    requires Proper(p) && p.right && n <= |k| && k != ""
    ensures Match(p, pw, k + y, n) ==> Match(p, pw, k, n)
    ensures Match(p, pw, k, n) ==> Match(p, pw, k + y, n) || (n == |k| && AtWord(y))
  {
    assert (k + y)[..n] == k[..n];
    if Lang(p.atoms, k[..n]) { ProperEnds(p, k[..n]); }
  }

  lemma StepClip(g: Gate, st: Stage, pw: bool, k: string, y: string)
    requires Sound(st) && st.re.pat.right && k != ""
    requires Step(g, st, pw, k + y).0 <= |k|
    ensures Step(g, st, pw, k) == Step(g, st, pw, k + y) || (Step(g, st, pw, k).0 == |k| && AtWord(y))
  {
    hide Step;
    var p := st.re.pat;
    var n, m := Step(g, st, pw, k + y).0, Step(g, st, pw, k).0;
    MatchClip(p, pw, k, y, n);
    MatchClip(p, pw, k, y, m);
    StepExact(g, st, pw, k, n);
    StepExact(g, st, pw, k + y, n);
    StepExact(g, st, pw, k, m);
    StepExact(g, st, pw, k + y, m);
    assert (k + y)[..n] == k[..n] && (k + y)[..m] == k[..m];
  }

  lemma GuardedTail(p: Pattern, w: string, i: nat, j: nat)
    requires TailGuard(p) && i <= j < |w| && Lang(p.atoms, w) && Lang(p.atoms, w[i..j])
    ensures Word(w[j])
  {
    hide Lang, Word;
  }

  /** A match that runs over the end of k leaves room in k only for matches that
    * end with k.
    */
  lemma CrossedTaken(p: Pattern, pw: bool, k: string, y: string, n: nat, i: nat, j: nat)
    requires Proper(p) && p.right && TailGuard(p)
    requires |k| < n && Match(p, pw, k + y, n) && Taken(p, pw, k, i, j)
    ensures j == |k| && AtWord(y)
  {
    hide TailGuard, Proper, Lang, Free;
    var w := (k + y)[..n];
    TakenInside(p, pw, k, i, j);
    assert k[i..j] == w[i..j];
    ProperEnds(p, k[i..j]);
    GuardedTail(p, w, i, j);
    assert w[j] == (k + y)[j];
  }

  /** Scanned by itself, a calm stretch is masked only at its right end, and only
    * if that end is new.
    */
  lemma {:induction false} CalmMasked(g: Gate, st: Stage, pw: bool, k: string, y: string, i: nat, j: nat)
    requires Sound(st) && st.re.pat.right && TailGuard(st.re.pat)
    requires Calm(g, st, pw, k, y) && Masked(g, st, pw, k, i, j)
    ensures j == |k| && AtWord(y)
    decreases |k|
  {
    hide Step, Calm, TailGuard, Taken;
    MaskedNonempty(g, st, pw, k, i, j);
    CalmStep(g, st, pw, k, y);
    var n := Step(g, st, pw, k + y).0;
    if n > |k| {
      StepExact(g, st, pw, k + y, n);
      CrossedTaken(st.re.pat, pw, k, y, n, i, j);
    } else {
      StepClip(g, st, pw, k, y);
      MaskedShift(g, st, pw, k, i, j);
      if Step(g, st, pw, k) == Step(g, st, pw, k + y) {
        SliceLeft(k, y, n);
        CalmMasked(g, st, Word(k[n - 1]), k[n..], y, i - n, j - n);
      }
    }
  }

  /** A match stands at the start of k, and k up to j has only characters the
    * pattern knows.
    */
  ghost predicate LeadsTo(p: Pattern, k: string, j: nat) {
    && (exists n: nat :: Match(p, false, k, n))
    && forall t | 0 <= t < j && t < |k| :: !Avoids(p, k[t])
  }

  /** If nothing matches at the start of k, it does not matter what precedes k. */
  lemma NoMatchFirst(g: Gate, st: Stage, k: string, y: string, i: nat, j: nat)
    requires Sound(st) && st.re.pat.left && (forall n: nat :: !Match(st.re.pat, false, k, n))
    requires Calm(g, st, true, k, y) && Masked(g, st, false, k, i, j)
    ensures 1 <= i <= j <= |k|
    ensures Calm(g, st, Word(k[0]), k[1..], y) && Masked(g, st, Word(k[0]), k[1..], i - 1, j - 1)
  {
    hide Step, Calm, Taken;
    MaskedNonempty(g, st, false, k, i, j);
    StepExact(g, st, false, k, 0);
    MaskedShift(g, st, false, k, i, j);
    CalmStep(g, st, true, k, y);
    forall n: nat ensures !Match(st.re.pat, true, k + y, n) {
      if n <= |k + y| && Lang(st.re.pat.atoms, (k + y)[..n]) { ProperEnds(st.re.pat, (k + y)[..n]); }
    }
    StepExact(g, st, true, k + y, 0);
  }

  /** What a scan of a calm stretch by itself masks is either led to from a new
    * left end or ends at a new right end.
    */
  lemma CalmExposed(g: Gate, st: Stage, l: bool, k: string, y: string, i: nat, j: nat)
    requires Sound(st) && st.re.pat.left && st.re.pat.right && TailGuard(st.re.pat)
    requires Calm(g, st, l, k, y) && Masked(g, st, false, k, i, j)
    ensures (l && LeadsTo(st.re.pat, k, j)) || (AtWord(y) && j == |k|)
  {
    hide Step, Calm, TailGuard, Masked, Taken, Avoids, Match;
    var p := st.re.pat;
    MaskedNonempty(g, st, false, k, i, j);
    if !l {
      CalmMasked(g, st, false, k, y, i, j);
    } else if forall n: nat :: !Match(p, false, k, n) {
      NoMatchFirst(g, st, k, y, i, j);
      CalmMasked(g, st, Word(k[0]), k[1..], y, i - 1, j - 1);
    } else if t: nat :| t < j && Avoids(p, k[t]) {
      if t >= i {
        assert k[i..j][t - i] == k[t];
        LangAvoids(p.atoms, k[i..j], k[t]) by { AvoidsAll(p, k[t]); }
      }
      MaskedSuffix(g, st, false, k, t, i, j);
      var a, b := k[..t + 1], k[t + 1..];
      assert k == a + b;
      CalmSuffix(g, st, l, a, b, y);
      CalmMasked(g, st, Word(k[t]), b, y, i - t - 1, j - t - 1);
    }
  }

  lemma AvoidsAll(p: Pattern, c: char)
    requires Avoids(p, c)
    ensures forall i | 0 <= i < |p.atoms| :: !In(p.atoms[i].cls, c)
  {}

  // --------------------------------------------------------------- exposure

  /** k was kept between two masks; l and r say whether the masked neighbours
    * ended and began with a word character. It is exposed to an ungated stage
    * if some match in k uses a boundary made by the masking; to a gated one if a
    * match that the stage would take and mask does so, or is led to from one.
    */
  ghost predicate Exposed(g: Gate, st: Stage, l: bool, k: string, r: bool) {
    if st.gated then
      exists i: nat, j: nat :: Masked(g, st, false, k, i, j) && ((l && LeadsTo(st.re.pat, k, j)) || (r && j == |k|))
    else
      exists i: nat, j: nat :: Occurs(st.re.pat, k, i, j) && Flush(st.re.pat, l, k, r, i, j)
  }

  ghost predicate ExposedToAny(g: Gate, stages: seq<Stage>, l: bool, k: string, r: bool) {
    exists i: nat :: i < |stages| && Exposed(g, stages[i], l, k, r)
  }

  /** Some kept stretch of the pieces is exposed. */
  ghost predicate Stuck(g: Gate, stages: seq<Stage>, l: bool, p: Pieces)
    decreases p
  {
    match p
    case Tail(k) => ExposedToAny(g, stages, l, k, false)
    case Cut(k, h, rest) => ExposedToAny(g, stages, l, k, AtWord(h)) || Stuck(g, stages, EndsWord(h), rest)
  }

  /** A list of stages of which at most the first is gated, as the redactors'. */
  ghost predicate Orderly(stages: seq<Stage>) {
    && AllSound(stages)
    && (forall i | 1 <= i < |stages| :: !stages[i].gated)
    && (stages != [] && stages[0].gated ==>
          && stages[0].re.pat.left && stages[0].re.pat.right && TailGuard(stages[0].re.pat)
          && forall i | 1 <= i < |stages| :: EndsOutside(stages[0].re.pat, stages[i].re.pat))
  }

  /** What the pass leaves of a stage's pattern in a kept stretch. */
  ghost predicate Spent(g: Gate, st: Stage, l: bool, k: string, y: string) {
    if st.gated then Calm(g, st, l, k, y) else Hushed(st.re.pat, l, k, AtWord(y))
  }

  /** A stage finds something in a spent stretch only if it is exposed. */
  lemma SpentExposed(g: Gate, st: Stage, l: bool, k: string, y: string)
    requires Sound(st) && Spent(g, st, l, k, y)
    requires st.gated ==> st.re.pat.left && st.re.pat.right && TailGuard(st.re.pat)
    ensures Split(g, st, false, k).Tail? <==> !Exposed(g, st, l, k, AtWord(y))
  {
    hide Split, Calm, TailGuard, Occurs, Masked;
    if st.gated {
      CutIffMasked(g, st, false, k);
      forall i: nat, j: nat | Masked(g, st, false, k, i, j)
        ensures (l && LeadsTo(st.re.pat, k, j)) || (AtWord(y) && j == |k|)
      {
        CalmExposed(g, st, l, k, y, i, j);
      }
    } else {
      QuietIffNoOccurrence(g, st, k);
    }
  }

  lemma {:induction false} QuietUnlessStuck(g: Gate, stages: seq<Stage>, l: bool, p: Pieces)
    requires Orderly(stages)
    requires forall i: nat | i < |stages| :: Along(SpentQ(g, stages[i]), l, p, "")
    ensures KeptQuiet(g, stages, p) <==> !Stuck(g, stages, l, p)
    decreases p
  {
    hide Split, Calm, TailGuard, Exposed, Spent, Hushed;
    var y := if p.Tail? then "" else p.hit + Origin(p.rest) + "";
    forall i: nat | i < |stages|
      ensures Split(g, stages[i], false, p.kept).Tail? <==> !Exposed(g, stages[i], l, p.kept, AtWord(y))
    {
      assert Along(SpentQ(g, stages[i]), l, p, "");
      SpentExposed(g, stages[i], l, p.kept, y);
    }
    if p.Cut? {
      forall i: nat | i < |stages| ensures Along(SpentQ(g, stages[i]), EndsWord(p.hit), p.rest, "") {
        assert Along(SpentQ(g, stages[i]), l, p, "");
      }
      QuietUnlessStuck(g, stages, EndsWord(p.hit), p.rest);
    }
  }

  ghost function SpentQ(g: Gate, st: Stage): (bool, string, string) -> bool {
    (l: bool, k: string, y: string) => Spent(g, st, l, k, y)
  }

  lemma {:induction false} SameAlong(
      q: (bool, string, string) -> bool, q': (bool, string, string) -> bool, l: bool, p: Pieces, y: string)
    requires Along(q, l, p, y) && forall l: bool, k: string, y: string :: q(l, k, y) ==> q'(l, k, y)
    ensures Along(q', l, p, y)
    decreases p
  {
    if p.Cut? { SameAlong(q, q', EndsWord(p.hit), p.rest, y); }
  }

  lemma PlanSpent(g: Gate, stages: seq<Stage>, i: nat, s: string)
    requires Orderly(stages) && i < |stages|
    ensures Along(SpentQ(g, stages[i]), false, Plan(g, stages, s), "")
  {
    hide Plan, Calm, TailGuard;
    if stages[i].gated {
      PlanCalm(g, stages, s);
      SameAlong(CalmQ(g, stages[0]), SpentQ(g, stages[0]), false, Plan(g, stages, s), "");
    } else {
      PlanHushed(g, stages, i, false, s, "");
      SameAlong(HushedQ(stages[i].re.pat), SpentQ(g, stages[i]), false, Plan(g, stages, s), "");
    }
  }

  /** One pass is enough exactly when no kept stretch is exposed. */
  lemma SettlesIff(g: Gate, stages: seq<Stage>, s: string)
    requires Orderly(stages)
    ensures Run(g, stages, Run(g, stages, s)) == Run(g, stages, s)
       <==> !Stuck(g, stages, false, Plan(g, stages, s))
  {
    hide Run, Plan, Load, Stuck, Orderly;
    PlanCorrectOrderly(g, stages, s);
    var p := Plan(g, stages, s);
    forall i: nat | i < |stages| ensures Along(SpentQ(g, stages[i]), false, p, "") {
      PlanSpent(g, stages, i, s);
    }
    QuietUnlessStuck(g, stages, false, p);
  }

  lemma PlanCorrectOrderly(g: Gate, stages: seq<Stage>, s: string)
    requires Orderly(stages)
    ensures Render(Plan(g, stages, s)) == Run(g, stages, s)
    ensures KeptQuiet(g, stages, Plan(g, stages, s)) <==> Run(g, stages, Run(g, stages, s)) == Run(g, stages, s)
  {
    PlanCorrect(g, stages, s);
    RenderLoad(g, stages, Plan(g, stages, s));
  }

  // ------------------------------------------------ the rule, told by positions

  /** The pass keeps Origin(p)[a..b] between two masks or ends of the text. */
  ghost predicate Keeps(p: Pieces, a: nat, b: nat)
    decreases p
  {
    match p
    case Tail(k) => a == 0 && b == |k|
    case Cut(k, h, rest) =>
      var n := |k| + |h|;
      (a == 0 && b == |k|) || (n <= a && n <= b && Keeps(rest, a - n, b - n))
  }

  /** Some stretch of s that the pass keeps is exposed. */
  ghost predicate StuckAt(g: Gate, stages: seq<Stage>, l: bool, p: Pieces, a: nat, b: nat) {
    var s := Origin(p);
    && Keeps(p, a, b) && a <= b <= |s|
    && ExposedToAny(g, stages, PrevWord(l, s, a), s[a..b], NextWord(s, b))
  }

  lemma {:induction false} StuckSomewhere(g: Gate, stages: seq<Stage>, l: bool, p: Pieces) returns (a: nat, b: nat)
    requires Solid(p) && Stuck(g, stages, l, p)
    ensures StuckAt(g, stages, l, p, a, b)
    decreases p
  {
    hide ExposedToAny, StuckAt;
    StuckFirst(g, stages, l, p);
    if StuckAt(g, stages, l, p, 0, |p.kept|) {
      a, b := 0, |p.kept|;
    } else {
      a, b := StuckSomewhere(g, stages, EndsWord(p.hit), p.rest);
      StuckLater(g, stages, l, p, a, b);
      a, b := |p.kept| + |p.hit| + a, |p.kept| + |p.hit| + b;
    }
  }

  lemma {:induction false} StuckBecause(g: Gate, stages: seq<Stage>, l: bool, p: Pieces, a: nat, b: nat)
    requires Solid(p) && StuckAt(g, stages, l, p, a, b)
    ensures Stuck(g, stages, l, p)
    decreases p
  {
    hide ExposedToAny;
    StuckFirst(g, stages, l, p);
    var n := |p.kept| + if p.Cut? then |p.hit| else 0;
    if !(a == 0 && b == |p.kept|) {
      StuckLater(g, stages, l, p, a - n, b - n);
      StuckBecause(g, stages, EndsWord(p.hit), p.rest, a - n, b - n);
    }
  }

  lemma StuckFirst(g: Gate, stages: seq<Stage>, l: bool, p: Pieces)
    requires Solid(p)
    ensures StuckAt(g, stages, l, p, 0, |p.kept|) <==> ExposedToAny(g, stages, l, p.kept, p.Cut? && AtWord(p.hit))
  {
    hide ExposedToAny;
    assert Origin(p)[0..|p.kept|] == p.kept;
  }

  lemma StuckLater(g: Gate, stages: seq<Stage>, l: bool, p: Pieces, a: nat, b: nat)
    requires p.Cut? && p.hit != ""
    ensures var n := |p.kept| + |p.hit|;
            StuckAt(g, stages, EndsWord(p.hit), p.rest, a, b) <==> StuckAt(g, stages, l, p, n + a, n + b)
  {
    hide ExposedToAny;
    var n, s, u := |p.kept| + |p.hit|, Origin(p), Origin(p.rest);
    if a <= b <= |u| {
      assert s[n + a..n + b] == u[a..b];
      assert s[n - 1] == p.hit[|p.hit| - 1];
      assert a > 0 ==> s[n + a - 1] == u[a - 1];
      assert b < |u| ==> s[n + b] == u[b];
    }
  }

  /** One pass is enough exactly when no stretch of s it keeps is exposed. */
  lemma SettlesIffAt(g: Gate, stages: seq<Stage>, s: string)
    requires Orderly(stages)
    ensures Run(g, stages, Run(g, stages, s)) == Run(g, stages, s)
       <==> !exists a: nat, b: nat :: StuckAt(g, stages, false, Plan(g, stages, s), a, b)
  {
    hide Run, Plan, Stuck, StuckAt, Orderly;
    SettlesIff(g, stages, s);
    PlanSolid(g, stages, s);
    var p := Plan(g, stages, s);
    if Stuck(g, stages, false, p) { var a, b := StuckSomewhere(g, stages, false, p); }
    if a: nat, b: nat :| StuckAt(g, stages, false, p, a, b) { StuckBecause(g, stages, false, p, a, b); }
  }

  // -------------------------------------------------- consequences of the rule

  /** No cut was made between two word characters. */
  ghost predicate Unglued(l: bool, p: Pieces)
    decreases p
  {
    && !(l && AtWord(p.kept))
    && (p.Cut? ==> !(EndsWord(p.kept) && AtWord(p.hit)) && Unglued(EndsWord(p.hit), p.rest))
  }

  /** Exposure takes two word characters that masking parted. */
  lemma ExposedGlued(g: Gate, st: Stage, l: bool, k: string, r: bool)
    requires Sound(st) && (st.gated ==> st.re.pat.left && st.re.pat.right)
    requires Exposed(g, st, l, k, r)
    ensures (l && AtWord(k)) || (r && EndsWord(k))
  {
    hide Taken, Avoids;
    var p := st.re.pat;
    if st.gated {
      var i: nat, j: nat :| Masked(g, st, false, k, i, j) && ((l && LeadsTo(p, k, j)) || (r && j == |k|));
      MaskedNonempty(g, st, false, k, i, j);
      ProperEnds(p, k[i..j]);
      if l && LeadsTo(p, k, j) {
        var n: nat :| Match(p, false, k, n);
        ProperEnds(p, k[..n]);
      }
    } else {
      var i: nat, j: nat :| Occurs(p, k, i, j) && Flush(p, l, k, r, i, j);
      ProperEnds(p, k[i..j]);
    }
  }

  lemma {:induction false} UngluedNotStuck(g: Gate, stages: seq<Stage>, l: bool, p: Pieces)
    requires Orderly(stages) && Unglued(l, p)
    ensures !Stuck(g, stages, l, p)
    decreases p
  {
    hide Exposed, TailGuard, EndsOutside;
    var r := p.Cut? && AtWord(p.hit);
    forall i: nat | i < |stages| ensures !Exposed(g, stages[i], l, p.kept, r) {
      if Exposed(g, stages[i], l, p.kept, r) { ExposedGlued(g, stages[i], l, p.kept, r); }
    }
    if p.Cut? { UngluedNotStuck(g, stages, EndsWord(p.hit), p.rest); }
  }

  /** If no cut of a pass separates two word characters, the result is final. */
  lemma UngluedSettles(g: Gate, stages: seq<Stage>, s: string)
    requires Orderly(stages) && Unglued(false, Plan(g, stages, s))
    ensures Run(g, stages, Run(g, stages, s)) == Run(g, stages, s)
  {
    hide Run, Plan, Stuck, Unglued;
    SettlesIff(g, stages, s);
    UngluedNotStuck(g, stages, false, Plan(g, stages, s));
  }
}
