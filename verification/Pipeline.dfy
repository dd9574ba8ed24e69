/** A list of substitutions run one after the other over the same text. */
module Pipeline {
  import opened Substitution

  function Run(g: Gate, stages: seq<Stage>, s: string): string
    decreases |stages|
  {
    if stages == [] then s else Run(g, stages[1..], Sub(g, stages[0], false, s))
  }

  ghost predicate AllSound(stages: seq<Stage>) {
    forall i | 0 <= i < |stages| :: Sound(stages[i])
  }

  lemma {:induction false} RunBarrier(g: Gate, stages: seq<Stage>, x: string, y: string)
    requires AllSound(stages)
    ensures Run(g, stages, x + MASK + y) == Run(g, stages, x) + MASK + Run(g, stages, y)
    decreases |stages|
  {
    hide Sub;
    if stages != [] {
      MaskBarrier(g, stages[0], false, x, y);
      RunBarrier(g, stages[1..], Sub(g, stages[0], false, x), Sub(g, stages[0], false, y));
    }
  }

  // ------------------------------------------------------------ convergence

  /** No stage finds anything to mask in s. */
  ghost predicate Quiet(g: Gate, stages: seq<Stage>, s: string) {
    forall i | 0 <= i < |stages| :: Split(g, stages[i], false, s).Tail?
  }

  /** A pass that changes anything uses up load. */
  lemma {:induction false} RunLoad(g: Gate, stages: seq<Stage>, s: string)
    requires AllSound(stages)
    ensures if Quiet(g, stages, s) then Run(g, stages, s) == s
            else Load(Run(g, stages, s)) < Load(s)
    decreases |stages|
  {
    hide Sub, Split, Load;
    if stages != [] {
      var t := Sub(g, stages[0], false, s);
      SubLoad(g, stages[0], false, s);
      RunLoad(g, stages[1..], t);
      if Split(g, stages[0], false, s).Tail? {
        assert Quiet(g, stages, s) <==> Quiet(g, stages[1..], s) by {
          forall i | 0 <= i < |stages| ensures i > 0 ==> stages[i] == stages[1..][i - 1] {}
        }
      }
    }
  }

  function Iterate(g: Gate, stages: seq<Stage>, n: nat, s: string): string
    decreases n
  {
    if n == 0 then s else Iterate(g, stages, n - 1, Run(g, stages, s))
  }

  /** Repeating the pass reaches a fixpoint within Load(s) rounds. */
  lemma {:induction false} Converges(g: Gate, stages: seq<Stage>, s: string, n: nat)
    requires AllSound(stages) && Load(s) <= n
    ensures Run(g, stages, Iterate(g, stages, n, s)) == Iterate(g, stages, n, s)
    decreases n
  {
    hide Load;
    RunLoad(g, stages, s);
    if n == 0 {
    } else if Quiet(g, stages, s) {
      IterateFixed(g, stages, n, s);
    } else {
      Converges(g, stages, Run(g, stages, s), n - 1);
    }
  }

  lemma {:induction false} IterateFixed(g: Gate, stages: seq<Stage>, n: nat, s: string)
    requires Run(g, stages, s) == s
    ensures Iterate(g, stages, n, s) == s
    decreases n
  {
    if n > 0 { IterateFixed(g, stages, n - 1, s); }
  }

  // --------------------------------------------------- the pieces of a pass

  function Join(p: Pieces, h: string, q: Pieces): Pieces {
    match p
    case Tail(k) => Cut(k, h, q)
    case Cut(k, h', rest) => Cut(k, h', Join(rest, h, q))
  }

  /** The pieces of s after a whole pass. What one stage keeps between two
    * masks is worked on by the later stages as a text of its own.
    */
  function Plan(g: Gate, stages: seq<Stage>, s: string): Pieces
    decreases |stages|, 0
  {
    if stages == [] then Tail(s) else Expand(g, stages[1..], Split(g, stages[0], false, s))
  }

  function Expand(g: Gate, stages: seq<Stage>, p: Pieces): Pieces
    decreases |stages|, 1, p
  {
    match p
    case Tail(k) => Plan(g, stages, k)
    case Cut(k, h, rest) => Join(Plan(g, stages, k), h, Expand(g, stages, rest))
  }

  lemma JoinAssoc<T>(k: seq<T>, h: seq<T>, x: seq<T>, h': seq<T>, y: seq<T>)
    ensures k + (h + (x + h' + y)) == k + (h + x) + h' + y
  {
    Assoc(h, x + h', y);
    Assoc(h, x, h');
    Assoc(k, h + x + h', y);
    Assoc(k, h + x, h');
  }

  lemma {:induction false} JoinPieces(p: Pieces, h: string, q: Pieces)
    ensures Render(Join(p, h, q)) == Render(p) + MASK + Render(q)
    ensures Origin(Join(p, h, q)) == Origin(p) + h + Origin(q)
    decreases p
  {
    match p
    case Tail(k) =>
    case Cut(k, h', rest) =>
      JoinPieces(rest, h, q);
      JoinAssoc(k, MASK, Render(rest), MASK, Render(q));
      JoinAssoc(k, h', Origin(rest), h, Origin(q));
  }

  /** The plan is what the pass does: putting the mask for every cut gives the
    * output, putting the cut text back gives the input.
    */
  lemma {:induction false} PlanCorrect(g: Gate, stages: seq<Stage>, s: string)
    requires AllSound(stages)
    ensures Render(Plan(g, stages, s)) == Run(g, stages, s)
    ensures Origin(Plan(g, stages, s)) == s
    decreases |stages|, 0
  {
    hide Sub, Split;
    if stages != [] {
      var p := Split(g, stages[0], false, s);
      SplitSub(g, stages[0], false, s);
      ExpandCorrect(g, stages[1..], p);
    }
  }

  lemma {:induction false} ExpandCorrect(g: Gate, stages: seq<Stage>, p: Pieces)
    requires AllSound(stages)
    ensures Render(Expand(g, stages, p)) == Run(g, stages, Render(p))
    ensures Origin(Expand(g, stages, p)) == Origin(p)
    decreases |stages|, 1, p
  {
    hide Sub, Split, Run, Plan;
    PlanCorrect(g, stages, p.kept);
    if p.Cut? {
      ExpandCorrect(g, stages, p.rest);
      JoinPieces(Plan(g, stages, p.kept), p.hit, Expand(g, stages, p.rest));
      RunBarrier(g, stages, p.kept, Render(p.rest));
      Assoc(p.kept, MASK, Render(p.rest));
      Assoc(p.kept, p.hit, Origin(p.rest));
    }
  }

  // ----------------------------------------------- fixpoints piece by piece

  ghost predicate KeptQuiet(g: Gate, stages: seq<Stage>, p: Pieces) {
    Quiet(g, stages, p.kept) && (p.Cut? ==> KeptQuiet(g, stages, p.rest))
  }

  /** A rendered text is a fixpoint exactly when each kept stretch is one. */
  lemma {:induction false} RenderLoad(g: Gate, stages: seq<Stage>, p: Pieces)
    requires AllSound(stages)
    ensures if KeptQuiet(g, stages, p) then Run(g, stages, Render(p)) == Render(p)
            else Load(Run(g, stages, Render(p))) < Load(Render(p))
    decreases p
  {
    hide Run, Load, Quiet;
    RunLoad(g, stages, p.kept);
    if p.Cut? {
      RenderLoad(g, stages, p.rest);
      RunBarrier(g, stages, p.kept, Render(p.rest));
      Assoc(p.kept, MASK, Render(p.rest));
      SandwichLoad(p.kept, Render(p.rest));
      SandwichLoad(Run(g, stages, p.kept), Run(g, stages, Render(p.rest)));
    }
  }

  lemma SandwichLoad(a: string, b: string)
    ensures Load(a + MASK + b) == Load(a) + Load(b)
  {
    hide Load;
    LoadConcat(a + MASK, b);
    LoadConcat(a, MASK);
    InertLoad(MASK);
  }
}
