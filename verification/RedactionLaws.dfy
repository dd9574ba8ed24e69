/** The laws of the nine-stage redactor, for any gate and any faithful engine. */
module RedactionLaws {
  import opened Regex
  import opened Substitution
  import opened Pipeline
  import opened Glue
  import opened Settling
  import opened Residue
  import opened Redaction

  /** A pass leaves a text alone exactly when no stage finds anything in it;
    * otherwise fewer characters outside the mask's alphabet remain.
    */
  lemma PassProgress(r: Redactor, s: string)
    requires Standard(r)
    ensures Redacted(r, s) == s <==> Quiet(r.gate, r.stages, s)
    ensures Redacted(r, s) != s ==> Load(Redacted(r, s)) < Load(s)
  {
    hide Run, Load, Quiet;
    StagesSound(r);
    RunLoad(r.gate, r.stages, s);
  }

  /** Load(s) passes are enough for any text. */
  lemma PassesConverge(r: Redactor, s: string)
    requires Standard(r)
    ensures Redacted(r, Iterate(r.gate, r.stages, Load(s), s)) == Iterate(r.gate, r.stages, Load(s), s)
  {
    StagesSound(r);
    Converges(r.gate, r.stages, s, Load(s));
  }

  /** A mask in a text separates it: both sides are redacted independently. */
  lemma RedactsAcrossMasks(r: Redactor, x: string, y: string)
    requires Standard(r)
    ensures Redacted(r, x + MASK + y) == Redacted(r, x) + MASK + Redacted(r, y)
  {
    StagesSound(r);
    RunBarrier(r.gate, r.stages, x, y);
  }

  /** The text is a secret of one of the nine kinds. */
  ghost predicate SecretText(r: Redactor, h: string) {
    || (Lang(IPV4.atoms, h) && r.gate(h))
    || exists i: nat :: i < |SecretPatterns()| && Lang(SecretPatterns()[i].atoms, h)
  }

  /** The output is the input with some disjoint secret texts replaced by the
    * mask, everything else kept in place.
    */
  lemma OnlySecretsReplaced(r: Redactor, s: string)
    requires Standard(r)
    ensures var p := Plan(r.gate, r.stages, s);
            Origin(p) == s && Render(p) == Redacted(r, s) && AllHits(h => SecretText(r, h), p)
  {
    hide Run, Plan, Lang;
    StagesSound(r);
    PlanCorrect(r.gate, r.stages, s);
    var f := h => SecretText(r, h);
    forall i: nat, h: string |
        i < |r.stages| && Lang(r.stages[i].re.pat.atoms, h) && (r.stages[i].gated ==> r.gate(h))
      ensures f(h)
    {
      if i > 0 {
        StagePattern(r, i - 1);
        assert Lang(SecretPatterns()[i - 1].atoms, h);
      }
    }
    PlanHits(r.gate, r.stages, s, f);
  }

  /** No private key, quoted community or certificate header is left. */
  lemma NoUnanchoredResidue(r: Redactor, s: string, i: nat, j: nat)
    requires Standard(r)
    ensures !Occurs(WIREGUARD_KEY, Redacted(r, s), i, j)
    ensures !Occurs(QUOTED_COMMUNITY, Redacted(r, s), i, j)
    ensures !Occurs(CERTIFICATE, Redacted(r, s), i, j)
  {
    hide Run, Occurs;
    StagesSound(r);
    StagePattern(r, 0);
    StagePattern(r, 1);
    StagePattern(r, 7);
    NoResidue(r.gate, r.stages, 1, s, i, j);
    NoResidue(r.gate, r.stages, 2, s, i, j);
    NoResidue(r.gate, r.stages, 8, s, i, j);
  }

  /** What a stage leaves in the stretches the pass keeps: a match of a secret
    * pattern only where it uses a boundary made by a mask, and nothing public
    * for the address scan as it ran over the original text.
    */
  lemma KeptStretchesSpent(r: Redactor, s: string, i: nat)
    requires Standard(r)
    requires i < |r.stages|
    ensures Along(SpentQ(r.gate, r.stages[i]), false, Plan(r.gate, r.stages, s), "")
  {
    hide Plan, Orderly;
    StagesOrderly(r);
    PlanSpent(r.gate, r.stages, i, s);
  }
}
