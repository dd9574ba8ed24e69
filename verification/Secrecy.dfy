/** What the redactor of tool output hides and what it leaves, in characters. */
module Secrecy {
  import opened Regex
  import opened Substitution
  import opened Pipeline
  import opened Glue
  import opened Search
  import opened Settling
  import opened Residue
  import opened Coverage
  import opened Redaction
  import opened RedactionLaws
  import opened Idempotence
  import opened SecretTexts
  import opened Exactness

  /** No key, quoted community or certificate header is left anywhere. */
  lemma NoOpenTextLeft(r: Redactor, s: string, i: nat, j: nat)
    requires Standard(r) && i <= j <= |Redacted(r, s)|
    ensures !KeyText(Redacted(r, s)[i..j])
    ensures !CommunityText(Redacted(r, s)[i..j])
    ensures !HeaderText(Redacted(r, s)[i..j])
  {
    hide Run, Lang, KeyText, CommunityText, HeaderText;
    NoUnanchoredResidue(r, s, i, j);
    KeyExact(Redacted(r, s)[i..j]);
    CommunityExact(Redacted(r, s)[i..j]);
    HeaderExact(Redacted(r, s)[i..j]);
  }

  /** s[i..j] is a secret of a kind, and no word goes on where that kind asks for
    * its end.
    */
  ghost predicate Stands(q: nat, s: string, i: nat, j: nat) {
    && i <= j <= |s| && SecretOfKind(q, s[i..j])
    && (BoundInFront(q) ==> FreeBefore(s, i))
    && (BoundBehind(q) ==> FreeBehind(s, j))
  }

  /** s[i..j] is an address on its own. */
  ghost predicate StandsAddress(s: string, i: nat, j: nat) {
    i <= j <= |s| && AddressText(s[i..j]) && FreeBefore(s, i) && FreeBehind(s, j)
  }

  lemma OccursIffStands(q: nat, s: string, i: nat, j: nat)
    requires q < |SecretPatterns()|
    ensures Occurs(SecretPatterns()[q], s, i, j) <==> Stands(q, s, i, j)
  {
    hide Lang, SecretOfKind, Proper;
    if i <= j <= |s| {
      PatternsExact(q, s[i..j]);
      SecretPatternsProper();
      if i > 0 { SameCharacters(s[i - 1]); }
      if j < |s| { SameCharacters(s[j]); }
      if Lang(SecretPatterns()[q].atoms, s[i..j]) { ProperEnds(SecretPatterns()[q], s[i..j]); }
    }
  }

  lemma OccursIffStandsAddress(s: string, i: nat, j: nat)
    ensures Occurs(IPV4, s, i, j) <==> StandsAddress(s, i, j)
  {
    hide Lang, AddressText, Proper;
    if i <= j <= |s| {
      AddressExact(s[i..j]);
      Ipv4Proper();
      if i > 0 { SameCharacters(s[i - 1]); }
      if j < |s| { SameCharacters(s[j]); }
      if Lang(IPV4.atoms, s[i..j]) { ProperEnds(IPV4, s[i..j]); }
    }
  }

  /** A secret that stands in the text is never left whole. */
  lemma StandingNotWhole(r: Redactor, s: string, q: nat, i: nat, j: nat)
    requires Standard(r) && Stands(q, s, i, j)
    ensures !Whole(Plan(r.gate, r.stages, s), i, j)
  {
    hide Plan, Occurs, Stands, Whole;
    KindsExist(q, s, i, j);
    OccursIffStands(q, s, i, j);
    StagesSound(r);
    StagePattern(r, q);
    OccurrenceNotWhole(r.gate, r.stages, q + 1, s, i, j);
  }

  lemma KindsExist(q: nat, s: string, i: nat, j: nat)
    requires Stands(q, s, i, j)
    ensures q < |SecretPatterns()|
  {}

  // --------------------------------------------------------------- addresses

  /** After the address stage a stretch is whole exactly when no public address
    * that the search from the left takes overlaps it.
    */
  lemma AddressWholeIff(r: Redactor, s: string, i: nat, j: nat)
    requires Standard(r) && i < j <= |s|
    ensures Whole(Split(r.gate, r.stages[0], false, s), i, j)
       <==> forall h: nat, k: nat | Taken(IPV4, false, s, h, k) && r.gate(s[h..k]) :: k <= i || j <= h
  {
    hide Split, Taken, Whole;
    StagesSound(r);
    WholeIff(r.gate, r.stages[0], s, i, j);
    forall h: nat, k: nat
      ensures Masked(r.gate, r.stages[0], false, s, h, k)
         <==> Taken(IPV4, false, s, h, k) && h <= k <= |s| && r.gate(s[h..k])
    {
      TakenInside(IPV4, false, s, h, k);
    }
    forall h: nat, k: nat ensures Taken(IPV4, false, s, h, k) ==> h <= k <= |s| { TakenInside(IPV4, false, s, h, k); }
  }

  /** An address that no dot precedes is where the search stops. */
  lemma UndottedFree(s: string, i: nat, j: nat)
    requires Occurs(IPV4, s, i, j) && (i > 0 ==> s[i - 1] != '.')
    ensures Taken(IPV4, false, s, i, j)
  {
    hide Lang, Proper;
    Ipv4Proper();
    OccursMatch(IPV4, s, i, j);
    ProperEnds(IPV4, s[i..j]);
    forall h: nat, n: nat | h < i && Free(IPV4, false, s, h) && Match(IPV4, PrevWord(false, s, h), s[h..], n)
      ensures h + n <= i
    {
      if h + n > i {
        assert s[h..][..n][i - 1 - h] == s[i - 1];
        Ipv4Word(s[h..][..n]);
      }
    }
  }

  /** A public address that stands in the text is never left whole, unless a dot
    * precedes it.
    */
  lemma AddressNotWhole(r: Redactor, s: string, i: nat, j: nat)
    requires Standard(r) && StandsAddress(s, i, j) && r.gate(s[i..j]) && (i > 0 ==> s[i - 1] != '.')
    ensures !Whole(Plan(r.gate, r.stages, s), i, j)
  {
    hide Plan, Occurs, StandsAddress, Whole, Taken;
    StagesSound(r);
    OccursIffStandsAddress(s, i, j);
    UndottedFree(s, i, j);
    FirstMaskedNotWhole(r.gate, r.stages, s, i, j);
  }

  // ------------------------------------------------------------ nothing else

  /** A text the redactor may mask. */
  ghost predicate MayMask(r: Redactor, h: string) {
    (AddressText(h) && r.gate(h)) || exists q: nat :: SecretOfKind(q, h)
  }

  /** The output is the input with disjoint secret texts masked and all else kept. */
  lemma OnlySecretTexts(r: Redactor, s: string)
    requires Standard(r)
    ensures var p := Plan(r.gate, r.stages, s);
            Origin(p) == s && Render(p) == Redacted(r, s) && AllHits(h => MayMask(r, h), p)
  {
    hide Run, Plan, Lang, SecretOfKind, AddressText;
    OnlySecretsReplaced(r, s);
    forall h: string | SecretText(r, h) ensures MayMask(r, h) {
      AddressExact(h);
      if q: nat :| q < |SecretPatterns()| && Lang(SecretPatterns()[q].atoms, h) { PatternsExact(q, h); }
    }
    HitsImply(h => SecretText(r, h), h => MayMask(r, h), Plan(r.gate, r.stages, s));
  }

  lemma {:induction false} HitsImply(f: string -> bool, f': string -> bool, p: Pieces)
    requires AllHits(f, p) && forall h: string :: f(h) ==> f'(h)
    ensures AllHits(f', p)
    decreases p
  {
    if p.Cut? { HitsImply(f, f', p.rest); }
  }

  /** A secret that may begin inside a word. */
  predicate OpenText(h: string) {
    KeyText(h) || PairText(h, "private", "key") || PairText(h, "api", "key") || HeaderText(h)
  }

  lemma OpenExact(h: string)
    ensures OpenSecret(h) <==> OpenText(h)
    ensures Header(h) <==> HeaderText(h)
  {
    hide Lang, KeyText, PairText, HeaderText;
    KeyExact(h);
    PairExact("private", "key", h);
    PairExact("api", "key", h);
    HeaderExact(h);
  }

  /** A word is parted only where a secret that may begin inside one begins. */
  lemma WordPartedBehind(r: Redactor, s: string, a: nat, b: nat) returns (h: nat)
    requires Standard(r) && Keeps(Plan(r.gate, r.stages, s), a, b) && a < b < |s|
    requires IsWordChar(s[b - 1]) && IsWordChar(s[b])
    ensures b < h <= |s| && OpenText(s[b..h])
  {
    hide Plan, Run, Keeps, ClosedExcept, OpenSecret, Header, OpenText;
    var p := Plan(r.gate, r.stages, s);
    StagesSound(r);
    ClosedExceptOpen(r);
    PlanCorrect(r.gate, r.stages, s);
    PlanSolid(r.gate, r.stages, s);
    PlanSealed(r.gate, r.stages, s, h => OpenSecret(h), h => Header(h));
    SameCharacters(s[b - 1]);
    SameCharacters(s[b]);
    h := SealedBehind(h => OpenSecret(h), h => Header(h), p, a, b);
    OpenExact(s[b..h]);
  }

  /** Or where a certificate header ends. */
  lemma WordPartedBefore(r: Redactor, s: string, a: nat, b: nat) returns (h: nat)
    requires Standard(r) && Keeps(Plan(r.gate, r.stages, s), a, b) && 0 < a < b <= |s|
    requires IsWordChar(s[a - 1]) && IsWordChar(s[a])
    ensures h < a && HeaderText(s[h..a])
  {
    hide Plan, Run, Keeps, ClosedExcept, OpenSecret, Header, HeaderText;
    var p := Plan(r.gate, r.stages, s);
    StagesSound(r);
    ClosedExceptOpen(r);
    PlanCorrect(r.gate, r.stages, s);
    PlanSolid(r.gate, r.stages, s);
    PlanSealed(r.gate, r.stages, s, h => OpenSecret(h), h => Header(h));
    SameCharacters(s[a - 1]);
    SameCharacters(s[a]);
    h := SealedBefore(h => OpenSecret(h), h => Header(h), p, a, b);
    OpenExact(s[h..a]);
  }

  /** The redactor of the code does all this, whatever it takes for public. */
  lemma CodeHides(g: Gate, s: string, i: nat, j: nat, q: nat)
    ensures var t := Redacted(Redactor(g, Stages()), s);
            i <= j <= |t| ==> !KeyText(t[i..j]) && !CommunityText(t[i..j]) && !HeaderText(t[i..j])
    ensures Stands(q, s, i, j) ==> !Whole(Plan(g, Stages(), s), i, j)
    ensures StandsAddress(s, i, j) && g(s[i..j]) && (i > 0 ==> s[i - 1] != '.') ==> !Whole(Plan(g, Stages(), s), i, j)
  {
    hide Plan, Run, Standard, Stages, KeyText, CommunityText, HeaderText, Stands, StandsAddress, Whole;
    var r := Redactor(g, Stages());
    CodeIsStandard(g);
    if i <= j <= |Redacted(r, s)| { NoOpenTextLeft(r, s, i, j); }
    if Stands(q, s, i, j) { StandingNotWhole(r, s, q, i, j); }
    AddressCase(r, s, i, j);
  }

  lemma AddressCase(r: Redactor, s: string, i: nat, j: nat)
    requires Standard(r)
    ensures StandsAddress(s, i, j) && r.gate(s[i..j]) && (i > 0 ==> s[i - 1] != '.')
        ==> !Whole(Plan(r.gate, r.stages, s), i, j)
  {
    hide Plan, Standard, AddressText, Whole;
    if StandsAddress(s, i, j) && r.gate(s[i..j]) && (i > 0 ==> s[i - 1] != '.') { AddressNotWhole(r, s, i, j); }
  }

  // --------------------------------------------------- a dotted address stays

  const DOTTED: string := "10.8.8.8.8"

  lemma DottedParts()
    ensures AddressText(DOTTED[0..8]) && DOTTED[0..8] == "10.8.8.8"
    ensures StandsAddress(DOTTED, 3, 10) && DOTTED[3..10] == "8.8.8.8"
  {
    assert Dotted(DOTTED[0..8], 2, 4, 6);
    assert Dotted(DOTTED[3..10], 1, 3, 5);
  }

  /** Where the search takes anything in this text. */
  lemma DottedTaken(i: nat, j: nat)
    requires Taken(IPV4, false, DOTTED, i, j)
    ensures i == 0 && j == 8
  {
    hide Lang, Proper, Match, Free;
    DottedParts();
    Ipv4Proper();
    OccursIffStandsAddress(DOTTED, 0, 8);
    OccursMatch(IPV4, DOTTED, 0, 8);
    assert DOTTED[0..] == DOTTED;
    TakenInside(IPV4, false, DOTTED, i, j);
    if i == 0 {
      SameLength(IPV4, false, DOTTED, 8, j);
    } else if i < 8 {
      NotInside(IPV4, false, DOTTED, 8, i);
    } else {
      Ipv4Word(DOTTED[i..j]);
      ShortTail(i, j);
    }
  }

  lemma ShortTail(i: nat, j: nat)
    requires 8 <= i <= j <= |DOTTED|
    ensures multiset(DOTTED[i..j])['.'] < 3
  {
    assert |multiset(DOTTED[i..j])| == j - i;
  }

  /** The precondition is needed: a public address can hide behind the private one
    * that the search takes first.
    */
  lemma DottedAddressStays(r: Redactor)
    requires Standard(r) && !r.gate("10.8.8.8")
    ensures Redacted(r, DOTTED) == DOTTED
  {
    hide Run, Split, Taken, Load, Sound;
    StagesSound(r);
    DottedParts();
    forall x: nat | x < |r.stages| ensures Split(r.gate, r.stages[x], false, DOTTED).Tail? {
      if x == 0 {
        CutIffMasked(r.gate, r.stages[0], false, DOTTED);
        forall i: nat, j: nat ensures !Masked(r.gate, r.stages[0], false, DOTTED, i, j) {
          if Masked(r.gate, r.stages[0], false, DOTTED, i, j) { DottedTaken(i, j); }
        }
      } else {
        StagePattern(r, x - 1);
        NothingElse(r, x);
      }
    }
    PassProgress(r, DOTTED);
  }

  lemma NothingElse(r: Redactor, x: nat)
    requires Standard(r) && 0 < x < |r.stages|
    ensures Split(r.gate, r.stages[x], false, DOTTED).Tail?
  {
    hide Split, Occurs, Stands, Sound;
    StagesSound(r);
    StagePattern(r, x - 1);
    QuietIffNoOccurrence(r.gate, r.stages[x], DOTTED);
    var p := SecretPatterns()[x - 1];
    forall i: nat, j: nat ensures !Occurs(p, DOTTED, i, j) {
      OccursIffStands(x - 1, DOTTED, i, j);
      NoKindStands(x - 1, i, j);
    }
  }

  lemma SpellsNothing(h: string, w: string)
    requires w != "" && 'a' <= w[0] <= 'z' && forall k | 0 <= k < |h| :: h[k] == '.' || IsDigit(h[k])
    ensures !Spells(h, w)
  {
    if h != "" { assert !SameLetter(h[0], w[0]); }
  }

  lemma NoKindStands(q: nat, i: nat, j: nat)
    ensures !Stands(q, DOTTED, i, j)
  {
    if i <= j <= |DOTTED| {
      var h := DOTTED[i..j];
      assert forall k | 0 <= k < |h| :: h[k] == DOTTED[i + k];
      assert forall k | 0 <= k < |DOTTED| :: DOTTED[k] == '.' || IsDigit(DOTTED[k]);
      SpellsNothing(h, "password");
      SpellsNothing(h, "token");
      SpellsNothing(h, "secret");
      SpellsNothing(h, "private" + "key");
      SpellsNothing(h, "api" + "key");
      if |h| >= 7 { SpellsNothing(h[..7], "private"); }
      if |h| >= 3 { SpellsNothing(h[..3], "api"); }
    }
  }
}
