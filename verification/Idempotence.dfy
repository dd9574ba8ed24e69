/** When redacting twice is the same as redacting once. */
module Idempotence {
  import opened Regex
  import opened Substitution
  import opened Pipeline
  import opened Glue
  import opened Search
  import opened Settling
  import opened Residue
  import opened Redaction

  /** A match of a pattern that can begin inside a word. */
  ghost predicate OpenSecret(h: string) {
    || Lang(WIREGUARD_KEY.atoms, h)
    || Lang(PRIVATE_KEY.atoms, h)
    || Lang(API_KEY.atoms, h)
    || Lang(CERTIFICATE.atoms, h)
  }

  /** A match of the only pattern that can end inside a word. */
  ghost predicate Header(h: string) { Lang(CERTIFICATE.atoms, h) }

  lemma CommunityClosed()
    ensures ClosedBefore(QUOTED_COMMUNITY) && ClosedAfter(QUOTED_COMMUNITY)
  {
    var atoms := QUOTED_COMMUNITY.atoms;
    forall h: string | Lang(atoms, h) ensures !AtWord(h) && !EndsWord(h) {
      assert h[..|h|] == h;
      LangFirst(atoms, h, |h|);
      var k := LangHas(atoms, h, 2);
    }
  }

  lemma KeyClosedAfter()
    ensures ClosedAfter(WIREGUARD_KEY)
  {
    var atoms := WIREGUARD_KEY.atoms;
    forall h: string | Lang(atoms, h) ensures !EndsWord(h) {
      var k := LangHas(atoms, h, 1);
    }
  }

  /** All but the four open patterns part no word in front, all but the
    * certificate header none behind.
    */
  lemma ClosedExceptOpen(r: Redactor)
    requires Standard(r)
    ensures ClosedExcept(r.stages, h => OpenSecret(h), h => Header(h))
  {
    hide Lang;
    CommunityClosed();
    KeyClosedAfter();
    var stages := r.stages;
    forall i: nat | i < |stages|
      ensures ClosedBefore(stages[i].re.pat) || forall h: string :: Lang(stages[i].re.pat.atoms, h) ==> OpenSecret(h)
      ensures ClosedAfter(stages[i].re.pat) || forall h: string :: Lang(stages[i].re.pat.atoms, h) ==> Header(h)
    {
      if i > 0 { StagePattern(r, i - 1); }
    }
  }

  // ---------------------------------------------------- the exact condition

  /** k, standing alone, begins with a secret whose pattern asks for a boundary
    * there; or with an address, from which only address characters lead to a
    * public address that the scan of k takes.
    */
  ghost predicate BeginsSecret(r: Redactor, k: string) {
    || (exists q: nat, j: nat :: q < |SecretPatterns()| && SecretPatterns()[q].left && Occurs(SecretPatterns()[q], k, 0, j))
    || (exists i: nat, j: nat :: TakesPublic(r, k, i, j) && LeadsTo(IPV4, k, j))
  }

  /** k, standing alone, ends with a secret whose pattern asks for a boundary
    * there, or with a public address that the scan of k takes.
    */
  ghost predicate EndsSecret(r: Redactor, k: string) {
    || (exists q: nat, i: nat :: q < |SecretPatterns()| && SecretPatterns()[q].right && Occurs(SecretPatterns()[q], k, i, |k|))
    || (exists i: nat :: TakesPublic(r, k, i, |k|))
  }

  /** Looking for addresses from the left, s[i..j] is found, and it is public. */
  ghost predicate TakesPublic(r: Redactor, k: string, i: nat, j: nat) {
    Taken(IPV4, false, k, i, j) && r.gate(k[i..j])
  }

  /** s[a..b] is kept, and a masked neighbour turns one of its ends into the
    * boundary a secret needs: a certificate header directly before it, or an open
    * secret directly after it that begins with a word character.
    */
  ghost predicate ReopenedAt(r: Redactor, s: string, a: nat, b: nat) {
    && a <= b <= |s| && Keeps(Plan(r.gate, r.stages, s), a, b)
    && (|| (BeginsSecret(r, s[a..b]) && HeaderBefore(s, a))
        || (EndsSecret(r, s[a..b]) && OpenBehind(s, b)))
  }

  ghost predicate HeaderBefore(s: string, a: nat)
    requires a <= |s|
  {
    exists h: nat :: h <= a && Header(s[h..a])
  }

  ghost predicate OpenBehind(s: string, b: nat)
    requires b <= |s|
  {
    exists h: nat :: b <= h <= |s| && OpenSecret(s[b..h]) && AtWord(s[b..h])
  }

  ghost predicate Reopened(r: Redactor, s: string) {
    exists a: nat, b: nat :: ReopenedAt(r, s, a, b)
  }

  lemma HeaderEndsWord(h: string)
    requires Header(h)
    ensures EndsWord(h)
  {
    CertificateProper();
    var k := LangHas(CERTIFICATE.atoms, h, |CERTIFICATE.atoms| - 1);
    assert CERTIFICATE.atoms[|CERTIFICATE.atoms| - 1] == One(Fold('e'));
    FoldFacts('e');
  }

  lemma HeaderIsWordBefore(s: string, a: nat)
    requires a <= |s| && HeaderBefore(s, a)
    ensures PrevWord(false, s, a)
  {
    hide Header;
    var h: nat :| h <= a && Header(s[h..a]);
    HeaderEndsWord(s[h..a]);
  }

  /** A stretch at which the condition holds is exposed. */
  lemma ReopenedStuck(r: Redactor, s: string, a: nat, b: nat)
    requires Standard(r) && Origin(Plan(r.gate, r.stages, s)) == s && ReopenedAt(r, s, a, b)
    ensures StuckAt(r.gate, r.stages, false, Plan(r.gate, r.stages, s), a, b)
  {
    hide Plan, Keeps, Occurs, Lang, Taken, LeadsTo, Header, OpenSecret;
    var k, l, n := s[a..b], PrevWord(false, s, a), NextWord(s, b);
    if BeginsSecret(r, k) && HeaderBefore(s, a) {
      HeaderIsWordBefore(s, a);
      if q: nat, j: nat :| q < |SecretPatterns()| && SecretPatterns()[q].left && Occurs(SecretPatterns()[q], k, 0, j) {
        StagePattern(r, q);
        assert Exposed(r.gate, r.stages[q + 1], l, k, n);
      } else {
        var i: nat, j: nat :| TakesPublic(r, k, i, j) && LeadsTo(IPV4, k, j);
        assert Masked(r.gate, r.stages[0], false, k, i, j);
        assert Exposed(r.gate, r.stages[0], l, k, n);
      }
    } else {
      assert n;
      if q: nat, i: nat :| q < |SecretPatterns()| && SecretPatterns()[q].right && Occurs(SecretPatterns()[q], k, i, |k|) {
        StagePattern(r, q);
        assert Exposed(r.gate, r.stages[q + 1], l, k, n);
      } else {
        var i: nat :| TakesPublic(r, k, i, |k|);
        assert Masked(r.gate, r.stages[0], false, k, i, |k|);
        assert Exposed(r.gate, r.stages[0], l, k, n);
      }
    }
  }

  /** An exposed stretch fulfils the condition. */
  lemma StuckReopened(r: Redactor, s: string, a: nat, b: nat)
    requires Standard(r) && Origin(Plan(r.gate, r.stages, s)) == s
    requires StuckAt(r.gate, r.stages, false, Plan(r.gate, r.stages, s), a, b)
    ensures ReopenedAt(r, s, a, b)
  {
    hide Plan, Keeps, Orderly, Exposed, Lang, OpenSecret, ClosedExcept, BeginsSecret, EndsSecret;
    var k, l, n := s[a..b], PrevWord(false, s, a), NextWord(s, b);
    var p := Plan(r.gate, r.stages, s);
    StagesSound(r);
    ClosedExceptOpen(r);
    PlanSolid(r.gate, r.stages, s);
    PlanSealed(r.gate, r.stages, s, h => OpenSecret(h), h => Header(h));
    var x: nat :| x < |r.stages| && Exposed(r.gate, r.stages[x], l, k, n);
    ExposedSide(r, x, l, k, n);
    if l && AtWord(k) && BeginsSecret(r, k) {
      var h := SealedBefore(h => OpenSecret(h), h => Header(h), p, a, b);
    } else {
      var h := SealedBehind(h => OpenSecret(h), h => Header(h), p, a, b);
    }
  }

  /** Which side of an exposed stretch is the reason. */
  lemma ExposedSide(r: Redactor, x: nat, l: bool, k: string, n: bool)
    requires Standard(r) && x < |r.stages| && Exposed(r.gate, r.stages[x], l, k, n)
    ensures (l && AtWord(k) && BeginsSecret(r, k)) || (n && EndsWord(k) && EndsSecret(r, k))
  {
    hide Lang, Taken, Avoids, Sound;
    StagesSound(r);
    if x == 0 {
      Ipv4Proper();
      var i: nat, j: nat :| Masked(r.gate, r.stages[0], false, k, i, j) && ((l && LeadsTo(IPV4, k, j)) || (n && j == |k|));
      assert TakesPublic(r, k, i, j);
      TakenInside(IPV4, false, k, i, j);
      ProperEnds(IPV4, k[i..j]);
      if l && LeadsTo(IPV4, k, j) {
        var m: nat :| Match(IPV4, false, k, m);
        ProperEnds(IPV4, k[..m]);
      }
    } else {
      StagePattern(r, x - 1);
      SecretPatternsProper();
      var q := SecretPatterns()[x - 1];
      var i: nat, j: nat :| Occurs(q, k, i, j) && Flush(q, l, k, n, i, j);
      ProperEnds(q, k[i..j]);
    }
  }

  /** Redacting twice is the same as redacting once exactly when no stretch of s
    * the pass keeps is reopened by what it masks beside it.
    */
  lemma IdempotentIff(r: Redactor, s: string)
    requires Standard(r)
    ensures Redacted(r, Redacted(r, s)) == Redacted(r, s) <==> !Reopened(r, s)
  {
    hide Run, Plan, StuckAt, ReopenedAt, Orderly;
    StagesOrderly(r);
    SettlesIffAt(r.gate, r.stages, s);
    StagesSound(r);
    PlanCorrect(r.gate, r.stages, s);
    if a: nat, b: nat :| StuckAt(r.gate, r.stages, false, Plan(r.gate, r.stages, s), a, b) {
      StuckReopened(r, s, a, b);
    }
    if a: nat, b: nat :| ReopenedAt(r, s, a, b) {
      ReopenedStuck(r, s, a, b);
    }
  }

  // --------------------------------------- conditions on the text alone

  /** If no word character touches a masked key, private-key, api-key or
    * certificate match on a side where the pattern asks for no boundary, one pass
    * is enough.
    */
  lemma IdempotentIfUntouched(r: Redactor, s: string)
    requires Standard(r)
    requires Untouched(h => OpenSecret(h), h => Header(h), Plan(r.gate, r.stages, s))
    ensures Redacted(r, Redacted(r, s)) == Redacted(r, s)
  {
    hide Run, Plan, Orderly, Untouched, ClosedExcept;
    StagesOrderly(r);
    ClosedExceptOpen(r);
    UntouchedSettles(r.gate, r.stages, s, h => OpenSecret(h), h => Header(h));
  }

  /** A secret text whose pattern asks for a boundary in front. */
  ghost predicate BoundBefore(h: string) {
    Lang(IPV4.atoms, h) || exists q: nat :: q < |SecretPatterns()| && SecretPatterns()[q].left && Lang(SecretPatterns()[q].atoms, h)
  }

  /** A secret text whose pattern asks for a boundary behind. */
  ghost predicate BoundAfter(h: string) {
    Lang(IPV4.atoms, h) || exists q: nat :: q < |SecretPatterns()| && SecretPatterns()[q].right && Lang(SecretPatterns()[q].atoms, h)
  }

  /** s[a..m] and s[m..b] are secrets that meet inside a word, so that masking
    * one gives the other a boundary.
    */
  ghost predicate Meet(s: string, a: nat, m: nat, b: nat) {
    && a <= m <= b <= |s|
    && (|| (Header(s[a..m]) && BoundBefore(s[m..b]))
        || (BoundAfter(s[a..m]) && OpenSecret(s[m..b]) && AtWord(s[m..b])))
  }

  lemma BeginsBound(r: Redactor, k: string) returns (j: nat)
    requires BeginsSecret(r, k)
    ensures j <= |k| && BoundBefore(k[..j])
  {
    hide Lang, Taken, Avoids;
    if q: nat, j': nat :| q < |SecretPatterns()| && SecretPatterns()[q].left && Occurs(SecretPatterns()[q], k, 0, j') {
      j := j';
      assert k[0..j] == k[..j];
    } else {
      j :| Match(IPV4, false, k, j);
    }
  }

  lemma EndsBound(r: Redactor, k: string) returns (i: nat)
    requires EndsSecret(r, k)
    ensures i <= |k| && BoundAfter(k[i..])
  {
    hide Lang, Taken;
    if q: nat, i': nat :| q < |SecretPatterns()| && SecretPatterns()[q].right && Occurs(SecretPatterns()[q], k, i', |k|) {
      i := i';
    } else {
      i :| TakesPublic(r, k, i, |k|);
      TakenInside(IPV4, false, k, i, |k|);
    }
    assert k[i..|k|] == k[i..];
  }

  lemma ReopenedMeets(r: Redactor, s: string, a: nat, b: nat) returns (x: nat, m: nat, y: nat)
    requires ReopenedAt(r, s, a, b)
    ensures Meet(s, x, m, y)
  {
    hide Plan, Keeps, BeginsSecret, EndsSecret, BoundBefore, BoundAfter, OpenSecret, Header;
    if BeginsSecret(r, s[a..b]) && HeaderBefore(s, a) {
      x :| x <= a && Header(s[x..a]);
      var j := BeginsBound(r, s[a..b]);
      assert s[a..b][..j] == s[a..a + j];
      m, y := a, a + j;
    } else {
      y :| b <= y <= |s| && OpenSecret(s[b..y]) && AtWord(s[b..y]);
      var i := EndsBound(r, s[a..b]);
      assert s[a..b][i..] == s[a + i..b];
      x, m := a + i, b;
    }
  }

  /** One pass is enough for a text in which no two secrets meet inside a word,
    * one of them of a pattern that asks for no boundary there.
    */
  lemma IdempotentUnlessMeeting(r: Redactor, s: string)
    requires Standard(r)
    requires forall a: nat, m: nat, b: nat :: !Meet(s, a, m, b)
    ensures Redacted(r, Redacted(r, s)) == Redacted(r, s)
  {
    hide Run, ReopenedAt, Meet;
    IdempotentIff(r, s);
    if a: nat, b: nat :| ReopenedAt(r, s, a, b) {
      var x, m, y := ReopenedMeets(r, s, a, b);
    }
  }

  lemma BoundBeforeWord(h: string)
    requires BoundBefore(h)
    ensures AtWord(h)
  {
    hide Proper, Lang;
    Ipv4Proper();
    SecretPatternsProper();
    if Lang(IPV4.atoms, h) {
      ProperEnds(IPV4, h);
    } else {
      var q: nat :| q < |SecretPatterns()| && SecretPatterns()[q].left && Lang(SecretPatterns()[q].atoms, h);
      ProperEnds(SecretPatterns()[q], h);
    }
  }

  lemma BoundAfterWord(h: string)
    requires BoundAfter(h)
    ensures EndsWord(h)
  {
    hide Proper, Lang;
    Ipv4Proper();
    SecretPatternsProper();
    if Lang(IPV4.atoms, h) {
      ProperEnds(IPV4, h);
    } else {
      var q: nat :| q < |SecretPatterns()| && SecretPatterns()[q].right && Lang(SecretPatterns()[q].atoms, h);
      ProperEnds(SecretPatterns()[q], h);
    }
  }

  /** In particular one pass is enough for a text in which no word character
    * stands directly before or after a key, private-key, api-key or certificate
    * text.
    */
  lemma IdempotentIfApart(r: Redactor, s: string)
    requires Standard(r)
    requires forall i: nat, j: nat | i <= j <= |s| && OpenSecret(s[i..j]) ::
               !PrevWord(false, s, i) && !NextWord(s, j)
    ensures Redacted(r, Redacted(r, s)) == Redacted(r, s)
  {
    hide Run, BoundBefore, BoundAfter, Lang;
    forall a: nat, m: nat, b: nat ensures !Meet(s, a, m, b) {
      if Meet(s, a, m, b) {
        if Header(s[a..m]) && BoundBefore(s[m..b]) {
          BoundBeforeWord(s[m..b]);
        } else {
          BoundAfterWord(s[a..m]);
        }
      }
    }
    IdempotentUnlessMeeting(r, s);
  }
}
