/** The same search told by positions: which matches a leftmost, non-overlapping
  * scan takes, whether or not it masks them.
  */
module Search {
  import opened Regex
  import opened Substitution
  import opened Glue

  /** The scan stops at position i: no match it took before reaches beyond i. */
  ghost predicate Free(p: Pattern, pw: bool, s: string, i: nat)
    decreases i
  {
    && i <= |s|
    && forall h: nat, n: nat | h < i && Free(p, pw, s, h) && Match(p, PrevWord(pw, s, h), s[h..], n) :: h + n <= i
  }

  /** The scan takes s[i..j]. */
  ghost predicate Taken(p: Pattern, pw: bool, s: string, i: nat, j: nat) {
    i <= j <= |s| && Free(p, pw, s, i) && Match(p, PrevWord(pw, s, i), s[i..], j - i)
  }

  /** The scan takes s[i..j] and masks it. */
  ghost predicate Masked(g: Gate, st: Stage, pw: bool, s: string, i: nat, j: nat) {
    Taken(st.re.pat, pw, s, i, j) && (st.gated ==> g(s[i..j]))
  }

  /** The scan moves from the start of s by n. */
  ghost predicate Moves(p: Pattern, pw: bool, s: string, n: nat) {
    1 <= n <= |s| && (Match(p, pw, s, n) || (n == 1 && forall m: nat :: !Match(p, pw, s, m)))
  }

  lemma StepMoves(g: Gate, st: Stage, pw: bool, s: string)
    requires Sound(st) && s != ""
    ensures Moves(st.re.pat, pw, s, Step(g, st, pw, s).0)
  {
    hide Step;
    var n := Step(g, st, pw, s).0;
    StepExact(g, st, pw, s, n);
    forall m: nat ensures Match(st.re.pat, pw, s, m) ==> m == n { StepExact(g, st, pw, s, m); }
  }

  lemma SameLength(p: Pattern, pw: bool, s: string, m: nat, n: nat)
    requires Proper(p) && Match(p, pw, s, m) && Match(p, pw, s, n)
    ensures m == n
  {
    UniqueLength(p.atoms, p.right, pw, s, m, n);
  }

  lemma MatchShift(p: Pattern, pw: bool, s: string, n: nat, h: nat, m: nat)
    requires 1 <= n && n + h <= |s|
    ensures Match(p, PrevWord(Word(s[n - 1]), s[n..], h), s[n..][h..], m)
       <==> Match(p, PrevWord(pw, s, n + h), s[n + h..], m)
  {
    assert s[n..][h..] == s[n + h..];
  }

  /** After a move, the scan goes on as on a text of its own. */
  lemma {:induction false} FreeShift(p: Pattern, pw: bool, s: string, n: nat, i: nat)
    requires Proper(p) && Moves(p, pw, s, n) && n + i <= |s|
    ensures Free(p, pw, s, n + i) <==> Free(p, Word(s[n - 1]), s[n..], i)
    decreases i
  {
    hide Proper, Match;
    var pw', t := Word(s[n - 1]), s[n..];
    if Free(p, pw, s, n + i) {
      forall h: nat, m: nat | h < i && Free(p, pw', t, h) && Match(p, PrevWord(pw', t, h), t[h..], m)
        ensures h + m <= i
      {
        MatchShift(p, pw, s, n, h, m);
        FreeShift(p, pw, s, n, h);
      }
    }
    if Free(p, pw', t, i) {
      forall h: nat, m: nat | h < n + i && Free(p, pw, s, h) && Match(p, PrevWord(pw, s, h), s[h..], m)
        ensures h + m <= n + i
      {
        assert s[0..] == s;
        if h == 0 {
          SameLength(p, pw, s, m, n);
        } else if h >= n {
          MatchShift(p, pw, s, n, h - n, m);
          FreeShift(p, pw, s, n, h - n);
        } else {
          NotInside(p, pw, s, n, h);
        }
      }
    }
  }

  /** A taken match is the one at the start or one of the rest. */
  lemma TakenShift(p: Pattern, pw: bool, s: string, n: nat, i: nat, j: nat)
    requires Proper(p) && Moves(p, pw, s, n)
    ensures i < n ==> (Taken(p, pw, s, i, j) <==> i == 0 && j == n && Match(p, pw, s, n))
    ensures n <= i <= j ==> (Taken(p, pw, s, i, j) <==> Taken(p, Word(s[n - 1]), s[n..], i - n, j - n))
  {
    hide Proper, Match, Free;
    assert s[0..] == s;
    if i == 0 {
      StartFree(p, pw, s);
      if Match(p, pw, s, j) && Match(p, pw, s, n) { SameLength(p, pw, s, j, n); }
    } else if i < n {
      NotInside(p, pw, s, n, i);
    } else if i <= j <= |s| {
      FreeShift(p, pw, s, n, i - n);
      MatchShift(p, pw, s, n, i - n, j - i);
    }
  }

  lemma StartFree(p: Pattern, pw: bool, s: string)
    ensures Free(p, pw, s, 0)
  {}

  lemma NotInside(p: Pattern, pw: bool, s: string, n: nat, i: nat)
    requires 1 <= i < n && Match(p, pw, s, n)
    ensures !Free(p, pw, s, i)
  {
    StartFree(p, pw, s);
    assert s[0..] == s;
    assert Match(p, PrevWord(pw, s, 0), s[0..], n);
  }

  /** The same for masked matches, told from the step the scan makes. */
  lemma MaskedShift(g: Gate, st: Stage, pw: bool, s: string, i: nat, j: nat)
    requires Sound(st) && s != ""
    ensures var (n, hot) := Step(g, st, pw, s);
            && (i < n ==> (Masked(g, st, pw, s, i, j) <==> i == 0 && j == n && hot))
            && (n <= i <= j ==> (Masked(g, st, pw, s, i, j) <==> Masked(g, st, Word(s[n - 1]), s[n..], i - n, j - n)))
  {
    hide Step, Taken, Proper;
    var (n, hot) := Step(g, st, pw, s);
    StepMoves(g, st, pw, s);
    StepExact(g, st, pw, s, n);
    TakenShift(st.re.pat, pw, s, n, i, j);
    if n <= i <= j <= |s| { assert s[n..][i - n..j - n] == s[i..j]; }
    TakenInside(st.re.pat, pw, s, i, j);
    if n <= i <= j { TakenInside(st.re.pat, Word(s[n - 1]), s[n..], i - n, j - n); }
  }

  lemma TakenInside(p: Pattern, pw: bool, s: string, i: nat, j: nat)
    ensures Taken(p, pw, s, i, j) ==> i <= j <= |s| && Lang(p.atoms, s[i..j])
  {
    if Taken(p, pw, s, i, j) { assert s[i..j] == s[i..][..j - i]; }
  }

  /** A scan cuts something exactly when one of the matches it takes is masked. */
  lemma {:induction false} CutIffMasked(g: Gate, st: Stage, pw: bool, s: string)
    requires Sound(st)
    ensures Split(g, st, pw, s).Cut? <==> exists i: nat, j: nat :: Masked(g, st, pw, s, i, j)
    decreases |s|
  {
    hide Sub, Split, Step, Masked;
    Unfold(g, st, pw, s);
    if s == "" {
      forall i: nat, j: nat ensures !Masked(g, st, pw, s, i, j) {
        if Masked(g, st, pw, s, i, j) { MaskedNonempty(g, st, pw, s, i, j); }
      }
    } else {
      var (n, hot) := Step(g, st, pw, s);
      var pw', t := Word(s[n - 1]), s[n..];
      CutIffMasked(g, st, pw', t);
      if hot { MaskedShift(g, st, pw, s, 0, n); }
      if i: nat, j: nat :| Masked(g, st, pw', t, i, j) {
        MaskedNonempty(g, st, pw', t, i, j);
        MaskedShift(g, st, pw, s, n + i, n + j);
      }
      if i: nat, j: nat :| Masked(g, st, pw, s, i, j) {
        MaskedNonempty(g, st, pw, s, i, j);
        MaskedShift(g, st, pw, s, i, j);
      }
    }
  }

  lemma MaskedNonempty(g: Gate, st: Stage, pw: bool, s: string, i: nat, j: nat)
    requires Sound(st) && Masked(g, st, pw, s, i, j)
    ensures i < j <= |s| && Lang(st.re.pat.atoms, s[i..j])
  {
    hide Taken, Proper;
    TakenInside(st.re.pat, pw, s, i, j);
    ProperEnds(st.re.pat, s[i..j]);
  }

  /** What is taken behind a character that no match contains is taken in the
    * text behind it.
    */
  lemma {:induction false} MaskedSuffix(g: Gate, st: Stage, pw: bool, s: string, t: nat, i: nat, j: nat)
    requires Sound(st) && Masked(g, st, pw, s, i, j)
    requires t < i && t < |s| && Avoids(st.re.pat, s[t])
    ensures Masked(g, st, Word(s[t]), s[t + 1..], i - t - 1, j - t - 1)
    decreases |s|
  {
    hide Step, Masked, Avoids, Match, Lang, Proper;
    var n := Step(g, st, pw, s).0;
    StepExact(g, st, pw, s, n);
    if n > 1 { StepStops(st.re.pat, s, n, t); }
    MaskedNonempty(g, st, pw, s, i, j);
    MaskedShift(g, st, pw, s, i, j);
    if n < t + 1 {
      assert s[n..][t - n] == s[t] && s[n..][t - n + 1..] == s[t + 1..];
      MaskedSuffix(g, st, Word(s[n - 1]), s[n..], t - n, i - n, j - n);
    }
  }
}
