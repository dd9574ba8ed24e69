/** Why a second pass can find something the first did not: a mask is not a
  * word character, so cutting a text between two word characters creates a
  * boundary that was not there.
  */
module Glue {
  import opened Regex
  import opened Substitution
  import opened Pipeline

  predicate AtWord(s: string) { s != "" && Word(s[0]) }

  predicate EndsWord(s: string) { s != "" && Word(s[|s| - 1]) }

  /** p matches s[i..j], s standing alone. */
  ghost predicate Occurs(p: Pattern, s: string, i: nat, j: nat) {
    && i <= j <= |s|
    && Lang(p.atoms, s[i..j])
    && (p.left ==> Edge(false, s, i))
    && (p.right ==> Edge(false, s, j))
  }

  /** The occurrence uses a boundary made by a cut: l and r say whether the
    * text cut off on the left and on the right began with a word character.
    */
  predicate Flush(p: Pattern, l: bool, s: string, r: bool, i: nat, j: nat) {
    (p.left && i == 0 && l) || (p.right && j == |s| && r)
  }

  /** Every occurrence in s uses a boundary made by a cut. */
  ghost predicate Hushed(p: Pattern, l: bool, s: string, r: bool) {
    forall i: nat, j: nat :: Occurs(p, s, i, j) ==> Flush(p, l, s, r, i, j)
  }

  lemma SliceSlice<T>(s: seq<T>, a: nat, b: nat, i: nat, j: nat)
    requires a <= b <= |s| && i <= j <= b - a
    ensures s[a..b][i..j] == s[a + i..a + j]
  {
    var u, v := s[a..b][i..j], s[a + i..a + j];
    assert forall k | 0 <= k < |u| :: u[k] == v[k];
  }

  /** Hushed survives cutting out any stretch. */
  lemma HushedSlice(p: Pattern, l: bool, s: string, r: bool, a: nat, b: nat)
    requires Proper(p) && Hushed(p, l, s, r) && a <= b <= |s|
    ensures Hushed(p, PrevWord(l, s, a), s[a..b], if b == |s| then r else Word(s[b]))
  {
    var u := s[a..b];
    var l', r' := PrevWord(l, s, a), if b == |s| then r else Word(s[b]);
    forall i: nat, j: nat | Occurs(p, u, i, j) ensures Flush(p, l', u, r', i, j) {
      SliceSlice(s, a, b, i, j);
      ProperEnds(p, u[i..j]);
      if !Flush(p, l', u, r', i, j) {
        assert Occurs(p, s, a + i, a + j);
      }
    }
  }

  /** A property of every kept stretch, given whether a word character precedes
    * it and the text that follows it.
    */
  ghost predicate Along(q: (bool, string, string) -> bool, l: bool, p: Pieces, y: string)
    decreases p
  {
    match p
    case Tail(k) => q(l, k, y)
    case Cut(k, h, rest) => h != "" && q(l, k, h + Origin(rest) + y) && Along(q, EndsWord(h), rest, y)
  }

  ghost function HushedQ(p: Pattern): (bool, string, string) -> bool {
    (l: bool, k: string, y: string) => Hushed(p, l, k, AtWord(y))
  }

  lemma {:induction false} JoinAlong(
      q: (bool, string, string) -> bool, l: bool, p: Pieces, h: string, r: Pieces, y: string)
    requires h != "" && Along(q, l, p, h + Origin(r) + y) && Along(q, EndsWord(h), r, y)
    ensures Along(q, l, Join(p, h, r), y)
    decreases p
  {
    match p
    case Tail(k) =>
    case Cut(k, h', rest) =>
      JoinAlong(q, EndsWord(h'), rest, h, r, y);
      JoinPieces(rest, h, r);
      assert h' + Origin(rest) + (h + Origin(r) + y) == h' + Origin(Join(rest, h, r)) + y;
  }

  /** If every kept stretch satisfies q0, and working on such a stretch gives
    * stretches satisfying q, then the whole expansion satisfies q.
    */
  lemma {:induction false} ExpandAlong(
      g: Gate, stages: seq<Stage>, q0: (bool, string, string) -> bool,
      q: (bool, string, string) -> bool, l: bool, p: Pieces, y: string)
    requires AllSound(stages) && Along(q0, l, p, y)
    requires forall l: bool, k: string, y: string :: q0(l, k, y) ==> Along(q, l, Plan(g, stages, k), y)
    ensures Along(q, l, Expand(g, stages, p), y)
    decreases p
  {
    if p.Cut? {
      ExpandAlong(g, stages, q0, q, EndsWord(p.hit), p.rest, y);
      ExpandCorrect(g, stages, p.rest);
      JoinAlong(q, l, Plan(g, stages, p.kept), p.hit, Expand(g, stages, p.rest), y);
    }
  }

  /** Cutting a hushed text leaves hushed stretches. */
  lemma {:induction false} HushedAlong(p: Pattern, l: bool, t: Pieces, y: string)
    requires Proper(p) && Solid(t) && Hushed(p, l, Origin(t), AtWord(y))
    ensures Along(HushedQ(p), l, t, y)
    decreases t
  {
    if t.Cut? {
      HushedAround(p, l, t.kept, t.hit, Origin(t.rest), y);
      HushedAlong(p, EndsWord(t.hit), t.rest, y);
    }
  }

  lemma HushedAround(p: Pattern, l: bool, k: string, h: string, u: string, y: string)
    requires Proper(p) && h != "" && Hushed(p, l, k + (h + u), AtWord(y))
    ensures Hushed(p, l, k, AtWord(h + u + y))
    ensures Hushed(p, EndsWord(h), u, AtWord(y))
  {
    var s := k + (h + u);
    var b := |k| + |h|;
    assert s[0..|k|] == k && s[b..|s|] == u;
    assert s[|k|] == h[0] && s[b - 1] == h[|h| - 1];
    HushedSlice(p, l, s, AtWord(y), 0, |k|);
    HushedSlice(p, l, s, AtWord(y), b, |s|);
  }

  /** No cut is empty. */
  predicate Solid(p: Pieces) {
    p.Cut? ==> p.hit != "" && Solid(p.rest)
  }

  lemma {:induction false} SplitSolid(g: Gate, st: Stage, pw: bool, s: string)
    ensures Solid(Split(g, st, pw, s))
    decreases |s|
  {
    hide Sub, Split, Step;
    Unfold(g, st, pw, s);
    if s != "" {
      var n := Step(g, st, pw, s).0;
      SplitSolid(g, st, Word(s[n - 1]), s[n..]);
    }
  }

  lemma {:induction false} JoinSolid(p: Pieces, h: string, q: Pieces)
    requires Solid(p) && h != "" && Solid(q)
    ensures Solid(Join(p, h, q))
    decreases p
  {
    if p.Cut? { JoinSolid(p.rest, h, q); }
  }

  lemma {:induction false} PlanSolid(g: Gate, stages: seq<Stage>, s: string)
    ensures Solid(Plan(g, stages, s))
    decreases |stages|, 0
  {
    hide Split;
    if stages != [] {
      SplitSolid(g, stages[0], false, s);
      ExpandSolid(g, stages[1..], Split(g, stages[0], false, s));
    }
  }

  lemma {:induction false} ExpandSolid(g: Gate, stages: seq<Stage>, p: Pieces)
    requires Solid(p)
    ensures Solid(Expand(g, stages, p))
    decreases |stages|, 1, p
  {
    hide Split, Plan;
    PlanSolid(g, stages, p.kept);
    if p.Cut? {
      ExpandSolid(g, stages, p.rest);
      JoinSolid(Plan(g, stages, p.kept), p.hit, Expand(g, stages, p.rest));
    }
  }

  // ------------------------------------------- what one scan leaves behind

  /** No match starts within the first m positions of s. */
  ghost predicate Silent(p: Pattern, pw: bool, s: string, m: nat)
    requires m <= |s|
  {
    forall i: nat, n: nat | i < m :: !Match(p, PrevWord(pw, s, i), s[i..], n)
  }

  lemma SilentLonger(p: Pattern, pw: bool, s: string, m: nat)
    requires m < |s| && Silent(p, Word(s[0]), s[1..], m)
    requires forall n: nat :: !Match(p, pw, s, n)
    ensures Silent(p, pw, s, m + 1)
  {
    forall i: nat, n: nat | i < m + 1 ensures !Match(p, PrevWord(pw, s, i), s[i..], n) {
      if i == 0 {
        assert s[0..] == s;
      } else {
        assert s[1..][i - 1..] == s[i..];
        assert !Match(p, PrevWord(Word(s[0]), s[1..], i - 1), s[1..][i - 1..], n);
      }
    }
  }

  lemma ColdStep(g: Gate, st: Stage, pw: bool, s: string, n: nat)
    requires Sound(st) && !st.gated && s != "" && !Step(g, st, pw, s).1
    ensures Step(g, st, pw, s).0 == 1
    ensures !Match(st.re.pat, pw, s, n)
  {
    StepExact(g, st, pw, s, Step(g, st, pw, s).0);
    StepExact(g, st, pw, s, n);
  }

  /** Split, told from its first cut: the scan passes over the kept stretch,
    * takes the hit and goes on with the rest.
    */
  lemma {:induction false} FirstCut(g: Gate, st: Stage, pw: bool, s: string)
    ensures var p := Split(g, st, pw, s);
            p.Cut? ==> p.hit != "" && p.rest == Split(g, st, EndsWord(p.hit), Origin(p.rest))
    decreases |s|
  {
    hide Sub, Split, Step;
    Unfold(g, st, pw, s);
    if s != "" {
      var (n, hot) := Step(g, st, pw, s);
      SplitSub(g, st, Word(s[n - 1]), s[n..]);
      FirstCut(g, st, Word(s[n - 1]), s[n..]);
    }
  }

  /** An ungated scan keeps only positions at which nothing matches. */
  lemma {:induction false} KeptSilent(g: Gate, st: Stage, pw: bool, s: string)
    requires Sound(st) && !st.gated
    ensures |Split(g, st, pw, s).kept| <= |s|
    ensures Silent(st.re.pat, pw, s, |Split(g, st, pw, s).kept|)
    decreases |s|
  {
    hide Sub, Split, Step;
    Unfold(g, st, pw, s);
    if s != "" && !Step(g, st, pw, s).1 {
      forall n: nat ensures !Match(st.re.pat, pw, s, n) { ColdStep(g, st, pw, s, n); }
      ColdStep(g, st, pw, s, 0);
      KeptSilent(g, st, Word(s[0]), s[1..]);
      SilentLonger(st.re.pat, pw, s, |Split(g, st, Word(s[0]), s[1..]).kept|);
    }
  }

  /** Where nothing matches in context, an occurrence in the stretch alone uses
    * a boundary the cut made.
    */
  lemma SilentHushed(p: Pattern, pw: bool, s: string, l: bool, k: string, y: string, r: bool)
    requires Proper(p) && s == k + y && Silent(p, pw, s, |k|)
    requires pw ==> l
    requires AtWord(y) ==> r
    ensures Hushed(p, l, k, r)
  {
    forall i: nat, j: nat | Occurs(p, k, i, j) ensures Flush(p, l, k, r, i, j) {
      assert k[i..j] == s[i..][..j - i];
      ProperEnds(p, k[i..j]);
      assert !Match(p, PrevWord(pw, s, i), s[i..], j - i);
    }
  }

  /** An ungated scan leaves hushed stretches. */
  lemma {:induction false} SplitHushed(g: Gate, st: Stage, pw: bool, s: string, l: bool, y: string)
    requires Sound(st) && !st.gated && (pw ==> l)
    ensures Along(HushedQ(st.re.pat), l, Split(g, st, pw, s), y)
    decreases |s|
  {
    hide Sub, Split, Step;
    var p := Split(g, st, pw, s);
    SplitSub(g, st, pw, s);
    FirstCut(g, st, pw, s);
    KeptSilent(g, st, pw, s);
    if p.Tail? {
      assert s == p.kept + "";
      SilentHushed(st.re.pat, pw, s, l, p.kept, "", AtWord(y));
    } else {
      SilentHushed(st.re.pat, pw, s, l, p.kept, p.hit + Origin(p.rest), AtWord(p.hit + Origin(p.rest) + y));
      SplitHushed(g, st, EndsWord(p.hit), Origin(p.rest), EndsWord(p.hit), y);
    }
  }

  /** After a whole pass, every kept stretch is hushed for every ungated stage. */
  lemma {:induction false} PlanHushed(g: Gate, stages: seq<Stage>, i: nat, l: bool, s: string, y: string)
    requires AllSound(stages) && i < |stages| && !stages[i].gated
    ensures Along(HushedQ(stages[i].re.pat), l, Plan(g, stages, s), y)
    decreases |stages|
  {
    hide Sub, Split;
    var q := HushedQ(stages[i].re.pat);
    var rest := stages[1..];
    if i == 0 {
      SplitHushed(g, stages[0], false, s, l, y);
      forall l: bool, k: string, y: string | q(l, k, y) ensures Along(q, l, Plan(g, rest, k), y) {
        PlanSolid(g, rest, k);
        PlanCorrect(g, rest, k);
        HushedAlong(stages[0].re.pat, l, Plan(g, rest, k), y);
      }
      ExpandAlong(g, rest, q, q, l, Split(g, stages[0], false, s), y);
    } else {
      var any := (l: bool, k: string, y: string) => true;
      SplitSolid(g, stages[0], false, s);
      SolidAlong(any, l, Split(g, stages[0], false, s), y);
      forall l: bool, k: string, y: string | any(l, k, y) ensures Along(q, l, Plan(g, rest, k), y) {
        PlanHushed(g, rest, i - 1, l, k, y);
      }
      ExpandAlong(g, rest, any, q, l, Split(g, stages[0], false, s), y);
    }
  }

  lemma {:induction false} SolidAlong(q: (bool, string, string) -> bool, l: bool, p: Pieces, y: string)
    requires Solid(p) && forall l: bool, k: string, y: string :: q(l, k, y)
    ensures Along(q, l, p, y)
    decreases p
  {
    if p.Cut? { SolidAlong(q, EndsWord(p.hit), p.rest, y); }
  }

  // --------------------------------------------------------- the gated stage

  /** Scanning s followed by y masks nothing inside s. */
  ghost predicate Calm(g: Gate, st: Stage, pw: bool, s: string, y: string)
    decreases |s|
  {
    s == "" ||
    var (n, hot) := Step(g, st, pw, s + y);
    n > |s| || (!hot && Calm(g, st, Word(s[n - 1]), s[n..], y))
  }

  ghost function CalmQ(g: Gate, st: Stage): (bool, string, string) -> bool {
    (l: bool, k: string, y: string) => Calm(g, st, l, k, y)
  }

  lemma CalmStep(g: Gate, st: Stage, pw: bool, s: string, y: string)
    requires s != ""
    ensures var (n, hot) := Step(g, st, pw, s + y);
            Calm(g, st, pw, s, y) <==> n > |s| || (!hot && Calm(g, st, Word(s[n - 1]), s[n..], y))
  {
    hide Step;
  }

  lemma {:induction false} CalmPrefix(g: Gate, st: Stage, pw: bool, a: string, b: string, y: string)
    requires Calm(g, st, pw, a + b, y)
    ensures Calm(g, st, pw, a, b + y)
    decreases |a|
  {
    hide Step, Calm;
    if a == "" {
      CalmNothing(g, st, pw, b + y);
    } else {
      CalmStep(g, st, pw, a + b, y);
      CalmStep(g, st, pw, a, b + y);
      Assoc(a, b, y);
      var n := Step(g, st, pw, a + b + y).0;
      if n <= |a| {
        SliceLeft(a, b, n);
        CalmPrefix(g, st, Word(a[n - 1]), a[n..], b, y);
      }
    }
  }

  lemma CalmNothing(g: Gate, st: Stage, pw: bool, y: string)
    ensures Calm(g, st, pw, "", y)
  {}

  /** A scan cannot run over a character that no class of the pattern contains. */
  lemma {:induction false} CalmSuffix(g: Gate, st: Stage, pw: bool, a: string, b: string, y: string)
    requires Sound(st) && Calm(g, st, pw, a + b, y)
    requires a != "" && Avoids(st.re.pat, a[|a| - 1])
    ensures Calm(g, st, EndsWord(a), b, y)
    decreases |a|
  {
    hide Step, Calm;
    CalmStep(g, st, pw, a + b, y);
    Assoc(a, b, y);
    var s := a + b + y;
    var n := Step(g, st, pw, s).0;
    StepExact(g, st, pw, s, n);
    if n > 1 { StepStops(st.re.pat, s, n, |a| - 1); }
    SliceLeft(a, b, n);
    if n == |a| {
      assert a[n..] + b == b;
    } else {
      assert a[n..][|a[n..]| - 1] == a[|a| - 1];
      CalmSuffix(g, st, Word(a[n - 1]), a[n..], b, y);
    }
  }

  lemma StepStops(p: Pattern, s: string, n: nat, i: nat)
    requires Proper(p) && i < |s| && n <= |s| && Lang(p.atoms, s[..n]) && Avoids(p, s[i])
    ensures n <= i
  {
    if i < n { assert s[..n][i] == s[i]; }
    LangAvoids(p.atoms, s[..n], s[i]);
  }

  /** Every cut text satisfies f. */
  ghost predicate AllHits(f: string -> bool, p: Pieces) {
    p.Cut? ==> f(p.hit) && AllHits(f, p.rest)
  }

  lemma {:induction false} CalmAlong(g: Gate, st: Stage, l: bool, t: Pieces, y: string)
    requires Sound(st) && Solid(t) && Calm(g, st, l, Origin(t), y)
    requires AllHits(LastAvoids(st.re.pat), t)
    ensures Along(CalmQ(g, st), l, t, y)
    decreases t
  {
    hide Calm;
    if t.Cut? {
      var a := t.kept + t.hit;
      var u := Origin(t.rest);
      Assoc(t.kept, t.hit, u);
      Assoc(t.hit, u, y);
      CalmPrefix(g, st, l, t.kept, t.hit + u, y);
      CalmSuffix(g, st, l, a, u, y);
      assert a[|a| - 1] == t.hit[|t.hit| - 1];
      CalmAlong(g, st, EndsWord(t.hit), t.rest, y);
    }
  }

  /** A scan masks nothing inside what it keeps. */
  lemma {:induction false} SplitCalm(g: Gate, st: Stage, pw: bool, s: string)
    ensures Along(CalmQ(g, st), pw, Split(g, st, pw, s), "")
    decreases |s|
  {
    hide Sub, Split, Step, Calm;
    Unfold(g, st, pw, s);
    SplitSub(g, st, pw, s);
    var p := Split(g, st, pw, s);
    CalmNothing(g, st, pw, if p.Tail? then "" else p.hit + Origin(p.rest) + "");
    if s != "" {
      var (n, hot) := Step(g, st, pw, s);
      SplitCalm(g, st, Word(s[n - 1]), s[n..]);
      if !hot {
        var p' := Split(g, st, Word(s[n - 1]), s[n..]);
        var y := if p'.Tail? then "" else p'.hit + Origin(p'.rest) + "";
        assert p.kept + y == s;
        assert p.kept[n..] == p'.kept;
        CalmStep(g, st, pw, p.kept, y);
      }
    }
  }

  /** Every text a pass masks is a match of some stage, and public if that
    * stage is gated.
    */
  lemma {:induction false} SplitHits(g: Gate, st: Stage, pw: bool, s: string, f: string -> bool)
    requires Sound(st)
    requires forall h: string :: Lang(st.re.pat.atoms, h) && (st.gated ==> g(h)) ==> f(h)
    ensures AllHits(f, Split(g, st, pw, s))
    decreases |s|
  {
    hide Sub, Split, Step;
    Unfold(g, st, pw, s);
    if s != "" {
      var (n, hot) := Step(g, st, pw, s);
      StepExact(g, st, pw, s, n);
      SplitHits(g, st, Word(s[n - 1]), s[n..], f);
    }
  }

  lemma {:induction false} JoinHits(f: string -> bool, p: Pieces, h: string, q: Pieces)
    requires AllHits(f, p) && f(h) && AllHits(f, q)
    ensures AllHits(f, Join(p, h, q))
    decreases p
  {
    if p.Cut? { JoinHits(f, p.rest, h, q); }
  }

  ghost predicate Covers(g: Gate, stages: seq<Stage>, f: string -> bool) {
    forall i: nat, h: string | i < |stages| ::
      Lang(stages[i].re.pat.atoms, h) && (stages[i].gated ==> g(h)) ==> f(h)
  }

  lemma {:induction false} PlanHits(g: Gate, stages: seq<Stage>, s: string, f: string -> bool)
    requires AllSound(stages) && Covers(g, stages, f)
    ensures AllHits(f, Plan(g, stages, s))
    decreases |stages|, 0
  {
    hide Split;
    if stages != [] {
      var rest := stages[1..];
      SplitHits(g, stages[0], false, s, f);
      forall i: nat, h: string | i < |rest| && Lang(rest[i].re.pat.atoms, h) && (rest[i].gated ==> g(h))
        ensures f(h)
      {
        assert rest[i] == stages[i + 1];
      }
      ExpandHits(g, rest, Split(g, stages[0], false, s), f);
    }
  }

  lemma {:induction false} ExpandHits(g: Gate, stages: seq<Stage>, p: Pieces, f: string -> bool)
    requires AllSound(stages) && Covers(g, stages, f) && AllHits(f, p)
    ensures AllHits(f, Expand(g, stages, p))
    decreases |stages|, 1, p
  {
    hide Split, Plan;
    PlanHits(g, stages, p.kept, f);
    if p.Cut? {
      ExpandHits(g, stages, p.rest, f);
      JoinHits(f, Plan(g, stages, p.kept), p.hit, Expand(g, stages, p.rest));
    }
  }

  /** No match of the later stages ends with a character of the first pattern. */
  ghost predicate EndsOutside(p: Pattern, q: Pattern) {
    && q.atoms != []
    && q.atoms[|q.atoms| - 1].lo >= 1
    && forall c: char :: In(q.atoms[|q.atoms| - 1].cls, c) ==> Avoids(p, c)
  }

  ghost function LastAvoids(p: Pattern): string -> bool {
    (h: string) => h != "" && Avoids(p, h[|h| - 1])
  }

  lemma LaterCovers(g: Gate, stages: seq<Stage>, p: Pattern)
    requires forall i | 0 <= i < |stages| :: EndsOutside(p, stages[i].re.pat)
    ensures Covers(g, stages, LastAvoids(p))
  {
    forall i: nat, h: string | i < |stages| && Lang(stages[i].re.pat.atoms, h)
      ensures LastAvoids(p)(h)
    {
      var atoms := stages[i].re.pat.atoms;
      var k := LangHas(atoms, h, |atoms| - 1);
    }
  }

  lemma LaterCalm(g: Gate, st: Stage, stages: seq<Stage>, l: bool, k: string, y: string)
    requires Sound(st) && AllSound(stages) && Covers(g, stages, LastAvoids(st.re.pat))
    requires Calm(g, st, l, k, y)
    ensures Along(CalmQ(g, st), l, Plan(g, stages, k), y)
  {
    hide Calm, Plan;
    PlanSolid(g, stages, k);
    PlanCorrect(g, stages, k);
    PlanHits(g, stages, k, LastAvoids(st.re.pat));
    CalmAlong(g, st, l, Plan(g, stages, k), y);
  }

  /** After a whole pass, scanning on with the gated first stage masks nothing
    * inside any kept stretch.
    */
  lemma PlanCalm(g: Gate, stages: seq<Stage>, s: string)
    requires AllSound(stages) && stages != []
    requires forall i | 1 <= i < |stages| :: EndsOutside(stages[0].re.pat, stages[i].re.pat)
    ensures Along(CalmQ(g, stages[0]), false, Plan(g, stages, s), "")
  {
    hide Split, Calm, EndsOutside;
    var st, rest := stages[0], stages[1..];
    var q := CalmQ(g, st);
    SplitCalm(g, st, false, s);
    LaterCovers(g, rest, st.re.pat);
    forall l: bool, k: string, y: string | q(l, k, y) ensures Along(q, l, Plan(g, rest, k), y) {
      LaterCalm(g, st, rest, l, k, y);
    }
    ExpandAlong(g, rest, q, q, false, Split(g, st, false, s), "");
  }

  // ------------------------------------------- clean stretches, seen alone

  lemma {:induction false} NoMatchTail(g: Gate, st: Stage, pw: bool, s: string)
    requires Sound(st) && Silent(st.re.pat, pw, s, |s|)
    ensures Split(g, st, pw, s).Tail?
    decreases |s|
  {
    hide Sub, Split, Step;
    Unfold(g, st, pw, s);
    if s != "" {
      assert s[0..] == s;
      forall n: nat ensures !Match(st.re.pat, pw, s, n) {
        assert !Match(st.re.pat, PrevWord(pw, s, 0), s[0..], n);
      }
      StepExact(g, st, pw, s, 0);
      forall i: nat, n: nat | i < |s| - 1
        ensures !Match(st.re.pat, PrevWord(Word(s[0]), s[1..], i), s[1..][i..], n)
      {
        assert s[1..][i..] == s[i + 1..];
        assert !Match(st.re.pat, PrevWord(pw, s, i + 1), s[i + 1..], n);
      }
      NoMatchTail(g, st, Word(s[0]), s[1..]);
    }
  }

  lemma OccursMatch(p: Pattern, s: string, i: nat, j: nat)
    requires i <= j && i <= |s|
    ensures Occurs(p, s, i, j) <==> Match(p, PrevWord(false, s, i), s[i..], j - i)
  {
    if j <= |s| {
      assert s[i..j] == s[i..][..j - i];
      EdgeShift(false, s, i, 0);
      EdgeShift(false, s, i, j - i);
    }
  }

  lemma OccursInside(p: Pattern, s: string, i: nat, j: nat)
    requires Proper(p) && Occurs(p, s, i, j)
    ensures i < j
  {
    ProperEnds(p, s[i..j]);
  }

  lemma SilentNoOccurrence(p: Pattern, s: string, i: nat, j: nat)
    requires Proper(p) && Silent(p, false, s, |s|)
    ensures !Occurs(p, s, i, j)
  {
    if Occurs(p, s, i, j) {
      OccursInside(p, s, i, j);
      OccursMatch(p, s, i, j);
    }
  }

  lemma NoOccurrenceSilent(p: Pattern, s: string)
    requires forall i: nat, j: nat :: !Occurs(p, s, i, j)
    ensures Silent(p, false, s, |s|)
  {
    forall i: nat, n: nat | i < |s| ensures !Match(p, PrevWord(false, s, i), s[i..], n) {
      OccursMatch(p, s, i, i + n);
    }
  }

  /** An ungated stage finds nothing in s exactly when nothing occurs in s. */
  lemma QuietIffNoOccurrence(g: Gate, st: Stage, s: string)
    requires Sound(st) && !st.gated
    ensures Split(g, st, false, s).Tail? <==> forall i: nat, j: nat :: !Occurs(st.re.pat, s, i, j)
  {
    hide Split, Silent, Occurs;
    if Split(g, st, false, s).Tail? {
      SplitSub(g, st, false, s);
      KeptSilent(g, st, false, s);
      forall i: nat, j: nat ensures !Occurs(st.re.pat, s, i, j) {
        SilentNoOccurrence(st.re.pat, s, i, j);
      }
    }
    if forall i: nat, j: nat :: !Occurs(st.re.pat, s, i, j) {
      NoOccurrenceSilent(st.re.pat, s);
      NoMatchTail(g, st, false, s);
    }
  }
}
