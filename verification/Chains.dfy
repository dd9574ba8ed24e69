/** Texts that need any number of passes. */
module Chains {
  import opened Regex
  import opened Substitution
  import opened Pipeline
  import opened Glue
  import opened Redaction
  import opened RedactionLaws
  import opened Exactness

  const WORD: string := "apikey"

  /** n copies of the word, without anything between them. */
  function Chain(n: nat): string {
    if n == 0 then "" else WORD + Chain(n - 1)
  }

  function Masks(n: nat): string {
    if n == 0 then "" else MASK + Masks(n - 1)
  }

  lemma AbsentQuiet(g: Gate, st: Stage, s: string, m: nat)
    requires Sound(st) && m < |st.re.pat.atoms| && st.re.pat.atoms[m].lo >= 1
    requires forall c | c in s :: !In(st.re.pat.atoms[m].cls, c)
    ensures Split(g, st, false, s).Tail?
  {
    hide Split;
    forall i: nat, n: nat | i < |s| ensures !Match(st.re.pat, PrevWord(false, s, i), s[i..], n) {
      if n <= |s[i..]| {
        var w := s[i..][..n];
        assert forall k | 0 <= k < n :: w[k] == s[i + k];
        if Lang(st.re.pat.atoms, w) { var k := LangHas(st.re.pat.atoms, w, m); }
      }
    }
    NoMatchTail(g, st, false, s);
  }

  // The word belongs to the api-key pattern.

  lemma WordIsApiKey()
    ensures Lang(API_KEY.atoms, WORD)
  {
    hide Lang;
    PairExact("api", "key", WORD);
  }

  /** At the start of a chain only the whole word can match. */
  lemma WordLength(pw: bool, rest: string, n: nat)
    requires Match(API_KEY, pw, WORD + rest, n)
    ensures n == 6
  {
    var s, atoms := WORD + rest, API_KEY.atoms;
    WordIsApiKey();
    ApiKeyProper();
    assert s[..6] == WORD;
    forall i: nat | i < |atoms| ensures DetAt(atoms, false, i) { assert DetAt(atoms, true, i); }
    UniqueLength(atoms, false, pw, s, 6, n);
  }

  lemma NotAtA(s: string, n: nat)
    requires s != "" && n <= |s| && ToLower(s[0]) != 'a'
    ensures !Lang(API_KEY.atoms, s[..n])
  {
    assert API_KEY.atoms[0] == One(Fold('a'));
    if Lang(API_KEY.atoms, s[..n]) { LangFirst(API_KEY.atoms, s, n); }
  }

  /** A word followed by another word character is not masked, and no other
    * match starts inside it.
    */
  lemma WordSilent(pw: bool, rest: string)
    requires AtWord(rest)
    ensures Silent(API_KEY, pw, WORD + rest, 6)
  {
    hide Lang;
    var s := WORD + rest;
    forall i: nat, n: nat | i < 6 ensures !Match(API_KEY, PrevWord(pw, s, i), s[i..], n) {
      if i == 0 {
        assert s[0..] == s;
        if Match(API_KEY, pw, s, n) { WordLength(pw, rest, n); }
      } else {
        assert s[i] == WORD[i];
        if n <= |s[i..]| { NotAtA(s[i..], n); }
      }
    }
  }

  lemma SilentTail(p: Pattern, pw: bool, s: string, m: nat)
    requires 1 <= m <= |s| && Silent(p, pw, s, m)
    ensures Silent(p, Word(s[0]), s[1..], m - 1)
    ensures forall n: nat :: !Match(p, pw, s, n)
  {
    hide Match;
    forall i: nat, n: nat | i < m - 1 ensures !Match(p, PrevWord(Word(s[0]), s[1..], i), s[1..][i..], n) {
      assert s[1..][i..] == s[i + 1..];
      assert !Match(p, PrevWord(pw, s, i + 1), s[i + 1..], n);
    }
    assert s[0..] == s;
    forall n: nat ensures !Match(p, pw, s, n) { assert !Match(p, PrevWord(pw, s, 0), s[0..], n); }
  }

  /** The scan copies a stretch in which no match starts. */
  lemma {:induction false} SilentSkip(g: Gate, st: Stage, pw: bool, u: string, v: string)
    requires Sound(st) && Silent(st.re.pat, pw, u + v, |u|)
    ensures Sub(g, st, pw, u + v) == u + Sub(g, st, if u == "" then pw else EndsWord(u), v)
    decreases |u|
  {
    hide Sub, Step, Silent, Sound, Match, Word;
    var s := u + v;
    Unfold(g, st, pw, s);
    if u == "" {
      assert s == v;
    } else {
      SliceLeft(u, v, 1);
      assert u[..1] + u[1..] == u;
      SilentTail(st.re.pat, pw, s, |u|);
      StepExact(g, st, pw, s, 0);
      SilentSkip(g, st, Word(s[0]), u[1..], v);
      Assoc(u[..1], u[1..], Sub(g, st, EndsWord(u), v));
    }
  }

  lemma LastWordMasked(g: Gate, st: Stage, pw: bool)
    requires Sound(st) && !st.gated && st.re.pat == API_KEY
    ensures Sub(g, st, pw, WORD) == MASK
  {
    hide Sub, Step;
    WordIsApiKey();
    assert WORD[..6] == WORD && WORD[6..] == "";
    assert Match(API_KEY, pw, WORD, 6);
    StepExact(g, st, pw, WORD, 6);
    Unfold(g, st, pw, WORD);
    Unfold(g, st, Word(WORD[5]), "");
  }

  /** The api-key stage masks only the last word of a chain. */
  lemma {:induction false} ChainStage(g: Gate, st: Stage, pw: bool, n: nat)
    requires Sound(st) && !st.gated && st.re.pat == API_KEY
    requires n >= 1
    ensures Sub(g, st, pw, Chain(n)) == Chain(n - 1) + MASK
    decreases n
  {
    hide Sub, Silent, Sound;
    if n == 1 {
      assert Chain(1) == WORD;
      LastWordMasked(g, st, pw);
    } else {
      assert AtWord(Chain(n - 1));
      WordSilent(pw, Chain(n - 1));
      SilentSkip(g, st, pw, WORD, Chain(n - 1));
      ChainStage(g, st, EndsWord(WORD), n - 1);
      Assoc(WORD, Chain(n - 2), MASK);
    }
  }

  lemma {:induction false} ChainChars(n: nat)
    ensures forall c | c in Chain(n) :: c in WORD
    decreases n
  {
    if n > 0 { ChainChars(n - 1); }
  }

  /** Stages that find nothing before and after the k-th do not matter. */
  lemma {:induction false} RunOnly(g: Gate, stages: seq<Stage>, k: nat, s: string)
    requires AllSound(stages) && k < |stages|
    requires forall i | 0 <= i < k :: Split(g, stages[i], false, s).Tail?
    requires forall i | k < i < |stages| :: Split(g, stages[i], false, Sub(g, stages[k], false, s)).Tail?
    ensures Run(g, stages, s) == Sub(g, stages[k], false, s)
    decreases |stages|
  {
    hide Sub, Split, Load;
    var rest := stages[1..];
    SubLoad(g, stages[0], false, s);
    if k == 0 {
      var t := Sub(g, stages[0], false, s);
      RunLoad(g, rest, t);
      forall i | 0 <= i < |rest| ensures Split(g, rest[i], false, t).Tail? { assert rest[i] == stages[i + 1]; }
      assert Quiet(g, rest, t);
    } else {
      forall i | 0 <= i < k - 1 ensures Split(g, rest[i], false, s).Tail? { assert rest[i] == stages[i + 1]; }
      RunOnly(g, rest, k - 1, s);
    }
  }

  lemma ChainQuiet(r: Redactor, n: nat, i: nat)
    requires Standard(r) && i < 7
    ensures Split(r.gate, r.stages[i], false, Chain(n)).Tail?
  {
    hide Split, Sound;
    StagesSound(r);
    if i > 0 { StagePattern(r, i - 1); }
    ChainChars(n);
    // '.', '=', '"', 'w', 'o', 's' and 'r' do not occur in a chain
    var m := [1, 1, 0, 4, 1, 0, 1][i];
    AbsentQuiet(r.gate, r.stages[i], Chain(n), m);
  }

  /** Redaction masks the last word of a chain and nothing else. */
  lemma ChainRedacted(r: Redactor, n: nat)
    requires Standard(r) && n >= 1
    ensures Redacted(r, Chain(n)) == Chain(n - 1) + MASK
  {
    hide Sub, Split, Sound, Run;
    StagesSound(r);
    var t := Chain(n - 1) + MASK;
    StagePattern(r, 6);
    StagePattern(r, 7);
    ChainStage(r.gate, r.stages[7], false, n);
    ChainChars(n - 1);
    forall i: nat | i < 7 ensures Split(r.gate, r.stages[i], false, Chain(n)).Tail? { ChainQuiet(r, n, i); }
    AbsentQuiet(r.gate, r.stages[8], t, 0);
    RunOnly(r.gate, r.stages, 7, Chain(n));
  }

  lemma {:induction false} MasksFixed(r: Redactor, k: nat)
    requires Standard(r)
    ensures Redacted(r, Masks(k)) == Masks(k)
    decreases k
  {
    hide Run, Quiet, Load;
    PassProgress(r, "");
    EmptyQuiet(r);
    if k > 0 {
      MasksFixed(r, k - 1);
      RedactsAcrossMasks(r, "", Masks(k - 1));
      assert "" + MASK + Masks(k - 1) == MASK + Masks(k - 1);
    }
  }

  lemma EmptyQuiet(r: Redactor)
    ensures Quiet(r.gate, r.stages, "")
  {}

  lemma {:induction false} ChainPass(r: Redactor, n: nat, k: nat)
    requires Standard(r) && n >= 1
    ensures Redacted(r, Chain(n) + Masks(k)) == Chain(n - 1) + Masks(k + 1)
  {
    hide Run;
    ChainRedacted(r, n);
    if k == 0 {
      assert Chain(n) + Masks(0) == Chain(n);
      assert Masks(1) == MASK + Masks(0) == MASK;
    } else {
      MasksFixed(r, k - 1);
      RedactsAcrossMasks(r, Chain(n), Masks(k - 1));
      Assoc(Chain(n), MASK, Masks(k - 1));
      Assoc(Chain(n - 1) + MASK, MASK, Masks(k - 1));
      Assoc(Chain(n - 1), MASK, Masks(k));
    }
  }

  lemma {:induction false} ChainAfter(r: Redactor, n: nat, k: nat, j: nat)
    requires Standard(r) && j <= n
    ensures Iterate(r.gate, r.stages, j, Chain(n) + Masks(k)) == Chain(n - j) + Masks(k + j)
    decreases j
  {
    hide Run, Chain, Masks, Standard;
    if j > 0 {
      ChainPass(r, n, k);
      ChainAfter(r, n - 1, k + 1, j - 1);
    }
  }

  /** A chain of n words changes in each of the first n passes, and only then is
    * final: no fixed number of passes is enough for every text, and one pass is
    * not idempotent from n = 2 on.
    */
  lemma ChainNeedsAllPasses(r: Redactor, n: nat, j: nat)
    requires Standard(r) && j <= n
    ensures var t := Iterate(r.gate, r.stages, j, Chain(n));
            Redacted(r, t) == t <==> j == n
  {
    hide Run, Load;
    assert Chain(n) + Masks(0) == Chain(n);
    ChainAfter(r, n, 0, j);
    var t := Chain(n - j) + Masks(j);
    if j == n {
      assert t == Masks(n);
      MasksFixed(r, n);
    } else {
      ChainPass(r, n - j, j);
      LengthDiffers(n - j, j);
    }
  }

  lemma {:induction false} Lengths(n: nat)
    ensures |Chain(n)| == 6 * n && |Masks(n)| == 14 * n
    decreases n
  {
    if n > 0 { Lengths(n - 1); }
  }

  lemma LengthDiffers(n: nat, k: nat)
    requires n >= 1
    ensures Chain(n - 1) + Masks(k + 1) != Chain(n) + Masks(k)
  {
    Lengths(n);
    Lengths(n - 1);
    Lengths(k);
    Lengths(k + 1);
  }

  /** The smallest text of this kind: redacting it twice masks more. */
  lemma NotIdempotent(r: Redactor)
    requires Standard(r)
    ensures Redacted(r, Redacted(r, "apikeyapikey")) != Redacted(r, "apikeyapikey")
  {
    hide Run;
    assert Chain(2) == WORD + (WORD + Chain(0)) == "apikeyapikey";
    assert Iterate(r.gate, r.stages, 1, Chain(2)) == Iterate(r.gate, r.stages, 0, Redacted(r, Chain(2)));
    ChainNeedsAllPasses(r, 2, 1);
  }
}
