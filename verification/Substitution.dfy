/** `pattern.sub(mask, text)` and what it does to a text: which parts it keeps,
  * how it behaves next to a mask, and how much text it uses up.
  */
module Substitution {
  import opened Regex

  const MASK: string := "***REDACTED***"

  /** Which candidate strings are public addresses. */
  type Gate = string -> bool

  /** One substitution. A gated stage masks a match only when the gate holds of
    * it; otherwise the match is copied, but it is still consumed.
    */
  datatype Stage = Stage(re: Compiled, gated: bool)

  lemma Assoc<T>(a: seq<T>, b: seq<T>, c: seq<T>)
    ensures a + (b + c) == (a + b) + c
  {}

  lemma SliceLeft<T>(x: seq<T>, y: seq<T>, n: nat)
    requires 1 <= n <= |x|
    ensures (x + y)[..n] == x[..n] && (x + y)[n..] == x[n..] + y && (x + y)[n - 1] == x[n - 1]
  {}

  lemma EmptyLeft<T>(a: seq<T>)
    ensures [] + a == a
  {}

  // ------------------------------------------------------------- the scan

  /** What the scan does at the start of s: how much it consumes, and whether
    * that becomes a mask.
    */
  function Step(g: Gate, st: Stage, pw: bool, s: string): (r: (nat, bool))
    requires s != ""
    ensures 1 <= r.0 <= |s|
  {
    match st.re.find(pw, s)
    case Some(n) => if 1 <= n <= |s| then (n, st.gated ==> g(s[..n])) else (1, false)
    case None => (1, false)
  }

  /** Leftmost, non-overlapping substitution. pw: the character before s is a
    * word character.
    */
  function Sub(g: Gate, st: Stage, pw: bool, s: string): string
    decreases |s|
  {
    if s == "" then "" else
      var (n, hot) := Step(g, st, pw, s);
      (if hot then MASK else s[..n]) + Sub(g, st, Word(s[n - 1]), s[n..])
  }

  /** A text cut into kept stretches and masked ones, in order. */
  datatype Pieces = Tail(kept: string) | Cut(kept: string, hit: string, rest: Pieces)

  function Render(p: Pieces): string {
    match p
    case Tail(k) => k
    case Cut(k, h, rest) => k + (MASK + Render(rest))
  }

  function Origin(p: Pieces): string {
    match p
    case Tail(k) => k
    case Cut(k, h, rest) => k + (h + Origin(rest))
  }

  function Prepend(u: string, p: Pieces): Pieces { p.(kept := u + p.kept) }

  function Split(g: Gate, st: Stage, pw: bool, s: string): Pieces
    decreases |s|
  {
    if s == "" then Tail("") else
      var (n, hot) := Step(g, st, pw, s);
      var rest := Split(g, st, Word(s[n - 1]), s[n..]);
      if hot then Cut("", s[..n], rest) else Prepend(s[..n], rest)
  }

  /** Sub and Split one step at a time; other proofs hide their bodies. */
  lemma Unfold(g: Gate, st: Stage, pw: bool, s: string)
    ensures s == "" ==> Sub(g, st, pw, s) == "" && Split(g, st, pw, s) == Tail("")
    ensures s != "" ==>
              var (n, hot) := Step(g, st, pw, s);
              var rest := Split(g, st, Word(s[n - 1]), s[n..]);
              && Sub(g, st, pw, s) == (if hot then MASK else s[..n]) + Sub(g, st, Word(s[n - 1]), s[n..])
              && Split(g, st, pw, s) == (if hot then Cut("", s[..n], rest) else Prepend(s[..n], rest))
  {
    hide Step;
  }

  lemma PrependPieces(u: string, p: Pieces)
    ensures Render(Prepend(u, p)) == u + Render(p)
    ensures Origin(Prepend(u, p)) == u + Origin(p)
  {
    if p.Cut? {
      Assoc(u, p.kept, MASK + Render(p.rest));
      Assoc(u, p.kept, p.hit + Origin(p.rest));
    }
  }

  lemma CutPieces(h: string, p: Pieces)
    ensures Origin(Cut("", h, p)) == h + Origin(p)
    ensures Render(Cut("", h, p)) == MASK + Render(p)
  {
    EmptyLeft(h + Origin(p));
    EmptyLeft(MASK + Render(p));
  }

  /** The scan and the cut are two views of one substitution. */
  lemma {:induction false} SplitSub(g: Gate, st: Stage, pw: bool, s: string)
    ensures Origin(Split(g, st, pw, s)) == s
    ensures Render(Split(g, st, pw, s)) == Sub(g, st, pw, s)
    decreases |s|
  {
    hide Sub, Split, Step;
    Unfold(g, st, pw, s);
    if s != "" {
      var (n, hot) := Step(g, st, pw, s);
      var rest := Split(g, st, Word(s[n - 1]), s[n..]);
      SplitSub(g, st, Word(s[n - 1]), s[n..]);
      assert s == s[..n] + s[n..];
      CutPieces(s[..n], rest);
      PrependPieces(s[..n], rest);
    }
  }

  // ------------------------------------------------- patterns the mask stops

  /** The characters of the mask. */
  predicate Inert(c: char) { c in MASK }

  ghost predicate Avoids(p: Pattern, c: char) {
    forall i | 0 <= i < |p.atoms| :: !In(p.atoms[i].cls, c)
  }

  ghost predicate Active(cls: CharClass) {
    forall c: char :: In(cls, c) ==> !Inert(c)
  }

  ghost predicate MarkedAt(p: Pattern, i: nat)
    requires i < |p.atoms|
  {
    p.atoms[i].lo >= 1 && Active(p.atoms[i].cls)
  }

  /** What every pattern of the redactors satisfies: matches are unique, never
    * contain a star, never lie inside the mask's letters, and an anchored side
    * begins or ends with a word character.
    */
  ghost predicate Proper(p: Pattern) {
    && p.atoms != []
    && Deterministic(p.atoms, p.right)
    && Avoids(p, '*')
    && (exists i: nat :: i < |p.atoms| && MarkedAt(p, i))
    && (p.left ==> p.atoms[0].lo >= 1 && WordClass(p.atoms[0].cls))
    && (p.right ==> p.atoms[|p.atoms| - 1].lo >= 1 && WordClass(p.atoms[|p.atoms| - 1].cls))
  }

  lemma {:induction false} LangAvoids(atoms: seq<Atom>, w: string, c: char)
    requires Lang(atoms, w)
    requires forall i | 0 <= i < |atoms| :: !In(atoms[i].cls, c)
    ensures c !in w
    decreases |atoms|
  {
    if atoms != [] {
      var n: nat :| n <= |w| && Rep(atoms[0], w[..n]) && Lang(atoms[1..], w[n..]);
      LangAvoids(atoms[1..], w[n..], c);
      assert w == w[..n] + w[n..];
    }
  }

  lemma {:induction false} LangHas(atoms: seq<Atom>, w: string, i: nat) returns (k: nat)
    requires Lang(atoms, w) && i < |atoms| && atoms[i].lo >= 1
    ensures k < |w| && In(atoms[i].cls, w[k])
    ensures i + 1 == |atoms| ==> k + 1 == |w|
    decreases |atoms|
  {
    var n: nat :| n <= |w| && Rep(atoms[0], w[..n]) && Lang(atoms[1..], w[n..]);
    if i == 0 {
      k := n - 1;
      assert In(atoms[0].cls, w[..n][k]);
    } else {
      var k' := LangHas(atoms[1..], w[n..], i - 1);
      k := n + k';
    }
  }

  lemma ProperStarless(p: Pattern, w: string)
    requires Proper(p) && Lang(p.atoms, w)
    ensures '*' !in w
  {
    LangAvoids(p.atoms, w, '*');
  }

  lemma ProperActive(p: Pattern, w: string) returns (k: nat)
    requires Proper(p) && Lang(p.atoms, w)
    ensures k < |w| && !Inert(w[k])
  {
    var i: nat :| i < |p.atoms| && MarkedAt(p, i);
    k := LangHas(p.atoms, w, i);
  }

  /** An anchored side of a match is a word character. */
  lemma ProperEnds(p: Pattern, w: string)
    requires Proper(p) && Lang(p.atoms, w)
    ensures w != ""
    ensures p.left ==> Word(w[0])
    ensures p.right ==> Word(w[|w| - 1])
  {
    var k := ProperActive(p, w);
    if p.left {
      assert w[..|w|] == w;
      LangFirst(p.atoms, w, |w|);
    }
    if p.right { var l := LangHas(p.atoms, w, |p.atoms| - 1); }
  }

  ghost predicate Sound(st: Stage) {
    Faithful(st.re) && Proper(st.re.pat)
  }

  /** The step is decided by the declarative match. */
  lemma StepExact(g: Gate, st: Stage, pw: bool, s: string, n: nat)
    requires Sound(st) && s != ""
    ensures Match(st.re.pat, pw, s, n) ==> n >= 1 && Step(g, st, pw, s) == (n, st.gated ==> g(s[..n]))
    ensures var r := Step(g, st, pw, s);
            r.1 || r.0 > 1 ==> Match(st.re.pat, pw, s, r.0)
    ensures (forall m: nat :: !Match(st.re.pat, pw, s, m)) ==> Step(g, st, pw, s) == (1, false)
  {
    var r := st.re.find(pw, s);
    if r.Some? { assert Match(st.re.pat, pw, s, r.value); }
    if Match(st.re.pat, pw, s, n) { ProperEnds(st.re.pat, s[..n]); }
  }

  // ------------------------------------------------------------- the barrier

  lemma MatchBarrier(p: Pattern, pw: bool, x: string, y: string, n: nat)
    requires Proper(p)
    ensures Match(p, pw, x + "*" + y, n) <==> Match(p, pw, x, n)
  {
    var s := x + "*" + y;
    if n <= |x| {
      assert s[..n] == x[..n];
    } else if n <= |s| {
      assert s[..n][|x|] == '*';
      if Lang(p.atoms, s[..n]) { ProperStarless(p, s[..n]); }
    }
  }

  lemma StepBarrier(g: Gate, st: Stage, pw: bool, x: string, y: string)
    requires Sound(st) && x != ""
    ensures Step(g, st, pw, x + "*" + y) == Step(g, st, pw, x)
  {
    var s := x + "*" + y;
    forall n: nat ensures Match(st.re.pat, pw, s, n) <==> Match(st.re.pat, pw, x, n) {
      MatchBarrier(st.re.pat, pw, x, y, n);
    }
    var r, r' := st.re.find(pw, x), st.re.find(pw, s);
    if r.Some? {
      assert Match(st.re.pat, pw, s, r.value);
      assert s[..r.value] == x[..r.value];
    } else if r'.Some? {
      assert Match(st.re.pat, pw, x, r'.value);
    }
  }

  /** A star separates a text: what is on one side of it has no influence on
    * the other.
    */
  lemma {:induction false} StarBarrier(g: Gate, st: Stage, pw: bool, x: string, y: string)
    requires Sound(st)
    ensures Sub(g, st, pw, x + "*" + y) == Sub(g, st, pw, x) + "*" + Sub(g, st, false, y)
    decreases |x|
  {
    hide Sub, Step, Sound;
    if x == "" {
      StarNothing(g, st, pw, x, y);
    } else {
      var n := Step(g, st, pw, x).0;
      StarBarrier(g, st, Word(x[n - 1]), x[n..], y);
      StarLater(g, st, pw, x, y, Sub(g, st, false, y));
    }
  }

  lemma StarFirst(g: Gate, st: Stage, pw: bool, y: string)
    requires Sound(st)
    ensures Sub(g, st, pw, "*" + y) == "*" + Sub(g, st, false, y)
  {
    hide Sub;
    var s := "*" + y;
    assert s == "" + "*" + y;
    forall n: nat ensures !Match(st.re.pat, pw, s, n) {
      MatchBarrier(st.re.pat, pw, "", y, n);
      EmptyNoMatch(st.re.pat, pw, n);
    }
    StepExact(g, st, pw, s, 0);
    Unfold(g, st, pw, s);
    assert s[..1] == "*" && s[1..] == y;
  }

  lemma StarNothing(g: Gate, st: Stage, pw: bool, x: string, y: string)
    requires Sound(st) && x == ""
    ensures Sub(g, st, pw, x + "*" + y) == Sub(g, st, pw, x) + "*" + Sub(g, st, false, y)
  {
    hide Sub, Step, Sound;
    Unfold(g, st, pw, x);
    StarFirst(g, st, pw, y);
    EmptyLeft("*");
  }

  lemma StarLater(g: Gate, st: Stage, pw: bool, x: string, y: string, z: string)
    requires Sound(st) && x != ""
    requires var n := Step(g, st, pw, x).0;
             Sub(g, st, Word(x[n - 1]), x[n..] + "*" + y) == Sub(g, st, Word(x[n - 1]), x[n..]) + "*" + z
    ensures Sub(g, st, pw, x + "*" + y) == Sub(g, st, pw, x) + "*" + z
  {
    hide Sub, Step, Sound, Word;
    StepBarrier(g, st, pw, x, y);
    var (n, hot) := Step(g, st, pw, x);
    SliceLeft(x, "*", n);
    SliceLeft(x + "*", y, n);
    var head, tail := if hot then MASK else x[..n], Sub(g, st, Word(x[n - 1]), x[n..]);
    Assoc(head, tail, "*");
    Assoc(head, tail + "*", z);
    Unfold(g, st, pw, x);
    Unfold(g, st, pw, x + "*" + y);
  }

  lemma EmptyNoMatch(p: Pattern, pw: bool, n: nat)
    requires Proper(p)
    ensures !Match(p, pw, "", n)
  {
    if Match(p, pw, "", n) { ProperEnds(p, ""[..n]); }
  }

  /** Text made of the mask's characters is never touched. */
  lemma {:induction false} InertFixed(g: Gate, st: Stage, pw: bool, s: string)
    requires Sound(st) && forall c | c in s :: Inert(c)
    ensures Sub(g, st, pw, s) == s
    decreases |s|
  {
    hide Sub;
    Unfold(g, st, pw, s);
    if s != "" {
      forall n: nat ensures !Match(st.re.pat, pw, s, n) {
        if n <= |s| {
          assert forall k | 0 <= k < n :: s[..n][k] in s;
          if Lang(st.re.pat.atoms, s[..n]) { var k := ProperActive(st.re.pat, s[..n]); }
        }
      }
      StepExact(g, st, pw, s, 0);
      InertFixed(g, st, Word(s[0]), s[1..]);
      assert s[..1] + s[1..] == s;
    }
  }

  const INNER: string := "**REDACTED**"

  lemma MaskShape()
    ensures MASK == "*" + INNER + "*"
    ensures forall c | c in INNER :: Inert(c)
  {
    forall c | c in INNER ensures Inert(c) {
      var i: nat :| i < |INNER| && INNER[i] == c;
      assert MASK[i + 1] == c;
    }
  }

  lemma Sandwich(a: string, m: string, b: string)
    ensures a + ("*" + m + "*") + b == a + "*" + (m + "*" + b)
  {}

  lemma SandwichBarrier(g: Gate, st: Stage, pw: bool, x: string, m: string, y: string)
    requires Sound(st) && forall c | c in m :: Inert(c)
    ensures Sub(g, st, pw, x + ("*" + m + "*") + y)
         == Sub(g, st, pw, x) + ("*" + m + "*") + Sub(g, st, false, y)
  {
    hide Sub, Step;
    Sandwich(x, m, y);
    StarBarrier(g, st, pw, x, m + "*" + y);
    StarBarrier(g, st, false, m, y);
    InertFixed(g, st, false, m);
    Sandwich(Sub(g, st, pw, x), m, Sub(g, st, false, y));
  }

  /** The same for a whole mask: substitution on either side of it is
    * independent, and it leaves the mask alone.
    */
  lemma MaskBarrier(g: Gate, st: Stage, pw: bool, x: string, y: string)
    requires Sound(st)
    ensures Sub(g, st, pw, x + MASK + y) == Sub(g, st, pw, x) + MASK + Sub(g, st, false, y)
  {
    hide Sub, Step;
    MaskShape();
    SandwichBarrier(g, st, pw, x, INNER, y);
  }

  // ------------------------------------------------------------- the measure

  /** How many characters of s are not mask characters. */
  function Load(s: string): nat {
    if s == "" then 0 else (if Inert(s[0]) then 0 else 1) + Load(s[1..])
  }

  lemma {:induction false} LoadConcat(a: string, b: string)
    ensures Load(a + b) == Load(a) + Load(b)
    decreases |a|
  {
    if a == "" {
      assert a + b == b;
    } else {
      assert (a + b)[1..] == a[1..] + b;
      LoadConcat(a[1..], b);
    }
  }

  lemma {:induction false} LoadPositive(s: string, k: nat)
    requires k < |s| && !Inert(s[k])
    ensures Load(s) >= 1
    decreases |s|
  {
    if k > 0 { LoadPositive(s[1..], k - 1); }
  }

  lemma {:induction false} InertLoad(s: string)
    requires forall c | c in s :: Inert(c)
    ensures Load(s) == 0
    decreases |s|
  {
    if s != "" { InertLoad(s[1..]); }
  }

  lemma HotLoad(g: Gate, st: Stage, pw: bool, s: string, rest: string)
    requires Sound(st) && s != "" && Step(g, st, pw, s).1
    requires Load(rest) <= Load(s[Step(g, st, pw, s).0..])
    ensures Load(MASK + rest) < Load(s)
  {
    hide Load, Step;
    var n := Step(g, st, pw, s).0;
    StepExact(g, st, pw, s, n);
    var k := ProperActive(st.re.pat, s[..n]);
    LoadPositive(s[..n], k);
    InertLoad(MASK);
    LoadConcat(MASK, rest);
    LoadConcat(s[..n], s[n..]);
    assert s[..n] + s[n..] == s;
  }

  lemma ColdLoad(s: string, n: nat, rest: string)
    requires n <= |s|
    ensures Load(s[..n] + rest) - Load(rest) == Load(s) - Load(s[n..])
  {
    hide Load;
    LoadConcat(s[..n], rest);
    LoadConcat(s[..n], s[n..]);
    assert s[..n] + s[n..] == s;
  }

  /** Masking anything uses up load; otherwise the text is unchanged. */
  lemma {:induction false} SubLoad(g: Gate, st: Stage, pw: bool, s: string)
    requires Sound(st)
    ensures if Split(g, st, pw, s).Tail? then Sub(g, st, pw, s) == s
            else Load(Sub(g, st, pw, s)) < Load(s)
    decreases |s|
  {
    hide Sub, Split, Step, Load;
    Unfold(g, st, pw, s);
    if s != "" {
      var (n, hot) := Step(g, st, pw, s);
      var rest := Sub(g, st, Word(s[n - 1]), s[n..]);
      SubLoad(g, st, Word(s[n - 1]), s[n..]);
      if hot {
        HotLoad(g, st, pw, s, rest);
      } else {
        ColdLoad(s, n, rest);
        assert s[..n] + s[n..] == s;
      }
    }
  }
}
