/** The fragment of Python's `re` that the redactors use: a concatenation of
  * character classes with repetition counts, optionally anchored by `\b` on
  * either side. Character classes are the ASCII ones.
  */
module Regex {
  import opened Prelude

  // ---------------------------------------------------------------- characters

  predicate Digit(c: char) { '0' <= c <= '9' }

  predicate Letter(c: char) { 'a' <= c <= 'z' || 'A' <= c <= 'Z' }

  /** `\w`, the class that decides where `\b` holds. */
  predicate Word(c: char) { Letter(c) || Digit(c) || c == '_' }

  /** `\s`: blank, the five layout characters and the four ASCII separators. */
  predicate Space(c: char) { c == ' ' || '\t' <= c <= '\r' || 0x1c <= c as int <= 0x1f }

  function ToLower(c: char): char {
    if 'A' <= c <= 'Z' then (c as int + 32) as char else c
  }

  datatype CharClass =
    | Lit(c: char)        // one character
    | Fold(c: char)       // one letter under (?i); c is lower case
    | Digits              // \d
    | Hex                 // [0-9A-Fa-f]
    | Base64              // [A-Za-z0-9+/]
    | Community           // [A-Za-z0-9_-]
    | Separator           // [_-]
    | Blank               // \s

  predicate In(cls: CharClass, c: char) {
    match cls
    case Lit(d) => c == d
    case Fold(d) => ToLower(c) == d
    case Digits => Digit(c)
    case Hex => Digit(c) || 'a' <= c <= 'f' || 'A' <= c <= 'F'
    case Base64 => Letter(c) || Digit(c) || c == '+' || c == '/'
    case Community => Letter(c) || Digit(c) || c == '_' || c == '-'
    case Separator => c == '_' || c == '-'
    case Blank => Space(c)
  }

  predicate AllIn(cls: CharClass, w: string) {
    forall i | 0 <= i < |w| :: In(cls, w[i])
  }

  // ------------------------------------------------------------------ patterns

  /** `cls{lo,hi}`; no `hi` means unbounded. */
  datatype Atom = Atom(cls: CharClass, lo: nat, hi: Option<nat>)

  /** `left` and `right` say whether the pattern starts and ends with `\b`. */
  datatype Pattern = Pattern(left: bool, atoms: seq<Atom>, right: bool)

  function One(cls: CharClass): Atom { Atom(cls, 1, Some(1)) }

  /** A case-insensitive literal. */
  function Letters(w: string): seq<Atom> {
    seq(|w|, i requires 0 <= i < |w| => One(Fold(w[i])))
  }

  predicate Rep(a: Atom, u: string) {
    && a.lo <= |u|
    && (a.hi.Some? ==> |u| <= a.hi.value)
    && AllIn(a.cls, u)
  }

  /** The language of a pattern's body. */
  ghost predicate Lang(atoms: seq<Atom>, w: string)
    decreases |atoms|
  {
    if atoms == [] then w == ""
    else exists n: nat :: n <= |w| && Rep(atoms[0], w[..n]) && Lang(atoms[1..], w[n..])
  }

  // ---------------------------------------------------------------- boundaries

  /** Whether the character before position n of s is a word character, when
    * the character before s itself is one exactly if pw.
    */
  predicate PrevWord(pw: bool, s: string, n: nat)
    requires n <= |s|
  {
    if n == 0 then pw else Word(s[n - 1])
  }

  predicate NextWord(s: string, n: nat)
    requires n <= |s|
  {
    n < |s| && Word(s[n])
  }

  /** `\b` at position n of s. */
  predicate Edge(pw: bool, s: string, n: nat)
    requires n <= |s|
  {
    PrevWord(pw, s, n) != NextWord(s, n)
  }

  /** What a match of length n at the start of s is. */
  ghost predicate Match(p: Pattern, pw: bool, s: string, n: nat) {
    && n <= |s|
    && Lang(p.atoms, s[..n])
    && (p.left ==> Edge(pw, s, 0))
    && (p.right ==> Edge(pw, s, n))
  }

  // ------------------------------------------- the greedy backtracking matcher

  /** The longest prefix of s inside a class. */
  function Longest(cls: CharClass, s: string): (n: nat)
    ensures n <= |s| && AllIn(cls, s[..n])
    ensures n < |s| ==> !In(cls, s[n])
  {
    if s == "" || !In(cls, s[0]) then 0 else
      var n := 1 + Longest(cls, s[1..]);
      assert forall i | 1 <= i < n :: s[..n][i] == s[1..][..n - 1][i - 1];
      n
  }

  function Greedy(a: Atom, s: string): (n: nat)
    ensures n <= |s|
  {
    var n := Longest(a.cls, s);
    if a.hi.Some? && a.hi.value < n then a.hi.value else n
  }

  /** Match a list of atoms at the start of s, each taking as much as it can
    * and giving back one character at a time; the result is the length taken.
    */
  function Take(atoms: seq<Atom>, right: bool, pw: bool, s: string): (r: Option<nat>)
    ensures r.Some? ==> r.value <= |s|
    decreases |atoms|, 0, 1
  {
    if atoms == [] then
      if right && !Edge(pw, s, 0) then None else Some(0)
    else
      GiveBack(atoms, right, pw, s, Greedy(atoms[0], s))
  }

  function GiveBack(atoms: seq<Atom>, right: bool, pw: bool, s: string, n: nat): (r: Option<nat>)
    requires atoms != [] && n <= |s|
    ensures r.Some? ==> r.value <= |s|
    decreases |atoms|, 0, 0, n
  {
    if n < atoms[0].lo then None
    else
      match Take(atoms[1..], right, PrevWord(pw, s, n), s[n..])
      case Some(m) => Some(n + m)
      case None => if n == 0 then None else GiveBack(atoms, right, pw, s, n - 1)
  }

  /** `pattern.match` at a position: s is the text from there on. */
  function MatchLen(p: Pattern, pw: bool, s: string): (r: Option<nat>)
    ensures r.Some? ==> r.value <= |s|
  {
    if p.left && !Edge(pw, s, 0) then None else Take(p.atoms, p.right, pw, s)
  }

  // ------------------------------------------------------- deterministic bodies

  ghost predicate Disjoint(a: CharClass, b: CharClass) {
    forall c: char :: !(In(a, c) && In(b, c))
  }

  ghost predicate WordClass(a: CharClass) {
    forall c: char :: In(a, c) ==> Word(c)
  }

  /** No choice about how often atom i repeats survives to a full match. */
  ghost predicate DetAt(atoms: seq<Atom>, right: bool, i: nat)
    requires i < |atoms|
  {
    || atoms[i].hi == Some(atoms[i].lo)
    || (i + 1 < |atoms| && atoms[i + 1].lo >= 1 && Disjoint(atoms[i].cls, atoms[i + 1].cls))
    || (i + 1 == |atoms| && right && atoms[i].lo >= 1 && WordClass(atoms[i].cls))
  }

  ghost predicate Deterministic(atoms: seq<Atom>, right: bool) {
    forall i: nat | i < |atoms| :: DetAt(atoms, right, i)
  }

  // ------------------------------------------------------------------- lemmas

  /** Lang of a prefix of s, one atom at a time. */
  lemma LangCons(atoms: seq<Atom>, s: string, c: nat, n: nat)
    requires atoms != [] && c <= n <= |s|
    requires Rep(atoms[0], s[..c]) && Lang(atoms[1..], s[c..][..n - c])
    ensures Lang(atoms, s[..n])
  {
    var w := s[..n];
    assert w[..c] == s[..c] && w[c..] == s[c..][..n - c];
  }

  lemma LangUncons(atoms: seq<Atom>, s: string, n: nat) returns (c: nat)
    requires atoms != [] && n <= |s| && Lang(atoms, s[..n])
    ensures c <= n && Rep(atoms[0], s[..c]) && Lang(atoms[1..], s[c..][..n - c])
  {
    var w := s[..n];
    c :| c <= |w| && Rep(atoms[0], w[..c]) && Lang(atoms[1..], w[c..]);
    assert w[..c] == s[..c] && w[c..] == s[c..][..n - c];
  }

  lemma GreedyReaches(a: Atom, s: string, c: nat)
    requires c <= |s| && Rep(a, s[..c])
    ensures c <= Greedy(a, s)
  {
    var l := Longest(a.cls, s);
    assert forall i | 0 <= i < c :: In(a.cls, s[..c][i]) && s[..c][i] == s[i];
  }

  lemma GreedyStays(a: Atom, s: string, n: nat)
    requires a.lo <= n <= Greedy(a, s)
    ensures Rep(a, s[..n])
  {
    var l := Longest(a.cls, s);
    assert forall i | 0 <= i < n :: s[..n][i] == s[..l][i];
  }

  lemma EdgeShift(pw: bool, s: string, n: nat, m: nat)
    requires n + m <= |s|
    ensures Edge(PrevWord(pw, s, n), s[n..], m) == Edge(pw, s, n + m)
  {}

  /** A body match of length n at the start of s. */
  ghost predicate BodyMatch(atoms: seq<Atom>, right: bool, pw: bool, s: string, n: nat) {
    n <= |s| && Lang(atoms, s[..n]) && (right ==> Edge(pw, s, n))
  }

  lemma BodyCons(atoms: seq<Atom>, right: bool, pw: bool, s: string, c: nat, m: nat)
    requires atoms != [] && c <= |s| && Rep(atoms[0], s[..c])
    requires BodyMatch(atoms[1..], right, PrevWord(pw, s, c), s[c..], m)
    ensures BodyMatch(atoms, right, pw, s, c + m)
  {
    EdgeShift(pw, s, c, m);
    assert c + m - c == m;
    LangCons(atoms, s, c, c + m);
  }

  lemma BodyUncons(atoms: seq<Atom>, right: bool, pw: bool, s: string, n: nat) returns (c: nat)
    requires atoms != [] && BodyMatch(atoms, right, pw, s, n)
    ensures c <= n && Rep(atoms[0], s[..c])
    ensures BodyMatch(atoms[1..], right, PrevWord(pw, s, c), s[c..], n - c)
  {
    c := LangUncons(atoms, s, n);
    EdgeShift(pw, s, c, n - c);
  }

  /** Everything the matcher returns is a match. */
  lemma {:induction false} TakeSound(atoms: seq<Atom>, right: bool, pw: bool, s: string, r: nat)
    requires Take(atoms, right, pw, s) == Some(r)
    ensures BodyMatch(atoms, right, pw, s, r)
    decreases |atoms|, 0, 1
  {
    if atoms != [] {
      GiveBackSound(atoms, right, pw, s, Greedy(atoms[0], s), r);
    }
  }

  lemma {:induction false} GiveBackSound(
      atoms: seq<Atom>, right: bool, pw: bool, s: string, n: nat, r: nat)
    requires atoms != [] && n <= Greedy(atoms[0], s)
    requires GiveBack(atoms, right, pw, s, n) == Some(r)
    ensures BodyMatch(atoms, right, pw, s, r)
    decreases |atoms|, 0, 0, n
  {
    var rest := Take(atoms[1..], right, PrevWord(pw, s, n), s[n..]);
    if rest.Some? {
      TakeSound(atoms[1..], right, PrevWord(pw, s, n), s[n..], rest.value);
      GreedyStays(atoms[0], s, n);
      BodyCons(atoms, right, pw, s, n, rest.value);
    } else {
      GiveBackSound(atoms, right, pw, s, n - 1, r);
    }
  }

  /** Backtracking misses nothing. */
  lemma {:induction false} TakeComplete(atoms: seq<Atom>, right: bool, pw: bool, s: string, n: nat)
    requires BodyMatch(atoms, right, pw, s, n)
    ensures Take(atoms, right, pw, s).Some?
    decreases |atoms|, 0, 1
  {
    if atoms != [] {
      var c := BodyUncons(atoms, right, pw, s, n);
      GreedyReaches(atoms[0], s, c);
      GiveBackComplete(atoms, right, pw, s, Greedy(atoms[0], s), c, n);
    }
  }

  lemma {:induction false} GiveBackComplete(
      atoms: seq<Atom>, right: bool, pw: bool, s: string, k: nat, c: nat, n: nat)
    requires atoms != [] && c <= k <= |s| && c <= n && atoms[0].lo <= c
    requires BodyMatch(atoms[1..], right, PrevWord(pw, s, c), s[c..], n - c)
    ensures GiveBack(atoms, right, pw, s, k).Some?
    decreases |atoms|, 0, 0, k
  {
    if k == c {
      TakeComplete(atoms[1..], right, PrevWord(pw, s, c), s[c..], n - c);
    } else {
      GiveBackComplete(atoms, right, pw, s, k - 1, c, n);
    }
  }

  lemma LangFirst(atoms: seq<Atom>, s: string, n: nat)
    requires atoms != [] && atoms[0].lo >= 1
    requires n <= |s| && Lang(atoms, s[..n])
    ensures n >= 1 && In(atoms[0].cls, s[0])
  {
    var c := LangUncons(atoms, s, n);
    assert In(atoms[0].cls, s[..c][0]);
  }

  lemma RepAt(a: Atom, s: string, n: nat, i: nat)
    requires i < n <= |s| && Rep(a, s[..n])
    ensures In(a.cls, s[i])
  {
    assert In(a.cls, s[..n][i]);
  }

  /** A deterministic first atom that can stop at a cannot also reach beyond. */
  lemma SameCount(atoms: seq<Atom>, right: bool, pw: bool, s: string, a: nat, b: nat, m: nat)
    requires atoms != [] && DetAt(atoms, right, 0)
    requires a <= |s| && b <= |s|
    requires Rep(atoms[0], s[..a]) && BodyMatch(atoms[1..], right, PrevWord(pw, s, a), s[a..], m)
    requires Rep(atoms[0], s[..b])
    ensures b <= a
  {
    if a < b && atoms[0].hi != Some(atoms[0].lo) {
      if |atoms| > 1 {
        LangFirst(atoms[1..], s[a..], m);
      } else if a > 0 {
        RepAt(atoms[0], s, a, a - 1);
      }
      RepAt(atoms[0], s, b, a);
    }
  }

  lemma {:induction false} UniqueLength(
      atoms: seq<Atom>, right: bool, pw: bool, s: string, m: nat, n: nat)
    requires Deterministic(atoms, right)
    requires BodyMatch(atoms, right, pw, s, m) && BodyMatch(atoms, right, pw, s, n)
    ensures m == n
    decreases |atoms|
  {
    if atoms != [] {
      var a := BodyUncons(atoms, right, pw, s, m);
      var b := BodyUncons(atoms, right, pw, s, n);
      assert DetAt(atoms, right, 0);
      SameCount(atoms, right, pw, s, a, b, m - a);
      SameCount(atoms, right, pw, s, b, a, n - b);
      forall i: nat | i < |atoms[1..]| ensures DetAt(atoms[1..], right, i) {
        assert DetAt(atoms, right, i + 1);
      }
      UniqueLength(atoms[1..], right, PrevWord(pw, s, a), s[a..], m - a, n - a);
    }
  }

  /** For a deterministic body the backtracking matcher computes exactly the
    * declarative match, which is unique.
    */
  lemma MatchLenExact(p: Pattern, pw: bool, s: string, n: nat)
    requires Deterministic(p.atoms, p.right)
    ensures MatchLen(p, pw, s) == Some(n) <==> Match(p, pw, s, n)
  {
    var r := Take(p.atoms, p.right, pw, s);
    if r.Some? { TakeSound(p.atoms, p.right, pw, s, r.value); }
    if Match(p, pw, s, n) {
      TakeComplete(p.atoms, p.right, pw, s, n);
      UniqueLength(p.atoms, p.right, pw, s, n, r.value);
    }
  }

  /** What `re.compile` gives: a pattern and the search it performs, told
    * whether the character before the text is a word character.
    */
  datatype Compiled = Compiled(pat: Pattern, find: (bool, string) -> Option<nat>)

  function Compile(p: Pattern): Compiled {
    Compiled(p, (pw: bool, s: string) => MatchLen(p, pw, s))
  }

  ghost predicate Faithful(c: Compiled) {
    forall pw: bool, s: string, n: nat :: c.find(pw, s) == Some(n) <==> Match(c.pat, pw, s, n)
  }

  /** Greedy matching with backtracking finds exactly the declarative match. */
  lemma CompileFaithful(p: Pattern)
    requires Deterministic(p.atoms, p.right)
    ensures Faithful(Compile(p))
  {
    forall pw: bool, s: string, n: nat
      ensures Compile(p).find(pw, s) == Some(n) <==> Match(p, pw, s, n)
    {
      MatchLenExact(p, pw, s, n);
    }
  }
}
