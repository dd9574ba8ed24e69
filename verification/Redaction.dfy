/** The redactor of tool output: nine substitutions in a fixed order. */
module Redaction {
  import opened Prelude
  import opened Regex
  import opened Substitution
  import opened Pipeline
  import opened Glue
  import opened Settling

  const OCTET := Atom(Digits, 1, Some(3))
  const DOT := One(Lit('.'))

  const IPV4 := Pattern(true, [OCTET, DOT, OCTET, DOT, OCTET, DOT, OCTET], true)
  const WIREGUARD_KEY := Pattern(false, [Atom(Base64, 43, Some(43)), One(Lit('='))], false)
  const QUOTED_COMMUNITY := Pattern(false, [One(Lit('"')), Atom(Community, 8, None), One(Lit('"'))], false)
  const PASSWORD := Pattern(true, Letters("password"), true)
  const TOKEN := Pattern(true, Letters("token"), true)
  const SECRET := Pattern(true, Letters("secret"), true)
  const PRIVATE_KEY := Pattern(false, Compound("private", Atom(Separator, 0, Some(1)), "key"), true)
  const API_KEY := Pattern(false, Compound("api", Atom(Separator, 0, Some(1)), "key"), true)
  const CERTIFICATE := Pattern(false, Compound("begin", Atom(Blank, 1, None), "certificate"), false)

  function Always(p: Pattern): Stage { Stage(Compile(p), false) }

  /** Masks a match only if the gate, "is a public IPv4 address", holds. */
  function PublicIp(): Stage { Stage(Compile(IPV4), true) }

  function SecretPatterns(): seq<Pattern> {
    [WIREGUARD_KEY, QUOTED_COMMUNITY, PASSWORD, TOKEN, SECRET, PRIVATE_KEY, API_KEY, CERTIFICATE]
  }

  function SecretStages(): seq<Stage> {
    seq(|SecretPatterns()|, i requires 0 <= i < |SecretPatterns()| => Always(SecretPatterns()[i]))
  }

  function Stages(): seq<Stage> { [PublicIp()] + SecretStages() }

  /** Which addresses are public, and the nine compiled substitutions. */
  datatype Redactor = Redactor(gate: Gate, stages: seq<Stage>)

  /** The stages are the nine patterns in order, compiled by an engine that finds
    * exactly their matches; only addresses are gated.
    */
  ghost predicate Standard(r: Redactor) {
    && |r.stages| == 1 + |SecretPatterns()|
    && r.stages[0].re.pat == IPV4 && r.stages[0].gated
    && (forall i | 0 <= i < |SecretPatterns()| :: r.stages[i + 1].re.pat == SecretPatterns()[i])
    && (forall i | 1 <= i < |r.stages| :: !r.stages[i].gated)
    && (forall i | 0 <= i < |r.stages| :: Faithful(r.stages[i].re))
  }

  /** What `_redact_string` computes. */
  function Redacted(r: Redactor, s: string): string { Run(r.gate, r.stages, s) }

  /** The loop over the pattern list, each round rebinding the text. */
  method RedactString(g: Gate, value: string) returns (result: string)
    ensures result == Redacted(Redactor(g, Stages()), value)
  {
    result := Sub(g, PublicIp(), false, value);
    var stages := SecretStages();
    assert Stages()[1..] == stages;
    for i := 0 to |stages|
      invariant Run(g, stages[i..], result) == Redacted(Redactor(g, Stages()), value)
    {
      assert stages[i..][1..] == stages[i + 1..];
      result := Sub(g, stages[i], false, result);
    }
  }

  // --------------------------------------------------- the patterns are proper

  lemma FoldFacts(d: char)
    requires 'a' <= d <= 'z'
    ensures WordClass(Fold(d)) && !In(Fold(d), '*')
    ensures d !in "redact" ==> Active(Fold(d))
    ensures forall c: char :: In(Fold(d), c) ==> !Digit(c) && c != '.'
  {
  }

  predicate LowerCase(w: string) { forall i | 0 <= i < |w| :: 'a' <= w[i] <= 'z' }

  lemma WordProper(left: bool, w: string, right: bool, m: nat)
    requires LowerCase(w) && m < |w| && w[m] !in "redact"
    ensures Proper(Pattern(left, Letters(w), right))
  {
    forall i | 0 <= i < |w| ensures WordClass(Fold(w[i])) && !In(Fold(w[i]), '*') { FoldFacts(w[i]); }
    FoldFacts(w[m]);
    var p := Pattern(left, Letters(w), right);
    assert MarkedAt(p, m);
    forall i: nat | i < |p.atoms| ensures DetAt(p.atoms, right, i) {}
  }

  /** Two words with a separator class between them, as in private[_-]?key. */
  function Compound(u: string, mid: Atom, v: string): seq<Atom> {
    Letters(u) + [mid] + Letters(v)
  }

  lemma CompoundProper(u: string, mid: Atom, v: string, right: bool, m: nat)
    requires LowerCase(u) && LowerCase(v) && v != "" && m < |u| && u[m] !in "redact"
    requires !In(mid.cls, '*') && Disjoint(mid.cls, Fold(v[0]))
    ensures Proper(Pattern(false, Compound(u, mid, v), right))
  {
    var atoms := Compound(u, mid, v);
    var p := Pattern(false, atoms, right);
    forall i | 0 <= i < |u| ensures !In(Fold(u[i]), '*') { FoldFacts(u[i]); }
    forall i | 0 <= i < |v| ensures !In(Fold(v[i]), '*') && WordClass(Fold(v[i])) { FoldFacts(v[i]); }
    FoldFacts(u[m]);
    assert atoms[m] == One(Fold(u[m])) && MarkedAt(p, m);
    assert atoms[|u|] == mid && atoms[|u| + 1] == One(Fold(v[0]));
    assert atoms[|atoms| - 1] == One(Fold(v[|v| - 1]));
    forall i: nat | i < |atoms| ensures DetAt(atoms, right, i) {}
  }

  lemma Ipv4Proper()
    ensures Proper(IPV4)
  {
    var p := IPV4;
    assert !Inert('.');
    assert MarkedAt(p, 1);
    forall i: nat | i < |p.atoms| ensures DetAt(p.atoms, p.right, i) {}
  }

  lemma KeyProper()
    ensures Proper(WIREGUARD_KEY)
  {
    var p := WIREGUARD_KEY;
    assert MarkedAt(p, 1);
    forall i: nat | i < |p.atoms| ensures DetAt(p.atoms, p.right, i) {}
  }

  lemma CommunityProper()
    ensures Proper(QUOTED_COMMUNITY)
  {
    var p := QUOTED_COMMUNITY;
    assert MarkedAt(p, 0);
    forall i: nat | i < |p.atoms| ensures DetAt(p.atoms, p.right, i) {}
  }

  lemma WordsProper()
    ensures Proper(PASSWORD) && Proper(TOKEN) && Proper(SECRET)
  {
    hide Proper;
    WordProper(true, "password", true, 0);
    WordProper(true, "token", true, 1);
    WordProper(true, "secret", true, 0);
  }

  lemma PrivateKeyProper()
    ensures Proper(PRIVATE_KEY)
  {
    hide Proper;
    CompoundProper("private", Atom(Separator, 0, Some(1)), "key", true, 0);
  }

  lemma ApiKeyProper()
    ensures Proper(API_KEY)
  {
    hide Proper;
    CompoundProper("api", Atom(Separator, 0, Some(1)), "key", true, 1);
  }

  lemma CertificateProper()
    ensures Proper(CERTIFICATE)
  {
    hide Proper;
    CompoundProper("begin", Atom(Blank, 1, None), "certificate", false, 0);
  }

  lemma SecretPatternsProper()
    ensures forall i | 0 <= i < |SecretPatterns()| :: Proper(SecretPatterns()[i])
  {
    hide Proper;
    KeyProper();
    CommunityProper();
    WordsProper();
    PrivateKeyProper();
    ApiKeyProper();
    CertificateProper();
  }

  /** The redactor the code builds is standard. */
  lemma CodeIsStandard(g: Gate)
    ensures Standard(Redactor(g, Stages()))
  {
    hide Proper, Faithful;
    Ipv4Proper();
    ProperDeterministic(IPV4);
    CompileFaithful(IPV4);
    SecretPatternsProper();
    forall i | 0 <= i < |SecretStages()| ensures Faithful(SecretStages()[i].re) {
      ProperDeterministic(SecretPatterns()[i]);
      CompileFaithful(SecretPatterns()[i]);
    }
  }

  lemma ProperDeterministic(p: Pattern)
    requires Proper(p)
    ensures Deterministic(p.atoms, p.right)
  {}

  lemma StagePattern(r: Redactor, i: nat)
    requires Standard(r) && i < |SecretPatterns()|
    ensures r.stages[i + 1].re.pat == SecretPatterns()[i] && !r.stages[i + 1].gated
  {}

  lemma StagesSound(r: Redactor)
    requires Standard(r)
    ensures AllSound(r.stages)
  {
    hide Proper, Faithful;
    Ipv4Proper();
    SecretPatternsProper();
    forall i | 1 <= i < |r.stages| ensures Proper(r.stages[i].re.pat) {
      assert r.stages[(i - 1) + 1].re.pat == SecretPatterns()[i - 1];
    }
  }

  // ------------------------------------------------------- the address stage

  lemma RepCount(a: Atom, u: string, c: char)
    requires Rep(a, u) && (a == One(Lit(c)) || !In(a.cls, c))
    ensures multiset(u)[c] == if a == One(Lit(c)) then 1 else 0
  {
    if a == One(Lit(c)) {
      assert u == [u[0]] && u[0] == c;
    } else {
      assert c !in u;
    }
  }

  lemma {:induction false} LangCount(atoms: seq<Atom>, w: string, c: char)
    requires Lang(atoms, w)
    requires forall i | 0 <= i < |atoms| :: atoms[i] == One(Lit(c)) || !In(atoms[i].cls, c)
    ensures multiset(w)[c] == multiset(atoms)[One(Lit(c))]
    decreases |atoms|
  {
    hide Rep, In;
    if atoms != [] {
      var n: nat :| n <= |w| && Rep(atoms[0], w[..n]) && Lang(atoms[1..], w[n..]);
      LangCount(atoms[1..], w[n..], c);
      RepCount(atoms[0], w[..n], c);
      assert w == w[..n] + w[n..] && atoms == [atoms[0]] + atoms[1..];
    }
  }

  lemma ThreeDots()
    ensures multiset(IPV4.atoms)[DOT] == 3
  {
    assert multiset(IPV4.atoms) == multiset{OCTET, OCTET, OCTET, OCTET, DOT, DOT, DOT};
  }

  lemma Ipv4Char(w: string, c: char)
    requires Lang(IPV4.atoms, w) && c in w
    ensures Digit(c) || c == '.'
  {
    if !Digit(c) && c != '.' {
      assert forall i | 0 <= i < |IPV4.atoms| :: IPV4.atoms[i] == OCTET || IPV4.atoms[i] == DOT;
      LangAvoids(IPV4.atoms, w, c);
    }
  }

  /** An address is made of digits and exactly three dots. */
  lemma Ipv4Word(w: string)
    requires Lang(IPV4.atoms, w)
    ensures multiset(w)['.'] == 3
    ensures forall i | 0 <= i < |w| :: Digit(w[i]) || w[i] == '.'
  {
    hide Lang;
    assert forall i | 0 <= i < |IPV4.atoms| :: IPV4.atoms[i] == OCTET || IPV4.atoms[i] == DOT;
    LangCount(IPV4.atoms, w, '.');
    ThreeDots();
    forall i | 0 <= i < |w| ensures Digit(w[i]) || w[i] == '.' { Ipv4Char(w, w[i]); }
  }

  lemma Ipv4Tail(w: string, i: nat, j: nat)
    requires i <= j < |w| && Lang(IPV4.atoms, w) && Lang(IPV4.atoms, w[i..j])
    ensures Word(w[j])
  {
    hide Lang;
    Ipv4Word(w);
    Ipv4Word(w[i..j]);
    assert w == w[..i] + w[i..j] + w[j..];
    assert w[j] in multiset(w[j..]);
  }

  lemma Ipv4TailGuard()
    ensures TailGuard(IPV4)
  {
    hide Lang, Word;
    forall w: string, i: nat, j: nat | i <= j < |w| && Lang(IPV4.atoms, w) && Lang(IPV4.atoms, w[i..j])
      ensures Word(w[j])
    {
      Ipv4Tail(w, i, j);
    }
  }

  lemma NotInAddress(c: char)
    requires !Digit(c) && c != '.'
    ensures Avoids(IPV4, c)
  {
    assert forall i | 0 <= i < |IPV4.atoms| :: IPV4.atoms[i] == OCTET || IPV4.atoms[i] == DOT;
  }

  /** The classes with which the other patterns end. */
  function LastClass(i: nat): CharClass
    requires i < |SecretPatterns()|
  {
    [Lit('='), Lit('"'), Fold('d'), Fold('n'), Fold('t'), Fold('y'), Fold('y'), Fold('e')][i]
  }

  lemma EndsWithClass(i: nat)
    requires i < |SecretPatterns()|
    ensures var atoms := SecretPatterns()[i].atoms; atoms != [] && atoms[|atoms| - 1] == One(LastClass(i))
  {}

  lemma EndOutside(i: nat)
    requires i < |SecretPatterns()|
    ensures EndsOutside(IPV4, SecretPatterns()[i])
  {
    EndsWithClass(i);
    hide SecretPatterns, Avoids;
    forall c: char | In(LastClass(i), c) ensures Avoids(IPV4, c) {
      NotInAddress(c);
    }
  }

  lemma StagesOrderly(r: Redactor)
    requires Standard(r)
    ensures Orderly(r.stages)
  {
    hide Sound, TailGuard, EndsOutside, Faithful;
    StagesSound(r);
    Ipv4TailGuard();
    forall i | 1 <= i < |r.stages| ensures EndsOutside(IPV4, r.stages[i].re.pat) {
      assert r.stages[(i - 1) + 1].re.pat == SecretPatterns()[i - 1];
      EndOutside(i - 1);
    }
  }
}
