/** The audit of rules that trust, wash and set DSCP values. */
module Dscp {
  import opened Prelude
  import opened PyText
  import opened Findings
  import opened Filtering
  import opened Indexing
  import opened Mangle

  datatype DscpFinding =
    | NotAGateway(role: string)
    | NoMangleData
    | NoDscpRules
    | BroadTrust(rules: seq<Rule>)
    | TrustConstrained(rules: seq<Rule>)
    | WashCovers(rules: seq<Rule>)
    | WashIncomplete(rules: seq<Rule>, noWan: bool, noIot: bool)
    | TrustBeforeWash(rules: seq<Rule>, wash: Rule)
    | WashFirst
    | UnexpectedValues(rules: seq<Rule>)
    | OrphanedMarks(rules: seq<Rule>)
    | SetRulesFine(counts: seq<(Rule, nat)>)
    | NoSetRules
    | DisabledRemain(rules: seq<Rule>)

  function DscpStatus(f: DscpFinding): Status {
    match f
    case NotAGateway(_) => Skip
    case NoMangleData => Unknown
    case BroadTrust(_) => Fail
    case TrustConstrained(_) => Pass
    case WashCovers(_) => Pass
    case WashFirst => Pass
    case SetRulesFine(_) => Pass
    case _ => Warn
  }

  // ------------------------------------------------------------- text helpers

  predicate Contains(s: string, t: string) {
    exists i: nat :: i <= |s| && At(s, t, i)
  }

  predicate At(s: string, t: string, i: nat) {
    i + |t| <= |s| && s[i..i + |t|] == t
  }

  predicate StartsWith(s: string, t: string) { t <= s }

  const WAN_TOKENS: seq<string> := ["WAN", "wan", "ether1-WAN", "ether2-WAN"]

  predicate NamesWan(s: string) {
    exists i :: 0 <= i < |WAN_TOKENS| && Contains(s, WAN_TOKENS[i])
  }

  // -------------------------------------------------------- what a rule does

  predicate IsSet(f: DscpField) { f.IntDscp? || (f.TextDscp? && f.s != "") }

  /** `_dscp_value`. */
  function DscpValue(f: DscpField): Option<int> {
    match f
    case NoDscp => None
    case IntDscp(n) => Some(n)
    case TextDscp(s) => if s == "" then None else ParseInt(s)
  }

  predicate MatchesWan(r: Rule) {
    NamesWan(r.inInterface) || NamesWan(r.outInterface) || NamesWan(r.comment)
  }

  predicate MayIncludeWan(r: Rule) {
    r.inInterface == "" || StartsWith(r.inInterface, "!") || MatchesWan(r)
  }

  predicate Trusts(r: Rule) { r.action == "accept" && StartsWith(Lowered(r.comment), "trust") }

  predicate AboutDscp(r: Rule) {
    || r.action in {"change-dscp", "set-priority"}
    || IsSet(r.dscp)
    || IsSet(r.newDscp)
    || Contains(Lowered(r.comment), "dscp")
    || StartsWith(Lowered(r.comment), "trust ")
  }

  predicate Washes(r: Rule) {
    && r.action == "change-dscp"
    && DscpValue(r.newDscp) == Some(0)
    && (r.chain == "prerouting" || Contains(Lowered(r.comment), "wash"))
  }

  predicate ForIot(r: Rule) { Contains(Lowered(r.inInterface + " " + r.comment), "iot") }

  predicate WanWash(r: Rule) { Enabled(r) && Washes(r) && MatchesWan(r) }

  /** A trust rule that could accept traffic from the WAN. */
  predicate RiskyTrust(r: Rule) { Enabled(r) && Trusts(r) && IsSet(r.dscp) && MayIncludeWan(r) }

  predicate SetsDscp(r: Rule) { r.action == "change-dscp" && r.connectionMark != "" }

  const VOCABULARY: set<Option<int>> := {Some(0), Some(8), Some(26), Some(34), Some(36), Some(38), Some(46)}

  const PRODUCER_KEY: Rule -> string := (r: Rule) => if Enabled(r) then r.newConnectionMark else ""

  /** `rules.index(r)`: the first position holding an equal rule. */
  function IndexOf(rules: seq<Rule>, r: Rule): (i: nat)
    requires r in rules
    ensures i < |rules| && rules[i] == r && forall j | 0 <= j < i :: rules[j] != r
  {
    if rules[0] == r then 0 else 1 + IndexOf(rules[1..], r)
  }

  // ---------------------------------------------- the report, by position

  /** p is the position of the first enabled WAN wash. */
  ghost predicate FirstWash(rules: seq<Rule>, p: nat) {
    p < |rules| && WanWash(rules[p]) && forall i | 0 <= i < p :: !WanWash(rules[i])
  }

  ghost predicate HasWash(rules: seq<Rule>) { exists p :: FirstWash(rules, p) }

  ghost function WashAt(rules: seq<Rule>): (p: nat)
    requires HasWash(rules)
    ensures FirstWash(rules, p)
  {
    var p :| FirstWash(rules, p);
    p
  }

  /** The rule, or an equal one, is a risky trust rule standing before p. */
  ghost predicate RiskyBefore(rules: seq<Rule>, p: nat, r: Rule) {
    RiskyTrust(r) && exists i :: 0 <= i < p && i < |rules| && rules[i] == r
  }

  ghost function TrustSection(rules: seq<Rule>): seq<DscpFinding> {
    var broad := Where(rules, (r: Rule) => Enabled(r) && Trusts(r) && DscpValue(r.dscp) == None);
    var narrow := Where(rules, (r: Rule) => Enabled(r) && Trusts(r) && DscpValue(r.dscp) != None);
    if broad != [] then [BroadTrust(broad)] else if narrow != [] then [TrustConstrained(narrow)] else []
  }

  ghost function WashSection(rules: seq<Rule>): seq<DscpFinding> {
    var wash := Where(rules, (r: Rule) => Enabled(r) && Washes(r));
    var noIot := forall r | r in rules :: !(Enabled(r) && Washes(r) && ForIot(r));
    if HasWash(rules) && !noIot then [WashCovers(wash)] else [WashIncomplete(wash, !HasWash(rules), noIot)]
  }

  ghost function OrderSection(rules: seq<Rule>): seq<DscpFinding> {
    if !HasWash(rules) then [] else
      var p := WashAt(rules);
      var before := Where(rules, (r: Rule) => RiskyBefore(rules, p, r));
      if before != [] then [TrustBeforeWash(before, rules[p])] else [WashFirst]
  }

  ghost function SetSection(rules: seq<Rule>): seq<DscpFinding> {
    var setters := Where(rules, (r: Rule) => Enabled(r) && SetsDscp(r));
    var odd := Where(setters, (r: Rule) => DscpValue(r.newDscp) !in VOCABULARY);
    var orphaned := Where(setters, (r: Rule) => WithKey(rules, PRODUCER_KEY, r.connectionMark) == []);
    if setters == [] then [NoSetRules]
    else
      (if odd != [] then [UnexpectedValues(odd)] else [])
      + (if orphaned != [] then [OrphanedMarks(orphaned)] else [])
      + (if odd == [] && orphaned == [] then [SetRulesFine(Counted(rules, setters))] else [])
  }

  function Counted(rules: seq<Rule>, setters: seq<Rule>): seq<(Rule, nat)> {
    seq(|setters|, i requires 0 <= i < |setters| =>
      (setters[i], |WithKey(rules, PRODUCER_KEY, setters[i].connectionMark)|))
  }

  ghost function DisabledSection(rules: seq<Rule>): seq<DscpFinding> {
    var off := Where(rules, (r: Rule) => AboutDscp(r) && !Enabled(r));
    if off != [] then [DisabledRemain(off)] else []
  }

  ghost function Report(role: string, rules: seq<Rule>): seq<DscpFinding> {
    if rules == [] then (if role != "gateway" && role != "edge" then [NotAGateway(role)] else [NoMangleData])
    else if Where(rules, AboutDscp) == [] then [NoDscpRules]
    else TrustSection(rules) + WashSection(rules) + OrderSection(rules) + SetSection(rules) + DisabledSection(rules)
  }

  // ---------------------------------------------------------------- the audit

  method TrustFindings(rules: seq<Rule>) returns (r: seq<DscpFinding>)
    ensures r == TrustSection(rules)
  {
    ghost var isBroad := (r: Rule) => Enabled(r) && Trusts(r) && DscpValue(r.dscp) == None;
    ghost var isNarrow := (r: Rule) => Enabled(r) && Trusts(r) && DscpValue(r.dscp) != None;
    var broad, narrow := [], [];
    for n := 0 to |rules|
      invariant broad == Where(rules[..n], isBroad) && narrow == Where(rules[..n], isNarrow)
    {
      assert rules[..n + 1][..n] == rules[..n];
      var rule := rules[n];
      if Enabled(rule) && Trusts(rule) {
        if DscpValue(rule.dscp) == None {
          broad := broad + [rule];
        } else {
          narrow := narrow + [rule];
        }
      }
    }
    assert rules[..|rules|] == rules;
    if broad != [] {
      r := [BroadTrust(broad)];
    } else if narrow != [] {
      r := [TrustConstrained(narrow)];
    } else {
      r := [];
    }
  }

  lemma {:induction false} HasWashIff(rules: seq<Rule>)
    ensures HasWash(rules) <==> Where(rules, WanWash) != []
    decreases |rules|
  {
    WhereNone(rules, WanWash);
    if exists r :: r in rules && WanWash(r) {
      var r :| r in rules && WanWash(r);
      var i := IndexOf(rules, r);
      var p := LeastWash(rules, i);
    }
  }

  lemma {:induction false} LeastWash(rules: seq<Rule>, i: nat) returns (p: nat)
    requires i < |rules| && WanWash(rules[i])
    ensures FirstWash(rules, p)
    decreases i
  {
    if j: nat :| j < i && WanWash(rules[j]) {
      p := LeastWash(rules, j);
    } else {
      p := i;
    }
  }

  method WashFindings(rules: seq<Rule>) returns (r: seq<DscpFinding>)
    ensures r == WashSection(rules)
  {
    var wash := Where(rules, (r: Rule) => Enabled(r) && Washes(r));
    var wan := Where(wash, MatchesWan);
    var iot := Where(wash, ForIot);
    WhereTwice(rules, (r: Rule) => Enabled(r) && Washes(r), MatchesWan, WanWash);
    HasWashIff(rules);
    WhereTwice(rules, (r: Rule) => Enabled(r) && Washes(r), ForIot, (r: Rule) => Enabled(r) && Washes(r) && ForIot(r));
    WhereNone(rules, (r: Rule) => Enabled(r) && Washes(r) && ForIot(r));
    if wan != [] && iot != [] {
      r := [WashCovers(wash)];
    } else {
      r := [WashIncomplete(wash, wan == [], iot == [])];
    }
  }

  /** `min(rules.index(r) for r in wan_wash)`. */
  method LeastIndex(rules: seq<Rule>, wan: seq<Rule>) returns (first: nat)
    requires wan == Where(rules, WanWash) && wan != []
    ensures FirstWash(rules, first)
  {
    hide WanWash, Where, FirstWash;
    WhereMembers(rules, WanWash);
    assert wan[0] in wan;
    first := IndexOf(rules, wan[0]);
    for n := 1 to |wan|
      invariant first < |rules| && rules[first] in wan
      invariant forall k | 0 <= k < n :: wan[k] in rules && first <= IndexOf(rules, wan[k])
    {
      assert wan[n] in wan;
      var i := IndexOf(rules, wan[n]);
      if i < first {
        first := i;
      }
    }
    LeastIsFirst(rules, wan, first);
  }

  lemma LeastIsFirst(rules: seq<Rule>, wan: seq<Rule>, first: nat)
    requires forall r :: r in wan <==> r in rules && WanWash(r)
    requires first < |rules| && rules[first] in wan
    requires forall k | 0 <= k < |wan| :: first <= IndexOf(rules, wan[k])
    ensures FirstWash(rules, first)
  {
    hide WanWash;
    forall i | 0 <= i < first ensures !WanWash(rules[i]) {
      var r := rules[i];
      assert r in rules && IndexOf(rules, r) <= i;
      assert forall k | 0 <= k < |wan| :: wan[k] != r;
    }
  }

  method OrderFindings(rules: seq<Rule>) returns (r: seq<DscpFinding>)
    ensures r == OrderSection(rules)
  {
    var wan := Where(rules, WanWash);
    HasWashIff(rules);
    if wan == [] {
      return [];
    }
    var first := LeastIndex(rules, wan);
    assert first == WashAt(rules);
    ghost var isRisky := (r: Rule) => RiskyBefore(rules, first, r);
    var before := [];
    for n := 0 to |rules|
      invariant before == Where(rules[..n], isRisky)
    {
      assert rules[..n + 1][..n] == rules[..n];
      var rule := rules[n];
      assert rule in rules;
      BeforeByIndex(rules, first, rule);
      if IndexOf(rules, rule) < first && RiskyTrust(rule) {
        before := before + [rule];
      }
    }
    assert rules[..|rules|] == rules;
    r := if before != [] then [TrustBeforeWash(before, rules[first])] else [WashFirst];
    assert before == Where(rules, (r: Rule) => RiskyBefore(rules, WashAt(rules), r)) by {
      WhereSame(rules, isRisky, (r: Rule) => RiskyBefore(rules, WashAt(rules), r));
    }
  }

  /** Comparing value-based indexes compares positions. */
  lemma BeforeByIndex(rules: seq<Rule>, p: nat, r: Rule)
    requires r in rules && p <= |rules|
    ensures IndexOf(rules, r) < p <==> exists i :: 0 <= i < p && i < |rules| && rules[i] == r
  {}

  /** The rules that produce each connection mark, disabled ones left out. */
  method EnabledMarkProducers(rules: seq<Rule>) returns (producers: map<string, seq<Rule>>)
    ensures Indexes(producers, rules, PRODUCER_KEY)
  {
    hide File;
    producers := map[];
    for n := 0 to |rules|
      invariant Indexes(producers, rules[..n], PRODUCER_KEY)
    {
      FileIndexes(producers, rules, PRODUCER_KEY, n);
      producers := File(producers, PRODUCER_KEY(rules[n]), rules[n]);
    }
    assert rules[..|rules|] == rules;
  }

  /** The loop over the rules that set DSCP from a connection mark. */
  method JudgeSetters(rules: seq<Rule>, setters: seq<Rule>, producers: map<string, seq<Rule>>)
      returns (odd: seq<Rule>, orphaned: seq<Rule>, counts: seq<(Rule, nat)>)
    requires Indexes(producers, rules, PRODUCER_KEY)
    requires forall r | r in setters :: r.connectionMark != ""
    ensures odd == Where(setters, (r: Rule) => DscpValue(r.newDscp) !in VOCABULARY)
    ensures orphaned == Where(setters, (r: Rule) => WithKey(rules, PRODUCER_KEY, r.connectionMark) == [])
    ensures counts == Counted(rules, setters)
  {
    hide Indexes, WithKey, Where, DscpValue;
    ghost var isOdd := (r: Rule) => DscpValue(r.newDscp) !in VOCABULARY;
    ghost var isOrphaned := (r: Rule) => WithKey(rules, PRODUCER_KEY, r.connectionMark) == [];
    odd, orphaned, counts := [], [], [];
    WhereNothing(setters[..0], isOdd);
    WhereNothing(setters[..0], isOrphaned);
    for n := 0 to |setters|
      invariant odd == Where(setters[..n], isOdd)
      invariant orphaned == Where(setters[..n], isOrphaned)
      invariant counts == Counted(rules, setters)[..n]
    {
      WhereStep(setters, n, isOdd);
      WhereStep(setters, n, isOrphaned);
      var rule := setters[n];
      assert rule in setters;
      var mark := rule.connectionMark;
      Lookup(producers, rules, PRODUCER_KEY, mark);
      var count := |if mark in producers then producers[mark] else []|;
      counts := counts + [(rule, count)];
      if count == 0 {
        orphaned := orphaned + [rule];
      }
      if DscpValue(rule.newDscp) !in VOCABULARY {
        odd := odd + [rule];
      }
    }
    assert setters[..|setters|] == setters;
  }

  method SetFindings(rules: seq<Rule>) returns (r: seq<DscpFinding>)
    ensures r == SetSection(rules)
  {
    hide Indexes, WithKey, Where, Counted, DscpValue;
    var producers := EnabledMarkProducers(rules);
    var setters := Where(rules, (r: Rule) => Enabled(r) && SetsDscp(r));
    WhereMembers(rules, (r: Rule) => Enabled(r) && SetsDscp(r));
    var odd, orphaned, counts := JudgeSetters(rules, setters, producers);
    if setters == [] {
      return [NoSetRules];
    }
    r := [];
    if odd != [] {
      r := r + [UnexpectedValues(odd)];
    }
    if orphaned != [] {
      r := r + [OrphanedMarks(orphaned)];
    }
    if odd == [] && orphaned == [] {
      r := r + [SetRulesFine(counts)];
    }
  }

  /** `audit_dscp_policy`. */
  method AuditDscp(role: string, rules: seq<Rule>) returns (findings: seq<DscpFinding>)
    ensures findings == Report(role, rules)
  {
    hide TrustSection, WashSection, OrderSection, SetSection, AboutDscp, Enabled;
    if rules == [] {
      return if role !in {"gateway", "edge"} then [NotAGateway(role)] else [NoMangleData];
    }
    var about := Where(rules, AboutDscp);
    if about == [] {
      return [NoDscpRules];
    }
    findings := TrustFindings(rules);
    var wash := WashFindings(rules);
    findings := findings + wash;
    var order := OrderFindings(rules);
    findings := findings + order;
    var sets := SetFindings(rules);
    findings := findings + sets;
    var off := Where(about, (r: Rule) => !Enabled(r));
    WhereTwice(rules, AboutDscp, (r: Rule) => !Enabled(r), (r: Rule) => AboutDscp(r) && !Enabled(r));
    if off != [] {
      findings := findings + [DisabledRemain(off)];
    }
    assert DisabledSection(rules) == if off != [] then [DisabledRemain(off)] else [];
  }

  // ------------------------------------------------------ what the report says

  ghost predicate WarnsOfOrder(findings: seq<DscpFinding>) { exists f :: f in findings && f.TrustBeforeWash? }

  ghost predicate ReportsBroadTrust(findings: seq<DscpFinding>) { exists f :: f in findings && f.BroadTrust? }

  ghost predicate CallsSetRulesFine(findings: seq<DscpFinding>) { exists f :: f in findings && f.SetRulesFine? }

  ghost predicate AllPass(findings: seq<DscpFinding>) { forall f | f in findings :: DscpStatus(f) == Pass }

  /** Some rule is about DSCP. */
  ghost predicate SpeaksOfDscp(rules: seq<Rule>) { exists r :: r in rules && AboutDscp(r) }

  /** An enabled trust rule has no readable DSCP match. */
  ghost predicate AnyBroad(rules: seq<Rule>) {
    exists r :: r in rules && Enabled(r) && Trusts(r) && DscpValue(r.dscp) == None
  }

  /** A risky trust rule stands before the first WAN wash. */
  ghost predicate RiskyOrder(rules: seq<Rule>) {
    HasWash(rules) && exists i :: 0 <= i < WashAt(rules) && RiskyTrust(rules[i])
  }

  /** There is an enabled set rule, each uses the vocabulary and each reads a mark
    * some enabled rule produces.
    */
  ghost predicate SettersFine(rules: seq<Rule>) {
    && (exists r :: r in rules && Enabled(r) && SetsDscp(r))
    && forall r | r in rules && Enabled(r) && SetsDscp(r) ::
         && DscpValue(r.newDscp) in VOCABULARY
         && exists q :: q in rules && Enabled(q) && q.newConnectionMark == r.connectionMark
  }

  /** The findings of a list that speaks of DSCP are those of the five sections;
    * of any other list there is one, and it is no pass.
    */
  lemma ReportSections(role: string, rules: seq<Rule>)
    ensures SpeaksOfDscp(rules) ==>
              forall f :: f in Report(role, rules) <==>
                || f in TrustSection(rules) || f in WashSection(rules) || f in OrderSection(rules)
                || f in SetSection(rules) || f in DisabledSection(rules)
    ensures !SpeaksOfDscp(rules) ==>
              |Report(role, rules)| == 1 && Report(role, rules)[0] in {NotAGateway(role), NoMangleData, NoDscpRules}
  {
    hide TrustSection, WashSection, OrderSection, SetSection, DisabledSection, Where, AboutDscp;
    WhereNone(rules, AboutDscp);
  }

  lemma TrustKinds(rules: seq<Rule>)
    ensures forall f | f in TrustSection(rules) :: f.BroadTrust? || f.TrustConstrained?
    ensures ReportsBroadTrust(TrustSection(rules)) <==> AnyBroad(rules)
  {
    hide Where, Enabled, Trusts, DscpValue;
    var isBroad := (r: Rule) => Enabled(r) && Trusts(r) && DscpValue(r.dscp) == None;
    WhereNone(rules, isBroad);
    if Where(rules, isBroad) != [] { assert BroadTrust(Where(rules, isBroad)) in TrustSection(rules); }
  }

  lemma WashKinds(rules: seq<Rule>)
    ensures |WashSection(rules)| == 1
    ensures var f := WashSection(rules)[0];
            && (f.WashCovers? || f.WashIncomplete?)
            && (f.WashCovers? <==> HasWash(rules) && exists r :: r in rules && Enabled(r) && Washes(r) && ForIot(r))
  {
    hide Where, HasWash, Enabled, Washes, ForIot;
  }

  lemma OrderKinds(rules: seq<Rule>)
    ensures forall f | f in OrderSection(rules) :: f.TrustBeforeWash? || f.WashFirst?
    ensures WarnsOfOrder(OrderSection(rules)) <==> RiskyOrder(rules)
  {
    hide Where, RiskyTrust, HasWash;
    if HasWash(rules) {
      var p := WashAt(rules);
      var isRisky := (r: Rule) => RiskyBefore(rules, p, r);
      WhereNone(rules, isRisky);
      if i :| 0 <= i < p && RiskyTrust(rules[i]) { assert rules[i] in rules && isRisky(rules[i]); }
      if Where(rules, isRisky) != [] { assert TrustBeforeWash(Where(rules, isRisky), rules[p]) in OrderSection(rules); }
    }
  }

  lemma SetKinds(rules: seq<Rule>)
    ensures forall f | f in SetSection(rules) ::
              f.UnexpectedValues? || f.OrphanedMarks? || f.SetRulesFine? || f.NoSetRules?
    ensures CallsSetRulesFine(SetSection(rules)) <==> SettersFine(rules)
    ensures CallsSetRulesFine(SetSection(rules)) <==> forall f | f in SetSection(rules) :: f.SetRulesFine?
  {
    hide Where, WithKey, Counted, DscpValue, Enabled;
    var isSetter := (r: Rule) => Enabled(r) && SetsDscp(r);
    var setters := Where(rules, isSetter);
    WhereMembers(rules, isSetter);
    WhereNone(rules, isSetter);
    WhereNone(setters, (r: Rule) => DscpValue(r.newDscp) !in VOCABULARY);
    WhereNone(setters, (r: Rule) => WithKey(rules, PRODUCER_KEY, r.connectionMark) == []);
    forall m: string | m != ""
      ensures WithKey(rules, PRODUCER_KEY, m) == []
         <==> !exists q :: q in rules && Enabled(q) && q.newConnectionMark == m
    {
      ProducersOf(rules, m);
    }
    var findings := SetSection(rules);
    assert findings != [] && findings[0] in findings;
  }

  lemma ProducersOf(rules: seq<Rule>, m: string)
    requires m != ""
    ensures WithKey(rules, PRODUCER_KEY, m) == []
       <==> !exists q :: q in rules && Enabled(q) && q.newConnectionMark == m
  {
    WhereMembers(rules, Has(PRODUCER_KEY, m));
    var w := WithKey(rules, PRODUCER_KEY, m);
    assert w == [] || w[0] in w;
    forall q | q in rules && Enabled(q) && q.newConnectionMark == m ensures q in w {}
  }

  lemma DisabledKinds(rules: seq<Rule>)
    ensures forall f | f in DisabledSection(rules) :: f.DisabledRemain?
    ensures DisabledSection(rules) == [] <==> forall r | r in rules :: AboutDscp(r) ==> Enabled(r)
  {
    hide Where, AboutDscp, Enabled;
    WhereNone(rules, (r: Rule) => AboutDscp(r) && !Enabled(r));
  }

  lemma AllKinds(rules: seq<Rule>)
    ensures forall f | f in TrustSection(rules) :: f.BroadTrust? || f.TrustConstrained?
    ensures forall f | f in WashSection(rules) :: f.WashCovers? || f.WashIncomplete?
    ensures forall f | f in OrderSection(rules) :: f.TrustBeforeWash? || f.WashFirst?
    ensures forall f | f in SetSection(rules) ::
              f.UnexpectedValues? || f.OrphanedMarks? || f.SetRulesFine? || f.NoSetRules?
    ensures forall f | f in DisabledSection(rules) :: f.DisabledRemain?
  {
    hide TrustSection, WashSection, OrderSection, SetSection, DisabledSection;
    TrustKinds(rules);
    WashKinds(rules);
    OrderKinds(rules);
    SetKinds(rules);
    DisabledKinds(rules);
  }

  /** There is always a finding, so the code's last branch is never taken. */
  lemma AlwaysReports(role: string, rules: seq<Rule>)
    ensures Report(role, rules) != []
  {
    hide TrustSection, WashSection, OrderSection, SetSection, DisabledSection, Where;
    WashKinds(rules);
  }

  /** A list with a WAN wash or a set rule speaks of DSCP. */
  lemma ActingSpeaks(rules: seq<Rule>, r: Rule)
    requires r in rules && (WanWash(r) || SetsDscp(r))
    ensures SpeaksOfDscp(rules)
  {
    assert AboutDscp(r);
  }

  lemma WashSpeaks(rules: seq<Rule>)
    requires HasWash(rules)
    ensures SpeaksOfDscp(rules)
  {
    ActingSpeaks(rules, rules[WashAt(rules)]);
  }

  /** The ordering warning fires exactly when there is a WAN wash and some risky
    * trust rule stands at a smaller position than the first, duplicates or not.
    */
  lemma OrderWarningIff(role: string, rules: seq<Rule>)
    ensures WarnsOfOrder(Report(role, rules)) <==> RiskyOrder(rules)
  {
    hide Report, TrustSection, WashSection, OrderSection, SetSection, DisabledSection, SpeaksOfDscp;
    ReportSections(role, rules);
    AllKinds(rules);
    OrderKinds(rules);
    if HasWash(rules) { WashSpeaks(rules); }
  }

  /** The failure for broad trust is reported exactly when some rule is about DSCP
    * and an enabled trust rule has no readable DSCP match. It is the only failure
    * the audit knows.
    */
  lemma BroadTrustIff(role: string, rules: seq<Rule>)
    ensures ReportsBroadTrust(Report(role, rules)) <==> SpeaksOfDscp(rules) && AnyBroad(rules)
    ensures ReportsBroadTrust(Report(role, rules)) <==> exists f :: f in Report(role, rules) && DscpStatus(f) == Fail
  {
    hide Report, TrustSection, WashSection, OrderSection, SetSection, DisabledSection, SpeaksOfDscp, AnyBroad;
    ReportSections(role, rules);
    AllKinds(rules);
    TrustKinds(rules);
  }

  /** Set rules are called fine exactly when they are. */
  lemma SetRulesFineIff(role: string, rules: seq<Rule>)
    ensures CallsSetRulesFine(Report(role, rules)) <==> SettersFine(rules)
  {
    hide Report, TrustSection, WashSection, OrderSection, SetSection, DisabledSection, SpeaksOfDscp;
    ReportSections(role, rules);
    AllKinds(rules);
    SetKinds(rules);
    if SettersFine(rules) {
      var r :| r in rules && Enabled(r) && SetsDscp(r);
      ActingSpeaks(rules, r);
    }
  }

  /** Every finding is a pass exactly when WAN and IoT are washed, no trust rule is
    * broad, no risky one comes before the wash, the set rules are fine and no
    * rule about DSCP is disabled.
    */
  lemma PassIffSound(role: string, rules: seq<Rule>)
    ensures AllPass(Report(role, rules))
       <==> && HasWash(rules) && (exists r :: r in rules && Enabled(r) && Washes(r) && ForIot(r))
            && !AnyBroad(rules) && !RiskyOrder(rules) && SettersFine(rules)
            && forall r | r in rules :: AboutDscp(r) ==> Enabled(r)
  {
    hide Report, TrustSection, WashSection, OrderSection, SetSection, DisabledSection, SpeaksOfDscp, AnyBroad, RiskyOrder,
      SettersFine, HasWash, Washes, ForIot, Enabled, AboutDscp;
    ReportSections(role, rules);
    TrustKinds(rules);
    WashKinds(rules);
    OrderKinds(rules);
    SetKinds(rules);
    DisabledKinds(rules);
    if HasWash(rules) { WashSpeaks(rules); }
    assert WashSection(rules)[0] in WashSection(rules);
    assert DisabledSection(rules) == [] || DisabledSection(rules)[0] in DisabledSection(rules);
    if !SpeaksOfDscp(rules) { assert Report(role, rules)[0] in Report(role, rules); }
  }

  /** Scoped to a named interface, nothing naming the WAN, on a readable DSCP. */
  predicate Narrow(r: Rule) {
    && DscpValue(r.dscp).Some?
    && r.inInterface != "" && !StartsWith(r.inInterface, "!")
    && !NamesWan(r.inInterface) && !NamesWan(r.outInterface) && !NamesWan(r.comment)
  }

  /** With a WAN wash, neither finding is reported exactly when every enabled
    * trust rule has a readable DSCP and those before the wash are narrow.
    */
  lemma TrustBeforeWashIsNarrow(role: string, rules: seq<Rule>)
    requires HasWash(rules)
    ensures !ReportsBroadTrust(Report(role, rules)) && !WarnsOfOrder(Report(role, rules))
       <==> forall i | 0 <= i < |rules| && Enabled(rules[i]) && Trusts(rules[i]) ::
              DscpValue(rules[i].dscp).Some? && (i < WashAt(rules) ==> Narrow(rules[i]))
  {
    hide Report, NamesWan, Enabled, Trusts, SpeaksOfDscp, ReportsBroadTrust, WarnsOfOrder;
    OrderWarningIff(role, rules);
    BroadTrustIff(role, rules);
    WashSpeaks(rules);
  }

  /** The ingress interfaces a rule applies to. */
  predicate InScope(r: Rule, ingress: string) {
    if r.inInterface == "" then true
    else if StartsWith(r.inInterface, "!") then ingress != r.inInterface[1..]
    else ingress == r.inInterface
  }

  /** Where a packet that enters at an interface first meets an enabled trust
    * rule covering it.
    */
  function FirstAccept(rules: seq<Rule>, ingress: string): (i: nat)
    ensures i <= |rules|
    ensures i < |rules| ==> Enabled(rules[i]) && Trusts(rules[i]) && InScope(rules[i], ingress)
  {
    if rules == [] then 0
    else if Enabled(rules[0]) && Trusts(rules[0]) && InScope(rules[0], ingress) then 0
    else 1 + FirstAccept(rules[1..], ingress)
  }

  /** Then traffic entering at a WAN interface reaches the wash: no trust rule
    * before it accepts the packet, whatever its DSCP.
    */
  lemma WanReachesWash(role: string, rules: seq<Rule>, ingress: string)
    requires HasWash(rules) && NamesWan(ingress)
    ensures !ReportsBroadTrust(Report(role, rules)) && !WarnsOfOrder(Report(role, rules))
        ==> FirstAccept(rules, ingress) >= WashAt(rules)
  {
    hide Report, NamesWan, HasWash, ReportsBroadTrust, WarnsOfOrder;
    TrustBeforeWashIsNarrow(role, rules);
  }
}
