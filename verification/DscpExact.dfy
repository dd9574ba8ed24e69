/** What the DSCP audit says, told on the fields of the rules. */
module DscpExact {
  import opened Prelude
  import opened PyText
  import opened PyTextExact
  import opened SecretTexts
  import opened Findings
  import opened Filtering
  import opened Indexing
  import opened Mangle
  import opened Dscp

  // ------------------------------------------------------------ rule by rule

  /** Not switched off. */
  predicate Live(r: Rule) { Unset(r.disabled) }

  /** The field is a number, or a text that reads as one. */
  ghost predicate Reads(f: DscpField, n: int) { f == IntDscp(n) || (f.TextDscp? && ReadsAs(f.s, n)) }

  /** The field is there at all. */
  predicate Given(f: DscpField) { f != NoDscp && f != TextDscp("") }

  /** WAN in capitals or in small letters. */
  ghost predicate NamedWan(s: string) { HasText(s, "WAN") || HasText(s, "wan") }

  ghost predicate TouchesWan(r: Rule) { NamedWan(r.inInterface) || NamedWan(r.outInterface) || NamedWan(r.comment) }

  /** An enabled rule that sets DSCP to 0 in prerouting, or under a comment with
    * "wash" in it.
    */
  ghost predicate Cleans(r: Rule) {
    && Live(r) && r.action == "change-dscp" && Reads(r.newDscp, 0)
    && (r.chain == "prerouting" || HasAnyCase(r.comment, "wash"))
  }

  ghost predicate CleansWan(r: Rule) { Cleans(r) && TouchesWan(r) }

  ghost predicate CleansIot(r: Rule) { Cleans(r) && (HasAnyCase(r.inInterface, "iot") || HasAnyCase(r.comment, "iot")) }

  /** An enabled rule that accepts under a comment beginning with "trust". */
  predicate Accepts(r: Rule) { Live(r) && r.action == "accept" && BeginsAnyCase(r.comment, "trust") }

  ghost predicate AcceptsAny(r: Rule) { Accepts(r) && forall n: int :: !Reads(r.dscp, n) }

  /** It names a DSCP, but no interface, a negated one, or WAN somewhere. */
  ghost predicate AcceptsWan(r: Rule) {
    && Accepts(r) && Given(r.dscp)
    && (r.inInterface == "" || r.inInterface[0] == '!' || TouchesWan(r))
  }

  /** An enabled rule that sets DSCP from a connection mark. */
  predicate Marks(r: Rule) { Live(r) && r.action == "change-dscp" && r.connectionMark != "" }

  /** It sets one of seven classes and reads a mark that an enabled rule sets. */
  ghost predicate MarksWell(r: Rule, rules: seq<Rule>) {
    && (exists n: int :: n in {0, 8, 26, 34, 36, 38, 46} && Reads(r.newDscp, n))
    && exists q :: q in rules && Live(q) && q.newConnectionMark == r.connectionMark
  }

  ghost predicate MentionsDscp(r: Rule) {
    || r.action == "change-dscp" || r.action == "set-priority"
    || Given(r.dscp) || Given(r.newDscp)
    || HasAnyCase(r.comment, "dscp") || BeginsAnyCase(r.comment, "trust ")
  }

  /** p is the first rule that cleans WAN traffic. */
  ghost predicate FirstCleaner(rules: seq<Rule>, p: nat) {
    p < |rules| && CleansWan(rules[p]) && forall i | 0 <= i < p :: !CleansWan(rules[i])
  }

  // ------------------------------------------------------- the two vocabularies

  lemma ContainsExact(s: string, w: string)
    ensures Contains(s, w) <==> HasText(s, w)
  {
    if i: nat :| i <= |s| && At(s, w, i) {
      assert s == s[..i] + w + s[i + |w|..];
    }
    if a, b :| s == a + w + b {
      assert s[|a|..|a| + |w|] == w;
      assert At(s, w, |a|);
    }
  }

  lemma LoweredSlice(s: string, i: nat, j: nat)
    requires i <= j <= |s|
    ensures Lowered(s)[i..j] == Lowered(s[i..j])
  {}

  lemma ContainsLowered(s: string, w: string)
    requires Small(w)
    ensures Contains(Lowered(s), w) <==> HasAnyCase(s, w)
  {
    hide Spells, Lowered;
    LoweredLength(s);
    if i: nat :| i <= |s| && At(Lowered(s), w, i) {
      var m := s[i..i + |w|];
      LoweredSlice(s, i, i + |w|);
      LoweredSpells(m, w);
      assert s == s[..i] + m + s[i + |w|..];
    }
    if a, m, b :| s == a + m + b && Spells(m, w) {
      SpellsLength(m, w);
      assert s[|a|..|a| + |w|] == m;
      LoweredSlice(s, |a|, |a| + |w|);
      LoweredSpells(m, w);
      assert At(Lowered(s), w, |a|);
    }
  }

  lemma LoweredLength(s: string)
    ensures |Lowered(s)| == |s|
  {}

  lemma SpellsLength(m: string, w: string)
    requires Spells(m, w)
    ensures |m| == |w|
  {}

  lemma StartsLowered(s: string, w: string)
    requires Small(w)
    ensures StartsWith(Lowered(s), w) <==> BeginsAnyCase(s, w)
  {
    hide Spells, Lowered;
    LoweredLength(s);
    if |w| <= |s| {
      LoweredSlice(s, 0, |w|);
      assert s[0..|w|] == s[..|w|] && Lowered(s)[0..|w|] == Lowered(s)[..|w|];
      LoweredSpells(s[..|w|], w);
      if StartsWith(Lowered(s), w) { assert Lowered(s)[..|w|] == w; }
    }
  }

  lemma LiveExact(r: Rule)
    ensures Enabled(r) <==> Live(r)
  {
    TruthExact(r.disabled);
  }

  lemma ValueExact(f: DscpField, n: int)
    ensures DscpValue(f) == Some(n) <==> Reads(f, n)
  {
    hide ParseInt, ReadsAs;
    if f.TextDscp? {
      IntExact(f.s, n);
      IntExact("", n);
      NothingReads(n);
    }
  }

  lemma NothingReads(n: int)
    ensures !ReadsAs("", n)
  {}

  lemma NoValueExact(f: DscpField)
    ensures DscpValue(f) == None <==> forall n: int :: !Reads(f, n)
  {
    hide DscpValue, Reads;
    forall n: int ensures DscpValue(f) == Some(n) <==> Reads(f, n) { ValueExact(f, n); }
    if DscpValue(f).Some? { assert Reads(f, DscpValue(f).value); }
  }

  /** The longer tokens of the list contain the short one. */
  lemma WanExact(s: string)
    ensures NamesWan(s) <==> NamedWan(s)
  {
    hide Contains;
    forall w: string ensures Contains(s, w) <==> HasText(s, w) { ContainsExact(s, w); }
    Longer(s, "ether1-", "WAN");
    Longer(s, "ether2-", "WAN");
    assert WAN_TOKENS[0] == "WAN" && WAN_TOKENS[1] == "wan";
    assert WAN_TOKENS[2] == "ether1-" + "WAN" && WAN_TOKENS[3] == "ether2-" + "WAN";
  }

  lemma Longer(s: string, u: string, w: string)
    ensures HasText(s, u + w) ==> HasText(s, w)
  {
    if a, b :| s == a + (u + w) + b { assert s == (a + u) + w + b; }
  }

  lemma MatchesWanExact(r: Rule)
    ensures MatchesWan(r) <==> TouchesWan(r)
  {
    hide NamesWan, NamedWan;
    WanExact(r.inInterface);
    WanExact(r.outInterface);
    WanExact(r.comment);
  }

  lemma WashesExact(r: Rule)
    ensures Enabled(r) && Washes(r) <==> Cleans(r)
  {
    hide Reads, DscpValue, HasAnyCase, Contains, Enabled, Live;
    LiveExact(r);
    ValueExact(r.newDscp, 0);
    ContainsLowered(r.comment, "wash");
  }

  lemma WanWashExact(r: Rule)
    ensures WanWash(r) <==> CleansWan(r)
  {
    hide Washes, Cleans, MatchesWan, TouchesWan, Enabled;
    WashesExact(r);
    MatchesWanExact(r);
  }

  /** A word without blanks in two texts joined by a blank is in one of them. */
  lemma AcrossBlank(s: string, t: string)
    ensures HasAnyCase(s + " " + t, "iot") <==> HasAnyCase(s, "iot") || HasAnyCase(t, "iot")
  {
    hide Spells;
    var u := s + " " + t;
    if a, m, b :| u == a + m + b && Spells(m, "iot") {
      SpellsIot(m);
      if |a| + 3 <= |s| {
        assert s == a + m + s[|a| + 3..] by {
          assert s == u[..|s|];
          assert u[..|s|] == a + m + u[|a| + 3..|s|];
        }
      } else if |a| > |s| {
        assert t == u[|s| + 1..];
        assert t == u[|s| + 1..|a|] + m + b;
      } else {
        BlankInside(s, t, a, m, b);
      }
    }
    if a, m, b :| s == a + m + b && Spells(m, "iot") { assert u == a + m + (b + " " + t); }
    if a, m, b :| t == a + m + b && Spells(m, "iot") { assert u == (s + " " + a) + m + b; }
  }

  lemma BlankInside(s: string, t: string, a: string, m: string, b: string)
    requires s + " " + t == a + m + b && |a| <= |s| < |a| + |m|
    ensures m[|s| - |a|] == ' '
  {
    var u := s + " " + t;
    assert u[|s|] == ' ' && (a + m + b)[|s|] == m[|s| - |a|];
  }

  lemma SpellsIot(m: string)
    requires Spells(m, "iot")
    ensures |m| == 3 && forall i | 0 <= i < 3 :: m[i] != ' '
  {}

  lemma IotExact(r: Rule)
    ensures Enabled(r) && Washes(r) && ForIot(r) <==> CleansIot(r)
  {
    hide Washes, Cleans, HasAnyCase, Contains, Enabled;
    WashesExact(r);
    ContainsLowered(r.inInterface + " " + r.comment, "iot");
    AcrossBlank(r.inInterface, r.comment);
  }

  lemma TrustsExact(r: Rule)
    ensures Enabled(r) && Trusts(r) <==> Accepts(r)
  {
    hide Enabled, Live, BeginsAnyCase, StartsWith;
    LiveExact(r);
    StartsLowered(r.comment, "trust");
  }

  lemma GivenExact(f: DscpField)
    ensures IsSet(f) <==> Given(f)
  {}

  lemma RiskyExact(r: Rule)
    ensures RiskyTrust(r) <==> AcceptsWan(r)
  {
    hide Enabled, Trusts, Accepts, MatchesWan, TouchesWan, Given, IsSet;
    TrustsExact(r);
    MatchesWanExact(r);
    GivenExact(r.dscp);
    if r.inInterface != "" { assert r.inInterface[..1] == [r.inInterface[0]]; }
  }

  lemma AboutExact(r: Rule)
    ensures AboutDscp(r) <==> MentionsDscp(r)
  {
    hide HasAnyCase, Contains, BeginsAnyCase, StartsWith, Given, IsSet;
    GivenExact(r.dscp);
    GivenExact(r.newDscp);
    ContainsLowered(r.comment, "dscp");
    StartsLowered(r.comment, "trust ");
  }

  lemma SetsExact(r: Rule)
    ensures Enabled(r) && SetsDscp(r) <==> Marks(r)
  {
    LiveExact(r);
  }

  lemma VocabularyExact(f: DscpField)
    ensures DscpValue(f) in VOCABULARY <==> exists n: int :: n in {0, 8, 26, 34, 36, 38, 46} && Reads(f, n)
  {
    hide DscpValue, Reads;
    forall n: int ensures DscpValue(f) == Some(n) <==> Reads(f, n) { ValueExact(f, n); }
    if DscpValue(f).Some? { assert DscpValue(f) == Some(DscpValue(f).value); }
  }

  // ------------------------------------------------------------- the verdicts

  lemma FirstExact(rules: seq<Rule>, p: nat)
    ensures FirstWash(rules, p) <==> FirstCleaner(rules, p)
  {
    hide WanWash, CleansWan;
    forall r: Rule ensures WanWash(r) <==> CleansWan(r) { WanWashExact(r); }
  }

  /** If every rule of a list that cleans WAN is left out of it, there is none. */
  lemma {:induction false} LeastCleaner(rules: seq<Rule>, i: nat) returns (p: nat)
    requires i < |rules| && CleansWan(rules[i])
    ensures p <= i && FirstCleaner(rules, p)
    decreases i
  {
    hide CleansWan;
    if j: nat :| j < i && CleansWan(rules[j]) { p := LeastCleaner(rules, j); } else { p := i; }
  }

  lemma HasWashExact(rules: seq<Rule>)
    ensures HasWash(rules) <==> exists r :: r in rules && CleansWan(r)
  {
    hide CleansWan, FirstWash;
    forall p: nat ensures FirstWash(rules, p) <==> FirstCleaner(rules, p) { FirstExact(rules, p); }
    if r :| r in rules && CleansWan(r) {
      var i: nat :| i < |rules| && rules[i] == r;
      var p := LeastCleaner(rules, i);
    }
    if p: nat :| FirstWash(rules, p) { assert rules[p] in rules; }
  }

  /** Wash coverage is reported exactly when an enabled rule sets the DSCP of WAN
    * traffic to 0 and another, or the same, that of IoT traffic.
    */
  lemma CoverageExact(role: string, rules: seq<Rule>)
    ensures (exists f :: f in Report(role, rules) && f.WashCovers?)
       <==> (exists r :: r in rules && CleansWan(r)) && exists r :: r in rules && CleansIot(r)
  {
    hide Report, TrustSection, WashSection, OrderSection, SetSection, DisabledSection, SpeaksOfDscp,
      CleansWan, CleansIot, Enabled, Washes, ForIot, HasWash;
    ReportSections(role, rules);
    AllKinds(rules);
    WashKinds(rules);
    HasWashExact(rules);
    forall r: Rule ensures Enabled(r) && Washes(r) && ForIot(r) <==> CleansIot(r) { IotExact(r); }
    if HasWash(rules) { WashSpeaks(rules); }
    assert WashSection(rules)[0] in WashSection(rules);
  }

  lemma BroadExact(rules: seq<Rule>)
    ensures AnyBroad(rules) <==> exists r :: r in rules && AcceptsAny(r)
  {
    hide Enabled, Trusts, Accepts, DscpValue, Reads;
    forall r: Rule
      ensures Enabled(r) && Trusts(r) && DscpValue(r.dscp) == None <==> AcceptsAny(r)
    {
      TrustsExact(r);
      NoValueExact(r.dscp);
    }
  }

  lemma OrderExact(rules: seq<Rule>)
    ensures RiskyOrder(rules)
       <==> exists p: nat, i: nat :: FirstCleaner(rules, p) && i < p && AcceptsWan(rules[i])
  {
    hide FirstWash, FirstCleaner, RiskyTrust, AcceptsWan;
    forall p: nat ensures FirstWash(rules, p) <==> FirstCleaner(rules, p) { FirstExact(rules, p); }
    forall r: Rule ensures RiskyTrust(r) <==> AcceptsWan(r) { RiskyExact(r); }
    FirstUnique(rules);
  }

  lemma FirstUnique(rules: seq<Rule>)
    ensures forall p: nat, q: nat :: FirstWash(rules, p) && FirstWash(rules, q) ==> p == q
    ensures forall p: nat :: FirstWash(rules, p) ==> p < |rules|
  {
    hide WanWash;
  }

  lemma SettersExact(rules: seq<Rule>)
    ensures SettersFine(rules)
       <==> (exists r :: r in rules && Marks(r)) && forall r | r in rules && Marks(r) :: MarksWell(r, rules)
  {
    hide Enabled, Live, SetsDscp, Marks, DscpValue, Reads;
    forall r: Rule
      ensures Enabled(r) && SetsDscp(r) <==> Marks(r)
      ensures Enabled(r) <==> Live(r)
      ensures DscpValue(r.newDscp) in VOCABULARY
         <==> exists n: int :: n in {0, 8, 26, 34, 36, 38, 46} && Reads(r.newDscp, n)
    {
      SetsExact(r);
      LiveExact(r);
      VocabularyExact(r.newDscp);
    }
  }

  /** The ordering warning, on the fields of the rules. */
  lemma OrderWarningExact(role: string, rules: seq<Rule>)
    ensures WarnsOfOrder(Report(role, rules))
       <==> exists p: nat, i: nat :: FirstCleaner(rules, p) && i < p && AcceptsWan(rules[i])
  {
    hide Report, RiskyOrder, FirstCleaner, AcceptsWan;
    OrderWarningIff(role, rules);
    OrderExact(rules);
  }

  /** The failure, on the fields of the rules. */
  lemma FailureExact(role: string, rules: seq<Rule>)
    ensures (exists f :: f in Report(role, rules) && DscpStatus(f) == Fail)
       <==> (exists r :: r in rules && MentionsDscp(r)) && exists r :: r in rules && AcceptsAny(r)
  {
    hide Report, AnyBroad, AcceptsAny, AboutDscp, MentionsDscp;
    BroadTrustIff(role, rules);
    BroadExact(rules);
    forall r: Rule ensures AboutDscp(r) <==> MentionsDscp(r) { AboutExact(r); }
  }

  /** Every finding is a pass, on the fields of the rules. */
  lemma PassExact(role: string, rules: seq<Rule>)
    ensures AllPass(Report(role, rules))
       <==> && (exists r :: r in rules && CleansWan(r)) && (exists r :: r in rules && CleansIot(r))
            && (forall r | r in rules :: !AcceptsAny(r))
            && !(exists p: nat, i: nat :: FirstCleaner(rules, p) && i < p && AcceptsWan(rules[i]))
            && (exists r :: r in rules && Marks(r)) && (forall r | r in rules && Marks(r) :: MarksWell(r, rules))
            && forall r | r in rules && MentionsDscp(r) :: Live(r)
  {
    hide Report, HasWash, CleansWan, CleansIot, Enabled, Washes, ForIot, AnyBroad, AcceptsAny, RiskyOrder, FirstCleaner,
      AcceptsWan, SettersFine, Marks, MarksWell, AboutDscp, MentionsDscp, Live;
    PassIffSound(role, rules);
    HasWashExact(rules);
    BroadExact(rules);
    OrderExact(rules);
    SettersExact(rules);
    forall r: Rule
      ensures Enabled(r) && Washes(r) && ForIot(r) <==> CleansIot(r)
      ensures AboutDscp(r) <==> MentionsDscp(r)
      ensures Enabled(r) <==> Live(r)
    {
      IotExact(r);
      AboutExact(r);
      LiveExact(r);
    }
  }

  /** Without rules the role decides; with none about DSCP there is one warning. */
  lemma QuietExact(role: string, rules: seq<Rule>)
    ensures rules == [] && (role == "gateway" || role == "edge") ==> Report(role, rules) == [NoMangleData]
    ensures rules == [] && role != "gateway" && role != "edge" ==> Report(role, rules) == [NotAGateway(role)]
    ensures rules != [] && (forall r | r in rules :: !MentionsDscp(r)) ==> Report(role, rules) == [NoDscpRules]
    ensures DscpStatus(NoMangleData) == Unknown && DscpStatus(NotAGateway(role)) == Skip && DscpStatus(NoDscpRules) == Warn
  {
    hide AboutDscp, MentionsDscp, Where;
    forall r: Rule ensures AboutDscp(r) <==> MentionsDscp(r) { AboutExact(r); }
    WhereNone(rules, AboutDscp);
  }

  // ------------------------------------------------- the rules a finding lists

  /** A list of rules holds exactly those of a table that satisfy q. */
  ghost predicate Holds(l: seq<Rule>, rules: seq<Rule>, q: Rule -> bool) {
    forall r :: r in l <==> r in rules && q(r)
  }

  /** Broad trust rules, and the constrained ones. */
  lemma TrustLists(rules: seq<Rule>, f: DscpFinding)
    requires f in TrustSection(rules)
    ensures f.BroadTrust? ==> Holds(f.rules, rules, r => AcceptsAny(r))
    ensures f.TrustConstrained? ==> Holds(f.rules, rules, r => Accepts(r) && !AcceptsAny(r))
  {
    hide Where, Enabled, Trusts, Accepts, DscpValue, Reads;
    WhereMembers(rules, (r: Rule) => Enabled(r) && Trusts(r) && DscpValue(r.dscp) == None);
    WhereMembers(rules, (r: Rule) => Enabled(r) && Trusts(r) && DscpValue(r.dscp) != None);
    forall r: Rule
      ensures Enabled(r) && Trusts(r) <==> Accepts(r)
      ensures DscpValue(r.dscp) == None <==> forall n: int :: !Reads(r.dscp, n)
    {
      TrustsExact(r);
      NoValueExact(r.dscp);
    }
  }

  /** Wash rules, and which of the two ingresses is missing. */
  lemma WashLists(rules: seq<Rule>)
    ensures var f := WashSection(rules)[0];
            && Holds(f.rules, rules, r => Cleans(r))
            && (f.WashIncomplete? ==>
                  && (f.noWan <==> forall r | r in rules :: !CleansWan(r))
                  && (f.noIot <==> forall r | r in rules :: !CleansIot(r)))
  {
    hide Where, Enabled, Washes, ForIot, Cleans, CleansWan, CleansIot, HasWash;
    WhereMembers(rules, (r: Rule) => Enabled(r) && Washes(r));
    HasWashExact(rules);
    forall r: Rule
      ensures Enabled(r) && Washes(r) <==> Cleans(r)
      ensures Enabled(r) && Washes(r) && ForIot(r) <==> CleansIot(r)
    {
      WashesExact(r);
      IotExact(r);
    }
  }

  /** Trust rules before the first WAN wash, and that wash. */
  lemma OrderLists(rules: seq<Rule>, l: seq<Rule>, wash: Rule)
    requires TrustBeforeWash(l, wash) in OrderSection(rules)
    ensures exists p: nat :: FirstCleaner(rules, p) && rules[p] == wash
              && Holds(l, rules, r => AcceptsWan(r) && r in rules[..p])
  {
    hide Where, RiskyTrust, AcceptsWan, FirstWash, FirstCleaner;
    var p := WashAt(rules);
    FirstExact(rules, p);
    FirstInside(rules, p);
    WhereMembers(rules, (r: Rule) => RiskyBefore(rules, p, r));
    forall r: Rule ensures RiskyBefore(rules, p, r) <==> AcceptsWan(r) && r in rules[..p] {
      RiskyExact(r);
      assert r in rules[..p] <==> exists i :: 0 <= i < p && rules[..p][i] == r;
      assert forall i | 0 <= i < p :: rules[..p][i] == rules[i];
    }
  }

  lemma FirstInside(rules: seq<Rule>, p: nat)
    requires FirstCleaner(rules, p)
    ensures p < |rules|
  {}

  /** Set rules outside the vocabulary, those without a producer, and how many
    * producers each has if all is fine.
    */
  lemma SetLists(rules: seq<Rule>, f: DscpFinding)
    requires f in SetSection(rules)
    ensures f.UnexpectedValues? ==>
              Holds(f.rules, rules, r => Marks(r) && forall n: int :: n in {0, 8, 26, 34, 36, 38, 46} ==> !Reads(r.newDscp, n))
    ensures f.OrphanedMarks? ==>
              Holds(f.rules, rules, r => Marks(r) && forall q :: q in rules && Live(q) ==> q.newConnectionMark != r.connectionMark)
    ensures f.NoSetRules? <==> forall r | r in rules :: !Marks(r)
  {
    hide Where, WithKey, Counted, Enabled, Live, SetsDscp, Marks, DscpValue, Reads;
    var isSetter := (r: Rule) => Enabled(r) && SetsDscp(r);
    var isOdd := (r: Rule) => DscpValue(r.newDscp) !in VOCABULARY;
    var isOrphan := (r: Rule) => WithKey(rules, PRODUCER_KEY, r.connectionMark) == [];
    WhereMembers(rules, isSetter);
    WhereNone(rules, isSetter);
    WhereMembers(Where(rules, isSetter), isOdd);
    WhereMembers(Where(rules, isSetter), isOrphan);
    forall r: Rule
      ensures Enabled(r) && SetsDscp(r) <==> Marks(r)
      ensures DscpValue(r.newDscp) in VOCABULARY
         <==> exists n: int :: n in {0, 8, 26, 34, 36, 38, 46} && Reads(r.newDscp, n)
    {
      SetsExact(r);
      VocabularyExact(r.newDscp);
    }
    forall r: Rule | Marks(r)
      ensures WithKey(rules, PRODUCER_KEY, r.connectionMark) == []
         <==> forall q :: q in rules && Live(q) ==> q.newConnectionMark != r.connectionMark
    {
      MarkGiven(r);
      ProducersOf(rules, r.connectionMark);
      forall q: Rule ensures Enabled(q) <==> Live(q) { LiveExact(q); }
    }
  }

  /** The number of enabled rules that set the mark each fine set rule reads. */
  lemma CountsExact(rules: seq<Rule>, counts: seq<(Rule, nat)>, i: nat)
    requires SetRulesFine(counts) in SetSection(rules) && i < |counts|
    ensures counts[i].0 in rules && Marks(counts[i].0)
    ensures counts[i].1 == |Where(rules, (q: Rule) => Live(q) && q.newConnectionMark == counts[i].0.connectionMark)|
  {
    hide Where, Enabled, Live, DscpValue;
    var isSetter := (r: Rule) => Enabled(r) && SetsDscp(r);
    FineCounts(rules, counts);
    WhereMembers(rules, isSetter);
    var r := Where(rules, isSetter)[i];
    assert r in Where(rules, isSetter);
    SetsExact(r);
    MarkGiven(r);
    forall q: Rule ensures Enabled(q) <==> Live(q) { LiveExact(q); }
    WhereSame(rules, Has(PRODUCER_KEY, r.connectionMark),
              (q: Rule) => Live(q) && q.newConnectionMark == counts[i].0.connectionMark);
  }

  lemma FineCounts(rules: seq<Rule>, counts: seq<(Rule, nat)>)
    requires SetRulesFine(counts) in SetSection(rules)
    ensures counts == Counted(rules, Where(rules, (r: Rule) => Enabled(r) && SetsDscp(r)))
  {
    hide Where, Counted, WithKey;
  }

  lemma MarkGiven(r: Rule)
    requires Marks(r)
    ensures r.connectionMark != ""
  {}

  /** Rules about DSCP that are switched off. */
  lemma DisabledLists(rules: seq<Rule>, f: DscpFinding)
    requires f in DisabledSection(rules) && f.DisabledRemain?
    ensures Holds(f.rules, rules, r => MentionsDscp(r) && !Live(r))
  {
    hide Where, AboutDscp, MentionsDscp, Enabled, Live;
    WhereMembers(rules, (r: Rule) => AboutDscp(r) && !Enabled(r));
    forall r: Rule
      ensures AboutDscp(r) <==> MentionsDscp(r)
      ensures Enabled(r) <==> Live(r)
    {
      AboutExact(r);
      LiveExact(r);
    }
  }
}
