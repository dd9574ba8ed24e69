/** What the audit of packet marks says, told on the fields of rules and queues. */
module MarksExact {
  import opened PyText
  import opened PyTextExact
  import opened Findings
  import opened Sorting
  import opened Filtering
  import opened Indexing
  import opened Mangle
  import opened Marks

  /** The rule carries the packet mark, and is switched on or off. */
  predicate Carries(r: Rule, m: string) { m != "" && r.newPacketMark == m }

  predicate CarriesOn(r: Rule, m: string) { Carries(r, m) && Unset(r.disabled) }

  predicate CarriesOff(r: Rule, m: string) { Carries(r, m) && !Unset(r.disabled) }

  predicate Consumes(q: Queue, m: string) { m != "" && q.packetMark == m }

  predicate Works(q: Queue) { Unset(q.disabled) && Unset(q.invalid) }

  /** An enabled rule sets the mark. */
  ghost predicate SetOn(rules: seq<Rule>, m: string) { exists r :: r in rules && CarriesOn(r, m) }

  ghost predicate Wanted(queues: seq<Queue>, m: string) { exists q :: q in queues && Consumes(q, m) }

  /** The rule routes by the mark, or by the table if it sets no routing mark. */
  predicate Routes(r: Rule, m: string) {
    m != "" && (r.newRoutingMark == m || (r.newRoutingMark == "" && r.newRoutingTable == m))
  }

  /** Every queue works, no rule that carries a mark is off, and the marks of the
    * rules are those of the queues.
    */
  ghost predicate Tidy(rules: seq<Rule>, queues: seq<Queue>) {
    && (forall q | q in queues :: Works(q))
    && (forall r, m | r in rules :: !CarriesOff(r, m))
    && forall m: string :: SetOn(rules, m) <==> Wanted(queues, m)
  }

  lemma OnExact(rules: seq<Rule>, m: string)
    ensures m in EnabledMarks(rules) <==> exists r :: r in rules && CarriesOn(r, m)
  {
    forall r: Rule ensures Truth(r.disabled) <==> !Unset(r.disabled) { TruthExact(r.disabled); }
    if r :| r in rules && CarriesOn(r, m) { var i :| 0 <= i < |rules| && rules[i] == r; }
    if m in EnabledMarks(rules) {
      var i :| 0 <= i < |rules| && rules[i].newPacketMark != "" && !Truth(rules[i].disabled) && rules[i].newPacketMark == m;
      assert rules[i] in rules && CarriesOn(rules[i], m);
    }
  }

  lemma ConsumedExact(queues: seq<Queue>, m: string)
    ensures m in ConsumedMarks(queues) <==> exists q :: q in queues && Consumes(q, m)
  {
    if q :| q in queues && Consumes(q, m) { var i :| 0 <= i < |queues| && queues[i] == q; }
    if m in ConsumedMarks(queues) {
      var i :| 0 <= i < |queues| && queues[i].packetMark != "" && queues[i].packetMark == m;
      assert queues[i] in queues && Consumes(queues[i], m);
    }
  }

  lemma OffExact(r: Rule)
    ensures (r.newPacketMark != "" ==> !Truth(r.disabled)) <==> forall m: string :: !CarriesOff(r, m)
  {
    TruthExact(r.disabled);
    assert CarriesOff(r, r.newPacketMark) <==> r.newPacketMark != "" && !Unset(r.disabled);
  }

  lemma TidyExact(rules: seq<Rule>, queues: seq<Queue>)
    ensures AreAligned(rules, queues) <==> Tidy(rules, queues)
  {
    hide EnabledMarks, ConsumedMarks, CarriesOff, SetOn, Wanted;
    forall q: Queue ensures Bad(q) <==> !Works(q) {
      TruthExact(q.disabled);
      TruthExact(q.invalid);
    }
    forall r: Rule
      ensures (r.newPacketMark != "" ==> !Truth(r.disabled)) <==> forall m: string :: !CarriesOff(r, m)
    {
      OffExact(r);
    }
    assert (forall r | r in rules :: r.newPacketMark != "" ==> !Truth(r.disabled))
      <==> forall r, m | r in rules :: !CarriesOff(r, m);
    MarksSame(rules, queues);
  }

  lemma MarksSame(rules: seq<Rule>, queues: seq<Queue>)
    ensures EnabledMarks(rules) == ConsumedMarks(queues) <==> forall m: string :: SetOn(rules, m) <==> Wanted(queues, m)
  {
    hide EnabledMarks, ConsumedMarks, CarriesOn, Consumes;
    forall m: string
      ensures m in EnabledMarks(rules) <==> SetOn(rules, m)
      ensures m in ConsumedMarks(queues) <==> Wanted(queues, m)
    {
      OnExact(rules, m);
      ConsumedExact(queues, m);
    }
    if forall m: string :: SetOn(rules, m) <==> Wanted(queues, m) {
      assert EnabledMarks(rules) == ConsumedMarks(queues);
    }
  }

  /** The status: without rules and queues the role decides, else it is a pass if
    * all is tidy and a warning if not.
    */
  lemma StatusExact(role: string, rules: seq<Rule>, queues: seq<Queue>)
    ensures MarkStatus(Correlation(role, rules, queues)) ==
              if rules == [] && queues == [] then (if role == "gateway" || role == "edge" then Unknown else Pass)
              else if Tidy(rules, queues) then Pass
              else Warn
  {
    hide Evidence, AreAligned, Tidy;
    if rules != [] || queues != [] {
      PassIffAligned(role, rules, queues);
      TidyExact(rules, queues);
    }
  }

  // ---------------------------------------------------------------- evidence

  lemma PacketKeys(rules: seq<Rule>, m: string)
    ensures m in KeySet(rules, PACKET_KEY) <==> exists r :: r in rules && Carries(r, m)
  {
    if r :| r in rules && Carries(r, m) { var i :| 0 <= i < |rules| && rules[i] == r; KeysFiled(rules, PACKET_KEY); }
    if m in KeySet(rules, PACKET_KEY) {
      var i :| 0 <= i < |rules| && PACKET_KEY(rules[i]) != "" && PACKET_KEY(rules[i]) == m;
      assert rules[i] in rules && Carries(rules[i], m);
    }
  }

  lemma DisabledKeys(rules: seq<Rule>, m: string)
    ensures m in KeySet(rules, DISABLED_KEY) <==> exists r :: r in rules && CarriesOff(r, m)
  {
    forall r: Rule ensures Truth(r.disabled) <==> !Unset(r.disabled) { TruthExact(r.disabled); }
    if r :| r in rules && CarriesOff(r, m) { var i :| 0 <= i < |rules| && rules[i] == r; KeysFiled(rules, DISABLED_KEY); }
    if m in KeySet(rules, DISABLED_KEY) {
      var i :| 0 <= i < |rules| && DISABLED_KEY(rules[i]) != "" && DISABLED_KEY(rules[i]) == m;
      assert rules[i] in rules && CarriesOff(rules[i], m);
    }
  }

  lemma QueueKeys(queues: seq<Queue>, m: string)
    ensures m in KeySet(queues, QUEUE_KEY) <==> exists q :: q in queues && Consumes(q, m)
  {
    if q :| q in queues && Consumes(q, m) { var i :| 0 <= i < |queues| && queues[i] == q; KeysFiled(queues, QUEUE_KEY); }
    if m in KeySet(queues, QUEUE_KEY) {
      var i :| 0 <= i < |queues| && QUEUE_KEY(queues[i]) != "" && QUEUE_KEY(queues[i]) == m;
      assert queues[i] in queues && Consumes(queues[i], m);
    }
  }

  /** The rules that carry a mark, switched on and off. */
  lemma Producers(rules: seq<Rule>, m: string)
    requires m != ""
    ensures EnabledOf(WithKey(rules, PACKET_KEY, m)) == Where(rules, (r: Rule) => CarriesOn(r, m))
    ensures DisabledOf(WithKey(rules, PACKET_KEY, m)) == Where(rules, (r: Rule) => CarriesOff(r, m))
    ensures WithKey(rules, PACKET_KEY, m) == Where(rules, (r: Rule) => Carries(r, m))
  {
    forall r: Rule ensures Truth(r.disabled) <==> !Unset(r.disabled) { TruthExact(r.disabled); }
    WhereTwice(rules, Has(PACKET_KEY, m), IS_ENABLED, (r: Rule) => CarriesOn(r, m));
    WhereTwice(rules, Has(PACKET_KEY, m), IS_DISABLED, (r: Rule) => CarriesOff(r, m));
    WhereSame(rules, Has(PACKET_KEY, m), (r: Rule) => Carries(r, m));
  }

  lemma Consumers(queues: seq<Queue>, m: string)
    requires m != ""
    ensures WithKey(queues, QUEUE_KEY, m) == Where(queues, (q: Queue) => Consumes(q, m))
  {
    WhereSame(queues, Has(QUEUE_KEY, m), (q: Queue) => Consumes(q, m));
  }

  /** Lines about consumed marks: one for each mark without a rule that is on, with
    * the number of its queues, followed by up to three rules that are off.
    */
  lemma ConsumedLines(m: string, rules: seq<Rule>, queues: seq<Queue>)
    requires m != ""
    ensures ConsumerLines(m, rules, queues) ==
              if exists r :: r in rules && CarriesOn(r, m) then []
              else
                [NoProducer(m, |Where(queues, (q: Queue) => Consumes(q, m))|)]
                + DisabledLines(m, Take(3, Where(rules, (r: Rule) => CarriesOff(r, m))))
  {
    hide Where, CarriesOn, CarriesOff, Consumes, WithKey, EnabledOf, DisabledOf;
    Producers(rules, m);
    Consumers(queues, m);
    WhereNone(rules, (r: Rule) => CarriesOn(r, m));
  }

  /** Lines about produced marks: one for each mark no queue consumes, with the
    * numbers of rules that are on and off.
    */
  lemma ProducedLines(m: string, rules: seq<Rule>, queues: seq<Queue>)
    requires m != ""
    ensures ProducerLines(m, rules, queues) ==
              if exists q :: q in queues && Consumes(q, m) then []
              else [NoConsumer(m, |Where(rules, (r: Rule) => CarriesOn(r, m))|,
                               |Where(rules, (r: Rule) => CarriesOff(r, m))|)]
  {
    hide Where, CarriesOn, CarriesOff, Carries, Consumes, WithKey, EnabledOf, KeySet;
    Producers(rules, m);
    QueueKeys(queues, m);
    OnAndOff(rules, m);
  }

  lemma {:induction false} OnAndOff(rules: seq<Rule>, m: string)
    ensures |Where(rules, (r: Rule) => Carries(r, m))|
         == |Where(rules, (r: Rule) => CarriesOn(r, m))| + |Where(rules, (r: Rule) => CarriesOff(r, m))|
    decreases |rules|
  {
    if rules != [] { OnAndOff(rules[..|rules| - 1], m); }
  }

  /** The whole evidence: up to ten queues that do not work, in order; then the
    * lines of the consumed marks and of the produced ones, both ascending; then the
    * marks of rules that are off and queues alike.
    */
  lemma EvidenceExact(rules: seq<Rule>, queues: seq<Queue>, consumed: seq<string>, produced: seq<string>, both: seq<string>)
    requires Ascends(consumed) && forall m :: m in consumed <==> exists q :: q in queues && Consumes(q, m)
    requires Ascends(produced) && forall m :: m in produced <==> exists r :: r in rules && Carries(r, m)
    requires Ascends(both)
    requires forall m :: m in both <==>
               (exists r :: r in rules && CarriesOff(r, m)) && exists q :: q in queues && Consumes(q, m)
    ensures Evidence(rules, queues) ==
              QueueLines(Take(10, Where(queues, (q: Queue) => !Works(q))))
              + AllConsumerLines(consumed, rules, queues)
              + AllProducerLines(produced, rules, queues)
              + if both == [] then [] else [DisabledReferenced(both)]
  {
    hide Where, Consumes, Carries, CarriesOff, KeySet, AllConsumerLines, AllProducerLines, QueueLines, Ascends;
    BadExact(queues);
    forall m: string
      ensures m in KeySet(queues, QUEUE_KEY) <==> exists q :: q in queues && Consumes(q, m)
      ensures m in KeySet(rules, PACKET_KEY) <==> exists r :: r in rules && Carries(r, m)
      ensures m in KeySet(rules, DISABLED_KEY) <==> exists r :: r in rules && CarriesOff(r, m)
    {
      QueueKeys(queues, m);
      PacketKeys(rules, m);
      DisabledKeys(rules, m);
    }
    EnumerationUnique(consumed, Sorted(KeySet(queues, QUEUE_KEY)), KeySet(queues, QUEUE_KEY));
    EnumerationUnique(produced, Sorted(KeySet(rules, PACKET_KEY)), KeySet(rules, PACKET_KEY));
    var s := KeySet(rules, DISABLED_KEY) * KeySet(queues, QUEUE_KEY);
    EnumerationUnique(both, Sorted(s), s);
  }

  /** The warning shows the evidence, cut off after thirty lines. */
  lemma WarningExact(role: string, rules: seq<Rule>, queues: seq<Queue>)
    requires (rules != [] || queues != []) && !Tidy(rules, queues)
    ensures var f, all := Correlation(role, rules, queues), Evidence(rules, queues);
            && f.Misaligned? && f.lines <= all
            && |f.lines| == if |all| < 30 then |all| else 30
  {
    hide Evidence, AreAligned, Tidy;
    TidyExact(rules, queues);
    NoEvidenceIff(rules, queues);
  }

  /** Taking up to n rows takes the first ones. */
  lemma TakeExact<T>(n: nat, s: seq<T>)
    ensures Take(n, s) <= s && |Take(n, s)| == if |s| < n then |s| else n
  {}

  lemma BadExact(queues: seq<Queue>)
    ensures BadQueues(queues) == Where(queues, (q: Queue) => !Works(q))
  {
    forall q: Queue ensures Bad(q) <==> !Works(q) {
      TruthExact(q.disabled);
      TruthExact(q.invalid);
    }
    WhereSame(queues, IS_BAD, (q: Queue) => !Works(q));
  }

  /** A line about a queue shows its two flags. */
  lemma QueueLineExact(bad: seq<Queue>, i: nat)
    requires i < |bad|
    ensures QueueLines(bad)[i] == QueueState(bad[i], !Unset(bad[i].disabled), !Unset(bad[i].invalid))
  {
    TruthExact(bad[i].disabled);
    TruthExact(bad[i].invalid);
  }

  /** A pass lists, ascending, the packet marks consumed, the connection marks set,
    * and the routing marks set, or the routing tables where no mark is.
    */
  lemma PassLists(role: string, rules: seq<Rule>, queues: seq<Queue>)
    requires Correlation(role, rules, queues).MarksAligned?
    ensures var f := Correlation(role, rules, queues);
            && Ascends(f.consumed) && Ascends(f.connection) && Ascends(f.routing)
            && (forall m :: m in f.consumed <==> exists q :: q in queues && Consumes(q, m))
            && (forall m :: m in f.connection <==> m != "" && exists r :: r in rules && r.newConnectionMark == m)
            && (forall m :: m in f.routing <==> exists r :: r in rules && Routes(r, m))
  {
    hide Evidence, KeySet, Ascends;
    forall m: string
      ensures m in KeySet(queues, QUEUE_KEY) <==> exists q :: q in queues && Consumes(q, m)
      ensures m in KeySet(rules, CONNECTION_KEY) <==> m != "" && exists r :: r in rules && r.newConnectionMark == m
      ensures m in KeySet(rules, ROUTING_KEY) <==> exists r :: r in rules && Routes(r, m)
    {
      QueueKeys(queues, m);
      KeySetExact(rules, CONNECTION_KEY, m);
      KeySetExact(rules, ROUTING_KEY, m);
    }
  }

  lemma KeySetExact<T(!new)>(rows: seq<T>, key: T -> string, m: string)
    ensures m in KeySet(rows, key) <==> m != "" && exists r :: r in rows && key(r) == m
  {
    if r :| r in rows && key(r) == m && m != "" { var i :| 0 <= i < |rows| && rows[i] == r; KeysFiled(rows, key); }
    if m in KeySet(rows, key) {
      var i :| 0 <= i < |rows| && key(rows[i]) != "" && key(rows[i]) == m;
      assert rows[i] in rows;
    }
  }
}
