/** The audit that correlates packet marks produced by mangle rules with the
  * marks queues consume.
  */
module Marks {
  import opened PyText
  import opened Findings
  import opened Sorting
  import opened Filtering
  import opened Indexing
  import opened Mangle

  datatype Queue = Queue(packetMark: string, disabled: Flag, invalid: Flag, rest: string)

  /** One line of evidence. */
  datatype Line =
    | QueueState(queue: Queue, isDisabled: bool, isInvalid: bool)
    | NoProducer(mark: string, consumers: nat)
    | DisabledProducer(mark: string, rule: Rule)
    | NoConsumer(mark: string, enabled: nat, disabled: nat)
    | DisabledReferenced(marks: seq<string>)

  datatype MarkFinding =
    | NotAGateway(role: string)
    | NoMarkData
    | Misaligned(lines: seq<Line>)
    | MarksAligned(consumed: seq<string>, connection: seq<string>, routing: seq<string>)

  function MarkStatus(f: MarkFinding): Status {
    match f
    case NotAGateway(_) => Pass
    case NoMarkData => Unknown
    case Misaligned(_) => Warn
    case MarksAligned(_, _, _) => Pass
  }

  // --------------------------------------------------------------- the keys

  const PACKET_KEY: Rule -> string := (r: Rule) => r.newPacketMark
  const DISABLED_KEY: Rule -> string := (r: Rule) => if Truth(r.disabled) then r.newPacketMark else ""
  const CONNECTION_KEY: Rule -> string := (r: Rule) => r.newConnectionMark
  const ROUTING_KEY: Rule -> string :=
    (r: Rule) => if r.newRoutingMark != "" then r.newRoutingMark else r.newRoutingTable
  const QUEUE_KEY: Queue -> string := (q: Queue) => q.packetMark

  predicate Bad(q: Queue) { Truth(q.disabled) || Truth(q.invalid) }

  const IS_DISABLED: Rule -> bool := (r: Rule) => Truth(r.disabled)
  const IS_ENABLED: Rule -> bool := (r: Rule) => Enabled(r)
  const IS_BAD: Queue -> bool := (q: Queue) => Bad(q)

  function EnabledOf(rules: seq<Rule>): (r: seq<Rule>)
    ensures |r| <= |rules|
  {
    Where(rules, IS_ENABLED)
  }

  function DisabledOf(rules: seq<Rule>): seq<Rule> { Where(rules, IS_DISABLED) }

  function BadQueues(queues: seq<Queue>): seq<Queue> { Where(queues, IS_BAD) }

  function Take<T>(n: nat, s: seq<T>): seq<T> { if |s| <= n then s else s[..n] }

  // ------------------------------------------------- evidence, from the lists

  function QueueLines(bad: seq<Queue>): seq<Line> {
    seq(|bad|, i requires 0 <= i < |bad| => QueueState(bad[i], Truth(bad[i].disabled), Truth(bad[i].invalid)))
  }

  function DisabledLines(mark: string, rules: seq<Rule>): seq<Line> {
    seq(|rules|, i requires 0 <= i < |rules| => DisabledProducer(mark, rules[i]))
  }

  /** Lines for one consumed mark: none if an enabled rule produces it. */
  function ConsumerLines(mark: string, rules: seq<Rule>, queues: seq<Queue>): seq<Line> {
    var producers := WithKey(rules, PACKET_KEY, mark);
    if EnabledOf(producers) != [] then []
    else [NoProducer(mark, |WithKey(queues, QUEUE_KEY, mark)|)] + DisabledLines(mark, Take(3, DisabledOf(producers)))
  }

  /** Lines for one produced mark: none if a queue consumes it. */
  function ProducerLines(mark: string, rules: seq<Rule>, queues: seq<Queue>): seq<Line> {
    if mark in KeySet(queues, QUEUE_KEY) then []
    else
      var producers := WithKey(rules, PACKET_KEY, mark);
      [NoConsumer(mark, |EnabledOf(producers)|, |producers| - |EnabledOf(producers)|)]
  }

  function AllConsumerLines(marks: seq<string>, rules: seq<Rule>, queues: seq<Queue>): seq<Line> {
    if marks == [] then []
    else AllConsumerLines(marks[..|marks| - 1], rules, queues) + ConsumerLines(marks[|marks| - 1], rules, queues)
  }

  function AllProducerLines(marks: seq<string>, rules: seq<Rule>, queues: seq<Queue>): seq<Line> {
    if marks == [] then []
    else AllProducerLines(marks[..|marks| - 1], rules, queues) + ProducerLines(marks[|marks| - 1], rules, queues)
  }

  ghost function ReferencedLines(rules: seq<Rule>, queues: seq<Queue>): seq<Line> {
    var marks := Sorted(KeySet(rules, DISABLED_KEY) * KeySet(queues, QUEUE_KEY));
    if marks == [] then [] else [DisabledReferenced(marks)]
  }

  ghost function Evidence(rules: seq<Rule>, queues: seq<Queue>): seq<Line> {
    QueueLines(Take(10, BadQueues(queues)))
    + AllConsumerLines(Sorted(KeySet(queues, QUEUE_KEY)), rules, queues)
    + AllProducerLines(Sorted(KeySet(rules, PACKET_KEY)), rules, queues)
    + ReferencedLines(rules, queues)
  }

  /** The audit told from the raw lists. */
  ghost function Correlation(role: string, rules: seq<Rule>, queues: seq<Queue>): MarkFinding {
    if rules == [] && queues == [] then
      if role != "gateway" && role != "edge" then NotAGateway(role) else NoMarkData
    else if Evidence(rules, queues) != [] then Misaligned(Take(30, Evidence(rules, queues)))
    else MarksAligned(Sorted(KeySet(queues, QUEUE_KEY)), Sorted(KeySet(rules, CONNECTION_KEY)), Sorted(KeySet(rules, ROUTING_KEY)))
  }

  // ------------------------------------------------------------ the audit

  /** The index of rules by a key, row by row. */
  method IndexBy<T(!new)>(rows: seq<T>, key: T -> string) returns (index: map<string, seq<T>>)
    ensures Indexes(index, rows, key)
  {
    index := map[];
    for n := 0 to |rows|
      invariant Indexes(index, rows[..n], key)
    {
      FileIndexes(index, rows, key, n);
      index := File(index, key(rows[n]), rows[n]);
    }
    assert rows[..|rows|] == rows;
  }

  /** The loop over the rules fills four indexes at once. */
  method IndexRules(rules: seq<Rule>)
      returns (packet: map<string, seq<Rule>>, disabled: map<string, seq<Rule>>,
               connection: map<string, seq<Rule>>, routing: map<string, seq<Rule>>)
    ensures Indexes(packet, rules, PACKET_KEY) && Indexes(disabled, rules, DISABLED_KEY)
    ensures Indexes(connection, rules, CONNECTION_KEY) && Indexes(routing, rules, ROUTING_KEY)
  {
    hide Indexes, File;
    packet, disabled, connection, routing := map[], map[], map[], map[];
    EmptyIndex(rules[..0], PACKET_KEY);
    EmptyIndex(rules[..0], DISABLED_KEY);
    EmptyIndex(rules[..0], CONNECTION_KEY);
    EmptyIndex(rules[..0], ROUTING_KEY);
    for n := 0 to |rules|
      invariant Indexes(packet, rules[..n], PACKET_KEY) && Indexes(disabled, rules[..n], DISABLED_KEY)
      invariant Indexes(connection, rules[..n], CONNECTION_KEY) && Indexes(routing, rules[..n], ROUTING_KEY)
    {
      var rule := rules[n];
      FileIndexes(packet, rules, PACKET_KEY, n);
      FileIndexes(disabled, rules, DISABLED_KEY, n);
      FileIndexes(connection, rules, CONNECTION_KEY, n);
      FileIndexes(routing, rules, ROUTING_KEY, n);
      packet := File(packet, PACKET_KEY(rule), rule);
      disabled := File(disabled, DISABLED_KEY(rule), rule);
      connection := File(connection, CONNECTION_KEY(rule), rule);
      routing := File(routing, ROUTING_KEY(rule), rule);
    }
    assert rules[..|rules|] == rules;
  }

  lemma EmptyIndex<T(!new)>(rows: seq<T>, key: T -> string)
    requires rows == []
    ensures Indexes(map[], rows, key)
  {}

  method QueueEvidence(queues: seq<Queue>) returns (evidence: seq<Line>)
    ensures evidence == QueueLines(Take(10, BadQueues(queues)))
  {
    var bad := BadQueues(queues);
    evidence := [];
    var shown := Take(10, bad);
    for n := 0 to |shown|
      invariant evidence == QueueLines(shown)[..n]
    {
      evidence := evidence + [QueueState(shown[n], Truth(shown[n].disabled), Truth(shown[n].invalid))];
    }
  }

  lemma ConsumerNothing(marks: seq<string>, rules: seq<Rule>, queues: seq<Queue>)
    requires marks == []
    ensures AllConsumerLines(marks, rules, queues) == []
  {}

  lemma ConsumerStep(marks: seq<string>, n: nat, rules: seq<Rule>, queues: seq<Queue>)
    requires n < |marks|
    ensures AllConsumerLines(marks[..n + 1], rules, queues)
         == AllConsumerLines(marks[..n], rules, queues) + ConsumerLines(marks[n], rules, queues)
  {
    assert marks[..n + 1][..n] == marks[..n];
  }

  method ConsumerEvidence(
      marks: seq<string>, packet: map<string, seq<Rule>>, consumers: map<string, seq<Queue>>,
      rules: seq<Rule>, queues: seq<Queue>)
      returns (evidence: seq<Line>)
    requires Indexes(packet, rules, PACKET_KEY) && Indexes(consumers, queues, QUEUE_KEY)
    requires forall m | m in marks :: m in consumers
    ensures evidence == AllConsumerLines(marks, rules, queues)
  {
    hide WithKey, KeySet, EnabledOf, DisabledOf, DisabledLines, AllConsumerLines;
    evidence := [];
    ConsumerNothing(marks[..0], rules, queues);
    for n := 0 to |marks|
      invariant evidence == AllConsumerLines(marks[..n], rules, queues)
    {
      var mark := marks[n];
      ConsumerStep(marks, n, rules, queues);
      assert mark in marks;
      KeySetMembers(queues, QUEUE_KEY, mark);
      Lookup(packet, rules, PACKET_KEY, mark);
      var producers := if mark in packet then packet[mark] else [];
      if |consumers[mark]| > 0 && EnabledOf(producers) == [] {
        var shown := Take(3, DisabledOf(producers));
        evidence := evidence + [NoProducer(mark, |consumers[mark]|)];
        var lines := DisabledEvidence(mark, shown);
        assert ConsumerLines(mark, rules, queues) == [NoProducer(mark, |consumers[mark]|)] + lines;
        evidence := evidence + lines;
      }
    }
    assert marks[..|marks|] == marks;
  }

  method DisabledEvidence(mark: string, shown: seq<Rule>) returns (evidence: seq<Line>)
    ensures evidence == DisabledLines(mark, shown)
  {
    evidence := [];
    for n := 0 to |shown|
      invariant evidence == DisabledLines(mark, shown)[..n]
    {
      evidence := evidence + [DisabledProducer(mark, shown[n])];
    }
  }

  method ProducerEvidence(
      marks: seq<string>, packet: map<string, seq<Rule>>, consumers: map<string, seq<Queue>>,
      rules: seq<Rule>, queues: seq<Queue>)
      returns (evidence: seq<Line>)
    requires Indexes(packet, rules, PACKET_KEY) && Indexes(consumers, queues, QUEUE_KEY)
    requires forall m | m in marks :: m in packet
    ensures evidence == AllProducerLines(marks, rules, queues)
  {
    hide WithKey, KeySet, EnabledOf;
    evidence := [];
    for n := 0 to |marks|
      invariant evidence == AllProducerLines(marks[..n], rules, queues)
    {
      var mark := marks[n];
      assert marks[..n + 1][..n] == marks[..n] && mark in marks;
      if mark !in consumers {
        var enabled := |EnabledOf(packet[mark])|;
        evidence := evidence + [NoConsumer(mark, enabled, |packet[mark]| - enabled)];
      }
    }
    assert marks[..|marks|] == marks;
  }

  /** `audit_mangle_queue_correlation`; the queue tree is used if there is one. */
  method AuditMarks(role: string, rules: seq<Rule>, tree: seq<Queue>, simple: seq<Queue>)
      returns (f: MarkFinding)
    ensures f == Correlation(role, rules, if tree != [] then tree else simple)
  {
    hide WithKey, KeySet, AllConsumerLines, AllProducerLines, QueueLines, BadQueues;
    var queues := if tree != [] then tree else simple;
    if rules == [] && queues == [] {
      return if role !in {"gateway", "edge"} then NotAGateway(role) else NoMarkData;
    }
    var packet, disabled, connection, routing := IndexRules(rules);
    var consumers := IndexBy(queues, QUEUE_KEY);
    var evidence := QueueEvidence(queues);
    var consumed := Sort(consumers.Keys);
    var fromConsumers := ConsumerEvidence(consumed, packet, consumers, rules, queues);
    evidence := evidence + fromConsumers;
    var produced := Sort(packet.Keys);
    var fromProducers := ProducerEvidence(produced, packet, consumers, rules, queues);
    evidence := evidence + fromProducers;
    var referenced := Sort(disabled.Keys * consumers.Keys);
    if referenced != [] {
      evidence := evidence + [DisabledReferenced(referenced)];
    }
    assert evidence == Evidence(rules, queues);
    if evidence != [] {
      return Misaligned(Take(30, evidence));
    }
    var connections := Sort(connection.Keys);
    var routings := Sort(routing.Keys);
    f := MarksAligned(consumed, connections, routings);
  }

  // ---------------------------------------------------------- the verdict

  /** The set of marks an enabled rule produces. */
  ghost function EnabledMarks(rules: seq<Rule>): set<string> {
    set i | 0 <= i < |rules| && rules[i].newPacketMark != "" && !Truth(rules[i].disabled) :: rules[i].newPacketMark
  }

  ghost function ConsumedMarks(queues: seq<Queue>): set<string> {
    set i | 0 <= i < |queues| && queues[i].packetMark != "" :: queues[i].packetMark
  }

  /** What a clean correlation means on the raw lists. */
  ghost predicate AreAligned(rules: seq<Rule>, queues: seq<Queue>) {
    && (forall q | q in queues :: !Bad(q))
    && (forall r | r in rules :: r.newPacketMark != "" ==> !Truth(r.disabled))
    && EnabledMarks(rules) == ConsumedMarks(queues)
  }

  lemma {:induction false} NoConsumerLines(marks: seq<string>, rules: seq<Rule>, queues: seq<Queue>)
    ensures AllConsumerLines(marks, rules, queues) == []
       <==> forall m | m in marks :: ConsumerLines(m, rules, queues) == []
    decreases |marks|
  {
    hide ConsumerLines;
    if marks != [] {
      NoConsumerLines(marks[..|marks| - 1], rules, queues);
      assert marks == marks[..|marks| - 1] + [marks[|marks| - 1]];
    }
  }

  lemma {:induction false} NoProducerLines(marks: seq<string>, rules: seq<Rule>, queues: seq<Queue>)
    ensures AllProducerLines(marks, rules, queues) == []
       <==> forall m | m in marks :: ProducerLines(m, rules, queues) == []
    decreases |marks|
  {
    hide ProducerLines;
    if marks != [] {
      NoProducerLines(marks[..|marks| - 1], rules, queues);
      assert marks == marks[..|marks| - 1] + [marks[|marks| - 1]];
    }
  }

  /** A consumed mark draws no line exactly if an enabled rule produces it. */
  lemma ConsumerLineless(m: string, rules: seq<Rule>, queues: seq<Queue>)
    requires m != ""
    ensures ConsumerLines(m, rules, queues) == [] <==> m in EnabledMarks(rules)
  {
    var producers := WithKey(rules, PACKET_KEY, m);
    WhereMembers(rules, Has(PACKET_KEY, m));
    WhereMembers(producers, IS_ENABLED);
    if m in EnabledMarks(rules) {
      var i :| 0 <= i < |rules| && rules[i].newPacketMark != "" && !Truth(rules[i].disabled) && rules[i].newPacketMark == m;
      assert rules[i] in EnabledOf(producers);
    }
    if EnabledOf(producers) != [] {
      var r := EnabledOf(producers)[0];
      assert r in EnabledOf(producers);
      var i :| 0 <= i < |rules| && rules[i] == r;
    }
  }

  lemma QueueLineless(queues: seq<Queue>)
    ensures QueueLines(Take(10, BadQueues(queues))) == [] <==> forall q | q in queues :: !Bad(q)
  {
    WhereNone(queues, IS_BAD);
  }

  lemma EnumeratesEmpty(r: seq<string>, s: set<string>)
    requires Enumerates(r, s)
    ensures r == [] <==> s == {}
  {
    if r != [] { assert r[0] in r; }
    if s != {} { var x :| x in s; assert x in r; }
  }

  lemma ReferencedLineless(rules: seq<Rule>, queues: seq<Queue>)
    ensures ReferencedLines(rules, queues) == [] <==> KeySet(rules, DISABLED_KEY) * KeySet(queues, QUEUE_KEY) == {}
  {
    var s := KeySet(rules, DISABLED_KEY) * KeySet(queues, QUEUE_KEY);
    EnumeratesEmpty(Sorted(s), s);
  }

  /** There is no evidence exactly when the lists are aligned. */
  lemma NoEvidenceIff(rules: seq<Rule>, queues: seq<Queue>)
    ensures Evidence(rules, queues) == [] <==> AreAligned(rules, queues)
  {
    hide QueueLines, BadQueues, AllConsumerLines, AllProducerLines, ReferencedLines, ConsumerLines, WithKey;
    var consumed, produced := KeySet(queues, QUEUE_KEY), KeySet(rules, PACKET_KEY);
    QueueLineless(queues);
    NoConsumerLines(Sorted(consumed), rules, queues);
    NoProducerLines(Sorted(produced), rules, queues);
    ReferencedLineless(rules, queues);
    forall m: string | m != "" ensures ConsumerLines(m, rules, queues) == [] <==> m in EnabledMarks(rules) {
      ConsumerLineless(m, rules, queues);
    }
    KeySets(rules, queues);
    assert Evidence(rules, queues) == [] <==>
      && QueueLines(Take(10, BadQueues(queues))) == []
      && AllConsumerLines(Sorted(consumed), rules, queues) == []
      && AllProducerLines(Sorted(produced), rules, queues) == []
      && ReferencedLines(rules, queues) == [];
  }

  /** How the audit's key sets relate to the sets of the specification. */
  lemma KeySets(rules: seq<Rule>, queues: seq<Queue>)
    ensures KeySet(queues, QUEUE_KEY) == ConsumedMarks(queues)
    ensures "" !in KeySet(queues, QUEUE_KEY)
    ensures KeySet(rules, PACKET_KEY) == EnabledMarks(rules) + KeySet(rules, DISABLED_KEY)
    ensures KeySet(rules, DISABLED_KEY) == {} <==> forall r | r in rules :: r.newPacketMark != "" ==> !Truth(r.disabled)
  {
    KeysFiled(rules, DISABLED_KEY);
    KeysFiled(rules, PACKET_KEY);
    forall i | 0 <= i < |rules| && rules[i].newPacketMark != "" && !Truth(rules[i].disabled)
      ensures rules[i].newPacketMark in EnabledMarks(rules)
    {}
    forall k | k in KeySet(rules, PACKET_KEY) ensures k in EnabledMarks(rules) + KeySet(rules, DISABLED_KEY) {
      var i :| 0 <= i < |rules| && PACKET_KEY(rules[i]) != "" && PACKET_KEY(rules[i]) == k;
      if Truth(rules[i].disabled) { assert DISABLED_KEY(rules[i]) == k; }
    }
    forall k | k in KeySet(rules, DISABLED_KEY) ensures k in KeySet(rules, PACKET_KEY) {
      var i :| 0 <= i < |rules| && DISABLED_KEY(rules[i]) != "" && DISABLED_KEY(rules[i]) == k;
      assert PACKET_KEY(rules[i]) == k;
    }
    if KeySet(rules, DISABLED_KEY) == {} {
      forall r | r in rules && r.newPacketMark != "" ensures !Truth(r.disabled) {
        var i :| 0 <= i < |rules| && rules[i] == r;
        assert DISABLED_KEY(rules[i]) !in KeySet(rules, DISABLED_KEY);
      }
    }
  }

  /** With any rule or queue present, the audit passes exactly when the lists are
    * aligned, and otherwise warns with one to thirty lines.
    */
  lemma PassIffAligned(role: string, rules: seq<Rule>, queues: seq<Queue>)
    requires rules != [] || queues != []
    ensures MarkStatus(Correlation(role, rules, queues)) == if AreAligned(rules, queues) then Pass else Warn
    ensures !AreAligned(rules, queues) ==>
              var f := Correlation(role, rules, queues);
              f.Misaligned? && 1 <= |f.lines| <= 30
  {
    hide Evidence, AreAligned;
    NoEvidenceIff(rules, queues);
  }

  /** Reordering rules or queues does not change the status. */
  lemma OrderIrrelevant(
      role: string, rules: seq<Rule>, rules': seq<Rule>, queues: seq<Queue>, queues': seq<Queue>)
    requires multiset(rules) == multiset(rules') && multiset(queues) == multiset(queues')
    ensures MarkStatus(Correlation(role, rules, queues)) == MarkStatus(Correlation(role, rules', queues'))
  {
    hide Correlation, AreAligned;
    Permuted(rules, rules');
    Permuted(queues, queues');
    if rules == [] && queues == [] {
      assert rules' == [] && queues' == [];
    } else {
      SameMarks(rules, rules');
      SameMarks(rules', rules);
      SameConsumed(queues, queues');
      SameConsumed(queues', queues);
      SameAligned(rules, rules', queues, queues');
      PassIffAligned(role, rules, queues);
      PassIffAligned(role, rules', queues');
    }
  }

  lemma Permuted<T(!new)>(a: seq<T>, b: seq<T>)
    requires multiset(a) == multiset(b)
    ensures |a| == |b| && forall x :: x in a <==> x in b
  {
    assert |multiset(a)| == |a| && |multiset(b)| == |b|;
    assert forall x :: x in a <==> x in multiset(a);
    assert forall x :: x in b <==> x in multiset(b);
  }

  lemma SameAligned(rules: seq<Rule>, rules': seq<Rule>, queues: seq<Queue>, queues': seq<Queue>)
    requires (forall r :: r in rules <==> r in rules') && (forall q :: q in queues <==> q in queues')
    requires EnabledMarks(rules) == EnabledMarks(rules') && ConsumedMarks(queues) == ConsumedMarks(queues')
    ensures AreAligned(rules, queues) <==> AreAligned(rules', queues')
  {
    hide EnabledMarks, ConsumedMarks;
  }

  lemma SameMarks(rules: seq<Rule>, rules': seq<Rule>)
    requires forall r :: r in rules ==> r in rules'
    ensures EnabledMarks(rules) <= EnabledMarks(rules')
  {
    forall m | m in EnabledMarks(rules) ensures m in EnabledMarks(rules') {
      var i :| 0 <= i < |rules| && rules[i].newPacketMark != "" && !Truth(rules[i].disabled) && rules[i].newPacketMark == m;
      assert rules[i] in rules';
      var j :| 0 <= j < |rules'| && rules'[j] == rules[i];
    }
  }

  lemma SameConsumed(queues: seq<Queue>, queues': seq<Queue>)
    requires forall q :: q in queues ==> q in queues'
    ensures ConsumedMarks(queues) <= ConsumedMarks(queues')
  {
    forall m | m in ConsumedMarks(queues) ensures m in ConsumedMarks(queues') {
      var i :| 0 <= i < |queues| && queues[i].packetMark != "" && queues[i].packetMark == m;
      assert queues[i] in queues';
      var j :| 0 <= j < |queues'| && queues'[j] == queues[i];
    }
  }

  /** The packet index and the queue index hold every marked row once. */
  lemma IndexesConserve(rules: seq<Rule>, queues: seq<Queue>)
    ensures TotalFiled(rules, PACKET_KEY, Sorted(KeySet(rules, PACKET_KEY))) == |Keyed(rules, PACKET_KEY)|
    ensures TotalFiled(queues, QUEUE_KEY, Sorted(KeySet(queues, QUEUE_KEY))) == |Keyed(queues, QUEUE_KEY)|
  {
    KeysFiled(rules, PACKET_KEY);
    KeysFiled(queues, QUEUE_KEY);
    IndexConserves(rules, PACKET_KEY, Sorted(KeySet(rules, PACKET_KEY)));
    IndexConserves(queues, QUEUE_KEY, Sorted(KeySet(queues, QUEUE_KEY)));
  }
}
