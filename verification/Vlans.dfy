/** VLAN lists as RouterOS writes them, and the two audits that compare them
  * with policy.
  */
module Vlans {
  import opened PyText
  import opened Findings
  import opened Filtering

  datatype Vlan = Vlan(id: int)

  /** The VLAN RouterOS creates by itself. */
  const DEFAULT := Vlan(1)

  /** A field that should hold a comma-separated list. */
  datatype ListField = Missing | Items(items: seq<string>) | Text(text: string)

  /** `_split_csv`. */
  function SplitCsv(v: ListField): set<string> {
    match v
    case Missing => {}
    case Items(items) => set p | p in items && Strip(p) != "" :: Strip(p)
    case Text(text) => set p | p in Parts(text) && Strip(p) != "" :: Strip(p)
  }

  /** The VLAN ids a field names; parts that are no number are skipped. */
  function VlanIds(v: ListField): set<Vlan> {
    set p | p in SplitCsv(v) && ParseInt(p).Some? :: Vlan(ParseInt(p).value)
  }

  /** `_parse_vlan_ids`: the parts in any order. */
  method ParseVlanIds(v: ListField) returns (ids: set<Vlan>)
    ensures ids == VlanIds(v)
  {
    hide ParseInt, SplitCsv;
    ids := {};
    var parts := SplitCsv(v);
    var left := parts;
    while left != {}
      invariant left <= parts
      invariant ids == set p | p in parts - left && ParseInt(p).Some? :: Vlan(ParseInt(p).value)
      decreases |left|
    {
      var part :| part in left;
      left := left - {part};
      var n := ParseInt(part);
      if n.Some? {
        ids := ids + {Vlan(n.value)};
      }
    }
    assert parts - left == parts;
  }

  /** Joining two lists with a comma unites what they name. */
  lemma VlanIdsUnion(a: string, b: string)
    ensures VlanIds(Text(a + "," + b)) == VlanIds(Text(a)) + VlanIds(Text(b))
  {
    hide Parts, Strip, ParseInt;
    PartsConcat(a, b);
    assert SplitCsv(Text(a + "," + b)) == SplitCsv(Text(a)) + SplitCsv(Text(b)) by {
      assert forall p :: p in Parts(a + "," + b) <==> p in Parts(a) || p in Parts(b);
    }
  }

  /** One id with blanks around it. */
  datatype Entry = Entry(before: string, id: int, after: string)

  function Written(e: Entry): string { e.before + IntText(e.id) + e.after }

  function WrittenList(es: seq<Entry>): string {
    if es == [] then "" else if |es| == 1 then Written(es[0]) else Written(es[0]) + "," + WrittenList(es[1..])
  }

  ghost predicate Spaced(es: seq<Entry>) {
    forall i | 0 <= i < |es| :: Blanks(es[i].before) && Blanks(es[i].after)
  }

  lemma BlanksHaveNoComma(s: string)
    requires Blanks(s)
    ensures ',' !in s
  {}

  lemma OneWritten(e: Entry)
    requires Blanks(e.before) && Blanks(e.after)
    ensures VlanIds(Text(Written(e))) == {Vlan(e.id)}
  {
    hide Parts, Strip, ParseInt, IntText;
    var s := Written(e);
    BlanksHaveNoComma(e.before);
    BlanksHaveNoComma(e.after);
    PartsWhole(s);
    StripBlanks(e.before, IntText(e.id), e.after);
    IntRoundTrip(e.id);
    assert SplitCsv(Text(s)) == {IntText(e.id)};
    assert VlanIds(Text(s)) == {Vlan(ParseInt(IntText(e.id)).value)};
  }

  /** Any list of ids, in any order, with repeats and blanks, reads back as the
    * set of its ids.
    */
  lemma {:induction false} VlanRoundTrip(es: seq<Entry>)
    requires Spaced(es)
    ensures VlanIds(Text(WrittenList(es))) == set i | 0 <= i < |es| :: Vlan(es[i].id)
    decreases es
  {
    hide Parts, Strip, ParseInt, IntText, VlanIds;
    if es == [] {
      EmptyList();
    } else {
      OneWritten(es[0]);
      if |es| > 1 {
        VlanRoundTrip(es[1..]);
        VlanIdsUnion(Written(es[0]), WrittenList(es[1..]));
        var tail := es[1..];
        IdsOfTail(es);
      }
    }
  }

  lemma IdsOfTail(es: seq<Entry>)
    requires es != []
    ensures (set i | 0 <= i < |es| :: Vlan(es[i].id)) == {Vlan(es[0].id)} + set i | 0 <= i < |es[1..]| :: Vlan(es[1..][i].id)
  {
    var tail := es[1..];
    var all, some := set i | 0 <= i < |es| :: Vlan(es[i].id), set i | 0 <= i < |tail| :: Vlan(tail[i].id);
    forall i | 0 <= i < |es| ensures Vlan(es[i].id) in {Vlan(es[0].id)} + some {
      if i > 0 { assert Vlan(tail[i - 1].id) in some; }
    }
    forall i | 0 <= i < |tail| ensures Vlan(tail[i].id) in all { assert Vlan(es[i + 1].id) in all; }
  }

  lemma EmptyList()
    ensures VlanIds(Text("")) == {}
  {
    assert Parts("") == [""] && Strip("") == "";
    assert SplitCsv(Text("")) == {};
  }

  // --------------------------------------------------------- VLAN consistency

  /** A row of the bridge VLAN table. */
  datatype VlanRow = VlanRow(dynamic: Flag, disabled: Flag, vlanIds: ListField, tagged: ListField)

  datatype ConsistencyFinding =
    | NoVlanPolicy
    | Inconsistent(severe: bool, expected: set<Vlan>, actual: set<Vlan>, absent: set<Vlan>, surplus: set<Vlan>)
    | Consistent(ids: set<Vlan>)

  function ConsistencyStatus(f: ConsistencyFinding): Status {
    match f
    case NoVlanPolicy => Unknown
    case Inconsistent(severe, _, _, _, _) => if severe then Fail else Warn
    case Consistent(_) => Pass
  }

  /** The row and the id count as configuration. Unless policy names VLAN 1,
    * dynamic rows and VLAN 1 itself are ignored.
    */
  predicate Counts(expected: set<Vlan>, row: VlanRow, id: Vlan) {
    && (DEFAULT in expected || !Truth(row.dynamic))
    && id in VlanIds(row.vlanIds)
    && (id != DEFAULT || DEFAULT in expected)
  }

  ghost function ActualVlans(expected: set<Vlan>, rows: seq<VlanRow>): set<Vlan> {
    set i, id | 0 <= i < |rows| && id in VlanIds(rows[i].vlanIds) && Counts(expected, rows[i], id) :: id
  }

  function PolicyVlans(policy: seq<int>): set<Vlan> { set v | v in policy :: Vlan(v) }

  /** The finding, from the two sets; an empty list is a missing policy. */
  ghost function Consistency(policy: seq<int>, rows: seq<VlanRow>): ConsistencyFinding {
    var expected := PolicyVlans(policy);
    var actual := ActualVlans(expected, rows);
    if policy == [] then NoVlanPolicy
    else if expected == actual then Consistent(actual)
    else Inconsistent(!(expected <= actual), expected, actual, expected - actual, actual - expected)
  }

  /** The loop over the ids of one row. */
  method AddCounted(expected: set<Vlan>, actual: set<Vlan>, ids: set<Vlan>) returns (r: set<Vlan>)
    ensures r == actual + set id | id in ids && (id != DEFAULT || DEFAULT in expected)
  {
    r := actual;
    var left := ids;
    while left != {}
      invariant left <= ids
      invariant forall id: Vlan :: id in r <==> id in actual || (id in ids - left && (id != DEFAULT || DEFAULT in expected))
      decreases left
    {
      var id :| id in left;
      left := left - {id};
      if id == DEFAULT && DEFAULT !in expected {
        continue;
      }
      r := r + {id};
    }
  }

  /** `audit_vlan_consistency`. */
  method AuditVlanConsistency(policy: seq<int>, rows: seq<VlanRow>) returns (f: ConsistencyFinding)
    ensures f == Consistency(policy, rows)
  {
    if policy == [] {
      return NoVlanPolicy;
    }
    hide VlanIds, Counts, ActualVlans, Truth;
    var expected := PolicyVlans(policy);
    var actual: set<Vlan> := {};
    NothingActual(expected);
    for n := 0 to |rows|
      invariant actual == ActualVlans(expected, rows[..n])
    {
      var row := rows[n];
      ActualStep(expected, rows, n);
      RowCounted(expected, row);
      if Truth(row.dynamic) && DEFAULT !in expected {
        continue;
      }
      var ids := ParseVlanIds(row.vlanIds);
      actual := AddCounted(expected, actual, ids);
    }
    assert rows[..|rows|] == rows;
    var absent := expected - actual;
    var surplus := actual - expected;
    NoDifference(expected, actual);
    NoDifference(actual, expected);
    if absent != {} || surplus != {} {
      f := Inconsistent(absent != {}, expected, actual, absent, surplus);
    } else {
      f := Consistent(actual);
    }
  }

  lemma NoDifference(a: set<Vlan>, b: set<Vlan>)
    ensures a - b == {} <==> a <= b
  {
    assert a <= (a - b) + b;
  }

  lemma NothingActual(expected: set<Vlan>)
    ensures ActualVlans(expected, []) == {}
    ensures forall rows: seq<VlanRow> :: rows[..0] == []
  {}

  lemma RowCounted(expected: set<Vlan>, row: VlanRow)
    ensures (set id | id in VlanIds(row.vlanIds) && Counts(expected, row, id))
         == if Truth(row.dynamic) && DEFAULT !in expected then {}
            else set id | id in VlanIds(row.vlanIds) && (id != DEFAULT || DEFAULT in expected)
  {}

  lemma ActualStep(expected: set<Vlan>, rows: seq<VlanRow>, n: nat)
    requires n < |rows|
    ensures ActualVlans(expected, rows[..n + 1])
         == ActualVlans(expected, rows[..n]) + set id | id in VlanIds(rows[n].vlanIds) && Counts(expected, rows[n], id)
  {
    hide VlanIds, Counts;
    var a, b := rows[..n], rows[..n + 1];
    assert forall i | 0 <= i < n :: a[i] == b[i];
    assert b[n] == rows[n];
    forall id | id in ActualVlans(expected, b)
      ensures id in ActualVlans(expected, a) || (id in VlanIds(rows[n].vlanIds) && Counts(expected, rows[n], id))
    {
      var i :| 0 <= i < |b| && id in VlanIds(b[i].vlanIds) && Counts(expected, b[i], id);
      if i < n { assert id in VlanIds(a[i].vlanIds) && Counts(expected, a[i], id); }
    }
    forall id | id in ActualVlans(expected, a) ensures id in ActualVlans(expected, b) {
      var i :| 0 <= i < |a| && id in VlanIds(a[i].vlanIds) && Counts(expected, a[i], id);
      assert id in VlanIds(b[i].vlanIds) && Counts(expected, b[i], id);
    }
  }

  /** With a policy, the audit fails exactly when an id of it is on no row, warns
    * exactly when none is absent and some row has an id beyond it, and passes
    * exactly when both name the same ids.
    */
  lemma VerdictTrichotomy(policy: seq<int>, rows: seq<VlanRow>)
    requires policy != []
    ensures var actual := ActualVlans(PolicyVlans(policy), rows);
            var status := ConsistencyStatus(Consistency(policy, rows));
            && (status == Fail <==> exists v :: v in policy && Vlan(v) !in actual)
            && (status == Warn <==>
                  && (forall v | v in policy :: Vlan(v) in actual)
                  && exists id :: id in actual && id.id !in policy)
            && (status == Pass <==> forall id: Vlan :: id.id in policy <==> id in actual)
  {
    hide ActualVlans;
    var expected := PolicyVlans(policy);
    var actual := ActualVlans(expected, rows);
    assert forall id: Vlan :: id in expected <==> id.id in policy by {
      assert forall id: Vlan :: id == Vlan(id.id);
    }
    assert expected <= actual <==> forall v | v in policy :: Vlan(v) in actual;
    assert actual <= expected <==> forall id | id in actual :: id.id in policy;
    assert expected == actual <==> expected <= actual && actual <= expected;
  }

  /** A row the audit must ignore when policy does not name VLAN 1. */
  predicate Noise(row: VlanRow) {
    Truth(row.dynamic) || VlanIds(row.vlanIds) <= {DEFAULT}
  }

  const IS_CONFIGURED: VlanRow -> bool := (row: VlanRow) => !Noise(row)

  lemma NoiseUncounted(expected: set<Vlan>, rows: seq<VlanRow>)
    requires DEFAULT !in expected
    ensures ActualVlans(expected, rows) == ActualVlans(expected, Where(rows, IS_CONFIGURED))
  {
    hide VlanIds;
    var t := Where(rows, IS_CONFIGURED);
    WhereMembers(rows, IS_CONFIGURED);
    forall id | id in ActualVlans(expected, rows) ensures id in ActualVlans(expected, t) {
      var i :| 0 <= i < |rows| && id in VlanIds(rows[i].vlanIds) && Counts(expected, rows[i], id);
      assert rows[i] in t;
      var j :| 0 <= j < |t| && t[j] == rows[i];
    }
    forall id | id in ActualVlans(expected, t) ensures id in ActualVlans(expected, rows) {
      var j :| 0 <= j < |t| && id in VlanIds(t[j].vlanIds) && Counts(expected, t[j], id);
      assert t[j] in rows;
      var i :| 0 <= i < |rows| && rows[i] == t[j];
    }
  }

  /** Unless policy names VLAN 1, two tables that differ only by dynamic and
    * VLAN-1-only rows, any number of them at any places, give the same finding.
    */
  lemma NoiseIgnored(policy: seq<int>, rows: seq<VlanRow>, rows': seq<VlanRow>)
    requires DEFAULT.id !in policy
    requires Where(rows, IS_CONFIGURED) == Where(rows', IS_CONFIGURED)
    ensures Consistency(policy, rows) == Consistency(policy, rows')
  {
    hide ActualVlans;
    NoiseUncounted(PolicyVlans(policy), rows);
    NoiseUncounted(PolicyVlans(policy), rows');
  }
}
