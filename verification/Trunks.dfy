/** The audit of trunk ports against policy. */
module Trunks {
  import opened Prelude
  import opened PyText
  import opened Findings
  import opened Vlans

  datatype Pvid = NoPvid | IntPvid(n: int) | TextPvid(s: string)

  datatype Port = Port(interface: string, pvid: Pvid, frameTypes: string)

  /** A port policy expects to be a trunk, with the VLANs it must carry. */
  datatype Trunk = Trunk(port: string, vlans: seq<int>)

  datatype TrunkFinding =
    | NoTrunkPolicy
    | PortMissing(port: string)
    | VlansMissing(port: string, absent: set<Vlan>)
    | OddPvid(port: string)
    | TrunksMatch

  function TrunkStatus(f: TrunkFinding): Status {
    match f
    case NoTrunkPolicy => Unknown
    case PortMissing(_) => Fail
    case VlansMissing(_, _) => Fail
    case OddPvid(_) => Warn
    case TrunksMatch => Pass
  }

  predicate DefaultPvid(p: Pvid) { p.NoPvid? || p == IntPvid(1) || p == TextPvid("1") }

  predicate TaggedOnly(p: Port) { p.frameTypes == "admit-only-vlan-tagged" }

  function Expected(t: Trunk): set<Vlan> { set v | v in t.vlans :: Vlan(v) }

  /** The row tags the port. */
  predicate Tags(row: VlanRow, port: string) {
    !SaysYes(row.disabled) && port in SplitCsv(row.tagged)
  }

  /** All VLANs some enabled row tags on the port. */
  ghost function TaggedVlans(rows: seq<VlanRow>, port: string): set<Vlan> {
    set i, v | 0 <= i < |rows| && v in VlanIds(rows[i].vlanIds) && Tags(rows[i], port) :: v
  }

  /** The last bridge port row with the name. */
  function PortNamed(ports: seq<Port>, name: string): Option<Port> {
    if ports == [] then None
    else if ports[|ports| - 1].interface == name then Some(ports[|ports| - 1])
    else PortNamed(ports[..|ports| - 1], name)
  }

  /** What is wrong with one trunk. */
  ghost function Judged(t: Trunk, ports: seq<Port>, rows: seq<VlanRow>): Option<TrunkFinding> {
    match PortNamed(ports, t.port)
    case None => Some(PortMissing(t.port))
    case Some(port) =>
      var absent := Expected(t) - TaggedVlans(rows, t.port);
      if absent != {} then Some(VlansMissing(t.port, absent))
      else if !DefaultPvid(port.pvid) && !TaggedOnly(port) then Some(OddPvid(t.port))
      else None
  }

  ghost function Complaints(trunks: seq<Trunk>, ports: seq<Port>, rows: seq<VlanRow>): seq<TrunkFinding> {
    if trunks == [] then []
    else
      var last := Judged(trunks[|trunks| - 1], ports, rows);
      Complaints(trunks[..|trunks| - 1], ports, rows) + if last.Some? then [last.value] else []
  }

  ghost function TrunkReport(trunks: seq<Trunk>, ports: seq<Port>, rows: seq<VlanRow>): seq<TrunkFinding> {
    if trunks == [] then [NoTrunkPolicy]
    else if Complaints(trunks, ports, rows) == [] then [TrunksMatch]
    else Complaints(trunks, ports, rows)
  }

  /** The mapping from names to ports, in which a later row overwrites. */
  method IndexPorts(ports: seq<Port>) returns (byName: map<string, Port>)
    ensures forall name: string ::
              PortNamed(ports, name) == if name in byName then Some(byName[name]) else None
  {
    byName := map[];
    for n := 0 to |ports|
      invariant forall name: string ::
                  PortNamed(ports[..n], name) == if name in byName then Some(byName[name]) else None
    {
      assert ports[..n + 1][..n] == ports[..n];
      byName := byName[ports[n].interface := ports[n]];
    }
    assert ports[..|ports|] == ports;
  }

  /** One row's VLANs are added to every expected port it tags. */
  method TagRow(before: map<string, set<Vlan>>, row: VlanRow, ids: set<Vlan>, tagged: set<string>)
      returns (after: map<string, set<Vlan>>)
    requires tagged == SplitCsv(row.tagged) && ids == VlanIds(row.vlanIds) && !SaysYes(row.disabled)
    ensures after.Keys == before.Keys
    ensures forall p | p in before :: after[p] == before[p] + if Tags(row, p) then ids else {}
  {
    after := before;
    var left := before.Keys;
    while left != {}
      invariant left <= before.Keys == after.Keys
      invariant forall p | p in left :: after[p] == before[p]
      invariant forall p | p in before.Keys - left :: after[p] == before[p] + if Tags(row, p) then ids else {}
      decreases |left|
    {
      var port :| port in left;
      left := left - {port};
      if port in tagged {
        after := after[port := after[port] + ids];
      }
    }
  }

  lemma TaggedStep(rows: seq<VlanRow>, n: nat, port: string)
    requires n < |rows|
    ensures TaggedVlans(rows[..n + 1], port)
         == TaggedVlans(rows[..n], port) + if Tags(rows[n], port) then VlanIds(rows[n].vlanIds) else {}
  {
    hide VlanIds, Tags;
    var a, b := rows[..n], rows[..n + 1];
    assert forall i | 0 <= i < n :: a[i] == b[i];
    assert b[n] == rows[n];
    forall v | v in TaggedVlans(b, port)
      ensures v in TaggedVlans(a, port) || (v in VlanIds(rows[n].vlanIds) && Tags(rows[n], port))
    {
      var i :| 0 <= i < |b| && v in VlanIds(b[i].vlanIds) && Tags(b[i], port);
      if i < n { assert v in VlanIds(a[i].vlanIds) && Tags(a[i], port); }
    }
    forall v | v in TaggedVlans(a, port) ensures v in TaggedVlans(b, port) {
      var i :| 0 <= i < |a| && v in VlanIds(a[i].vlanIds) && Tags(a[i], port);
      assert v in VlanIds(b[i].vlanIds) && Tags(b[i], port);
    }
  }

  /** The table of tagged VLANs, one entry an expected port. */
  method IndexTags(trunks: seq<Trunk>, rows: seq<VlanRow>) returns (taggedBy: map<string, set<Vlan>>)
    ensures taggedBy.Keys == set t | t in trunks :: t.port
    ensures forall p | p in taggedBy :: taggedBy[p] == TaggedVlans(rows, p)
  {
    hide VlanIds, SplitCsv, SaysYes, Tags;
    var names := set t | t in trunks :: t.port;
    taggedBy := map p | p in names :: {};
    NothingTagged(rows);
    for n := 0 to |rows|
      invariant taggedBy.Keys == names
      invariant forall p | p in names :: taggedBy[p] == TaggedVlans(rows[..n], p)
    {
      forall p | p in names ensures TaggedVlans(rows[..n + 1], p)
         == TaggedVlans(rows[..n], p) + if Tags(rows[n], p) then VlanIds(rows[n].vlanIds) else {}
      {
        TaggedStep(rows, n, p);
      }
      DisabledTagsNothing(rows[n]);
      if SaysYes(rows[n].disabled) {
        continue;
      }
      var ids := ParseVlanIds(rows[n].vlanIds);
      var tagged := SplitCsv(rows[n].tagged);
      taggedBy := TagRow(taggedBy, rows[n], ids, tagged);
    }
    assert rows[..|rows|] == rows;
  }

  lemma NothingTagged(rows: seq<VlanRow>)
    ensures forall p: string :: TaggedVlans(rows[..0], p) == {}
  {}

  lemma DisabledTagsNothing(row: VlanRow)
    ensures SaysYes(row.disabled) ==> forall p: string :: !Tags(row, p)
  {}

  /** `audit_trunk_vlan_sanity`. */
  method AuditTrunks(trunks: seq<Trunk>, ports: seq<Port>, rows: seq<VlanRow>) returns (r: seq<TrunkFinding>)
    ensures r == TrunkReport(trunks, ports, rows)
  {
    hide TaggedVlans, PortNamed, DefaultPvid, TaggedOnly;
    if trunks == [] {
      return [NoTrunkPolicy];
    }
    var byName := IndexPorts(ports);
    var taggedBy := IndexTags(trunks, rows);
    var findings: seq<TrunkFinding> := [];
    for n := 0 to |trunks|
      invariant findings == Complaints(trunks[..n], ports, rows)
    {
      var t := trunks[n];
      assert trunks[..n + 1][..n] == trunks[..n];
      assert t in trunks && t.port in taggedBy;
      assert PortNamed(ports, t.port) == if t.port in byName then Some(byName[t.port]) else None;
      if t.port !in byName {
        findings := findings + [PortMissing(t.port)];
        continue;
      }
      var port := byName[t.port];
      var absent := Expected(t) - taggedBy[t.port];
      if absent != {} {
        findings := findings + [VlansMissing(t.port, absent)];
      } else if !DefaultPvid(port.pvid) && !TaggedOnly(port) {
        findings := findings + [OddPvid(t.port)];
      }
    }
    assert trunks[..|trunks|] == trunks;
    r := if findings != [] then findings else [TrunksMatch];
  }

  /** The trunk is as policy wants it. */
  ghost predicate TrunkSound(t: Trunk, ports: seq<Port>, rows: seq<VlanRow>) {
    && PortNamed(ports, t.port).Some?
    && Expected(t) <= TaggedVlans(rows, t.port)
    && (DefaultPvid(PortNamed(ports, t.port).value.pvid) || TaggedOnly(PortNamed(ports, t.port).value))
  }

  lemma SoundIffUnjudged(t: Trunk, ports: seq<Port>, rows: seq<VlanRow>)
    ensures TrunkSound(t, ports, rows) <==> Judged(t, ports, rows).None?
  {
    NoDifference(Expected(t), TaggedVlans(rows, t.port));
  }

  /** The trunk does not exist or lacks a VLAN. */
  ghost predicate TrunkBroken(t: Trunk, ports: seq<Port>, rows: seq<VlanRow>) {
    PortNamed(ports, t.port).None? || !(Expected(t) <= TaggedVlans(rows, t.port))
  }

  lemma BrokenIffFailed(t: Trunk, ports: seq<Port>, rows: seq<VlanRow>)
    ensures TrunkBroken(t, ports, rows)
       <==> Judged(t, ports, rows).Some? && TrunkStatus(Judged(t, ports, rows).value) == Fail
    ensures Judged(t, ports, rows).Some? ==> TrunkStatus(Judged(t, ports, rows).value) in {Fail, Warn}
  {
    NoDifference(Expected(t), TaggedVlans(rows, t.port));
  }

  /** The complaints are what is wrong with the single trunks. */
  lemma {:induction false} ComplaintsFrom(trunks: seq<Trunk>, ports: seq<Port>, rows: seq<VlanRow>)
    ensures forall f :: f in Complaints(trunks, ports, rows)
                   <==> exists t :: t in trunks && Judged(t, ports, rows) == Some(f)
    decreases trunks
  {
    hide Judged;
    if trunks != [] {
      var front, last := trunks[..|trunks| - 1], trunks[|trunks| - 1];
      ComplaintsFrom(front, ports, rows);
      assert forall t :: t in trunks <==> t in front || t == last;
    }
  }

  /** With a policy, every finding is a pass exactly when every expected trunk
    * exists, carries its VLANs and meets the PVID clause; some finding is a
    * failure exactly when a trunk does not exist or lacks a VLAN.
    */
  lemma VerdictIff(trunks: seq<Trunk>, ports: seq<Port>, rows: seq<VlanRow>)
    requires trunks != []
    ensures (forall f | f in TrunkReport(trunks, ports, rows) :: TrunkStatus(f) == Pass)
       <==> forall t | t in trunks :: TrunkSound(t, ports, rows)
    ensures (exists f :: f in TrunkReport(trunks, ports, rows) && TrunkStatus(f) == Fail)
       <==> exists t :: t in trunks && TrunkBroken(t, ports, rows)
  {
    hide TrunkSound, TrunkBroken, Judged, Complaints;
    ComplaintsFrom(trunks, ports, rows);
    forall t: Trunk
      ensures TrunkSound(t, ports, rows) <==> Judged(t, ports, rows).None?
      ensures TrunkBroken(t, ports, rows)
         <==> Judged(t, ports, rows).Some? && TrunkStatus(Judged(t, ports, rows).value) == Fail
      ensures Judged(t, ports, rows).Some? ==> TrunkStatus(Judged(t, ports, rows).value) in {Fail, Warn}
    {
      SoundIffUnjudged(t, ports, rows);
      BrokenIffFailed(t, ports, rows);
    }
    var complaints := Complaints(trunks, ports, rows);
    assert complaints == [] || complaints[0] in complaints;
    forall t | t in trunks && Judged(t, ports, rows).Some? ensures Judged(t, ports, rows).value in complaints {}
  }

  /** The last row with a name is the one that counts. */
  lemma {:induction false} PortNamedLast(ports: seq<Port>, name: string)
    ensures match PortNamed(ports, name)
            case None => forall i | 0 <= i < |ports| :: ports[i].interface != name
            case Some(p) => exists i :: 0 <= i < |ports| && ports[i] == p && p.interface == name
                              && forall j | i < j < |ports| :: ports[j].interface != name
    decreases ports
  {
    if ports != [] && ports[|ports| - 1].interface != name {
      var front := ports[..|ports| - 1];
      PortNamedLast(front, name);
      assert forall i | 0 <= i < |front| :: ports[i] == front[i];
    }
  }

  /** More VLAN rows never cost a trunk its soundness. */
  lemma MoreRowsKeepSound(t: Trunk, ports: seq<Port>, a: seq<VlanRow>, extra: seq<VlanRow>, b: seq<VlanRow>)
    requires TrunkSound(t, ports, a + b)
    ensures TrunkSound(t, ports, a + extra + b)
  {
    hide VlanIds, Tags, PortNamed;
    var s, u := a + b, a + extra + b;
    forall v | v in TaggedVlans(s, t.port) ensures v in TaggedVlans(u, t.port) {
      var i :| 0 <= i < |s| && v in VlanIds(s[i].vlanIds) && Tags(s[i], t.port);
      var j := if i < |a| then i else i + |extra|;
      assert u[j] == s[i];
    }
  }

  /** So they never turn a pass into anything else. */
  lemma MoreRowsKeepPass(
      trunks: seq<Trunk>, ports: seq<Port>, a: seq<VlanRow>, extra: seq<VlanRow>, b: seq<VlanRow>)
    requires forall f | f in TrunkReport(trunks, ports, a + b) :: TrunkStatus(f) == Pass
    ensures forall f | f in TrunkReport(trunks, ports, a + extra + b) :: TrunkStatus(f) == Pass
  {
    hide TrunkSound, TrunkBroken, Complaints;
    if trunks == [] {
      assert NoTrunkPolicy in TrunkReport(trunks, ports, a + b);
    } else {
      VerdictIff(trunks, ports, a + b);
      VerdictIff(trunks, ports, a + extra + b);
      forall t | t in trunks ensures TrunkSound(t, ports, a + extra + b) {
        MoreRowsKeepSound(t, ports, a, extra, b);
      }
    }
  }
}
