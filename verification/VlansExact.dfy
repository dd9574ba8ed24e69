/** What the VLAN audits read from their rows, without parsing. */
module VlansExact {
  import opened Prelude
  import opened PyText
  import opened PyTextExact
  import opened Findings
  import opened Vlans
  import opened Trunks

  // -------------------------------------------------------------- the parts

  /** p stands in t between commas or the ends of t, and holds no comma itself. */
  ghost predicate PartOf(t: string, p: string) {
    && ',' !in p
    && exists a: string, b: string :: Between(t, a, p, b)
  }

  predicate Between(t: string, a: string, p: string, b: string) {
    && t == a + p + b
    && (a == "" || a[|a| - 1] == ',')
    && (b == "" || b[0] == ',')
  }

  lemma LaterPart(t: string, a: string, p: string, b: string)
    requires t != "" && Between(t[1..], a, p, b) && (a != "" || t[0] == ',')
    ensures Between(t, [t[0]] + a, p, b)
  {
    assert t == [t[0]] + t[1..];
    assert [t[0]] + (a + p + b) == [t[0]] + a + p + b;
  }

  lemma FirstPart(t: string, p: string, b: string)
    requires t != "" && Between(t[1..], "", p, b)
    ensures Between(t, "", [t[0]] + p, b)
  {
    assert t == [t[0]] + t[1..];
    assert t[1..] == p + b;
  }

  /** The i-th part and what stands before and after it. */
  lemma {:induction false} PartAt(t: string, i: nat) returns (a: string, b: string)
    requires i < |Parts(t)|
    ensures Between(t, a, Parts(t)[i], b) && (a == "" <==> i == 0)
    decreases |t|
  {
    hide Parts;
    PartsStep(t);
    if t == "" {
      a, b := "", "";
    } else if t[0] == ',' && i == 0 {
      a, b := "", t;
    } else if t[0] == ',' {
      a, b := PartAt(t[1..], i - 1);
      LaterPart(t, a, Parts(t)[i], b);
      a := "," + a;
    } else {
      a, b := PartAt(t[1..], i);
      if i == 0 {
        FirstPart(t, Parts(t[1..])[0], b);
      } else {
        LaterPart(t, a, Parts(t)[i], b);
        a := [t[0]] + a;
      }
    }
  }

  lemma BetweenIsPart(t: string, a: string, p: string, b: string)
    requires ',' !in p && Between(t, a, p, b)
    ensures p in Parts(t)
  {
    hide Parts;
    var rest := p + b;
    PartsWhole(p);
    if b == "" {
      assert rest == p;
    } else {
      PartsConcat(p, b[1..]);
      assert p + "," + b[1..] == rest;
    }
    assert p in Parts(rest);
    if a == "" {
      assert t == rest;
    } else {
      PartsConcat(a[..|a| - 1], rest);
      assert a == a[..|a| - 1] + ",";
      assert a[..|a| - 1] + "," + rest == t;
    }
  }

  lemma PartsMembers(t: string, p: string)
    ensures p in Parts(t) <==> PartOf(t, p)
  {
    hide Parts;
    if p in Parts(t) {
      var i: nat :| i < |Parts(t)| && Parts(t)[i] == p;
      var a, b := PartAt(t, i);
      PartsExact(t);
    }
    if PartOf(t, p) {
      var a, b :| Between(t, a, p, b);
      BetweenIsPart(t, a, p, b);
    }
  }

  /** The field names q: as an item of its list, or as a part of its text, blanks at
    * the ends aside.
    */
  ghost predicate Mentions(v: ListField, q: string) {
    && q != ""
    && match v
       case Missing => false
       case Items(items) => exists p :: p in items && Bare(p, q)
       case Text(text) => exists p :: PartOf(text, p) && Bare(p, q)
  }

  lemma SplitExact(v: ListField, q: string)
    ensures q in SplitCsv(v) <==> Mentions(v, q)
  {
    hide Parts, PartOf, Strip, Bare;
    forall p: string ensures Strip(p) == q <==> Bare(p, q) { StripExact(p, q); }
    if v.Text? {
      forall p: string ensures p in Parts(v.text) <==> PartOf(v.text, p) { PartsMembers(v.text, p); }
    }
  }

  /** The field names the VLAN: some text it names reads as the number. */
  ghost predicate Numbers(v: ListField, n: int) {
    exists q :: Mentions(v, q) && ReadsAs(q, n)
  }

  lemma IdsExact(v: ListField, n: int)
    ensures Vlan(n) in VlanIds(v) <==> Numbers(v, n)
  {
    hide SplitCsv, Mentions, ParseInt, ReadsAs;
    forall q: string ensures q in SplitCsv(v) <==> Mentions(v, q) { SplitExact(v, q); }
    forall q: string ensures ParseInt(q) == Some(n) <==> ReadsAs(q, n) { IntExact(q, n); }
    if Numbers(v, n) {
      var q :| Mentions(v, q) && ReadsAs(q, n);
      assert Vlan(ParseInt(q).value) == Vlan(n);
    }
  }

  /** A list of written ids reads like the same ids joined by commas. */
  lemma ListRoundTrip(es: seq<Entry>)
    requires Spaced(es)
    ensures VlanIds(Items(seq(|es|, i requires 0 <= i < |es| => Written(es[i])))) == set i | 0 <= i < |es| :: Vlan(es[i].id)
  {
    hide ParseInt, Strip, Written;
    var items := seq(|es|, i requires 0 <= i < |es| => Written(es[i]));
    forall i | 0 <= i < |es| ensures Strip(Written(es[i])) != "" && ParseInt(Strip(Written(es[i]))) == Some(es[i].id) {
      WrittenReads(es[i]);
    }
    var ids := set i | 0 <= i < |es| :: Vlan(es[i].id);
    forall id | id in VlanIds(Items(items)) ensures id in ids {
      var q :| q in SplitCsv(Items(items)) && ParseInt(q).Some? && id == Vlan(ParseInt(q).value);
      var p :| p in items && Strip(p) == q;
      var i :| 0 <= i < |items| && items[i] == p;
      assert id == Vlan(es[i].id);
    }
    forall id | id in ids ensures id in VlanIds(Items(items)) {
      var i :| 0 <= i < |es| && id == Vlan(es[i].id);
      assert items[i] in items;
      assert Strip(items[i]) in SplitCsv(Items(items));
    }
  }

  lemma WrittenReads(e: Entry)
    requires Blanks(e.before) && Blanks(e.after)
    ensures Strip(Written(e)) == IntText(e.id) != "" && ParseInt(IntText(e.id)) == Some(e.id)
  {
    hide Strip, ParseInt, IntText;
    StripBlanks(e.before, IntText(e.id), e.after);
    IntRoundTrip(e.id);
  }

  // --------------------------------------------------------- VLAN consistency

  /** The row counts the VLAN: it names it and, unless policy names VLAN 1, is
    * neither dynamic nor about VLAN 1.
    */
  ghost predicate Configures(policy: seq<int>, row: VlanRow, n: int) {
    && Numbers(row.vlanIds, n)
    && (1 in policy || (n != 1 && Unset(row.dynamic)))
  }

  lemma ActualExact(policy: seq<int>, rows: seq<VlanRow>, n: int)
    ensures Vlan(n) in ActualVlans(PolicyVlans(policy), rows) <==> exists row :: row in rows && Configures(policy, row, n)
  {
    hide VlanIds, Numbers;
    forall row: VlanRow ensures Vlan(n) in VlanIds(row.vlanIds) && Counts(PolicyVlans(policy), row, Vlan(n)) <==> Configures(policy, row, n) {
      IdsExact(row.vlanIds, n);
      TruthExact(row.dynamic);
    }
    if row :| row in rows && Configures(policy, row, n) {
      var i :| 0 <= i < |rows| && rows[i] == row;
      assert Vlan(n) in VlanIds(rows[i].vlanIds);
    }
    if i :| 0 <= i < |rows| && Vlan(n) in VlanIds(rows[i].vlanIds) && Counts(PolicyVlans(policy), rows[i], Vlan(n)) {
      assert rows[i] in rows;
    }
  }

  /** The verdict, on the rows: fail if no row counts some VLAN of the policy, else
    * warn if a row counts one beyond it, else pass; unknown without a policy.
    */
  lemma VerdictExact(policy: seq<int>, rows: seq<VlanRow>)
    ensures ConsistencyStatus(Consistency(policy, rows)) ==
              if policy == [] then Unknown
              else if exists n :: n in policy && forall row :: row in rows ==> !Configures(policy, row, n) then Fail
              else if exists row, n :: row in rows && n !in policy && Configures(policy, row, n) then Warn
              else Pass
  {
    hide ActualVlans, Configures;
    forall n: int
      ensures Vlan(n) in ActualVlans(PolicyVlans(policy), rows) <==> exists row :: row in rows && Configures(policy, row, n)
    {
      ActualExact(policy, rows, n);
    }
    if policy != [] {
      VerdictTrichotomy(policy, rows);
      var actual := ActualVlans(PolicyVlans(policy), rows);
      assert (exists id: Vlan :: id in actual && id.id !in policy) <==> exists n: int :: n !in policy && Vlan(n) in actual by {
        assert forall id: Vlan :: id == Vlan(id.id);
      }
    }
  }

  /** What the finding shows: the ids of the policy, those counted, and the two
    * differences.
    */
  lemma ShownExact(policy: seq<int>, rows: seq<VlanRow>, n: int)
    requires Consistency(policy, rows).Inconsistent?
    ensures var f := Consistency(policy, rows);
            && (Vlan(n) in f.expected <==> n in policy)
            && (Vlan(n) in f.actual <==> exists row :: row in rows && Configures(policy, row, n))
            && (Vlan(n) in f.absent <==> n in policy && forall row :: row in rows ==> !Configures(policy, row, n))
            && (Vlan(n) in f.surplus <==> n !in policy && exists row :: row in rows && Configures(policy, row, n))
  {
    hide ActualVlans, Configures;
    ActualExact(policy, rows, n);
  }

  // ------------------------------------------------------------------ trunks

  /** The row carries the VLAN, tagged, on the port. */
  ghost predicate Carries(row: VlanRow, port: string, n: int) {
    !Yes(row.disabled) && Mentions(row.tagged, port) && Numbers(row.vlanIds, n)
  }

  lemma TaggedExact(rows: seq<VlanRow>, port: string, n: int)
    ensures Vlan(n) in TaggedVlans(rows, port) <==> exists row :: row in rows && Carries(row, port, n)
  {
    hide VlanIds, Numbers, Mentions, SplitCsv, SaysYes, Yes;
    forall row: VlanRow ensures Vlan(n) in VlanIds(row.vlanIds) && Tags(row, port) <==> Carries(row, port, n) {
      IdsExact(row.vlanIds, n);
      SplitExact(row.tagged, port);
      YesExact(row.disabled);
    }
    if row :| row in rows && Carries(row, port, n) {
      var i :| 0 <= i < |rows| && rows[i] == row;
      assert Vlan(n) in VlanIds(rows[i].vlanIds);
    }
    if i :| 0 <= i < |rows| && Vlan(n) in VlanIds(rows[i].vlanIds) && Tags(rows[i], port) {
      assert rows[i] in rows;
    }
  }

  /** p is the last port row with the name. */
  ghost predicate LastNamed(ports: seq<Port>, name: string, p: Port) {
    exists i :: 0 <= i < |ports| && ports[i] == p && p.interface == name
      && forall j | i < j < |ports| :: ports[j].interface != name
  }

  /** A port fit for a trunk: its PVID is absent or 1, or it admits tagged frames
    * only.
    */
  predicate Fit(p: Port) {
    p.pvid in {NoPvid, IntPvid(1), TextPvid("1")} || p.frameTypes == "admit-only-vlan-tagged"
  }

  /** The trunk as policy wants it, on the rows. */
  lemma TrunkExact(t: Trunk, ports: seq<Port>, rows: seq<VlanRow>)
    ensures TrunkSound(t, ports, rows)
       <==> && (exists p :: LastNamed(ports, t.port, p) && Fit(p))
            && forall n | n in t.vlans :: exists row :: row in rows && Carries(row, t.port, n)
    ensures TrunkBroken(t, ports, rows)
       <==> || (forall p | p in ports :: p.interface != t.port)
            || exists n :: n in t.vlans && forall row :: row in rows ==> !Carries(row, t.port, n)
  {
    hide PortNamed, TaggedVlans, Carries;
    PortNamedLast(ports, t.port);
    LastUnique(ports, t.port);
    forall n: int ensures Vlan(n) in TaggedVlans(rows, t.port) <==> exists row :: row in rows && Carries(row, t.port, n) {
      TaggedExact(rows, t.port, n);
    }
    assert Expected(t) <= TaggedVlans(rows, t.port) <==> forall n | n in t.vlans :: Vlan(n) in TaggedVlans(rows, t.port);
    match PortNamed(ports, t.port)
    case Some(p) =>
      assert LastNamed(ports, t.port, p);
      assert p in ports;
    case None =>
      forall p | p in ports ensures p.interface != t.port { var i :| 0 <= i < |ports| && ports[i] == p; }
  }

  lemma LastUnique(ports: seq<Port>, name: string)
    ensures forall p, q :: LastNamed(ports, name, p) && LastNamed(ports, name, q) ==> p == q
  {}

  /** What is said of a trunk: that its port is missing, which of its VLANs no row
    * carries, or else that its port is not fit.
    */
  lemma JudgedExact(t: Trunk, ports: seq<Port>, rows: seq<VlanRow>, f: TrunkFinding)
    requires Judged(t, ports, rows) == Some(f)
    ensures match f
            case PortMissing(port) => port == t.port && forall p | p in ports :: p.interface != t.port
            case VlansMissing(port, absent) =>
              && port == t.port && absent != {}
              && forall n: int :: Vlan(n) in absent <==> n in t.vlans && forall row :: row in rows ==> !Carries(row, t.port, n)
            case OddPvid(port) => port == t.port && forall p :: LastNamed(ports, t.port, p) ==> !Fit(p)
            case _ => false
  {
    hide PortNamed, TaggedVlans, Carries;
    PortNamedLast(ports, t.port);
    LastUnique(ports, t.port);
    forall n: int ensures Vlan(n) in TaggedVlans(rows, t.port) <==> exists row :: row in rows && Carries(row, t.port, n) {
      TaggedExact(rows, t.port, n);
    }
    if PortNamed(ports, t.port).Some? { assert LastNamed(ports, t.port, PortNamed(ports, t.port).value); }
    if PortNamed(ports, t.port).None? {
      forall p | p in ports ensures p.interface != t.port { var i :| 0 <= i < |ports| && ports[i] == p; }
    }
  }
}
