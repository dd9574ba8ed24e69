/** The counts and rows the command line prints for a list of audit results. */
module Reports {
  import opened Prelude
  import opened Findings
  import opened Filtering

  /** A finding as a dictionary; a missing status reads as "unknown". */
  datatype Finding = Finding(status: Option<string>, severity: string, text: string)

  /** An audit result; a missing device reads as "unknown". */
  datatype AuditResult = AuditResult(device: Option<string>, audit: string, findings: seq<Finding>)

  /** The five known statuses, in the order of the report. */
  const STATUS_ORDER: seq<Status> := [Pass, Warn, Fail, Unknown, Skip]

  predicate Actionable(s: Status) { s in {Warn, Fail, Unknown} }

  function StatusText(f: Finding): string { if f.status.Some? then f.status.value else "unknown" }

  function DeviceText(r: AuditResult): string { if r.device.Some? then r.device.value else "unknown" }

  function ReadStatus(text: string): Option<Status> {
    if text == "pass" then Some(Pass)
    else if text == "warn" then Some(Warn)
    else if text == "fail" then Some(Fail)
    else if text == "unknown" then Some(Unknown)
    else if text == "skip" then Some(Skip)
    else None
  }

  /** A status outside the known five counts as unknown. */
  function Normal(f: Finding): Status {
    match ReadStatus(StatusText(f))
    case Some(s) => s
    case None => Unknown
  }

  /** `_finding_row`. */
  datatype Row = Row(audit: string, status: Status, severity: string, text: string)

  function FindingRow(r: AuditResult, f: Finding): Row { Row(r.audit, Normal(f), f.severity, f.text) }

  type Counts = map<Status, nat>

  function Zero(): Counts { map s | s in STATUS_ORDER :: 0 }

  datatype DeviceEntry = DeviceEntry(counts: Counts, findings: seq<Row>)

  // -------------------------------------------- the numbers, from the results

  function StatusCount(fs: seq<Finding>, s: Status): nat {
    if fs == [] then 0
    else StatusCount(fs[..|fs| - 1], s) + if Normal(fs[|fs| - 1]) == s then 1 else 0
  }

  /** Findings with the status in all results. */
  function Count(rs: seq<AuditResult>, s: Status): nat {
    if rs == [] then 0 else Count(rs[..|rs| - 1], s) + StatusCount(rs[|rs| - 1].findings, s)
  }

  function IsFor(device: string): AuditResult -> bool { (r: AuditResult) => DeviceText(r) == device }

  /** The results of one device, in order. */
  function Of(rs: seq<AuditResult>, device: string): seq<AuditResult> { Where(rs, IsFor(device)) }

  function FindingCount(rs: seq<AuditResult>): nat {
    if rs == [] then 0 else FindingCount(rs[..|rs| - 1]) + |rs[|rs| - 1].findings|
  }

  predicate Shown(f: Finding, includePass: bool) { includePass || Actionable(Normal(f)) }

  function RowsOf(r: AuditResult, fs: seq<Finding>, includePass: bool): seq<Row> {
    if fs == [] then []
    else
      RowsOf(r, fs[..|fs| - 1], includePass)
      + if Shown(fs[|fs| - 1], includePass) then [FindingRow(r, fs[|fs| - 1])] else []
  }

  /** The rows listed for a list of results. */
  function Rows(rs: seq<AuditResult>, includePass: bool): seq<Row> {
    if rs == [] then []
    else Rows(rs[..|rs| - 1], includePass) + RowsOf(rs[|rs| - 1], rs[|rs| - 1].findings, includePass)
  }

  ghost predicate Counted(c: Counts, rs: seq<AuditResult>) {
    c.Keys == (set s | s in STATUS_ORDER) && forall s | s in c :: c[s] == Count(rs, s)
  }

  /** The entry of a device summarises exactly its results. */
  ghost predicate Describes(e: DeviceEntry, rs: seq<AuditResult>, includePass: bool) {
    Counted(e.counts, rs) && e.findings == Rows(rs, includePass)
  }

  // ------------------------------------------------------------- the builders

  method CountFindings(before: Counts, rs: seq<AuditResult>, r: AuditResult) returns (after: Counts)
    requires Counted(before, rs)
    ensures Counted(after, rs + [r])
  {
    hide Count, StatusCount, ReadStatus;
    after := before;
    ghost var fs := r.findings;
    NoFindings(fs[..0]);
    for n := 0 to |r.findings|
      invariant after.Keys == before.Keys
      invariant forall s | s in after :: after[s] == before[s] + StatusCount(fs[..n], s)
    {
      forall s: Status { StatusCountStep(fs, n, s); }
      match ReadStatus(StatusText(r.findings[n])) {
        case Some(s) => after := after[s := after[s] + 1];
        case None => after := after[Unknown := after[Unknown] + 1];
      }
    }
    assert fs[..|fs|] == fs;
    forall s: Status { CountAppend(rs, r, s); }
  }

  lemma NoFindings(fs: seq<Finding>)
    requires fs == []
    ensures forall s: Status :: StatusCount(fs, s) == 0
  {}

  lemma StatusCountStep(fs: seq<Finding>, n: nat, s: Status)
    requires n < |fs|
    ensures StatusCount(fs[..n + 1], s) == StatusCount(fs[..n], s) + if Normal(fs[n]) == s then 1 else 0
  {
    assert fs[..n + 1][..n] == fs[..n];
  }

  lemma CountAppend(rs: seq<AuditResult>, r: AuditResult, s: Status)
    ensures Count(rs + [r], s) == Count(rs, s) + StatusCount(r.findings, s)
  {
    assert (rs + [r])[..|rs|] == rs;
  }

  /** `_summarize_audit_results`: one count over all results. */
  method Summarize(rs: seq<AuditResult>) returns (counts: Counts, statuses: seq<(Option<string>, string, seq<string>)>)
    ensures Counted(counts, rs)
    ensures |statuses| == |rs|
    ensures forall i | 0 <= i < |rs| :: statuses[i] == (rs[i].device, rs[i].audit, StatusTexts(rs[i].findings))
  {
    counts := Zero();
    statuses := [];
    for n := 0 to |rs|
      invariant Counted(counts, rs[..n])
      invariant |statuses| == n
      invariant forall i | 0 <= i < n :: statuses[i] == (rs[i].device, rs[i].audit, StatusTexts(rs[i].findings))
    {
      assert rs[..n + 1] == rs[..n] + [rs[n]];
      counts := CountFindings(counts, rs[..n], rs[n]);
      statuses := statuses + [(rs[n].device, rs[n].audit, StatusTexts(rs[n].findings))];
    }
    assert rs[..|rs|] == rs;
  }

  function StatusTexts(fs: seq<Finding>): seq<string> {
    seq(|fs|, i requires 0 <= i < |fs| => StatusText(fs[i]))
  }

  /** One result is added to the entry of its device. */
  method AddResult(before: DeviceEntry, rs: seq<AuditResult>, r: AuditResult, includePass: bool)
      returns (after: DeviceEntry)
    requires Describes(before, rs, includePass)
    ensures Describes(after, rs + [r], includePass)
  {
    hide Count, StatusCount, Normal, RowsOf, Rows;
    var counts, findings := before.counts, before.findings;
    ghost var fs := r.findings;
    NoFindings(fs[..0]);
    NoRows(r, fs[..0], includePass);
    for n := 0 to |r.findings|
      invariant counts.Keys == before.counts.Keys
      invariant forall s | s in counts :: counts[s] == before.counts[s] + StatusCount(fs[..n], s)
      invariant findings == before.findings + RowsOf(r, fs[..n], includePass)
    {
      forall s: Status { StatusCountStep(fs, n, s); }
      RowsOfStep(r, fs, n, includePass);
      var row := FindingRow(r, r.findings[n]);
      KnownStatus(row.status);
      counts := counts[row.status := counts[row.status] + 1];
      if includePass || Actionable(row.status) {
        findings := findings + [row];
      }
    }
    assert fs[..|fs|] == fs;
    forall s: Status { CountAppend(rs, r, s); }
    RowsAppend(rs, r, includePass);
    after := DeviceEntry(counts, findings);
  }

  lemma KnownStatus(s: Status)
    ensures s in STATUS_ORDER
  {}

  lemma NoRows(r: AuditResult, fs: seq<Finding>, includePass: bool)
    requires fs == []
    ensures RowsOf(r, fs, includePass) == []
  {}

  lemma RowsOfStep(r: AuditResult, fs: seq<Finding>, n: nat, includePass: bool)
    requires n < |fs|
    ensures RowsOf(r, fs[..n + 1], includePass)
         == RowsOf(r, fs[..n], includePass) + if Shown(fs[n], includePass) then [FindingRow(r, fs[n])] else []
  {
    assert fs[..n + 1][..n] == fs[..n];
  }

  lemma RowsAppend(rs: seq<AuditResult>, r: AuditResult, includePass: bool)
    ensures Rows(rs + [r], includePass) == Rows(rs, includePass) + RowsOf(r, r.findings, includePass)
  {
    assert (rs + [r])[..|rs|] == rs;
  }

  /** The devices a report has an entry for: those listed and those seen. */
  function DevicesIn(rs: seq<AuditResult>): set<string> {
    set i | 0 <= i < |rs| :: DeviceText(rs[i])
  }

  /** The entries of a report on rs: the listed devices, and those seen. */
  ghost predicate Entered(
      byDevice: map<string, DeviceEntry>, listed: set<string>, rs: seq<AuditResult>, includePass: bool) {
    && byDevice.Keys == listed + DevicesIn(rs)
    && forall d | d in byDevice :: Describes(byDevice[d], Of(rs, d), includePass)
  }

  /** `_baseline_report`: the summary and one entry a device. */
  method BaselineReport(rs: seq<AuditResult>, devices: seq<string>, includePass: bool)
      returns (counts: Counts, byDevice: map<string, DeviceEntry>)
    ensures Counted(counts, rs)
    ensures Entered(byDevice, (set d | d in devices), rs, includePass)
  {
    hide Entered, Counted, Of;
    var statuses;
    counts, statuses := Summarize(rs);
    var listed := set d | d in devices;
    byDevice := map d | d in listed :: DeviceEntry(Zero(), []);
    NothingEntered(byDevice, listed, rs[..0], includePass);
    for n := 0 to |rs|
      invariant Entered(byDevice, listed, rs[..n], includePass)
    {
      var device := DeviceText(rs[n]);
      EntryReady(byDevice, listed, rs[..n], device, includePass);
      var entry := if device in byDevice then byDevice[device] else DeviceEntry(Zero(), []);
      entry := AddResult(entry, Of(rs[..n], device), rs[n], includePass);
      EntrySet(byDevice, listed, rs, n, entry, includePass);
      byDevice := byDevice[device := entry];
    }
    assert rs[..|rs|] == rs;
  }

  lemma NothingEntered(byDevice: map<string, DeviceEntry>, listed: set<string>, rs: seq<AuditResult>, includePass: bool)
    requires rs == [] && byDevice == map d | d in listed :: DeviceEntry(Zero(), [])
    ensures Entered(byDevice, listed, rs, includePass)
  {}

  /** `setdefault`: an unseen device starts from an empty entry. */
  lemma EntryReady(
      byDevice: map<string, DeviceEntry>, listed: set<string>, rs: seq<AuditResult>, device: string, includePass: bool)
    requires Entered(byDevice, listed, rs, includePass)
    ensures Describes(if device in byDevice then byDevice[device] else DeviceEntry(Zero(), []), Of(rs, device), includePass)
  {
    if device !in byDevice { WhereNone(rs, IsFor(device)); }
  }

  lemma EntrySet(
      byDevice: map<string, DeviceEntry>, listed: set<string>, rs: seq<AuditResult>, n: nat,
      entry: DeviceEntry, includePass: bool)
    requires n < |rs| && Entered(byDevice, listed, rs[..n], includePass)
    requires Describes(entry, Of(rs[..n], DeviceText(rs[n])) + [rs[n]], includePass)
    ensures Entered(byDevice[DeviceText(rs[n]) := entry], listed, rs[..n + 1], includePass)
  {
    hide Describes, Of;
    var device := DeviceText(rs[n]);
    var after := byDevice[device := entry];
    DevicesStep(rs, n);
    forall d | d in after ensures Describes(after[d], Of(rs[..n + 1], d), includePass) {
      OfStep(rs, n, d);
      assert d != device ==> Of(rs[..n], d) + [] == Of(rs[..n], d);
    }
  }

  lemma OfStep(rs: seq<AuditResult>, n: nat, d: string)
    requires n < |rs|
    ensures Of(rs[..n + 1], d) == Of(rs[..n], d) + if DeviceText(rs[n]) == d then [rs[n]] else []
  {
    WhereStep(rs, n, IsFor(d));
  }

  lemma DevicesStep(rs: seq<AuditResult>, n: nat)
    requires n < |rs|
    ensures DevicesIn(rs[..n + 1]) == DevicesIn(rs[..n]) + {DeviceText(rs[n])}
  {
    var a, b := rs[..n], rs[..n + 1];
    assert forall i | 0 <= i < n :: a[i] == b[i];
    assert b[n] == rs[n];
    forall d | d in DevicesIn(b) ensures d in DevicesIn(a) + {DeviceText(rs[n])} {
      var i :| 0 <= i < |b| && DeviceText(b[i]) == d;
      if i < n { assert DeviceText(a[i]) == d; }
    }
    forall d | d in DevicesIn(a) ensures d in DevicesIn(b) {
      var i :| 0 <= i < |a| && DeviceText(a[i]) == d;
      assert DeviceText(b[i]) == d;
    }
  }

  // ------------------------------------------------------------- conservation

  /** The count of a status over a list of devices. */
  function CountOver(rs: seq<AuditResult>, devices: seq<string>, s: Status): nat {
    if devices == [] then 0 else Count(Of(rs, devices[0]), s) + CountOver(rs, devices[1..], s)
  }

  ghost predicate Lists(keys: seq<string>, s: set<string>) {
    && (forall k :: k in keys <==> k in s)
    && forall i, j | 0 <= i < j < |keys| :: keys[i] != keys[j]
  }

  lemma {:induction false} CountOverStep(rs: seq<AuditResult>, devices: seq<string>, s: Status)
    requires rs != []
    requires forall i, j | 0 <= i < j < |devices| :: devices[i] != devices[j]
    ensures CountOver(rs, devices, s)
         == CountOver(rs[..|rs| - 1], devices, s)
            + if DeviceText(rs[|rs| - 1]) in devices then StatusCount(rs[|rs| - 1].findings, s) else 0
    decreases |devices|
  {
    hide Count, Of, StatusCount;
    if devices != [] {
      var front, last := rs[..|rs| - 1], rs[|rs| - 1];
      CountOverStep(rs, devices[1..], s);
      assert devices == [devices[0]] + devices[1..];
      assert devices[0] !in devices[1..];
      OfStep(rs, |rs| - 1, devices[0]);
      assert rs[..|rs| - 1 + 1] == rs;
      if DeviceText(last) == devices[0] {
        CountAppend(Of(front, devices[0]), last, s);
      } else {
        assert Of(front, devices[0]) + [] == Of(front, devices[0]);
      }
    }
  }

  lemma {:induction false} CountOverNothing(devices: seq<string>, s: Status)
    ensures CountOver([], devices, s) == 0
    decreases |devices|
  {
    if devices != [] { CountOverNothing(devices[1..], s); }
  }

  /** Summed over all devices of a report, the per-device count of a status is
    * the count over all results.
    */
  lemma {:induction false} DevicesConserve(rs: seq<AuditResult>, devices: seq<string>, s: Status)
    requires forall i | 0 <= i < |rs| :: DeviceText(rs[i]) in devices
    requires forall i, j | 0 <= i < j < |devices| :: devices[i] != devices[j]
    ensures CountOver(rs, devices, s) == Count(rs, s)
    decreases |rs|
  {
    if rs == [] {
      CountOverNothing(devices, s);
    } else {
      CountOverStep(rs, devices, s);
      DevicesConserve(rs[..|rs| - 1], devices, s);
    }
  }

  function AllCounts(rs: seq<AuditResult>): nat {
    Count(rs, Pass) + Count(rs, Warn) + Count(rs, Fail) + Count(rs, Unknown) + Count(rs, Skip)
  }

  lemma {:induction false} StatusesCover(fs: seq<Finding>)
    ensures StatusCount(fs, Pass) + StatusCount(fs, Warn) + StatusCount(fs, Fail)
            + StatusCount(fs, Unknown) + StatusCount(fs, Skip) == |fs|
    decreases |fs|
  {
    if fs != [] {
      StatusesCover(fs[..|fs| - 1]);
      assert Normal(fs[|fs| - 1]) in STATUS_ORDER;
    }
  }

  /** Every finding is counted under exactly one of the five statuses. */
  lemma {:induction false} StatusesConserve(rs: seq<AuditResult>)
    ensures AllCounts(rs) == FindingCount(rs)
    decreases |rs|
  {
    if rs != [] {
      StatusesConserve(rs[..|rs| - 1]);
      StatusesCover(rs[|rs| - 1].findings);
    }
  }

  lemma {:induction false} RowsOfCount(r: AuditResult, fs: seq<Finding>, includePass: bool)
    ensures |RowsOf(r, fs, includePass)|
         == if includePass then |fs|
            else StatusCount(fs, Warn) + StatusCount(fs, Fail) + StatusCount(fs, Unknown)
    decreases |fs|
  {
    if fs != [] { RowsOfCount(r, fs[..|fs| - 1], includePass); }
  }

  /** A device lists its warn, fail and unknown findings, or all of them. */
  lemma {:induction false} RowsCount(rs: seq<AuditResult>, includePass: bool)
    ensures |Rows(rs, includePass)|
         == if includePass then FindingCount(rs) else Count(rs, Warn) + Count(rs, Fail) + Count(rs, Unknown)
    decreases |rs|
  {
    if rs != [] {
      RowsCount(rs[..|rs| - 1], includePass);
      RowsOfCount(rs[|rs| - 1], rs[|rs| - 1].findings, includePass);
    }
  }

  /** What a device lists, told from its own counts. */
  ghost predicate Balanced(e: DeviceEntry, includePass: bool) {
    && e.counts.Keys == (set s | s in STATUS_ORDER)
    && |e.findings| == e.counts[Warn] + e.counts[Fail] + e.counts[Unknown]
                       + if includePass then e.counts[Pass] + e.counts[Skip] else 0
  }

  lemma EntryBalanced(e: DeviceEntry, rs: seq<AuditResult>, includePass: bool)
    requires Describes(e, rs, includePass)
    ensures Balanced(e, includePass)
  {
    hide Count, Rows, FindingCount;
    RowsCount(rs, includePass);
    StatusesConserve(rs);
  }

  /** The summary and the entries, computed separately, agree: for every status
    * the entries add up to the summary, the five counts add up to the number of
    * findings, and each device lists as many findings as its counts say.
    */
  lemma ReportConserves(
      rs: seq<AuditResult>, includePass: bool, counts: Counts, byDevice: map<string, DeviceEntry>,
      listed: set<string>, keys: seq<string>)
    requires Counted(counts, rs) && Entered(byDevice, listed, rs, includePass) && Lists(keys, byDevice.Keys)
    ensures forall s | s in counts :: counts[s] == EntrySum(byDevice, keys, s)
    ensures counts[Pass] + counts[Warn] + counts[Fail] + counts[Unknown] + counts[Skip] == FindingCount(rs)
    ensures forall d | d in byDevice :: Balanced(byDevice[d], includePass)
  {
    hide Count, Of, Rows, FindingCount, Normal, Describes, Balanced;
    forall s | s in counts ensures counts[s] == EntrySum(byDevice, keys, s) {
      EntriesSum(rs, includePass, byDevice, keys, s);
      DevicesConserve(rs, keys, s);
    }
    StatusesConserve(rs);
    forall d | d in byDevice ensures Balanced(byDevice[d], includePass) {
      EntryBalanced(byDevice[d], Of(rs, d), includePass);
    }
  }

  function EntrySum(byDevice: map<string, DeviceEntry>, keys: seq<string>, s: Status): nat {
    if keys == [] then 0
    else
      (if keys[0] in byDevice && s in byDevice[keys[0]].counts then byDevice[keys[0]].counts[s] else 0)
      + EntrySum(byDevice, keys[1..], s)
  }

  lemma {:induction false} EntriesSum(
      rs: seq<AuditResult>, includePass: bool, byDevice: map<string, DeviceEntry>, keys: seq<string>, s: Status)
    requires s in STATUS_ORDER && forall k | k in keys :: k in byDevice
    requires forall d | d in byDevice :: Describes(byDevice[d], Of(rs, d), includePass)
    ensures EntrySum(byDevice, keys, s) == CountOver(rs, keys, s)
    decreases |keys|
  {
    hide Count, Of, Rows;
    if keys != [] {
      EntriesSum(rs, includePass, byDevice, keys[1..], s);
      assert keys[0] in keys;
    }
  }
}
