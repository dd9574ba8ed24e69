/** What the reports count and list, told on the texts of the findings. */
module ReportsExact {
  import opened Prelude
  import opened Findings
  import opened Filtering
  import opened Reports

  /** The status a finding states; without one it states "unknown". */
  function Said(f: Finding): string {
    match f.status
    case None => "unknown"
    case Some(t) => t
  }

  function NameOf(s: Status): string {
    match s
    case Pass => "pass"
    case Warn => "warn"
    case Fail => "fail"
    case Unknown => "unknown"
    case Skip => "skip"
  }

  /** All statuses stated, in order. */
  function SaidBy(fs: seq<Finding>): seq<string> {
    seq(|fs|, i requires 0 <= i < |fs| => Said(fs[i]))
  }

  function SaidByAll(rs: seq<AuditResult>): seq<string> {
    if rs == [] then [] else SaidByAll(rs[..|rs| - 1]) + SaidBy(rs[|rs| - 1].findings)
  }

  /** How often a text is among the statuses stated. */
  function Times(texts: seq<string>, t: string): nat { multiset(texts)[t] }

  /** The number the report must show for a status: findings that state it by
    * name, and under unknown all that state none of the other four.
    */
  function Due(texts: seq<string>, s: Status): int {
    if s == Unknown then
      |texts| - Times(texts, "pass") - Times(texts, "warn") - Times(texts, "fail") - Times(texts, "skip")
    else Times(texts, NameOf(s))
  }

  lemma NormalExact(f: Finding)
    ensures Normal(f) != Unknown ==> NameOf(Normal(f)) == Said(f)
    ensures Normal(f) == Unknown ==> Said(f) !in {"pass", "warn", "fail", "skip"}
  {}

  lemma DueStep(texts: seq<string>, t: string, s: Status)
    ensures Due(texts + [t], s) == Due(texts, s) +
              if s == Unknown then (if t in {"pass", "warn", "fail", "skip"} then 0 else 1)
              else if NameOf(s) == t then 1 else 0
  {
    assert forall u: string :: Times(texts + [t], u) == Times(texts, u) + if u == t then 1 else 0;
  }

  lemma {:induction false} FindingsDue(before: seq<string>, fs: seq<Finding>, s: Status)
    ensures Due(before + SaidBy(fs), s) == Due(before, s) + StatusCount(fs, s)
    decreases |fs|
  {
    hide Due, Normal;
    if fs == [] {
      assert before + SaidBy(fs) == before;
    } else {
      var front, last := fs[..|fs| - 1], fs[|fs| - 1];
      FindingsDue(before, front, s);
      assert SaidBy(fs) == SaidBy(front) + [Said(last)];
      assert before + SaidBy(fs) == (before + SaidBy(front)) + [Said(last)];
      DueStep(before + SaidBy(front), Said(last), s);
      NormalExact(last);
      NamesDiffer(s, Normal(last));
    }
  }

  lemma NamesDiffer(s: Status, t: Status)
    ensures s != t ==> NameOf(s) != NameOf(t)
    ensures s != Unknown ==> NameOf(s) in {"pass", "warn", "fail", "skip"}
  {}

  /** Every count of a report is the one due. */
  lemma {:induction false} CountExact(rs: seq<AuditResult>, s: Status)
    ensures Count(rs, s) == Due(SaidByAll(rs), s)
    decreases |rs|
  {
    hide StatusCount, Due, SaidBy;
    if rs == [] {
      NothingDue(s);
    } else {
      CountExact(rs[..|rs| - 1], s);
      FindingsDue(SaidByAll(rs[..|rs| - 1]), rs[|rs| - 1].findings, s);
    }
  }

  /** So is every count of the summary. */
  lemma SummaryExact(counts: Counts, rs: seq<AuditResult>, s: Status)
    requires Counted(counts, rs)
    ensures s in counts && counts[s] == Due(SaidByAll(rs), s)
  {
    hide Count, Due, SaidByAll;
    KnownStatus(s);
    CountExact(rs, s);
  }

  lemma NothingDue(s: Status)
    ensures Due([], s) == 0
  {}

  // ---------------------------------------------------------------- the rows

  /** All findings with their results, in order. */
  function Stated(r: AuditResult, fs: seq<Finding>): seq<(AuditResult, Finding)> {
    if fs == [] then [] else Stated(r, fs[..|fs| - 1]) + [(r, fs[|fs| - 1])]
  }

  function StatedIn(rs: seq<AuditResult>): seq<(AuditResult, Finding)> {
    if rs == [] then []
    else StatedIn(rs[..|rs| - 1]) + Stated(rs[|rs| - 1], rs[|rs| - 1].findings)
  }

  /** Listed without `include_pass` is what states neither "pass" nor "skip". */
  function IsListed(includePass: bool): ((AuditResult, Finding)) -> bool {
    (x: (AuditResult, Finding)) => includePass || Said(x.1) !in {"pass", "skip"}
  }

  /** The row shows the audit and the finding, and its status by name, "unknown" for
    * a status that has none.
    */
  predicate Shows(row: Row, x: (AuditResult, Finding)) {
    && row.audit == x.0.audit && row.severity == x.1.severity && row.text == x.1.text
    && NameOf(row.status) == if Said(x.1) in {"pass", "warn", "fail", "skip"} then Said(x.1) else "unknown"
  }

  ghost predicate ShowsAll(rows: seq<Row>, xs: seq<(AuditResult, Finding)>) {
    |rows| == |xs| && forall i | 0 <= i < |rows| :: Shows(rows[i], xs[i])
  }

  lemma RowExact(r: AuditResult, f: Finding, includePass: bool)
    ensures Shown(f, includePass) <==> IsListed(includePass)((r, f))
    ensures Shows(FindingRow(r, f), (r, f))
  {
    NormalExact(f);
  }

  lemma ShowsConcat(a: seq<Row>, xs: seq<(AuditResult, Finding)>, b: seq<Row>, ys: seq<(AuditResult, Finding)>)
    requires ShowsAll(a, xs) && ShowsAll(b, ys)
    ensures ShowsAll(a + b, xs + ys)
  {
    hide Shows;
  }

  lemma {:induction false} WhereConcat<T(!new)>(a: seq<T>, b: seq<T>, p: T -> bool)
    ensures Where(a + b, p) == Where(a, p) + Where(b, p)
    decreases |b|
  {
    if b == [] {
      assert a + b == a;
    } else {
      var front := b[..|b| - 1];
      WhereConcat(a, front, p);
      assert (a + b)[..|a + b| - 1] == a + front && (a + b)[|a + b| - 1] == b[|b| - 1];
    }
  }

  lemma {:induction false} RowsOfExact(r: AuditResult, fs: seq<Finding>, includePass: bool)
    ensures ShowsAll(RowsOf(r, fs, includePass), Where(Stated(r, fs), IsListed(includePass)))
    decreases |fs|
  {
    hide Shows, Shown, FindingRow, IsListed;
    if fs != [] {
      var front, last := fs[..|fs| - 1], fs[|fs| - 1];
      RowsOfExact(r, front, includePass);
      RowExact(r, last, includePass);
      WhereConcat(Stated(r, front), [(r, last)], IsListed(includePass));
      OneListed((r, last), includePass);
      ShowsConcat(RowsOf(r, front, includePass), Where(Stated(r, front), IsListed(includePass)),
                  if Shown(last, includePass) then [FindingRow(r, last)] else [],
                  if IsListed(includePass)((r, last)) then [(r, last)] else []);
    }
  }

  lemma OneListed(x: (AuditResult, Finding), includePass: bool)
    ensures Where([x], IsListed(includePass)) == if IsListed(includePass)(x) then [x] else []
  {
    hide IsListed;
    assert [x][..0] == [];
  }

  /** The rows of a report are exactly the findings to list, in order. */
  lemma {:induction false} RowsExact(rs: seq<AuditResult>, includePass: bool)
    ensures ShowsAll(Rows(rs, includePass), Where(StatedIn(rs), IsListed(includePass)))
    decreases |rs|
  {
    hide Shows, RowsOf, Stated, IsListed;
    if rs != [] {
      var front, last := rs[..|rs| - 1], rs[|rs| - 1];
      RowsExact(front, includePass);
      RowsOfExact(last, last.findings, includePass);
      WhereConcat(StatedIn(front), Stated(last, last.findings), IsListed(includePass));
      ShowsConcat(Rows(front, includePass), Where(StatedIn(front), IsListed(includePass)),
                  RowsOf(last, last.findings, includePass), Where(Stated(last, last.findings), IsListed(includePass)));
    }
  }

  /** A result belongs to the device it names, without one to "unknown". */
  lemma OfExact(rs: seq<AuditResult>, device: string, r: AuditResult)
    ensures r in Of(rs, device) <==> r in rs && (r.device == Some(device) || (r.device == None && device == "unknown"))
  {
    WhereMembers(rs, IsFor(device));
  }

  /** The whole report: for each entry of a device its own counts and rows. */
  lemma EntryExact(
      byDevice: map<string, DeviceEntry>, listed: set<string>, rs: seq<AuditResult>, includePass: bool, d: string)
    requires Entered(byDevice, listed, rs, includePass)
    ensures d in byDevice <==> d in listed || exists r :: r in rs && (r.device == Some(d) || (r.device == None && d == "unknown"))
    ensures d in byDevice ==>
              && (forall s: Status :: s in byDevice[d].counts && byDevice[d].counts[s] == Due(SaidByAll(Of(rs, d)), s))
              && ShowsAll(byDevice[d].findings, Where(StatedIn(Of(rs, d)), IsListed(includePass)))
  {
    hide Due, SaidByAll, Of, ShowsAll, Rows, Count;
    if d in byDevice {
      RowsExact(Of(rs, d), includePass);
      forall s: Status ensures s in byDevice[d].counts && byDevice[d].counts[s] == Due(SaidByAll(Of(rs, d)), s) {
        CountExact(Of(rs, d), s);
        KnownStatus(s);
      }
    }
    if i :| 0 <= i < |rs| && DeviceText(rs[i]) == d { assert rs[i] in rs; }
    if r :| r in rs && (r.device == Some(d) || (r.device == None && d == "unknown")) {
      var i :| 0 <= i < |rs| && rs[i] == r;
      assert DeviceText(rs[i]) == d;
    }
  }
}
