/** Running every requested audit on every requested device. */
module Execution {
  import opened Prelude
  import opened Labels

  const MAX_AUDIT_FANOUT := 128

  /** What an audit call does: it returns a result or raises an exception. */
  datatype Outcome = Returned(payload: string) | Raised(errorClass: Option<string>)

  datatype Entry =
    | Finished(audit: string, device: string, payload: string)
    | Failed(audit: string, device: string, shown: string)

  datatype Rejection = UnknownAudit | UnknownDevice | TooMany(fanout: nat)

  /** The outcome of the n-th audit call, made for an audit and a device; it may
    * depend on everything that happened before.
    */
  type Environment = (nat, string, string) -> Outcome

  /** `list(dict.fromkeys(xs))`. */
  function Distinct(xs: seq<string>): seq<string> {
    if xs == [] then []
    else
      var front := xs[..|xs| - 1];
      Distinct(front) + if xs[|xs| - 1] in front then [] else [xs[|xs| - 1]]
  }

  ghost predicate NoRepeats<T>(xs: seq<T>) {
    forall i, j | 0 <= i < j < |xs| :: xs[i] != xs[j]
  }

  /** De-duplication keeps every name once. */
  lemma {:induction false} DistinctNames(xs: seq<string>)
    ensures NoRepeats(Distinct(xs))
    ensures forall x :: x in Distinct(xs) <==> x in xs
    ensures |Distinct(xs)| <= |xs|
    decreases |xs|
  {
    if xs != [] {
      DistinctNames(xs[..|xs| - 1]);
      assert xs == xs[..|xs| - 1] + [xs[|xs| - 1]];
    }
  }

  /** First occurrences stay in order. */
  lemma {:induction false} DistinctOrder(xs: seq<string>, i: nat, j: nat) returns (a: nat, b: nat)
    requires i < j < |xs| && xs[i] !in xs[..i] && xs[j] !in xs[..j]
    ensures a < b < |Distinct(xs)| && Distinct(xs)[a] == xs[i] && Distinct(xs)[b] == xs[j]
    decreases |xs|
  {
    var front := xs[..|xs| - 1];
    if j < |front| {
      assert front[..i] == xs[..i] && front[..j] == xs[..j];
      a, b := DistinctOrder(front, i, j);
    } else {
      DistinctNames(front);
      assert front[i] in front && front == xs[..j];
      a :| a < |Distinct(front)| && Distinct(front)[a] == front[i];
      b := |Distinct(front)|;
    }
  }

  /** Pairs of device and audit, device by device. */
  function Row(device: string, audits: seq<string>): seq<(string, string)> {
    seq(|audits|, j requires 0 <= j < |audits| => (device, audits[j]))
  }

  function Pairs(devices: seq<string>, audits: seq<string>): seq<(string, string)> {
    if devices == [] then []
    else Pairs(devices[..|devices| - 1], audits) + Row(devices[|devices| - 1], audits)
  }

  lemma {:induction false} PairsLength(devices: seq<string>, audits: seq<string>)
    ensures |Pairs(devices, audits)| == |devices| * |audits|
    decreases |devices|
  {
    if devices != [] {
      PairsLength(devices[..|devices| - 1], audits);
      assert |devices| * |audits| == (|devices| - 1) * |audits| + |audits|;
    }
  }

  /** The pair of the i-th device and the j-th audit is at i*|audits|+j. */
  lemma {:induction false} PairAt(devices: seq<string>, audits: seq<string>, i: nat, j: nat)
    requires i < |devices| && j < |audits|
    ensures i * |audits| + j < |Pairs(devices, audits)|
    ensures Pairs(devices, audits)[i * |audits| + j] == (devices[i], audits[j])
    decreases |devices|
  {
    var front := devices[..|devices| - 1];
    PairsLength(devices, audits);
    PairsLength(front, audits);
    if i < |front| {
      PairAt(front, audits, i, j);
    } else {
      assert i * |audits| == |Pairs(front, audits)|;
    }
  }

  lemma {:induction false} PairsCover(devices: seq<string>, audits: seq<string>)
    ensures forall d, a :: (d, a) in Pairs(devices, audits) <==> d in devices && a in audits
    decreases |devices|
  {
    if devices != [] {
      var front, last := devices[..|devices| - 1], devices[|devices| - 1];
      PairsCover(front, audits);
      assert devices == front + [last];
      forall d, a ensures (d, a) in Row(last, audits) <==> d == last && a in audits {
        if a in audits {
          var j :| 0 <= j < |audits| && audits[j] == a;
          assert Row(last, audits)[j] == (last, a);
        }
      }
    }
  }

  /** Over distinct names no pair occurs twice. */
  lemma {:induction false} PairsDistinct(devices: seq<string>, audits: seq<string>)
    requires NoRepeats(devices) && NoRepeats(audits)
    ensures NoRepeats(Pairs(devices, audits))
    decreases |devices|
  {
    if devices != [] {
      var front, last := devices[..|devices| - 1], devices[|devices| - 1];
      PairsDistinct(front, audits);
      PairsCover(front, audits);
      var p, r := Pairs(front, audits), Row(last, audits);
      assert last !in front;
      forall i, j | 0 <= i < |p| && 0 <= j < |r| ensures p[i] != r[j] {
        assert p[i] in p && p[i] == (p[i].0, p[i].1);
      }
    }
  }

  function EntryOf(o: Outcome, device: string, audit: string): Entry {
    match o
    case Returned(payload) => Finished(audit, device, payload)
    case Raised(errorClass) => Failed(audit, device, SafeLabel(errorClass))
  }

  /** The entries for a list of calls, the first of which is the k-th. */
  function Entries(env: Environment, k: nat, pairs: seq<(string, string)>): seq<Entry> {
    seq(|pairs|, n requires 0 <= n < |pairs| => EntryOf(env(k + n, pairs[n].1, pairs[n].0), pairs[n].0, pairs[n].1))
  }

  lemma EntriesConcat(env: Environment, k: nat, a: seq<(string, string)>, b: seq<(string, string)>)
    ensures Entries(env, k, a + b) == Entries(env, k, a) + Entries(env, k + |a|, b)
  {
    var s, t := Entries(env, k, a + b), Entries(env, k, a) + Entries(env, k + |a|, b);
    assert |s| == |t|;
    forall n | 0 <= n < |s| ensures s[n] == t[n] {
      if n >= |a| { assert (a + b)[n] == b[n - |a|] && k + n == k + |a| + (n - |a|); }
    }
  }

  /** What a request asks for: nothing or an empty list means everything. */
  function Requested(names: Option<seq<string>>, all: seq<string>): seq<string> {
    Distinct(if names.Some? && names.value != [] then names.value else all)
  }

  /** Why a request is refused, checked in this order. */
  function Refusal(audits: seq<string>, devices: seq<string>, registry: seq<string>, inventory: seq<string>): Option<Rejection> {
    if exists a | a in audits :: a !in registry then Some(UnknownAudit)
    else if exists d | d in devices :: d !in inventory then Some(UnknownDevice)
    else if |audits| * |devices| > MAX_AUDIT_FANOUT then Some(TooMany(|audits| * |devices|))
    else None
  }

  class Server {
    const registry: seq<string>
    const inventory: seq<string>
    const env: Environment
    /** Every audit call made so far, device first. */
    var calls: seq<(string, string)>

    constructor (registry: seq<string>, inventory: seq<string>, env: Environment)
      ensures this.registry == registry && this.inventory == inventory && this.env == env && calls == []
    {
      this.registry, this.inventory, this.env, calls := registry, inventory, env, [];
    }

    /** `audit_fn(service, dev_id)`. */
    method CallAudit(audit: string, device: string) returns (o: Outcome)
      modifies this`calls
      ensures calls == old(calls) + [(device, audit)]
      ensures o == env(|old(calls)|, audit, device)
    {
      o := env(|calls|, audit, device);
      calls := calls + [(device, audit)];
    }

    /** The inner loop: all audits of one device, each guarded by itself. */
    method RunDevice(device: string, names: seq<string>) returns (results: seq<Entry>)
      modifies this`calls
      ensures calls == old(calls) + Row(device, names)
      ensures results == Entries(env, |old(calls)|, Row(device, names))
    {
      results := [];
      for j := 0 to |names|
        invariant calls == old(calls) + Row(device, names)[..j]
        invariant results == Entries(env, |old(calls)|, Row(device, names)[..j])
      {
        var o := CallAudit(names[j], device);
        match o {
          case Returned(payload) => results := results + [Finished(names[j], device, payload)];
          case Raised(errorClass) => results := results + [Failed(names[j], device, SafeLabel(errorClass))];
        }
      }
      assert Row(device, names)[..|names|] == Row(device, names);
    }

    /** A refused request calls nothing; an accepted one calls every pair of a
      * requested device and audit, and reports one entry for each.
      */
    method RunAudit(audits: Option<seq<string>>, devices: Option<seq<string>>)
        returns (r: Result<seq<Entry>, Rejection>)
      modifies this`calls
      ensures var names, targets := Requested(audits, registry), Requested(devices, inventory);
              var refusal := Refusal(names, targets, registry, inventory);
              && (refusal.Some? ==> r == Err(refusal.value) && calls == old(calls))
              && (refusal.None? ==>
                    && calls == old(calls) + Pairs(targets, names)
                    && r == Ok(Entries(env, |old(calls)|, Pairs(targets, names))))
    {
      var names, targets := Requested(audits, registry), Requested(devices, inventory);
      if exists a | a in names :: a !in registry {
        return Err(UnknownAudit);
      }
      if exists d | d in targets :: d !in inventory {
        return Err(UnknownDevice);
      }
      var fanout := |names| * |targets|;
      if fanout > MAX_AUDIT_FANOUT {
        return Err(TooMany(fanout));
      }
      var results := RunDevices(targets, names);
      r := Ok(results);
    }

    /** The inner loop of the command line: unguarded. */
    method TryDevice(device: string, names: seq<string>)
        returns (r: Result<seq<Entry>, Option<string>>, ghost stop: nat)
      modifies this`calls
      ensures old(calls) <= calls
      ensures var k, row := |old(calls)|, Row(device, names);
              && (r.Ok? ==> calls == old(calls) + row && r.value == Entries(env, k, row) && AllReturned(env, k, row))
              && (r.Err? ==> StoppedAt(env, k, row, calls[k..], r.error, stop))
    {
      hide Entries, AllReturned, StoppedAt;
      var results: seq<Entry> := [];
      stop := 0;
      ghost var k, row := |calls|, Row(device, names);
      NoEntries(env, k);
      for j := 0 to |names|
        invariant calls == old(calls) + row[..j]
        invariant results == Entries(env, k, row[..j])
        invariant AllReturned(env, k, row[..j])
      {
        var o := CallAudit(names[j], device);
        assert row[..j + 1] == row[..j] + [row[j]];
        match o {
          case Raised(errorClass) =>
            stop := j;
            StopHere(env, k, row, j, errorClass);
            assert calls[k..] == row[..j + 1];
            return Err(errorClass), stop;
          case Returned(payload) =>
            results := results + [Finished(names[j], device, payload)];
            ReturnedStep(env, k, row, j);
        }
      }
      assert row[..|names|] == row;
      r := Ok(results);
    }

    /** `_run_audits` of the command line: repeats are kept, and the first
      * exception ends the run.
      */
    method RunUntilFailure(targets: seq<string>, names: seq<string>)
        returns (r: Result<seq<Entry>, Option<string>>, ghost stop: nat)
      modifies this`calls
      ensures old(calls) <= calls
      ensures var k, pairs := |old(calls)|, Pairs(targets, names);
              && (r.Ok? ==> calls == old(calls) + pairs && r.value == Entries(env, k, pairs) && AllReturned(env, k, pairs))
              && (r.Err? ==> StoppedAt(env, k, pairs, calls[k..], r.error, stop))
    {
      hide Pairs, Row, Entries, AllReturned, StoppedAt;
      var results: seq<Entry> := [];
      stop := 0;
      ghost var k := |calls|;
      NoPairs(targets, names);
      NoEntries(env, k);
      for i := 0 to |targets|
        invariant calls == old(calls) + Pairs(targets[..i], names)
        invariant results == Entries(env, k, Pairs(targets[..i], names))
        invariant AllReturned(env, k, Pairs(targets[..i], names))
      {
        ghost var before, row := Pairs(targets[..i], names), Row(targets[i], names);
        PairsStep(targets, names, i);
        var part, m := TryDevice(targets[i], names);
        match part {
          case Err(e) =>
            stop := |before| + m;
            PairsPrefix(targets, names, i + 1);
            StoppedLater(env, k, before, row, Pairs(targets, names), calls[k + |before|..], e, m);
            assert calls[k..] == before + calls[k + |before|..];
            return Err(e), stop;
          case Ok(entries) =>
            EntriesConcat(env, k, before, row);
            ReturnedConcat(env, k, before, row);
            results := results + entries;
        }
      }
      assert targets[..|targets|] == targets;
      r := Ok(results);
    }

    /** The outer loop. */
    method RunDevices(targets: seq<string>, names: seq<string>) returns (results: seq<Entry>)
      modifies this`calls
      ensures calls == old(calls) + Pairs(targets, names)
      ensures results == Entries(env, |old(calls)|, Pairs(targets, names))
    {
      hide Entries, Row;
      results := [];
      ghost var k := |calls|;
      NoEntries(env, k);
      for i := 0 to |targets|
        invariant calls == old(calls) + Pairs(targets[..i], names)
        invariant results == Entries(env, k, Pairs(targets[..i], names))
      {
        assert targets[..i + 1][..i] == targets[..i];
        EntriesConcat(env, k, Pairs(targets[..i], names), Row(targets[i], names));
        var row := RunDevice(targets[i], names);
        results := results + row;
      }
      assert targets[..|targets|] == targets;
    }
  }

  /** The n-th of the calls, the first of which is the k-th ever made. */
  function CallOutcome(env: Environment, k: nat, pairs: seq<(string, string)>, n: nat): Outcome
    requires n < |pairs|
  {
    env(k + n, pairs[n].1, pairs[n].0)
  }

  ghost predicate AllReturned(env: Environment, k: nat, pairs: seq<(string, string)>) {
    forall n: nat | n < |pairs| :: CallOutcome(env, k, pairs, n).Returned?
  }

  /** Calls 0 to n were made; the n-th is the first to raise. */
  ghost predicate StoppedAt(
      env: Environment, k: nat, pairs: seq<(string, string)>, made: seq<(string, string)>,
      errorClass: Option<string>, n: nat) {
    && n < |pairs| && made == pairs[..n + 1] && CallOutcome(env, k, pairs, n) == Raised(errorClass)
    && forall m: nat | m < n :: CallOutcome(env, k, pairs, m).Returned?
  }

  lemma ReturnedConcat(env: Environment, k: nat, a: seq<(string, string)>, b: seq<(string, string)>)
    requires AllReturned(env, k, a) && AllReturned(env, k + |a|, b)
    ensures AllReturned(env, k, a + b)
  {
    forall n: nat | n < |a + b| ensures CallOutcome(env, k, a + b, n).Returned? {
      if n < |a| {
        assert CallOutcome(env, k, a, n).Returned?;
      } else {
        assert CallOutcome(env, k + |a|, b, n - |a|).Returned?;
      }
    }
  }

  /** One more call that returned. */
  lemma ReturnedStep(env: Environment, k: nat, pairs: seq<(string, string)>, n: nat)
    requires n < |pairs| && AllReturned(env, k, pairs[..n]) && CallOutcome(env, k, pairs, n).Returned?
    ensures AllReturned(env, k, pairs[..n + 1])
    ensures Entries(env, k, pairs[..n + 1])
         == Entries(env, k, pairs[..n])
            + [Finished(pairs[n].1, pairs[n].0, CallOutcome(env, k, pairs, n).payload)]
  {
    assert pairs[..n + 1] == pairs[..n] + [pairs[n]];
    ReturnedConcat(env, k, pairs[..n], [pairs[n]]);
    EntriesConcat(env, k, pairs[..n], [pairs[n]]);
  }

  lemma StopHere(env: Environment, k: nat, pairs: seq<(string, string)>, n: nat, errorClass: Option<string>)
    requires n < |pairs| && AllReturned(env, k, pairs[..n])
    requires CallOutcome(env, k, pairs, n) == Raised(errorClass)
    ensures StoppedAt(env, k, pairs, pairs[..n + 1], errorClass, n)
  {
    forall m: nat | m < n ensures CallOutcome(env, k, pairs, m).Returned? {
      assert CallOutcome(env, k, pairs[..n], m).Returned?;
    }
  }

  /** Stopping in b after all of a returned is stopping in a longer list. */
  lemma StoppedLater(
      env: Environment, k: nat, a: seq<(string, string)>, b: seq<(string, string)>, all: seq<(string, string)>,
      made: seq<(string, string)>, errorClass: Option<string>, n: nat)
    requires a + b <= all && AllReturned(env, k, a)
    requires StoppedAt(env, k + |a|, b, made, errorClass, n)
    ensures StoppedAt(env, k, all, a + made, errorClass, |a| + n)
  {
    assert forall i | 0 <= i < |a + b| :: all[i] == (a + b)[i];
    assert a + made == all[..|a| + n + 1];
    forall m: nat | m < |a| + n ensures CallOutcome(env, k, all, m).Returned? {
      if m < |a| {
        assert CallOutcome(env, k, a, m).Returned?;
      } else {
        assert CallOutcome(env, k + |a|, b, m - |a|).Returned?;
      }
    }
    assert CallOutcome(env, k + |a|, b, n) == CallOutcome(env, k, all, |a| + n);
  }

  lemma NoPairs(devices: seq<string>, audits: seq<string>)
    ensures Pairs(devices[..0], audits) == []
  {}

  lemma PairsStep(devices: seq<string>, audits: seq<string>, n: nat)
    requires n < |devices|
    ensures Pairs(devices[..n + 1], audits) == Pairs(devices[..n], audits) + Row(devices[n], audits)
  {
    assert devices[..n + 1][..n] == devices[..n];
  }

  lemma {:induction false} PairsPrefix(devices: seq<string>, audits: seq<string>, n: nat)
    requires n <= |devices|
    ensures Pairs(devices[..n], audits) <= Pairs(devices, audits)
    decreases |devices|
  {
    if n == |devices| {
      assert devices[..n] == devices;
    } else {
      assert devices[..|devices| - 1][..n] == devices[..n];
      PairsPrefix(devices[..|devices| - 1], audits, n);
    }
  }

  lemma NoEntries(env: Environment, k: nat)
    ensures Entries(env, k, []) == [] && AllReturned(env, k, [])
  {}

  lemma EntryOfCall(env: Environment, k: nat, pairs: seq<(string, string)>, n: nat)
    requires n < |pairs|
    ensures n < |Entries(env, k, pairs)|
    ensures Entries(env, k, pairs)[n] == EntryOf(env(k + n, pairs[n].1, pairs[n].0), pairs[n].0, pairs[n].1)
  {
    hide EntryOf;
  }

  /** The entry tells the outcome of the audit on the device: what it returned, or
    * the label of what it raised.
    */
  predicate Tells(e: Entry, o: Outcome, audit: string, device: string) {
    && e.audit == audit && e.device == device
    && match o
       case Returned(payload) => e.Finished? && e.payload == payload
       case Raised(errorClass) => e.Failed? && LabelFor(e.shown, errorClass)
  }

  lemma EntryTells(o: Outcome, audit: string, device: string)
    ensures Tells(EntryOf(o, device, audit), o, audit, device)
  {}

  /** The entry of the i-th device and j-th audit of an accepted request. */
  lemma EntryAt(env: Environment, k: nat, devices: seq<string>, audits: seq<string>, i: nat, j: nat)
    requires i < |devices| && j < |audits|
    ensures var n := i * |audits| + j;
            && n < |Entries(env, k, Pairs(devices, audits))|
            && Tells(Entries(env, k, Pairs(devices, audits))[n], env(k + n, audits[j], devices[i]), audits[j], devices[i])
  {
    hide Pairs, Entries, EntryOf, Tells;
    var n := i * |audits| + j;
    PairAt(devices, audits, i, j);
    EntryOfCall(env, k, Pairs(devices, audits), n);
    EntryTells(env(k + n, audits[j], devices[i]), audits[j], devices[i]);
  }

  /** Naming nothing, or an empty list, asks for everything there is; naming
    * something asks for exactly that.
    */
  lemma RequestedExact(names: Option<seq<string>>, all: seq<string>)
    ensures names == None || names == Some([]) ==> forall x :: x in Requested(names, all) <==> x in all
    ensures names == None || names == Some([]) ==> NoRepeats(all) ==> Requested(names, all) == all
    ensures names.Some? && names.value != [] ==> forall x :: x in Requested(names, all) <==> x in names.value
  {
    hide Distinct;
    DistinctNames(if names.Some? && names.value != [] then names.value else all);
    if NoRepeats(all) { DistinctSame(all); }
  }

  lemma {:induction false} DistinctSame(s: seq<string>)
    requires NoRepeats(s)
    ensures Distinct(s) == s
    decreases |s|
  {
    if s != [] {
      DistinctSame(s[..|s| - 1]);
      assert s == s[..|s| - 1] + [s[|s| - 1]];
    }
  }

  /** An accepted request runs each requested pair exactly once, at most 128 of
    * them, and every failure it reports carries a safe label.
    */
  lemma AcceptedRequest(
      env: Environment, k: nat, audits: Option<seq<string>>, devices: Option<seq<string>>,
      registry: seq<string>, inventory: seq<string>)
    requires Refusal(Requested(audits, registry), Requested(devices, inventory), registry, inventory).None?
    ensures var pairs := Pairs(Requested(devices, inventory), Requested(audits, registry));
            && |pairs| <= MAX_AUDIT_FANOUT && NoRepeats(pairs)
            && (forall d, a :: (d, a) in pairs <==>
                  && d in Requested(devices, inventory) && a in Requested(audits, registry))
            && forall e | e in Entries(env, k, pairs) :: e.Failed? ==> e.shown in SAFE_LABELS
  {
    hide Distinct, Pairs;
    var names, targets := Requested(audits, registry), Requested(devices, inventory);
    DistinctNames(if audits.Some? && audits.value != [] then audits.value else registry);
    DistinctNames(if devices.Some? && devices.value != [] then devices.value else inventory);
    PairsLength(targets, names);
    PairsDistinct(targets, names);
    PairsCover(targets, names);
  }

  /** A request is refused exactly if it names something unknown or asks for more
    * than 128 pairs; unknown audits are reported before unknown devices, and both
    * before the number.
    */
  lemma RefusedIff(audits: seq<string>, devices: seq<string>, registry: seq<string>, inventory: seq<string>)
    ensures var r := Refusal(audits, devices, registry, inventory);
            && (r.None? <==>
                  && (forall a | a in audits :: a in registry)
                  && (forall d | d in devices :: d in inventory)
                  && |Pairs(devices, audits)| <= 128)
            && (r == Some(UnknownAudit) <==> exists a :: a in audits && a !in registry)
            && (r == Some(UnknownDevice) <==>
                  && (forall a | a in audits :: a in registry)
                  && exists d :: d in devices && d !in inventory)
            && (r.Some? && r.value.TooMany? ==> r.value == TooMany(|Pairs(devices, audits)|))
  {
    hide Pairs;
    PairsLength(devices, audits);
  }
}
