/** The service boundary: which backend calls are allowed, and what a call over
  * many devices returns.
  */
module Fleet {
  import opened Prelude
  import opened Redaction
  import opened Values
  import opened StructuredRedaction
  import opened Labels
  import Execution

  datatype Device = Device(transport: string, allowed: bool)

  datatype Operation = Operation(readOnly: bool)

  /** One call that reached a backend. */
  datatype Invocation = Invocation(transport: string, device: string, operation: string)

  /** What the backend does with it. */
  datatype Outcome = Payload(value: Json) | Raised(errorClass: Option<string>)

  /** The exceptions `_call_backend` lets out. */
  datatype Fault =
    | Rejected                      // ValueError: device, operation or transport
    | NoSuchMethod                  // AttributeError from getattr
    | ServiceError(errorClass: string)

  function FaultClass(f: Fault): Option<string> {
    match f
    case ServiceError(c) => Some(c)
    case _ => None
  }

  /** The fixed part of a service; `env` gives the outcome of the n-th call. */
  datatype Config = Config(
    inventory: map<string, Device>,
    registry: map<string, Operation>,
    methods: map<string, set<string>>,      // operations each backend has, by transport
    override: string,                       // empty: none
    redactor: Redactor,
    env: (nat, Invocation) -> Outcome)

  function Transport(c: Config, d: Device): string {
    if c.override != "" then c.override else d.transport
  }

  /** `_validate_device`, the registry lookup and `_get_backend` all pass. */
  predicate Admitted(c: Config, device: string, operation: string) {
    && device in c.inventory && c.inventory[device].allowed
    && operation in c.registry && c.registry[operation].readOnly
    && Transport(c, c.inventory[device]) in c.methods
  }

  /** The call reaches the backend. */
  predicate Reaches(c: Config, device: string, operation: string) {
    Admitted(c, device, operation) && operation in c.methods[Transport(c, c.inventory[device])]
  }

  function InvocationOf(c: Config, device: string, operation: string): Invocation
    requires Reaches(c, device, operation)
  {
    Invocation(Transport(c, c.inventory[device]), device, operation)
  }

  /** What one call gives when n calls were made before. */
  function CallResult(c: Config, n: nat, device: string, operation: string): Result<Json, Fault> {
    if !Admitted(c, device, operation) then Err(Rejected)
    else if !Reaches(c, device, operation) then Err(NoSuchMethod)
    else
      match c.env(n, InvocationOf(c, device, operation))
      case Payload(v) => Ok(Redact(c.redactor, v))
      case Raised(errorClass) => Err(ServiceError(SafeLabel(errorClass)))
  }

  /** The calls that reach a backend when a list of devices is asked in turn. */
  function Reached(c: Config, devices: seq<string>, operation: string): seq<Invocation> {
    if devices == [] then []
    else
      var last := devices[|devices| - 1];
      Reached(c, devices[..|devices| - 1], operation)
      + if Reaches(c, last, operation) then [InvocationOf(c, last, operation)] else []
  }

  /** The result for the i-th device of the list. */
  function ResultAt(c: Config, n: nat, devices: seq<string>, operation: string, i: nat): Result<Json, Fault>
    requires i < |devices|
  {
    CallResult(c, n + |Reached(c, devices[..i], operation)|, devices[i], operation)
  }

  datatype FleetReport = FleetReport(
    results: map<string, Json>, errors: map<string, string>, total: nat, succeeded: nat, failed: nat)

  /** What a client may ask: one device, or a list of them (all if none is named). */
  datatype Request =
    | OneDevice(device: string, operation: string)
    | ManyDevices(requested: Option<seq<string>>, operation: string)

  datatype Reply = OneReply(result: Result<Json, Fault>) | ManyReply(report: FleetReport)

  function Targets(ids: seq<string>, requested: Option<seq<string>>): seq<string> {
    if requested.Some? && requested.value != [] then requested.value else ids
  }

  /** The devices a request asks. */
  function Asked(ids: seq<string>, q: Request): seq<string> {
    match q
    case OneDevice(d, _) => [d]
    case ManyDevices(requested, _) => Targets(ids, requested)
  }

  /** The calls that reach a backend over a sequence of requests. */
  function Served(c: Config, ids: seq<string>, requests: seq<Request>): seq<Invocation> {
    if requests == [] then []
    else
      var last := requests[|requests| - 1];
      Served(c, ids, requests[..|requests| - 1]) + Reached(c, Asked(ids, last), last.operation)
  }

  /** Position i holds the last call for d that succeeded, or failed. */
  ghost predicate LastOk(c: Config, n: nat, devices: seq<string>, operation: string, d: string, v: Json, i: nat) {
    && i < |devices| && devices[i] == d && ResultAt(c, n, devices, operation, i) == Ok(v)
    && forall j: nat | i < j < |devices| && devices[j] == d :: ResultAt(c, n, devices, operation, j).Err?
  }

  ghost predicate LastErr(c: Config, n: nat, devices: seq<string>, operation: string, d: string, shown: string, i: nat) {
    && i < |devices| && devices[i] == d && ResultAt(c, n, devices, operation, i).Err?
    && shown == SafeLabel(FaultClass(ResultAt(c, n, devices, operation, i).error))
    && forall j: nat | i < j < |devices| && devices[j] == d :: ResultAt(c, n, devices, operation, j).Ok?
  }

  /** v is the last successful result for d. */
  ghost predicate Answers(c: Config, n: nat, devices: seq<string>, operation: string, d: string, v: Json) {
    exists i: nat :: LastOk(c, n, devices, operation, d, v, i)
  }

  /** The label is that of the last failure for d. */
  ghost predicate Blames(c: Config, n: nat, devices: seq<string>, operation: string, d: string, shown: string) {
    exists i: nat :: LastErr(c, n, devices, operation, d, shown, i)
  }

  ghost function Named(devices: seq<string>): set<string> { set d | d in devices }

  /** The two dictionaries together hold exactly the devices asked; a value is
    * the last result for its device, an error the label of the last failure.
    */
  ghost predicate Accounts(
      c: Config, n: nat, devices: seq<string>, operation: string,
      results: map<string, Json>, errors: map<string, string>) {
    && results.Keys + errors.Keys == Named(devices)
    && (forall d | d in results :: Answers(c, n, devices, operation, d, results[d]))
    && (forall d | d in errors :: Blames(c, n, devices, operation, d, errors[d]))
  }

  /** The call is for an inventoried, allowed device, a registered read-only
    * operation, and the backend of the override or the configured transport.
    */
  ghost predicate Permitted(c: Config, i: Invocation) {
    && i.device in c.inventory && c.inventory[i.device].allowed
    && i.operation in c.registry && c.registry[i.operation].readOnly
    && i.transport == (if c.override != "" then c.override else c.inventory[i.device].transport)
    && i.transport in c.methods && i.operation in c.methods[i.transport]
  }

  /** Shown to a client: nothing but redacted payloads and safe labels. */
  ghost predicate SafeReply(c: Config, r: Reply) {
    match r
    case OneReply(Ok(v)) => Cleared(c, v)
    case OneReply(Err(f)) => f.ServiceError? ==> f.errorClass in SAFE_LABELS
    case ManyReply(report) =>
      && (forall d | d in report.results :: Cleared(c, report.results[d]))
      && (forall d | d in report.errors :: report.errors[d] in SAFE_LABELS)
  }

  /** v is a redacted payload: it has the payload's shape, secret keys hold the
    * mask, and no other string holds a key, a quoted community or a certificate
    * header.
    */
  ghost predicate Cleared(c: Config, v: Json) {
    && (exists raw :: Mirrors(c.redactor, raw, v) && v == Redact(c.redactor, raw))
    && (Standard(c.redactor) ==> Visible(s => NoResidueIn(s), v))
  }

  class Service {
    const config: Config
    /** Inventory order of the device ids. */
    const ids: seq<string>
    /** Every call that reached a backend so far. */
    var trace: seq<Invocation>

    /** Nothing but permitted calls ever reached a backend. */
    ghost predicate Valid()
      reads this
    {
      forall i | i in trace :: Permitted(config, i)
    }

    constructor (config: Config, ids: seq<string>)
      ensures Valid()
      ensures this.config == config && this.ids == ids && trace == []
    {
      this.config, this.ids, trace := config, ids, [];
    }

    /** `_call_backend`. */
    method CallBackend(device: string, operation: string) returns (r: Result<Json, Fault>)
      requires Valid()
      modifies this`trace
      ensures Valid()
      ensures r == CallResult(config, |old(trace)|, device, operation)
      ensures trace == old(trace) +
                if Reaches(config, device, operation) then [InvocationOf(config, device, operation)] else []
    {
      hide Redact;
      if device !in config.inventory {
        return Err(Rejected);
      }
      var entry := config.inventory[device];
      if !entry.allowed {
        return Err(Rejected);
      }
      if operation !in config.registry || !config.registry[operation].readOnly {
        return Err(Rejected);
      }
      var transport := if config.override != "" then config.override else entry.transport;
      if transport !in config.methods {
        return Err(Rejected);
      }
      if operation !in config.methods[transport] {
        return Err(NoSuchMethod);
      }
      var call := Invocation(transport, device, operation);
      var outcome := config.env(|trace|, call);
      trace := trace + [call];
      match outcome {
        case Payload(v) => r := Ok(Redact(config.redactor, v));
        case Raised(errorClass) => r := Err(ServiceError(SafeLabel(errorClass)));
      }
    }

    /** `fleet_call`: one failing device does not stop the others. */
    method FleetCall(operation: string, requested: Option<seq<string>>) returns (r: FleetReport)
      requires Valid()
      modifies this`trace
      ensures Valid()
      ensures var devices := Targets(ids, requested);
              && trace == old(trace) + Reached(config, devices, operation)
              && Accounts(config, |old(trace)|, devices, operation, r.results, r.errors)
              && r.total == |devices| && r.succeeded == |r.results| && r.failed == |r.errors|
              && r.succeeded + r.failed <= r.total
              && (Execution.NoRepeats(devices) ==> r.succeeded + r.failed == r.total)
    {
      hide Accounts, CallResult, Reaches, Reached, Execution.NoRepeats, SafeLabel;
      var devices := Targets(ids, requested);
      var results: map<string, Json>, errors: map<string, string> := map[], map[];
      ghost var n := |trace|;
      NothingAsked(config, n, devices[..0], operation);
      for k := 0 to |devices|
        invariant Valid()
        invariant trace == old(trace) + Reached(config, devices[..k], operation)
        invariant Accounts(config, n, devices[..k], operation, results, errors)
        invariant |results| + |errors| <= k
        invariant Execution.NoRepeats(devices) ==> |results| + |errors| == k
      {
        ReachedStep(config, devices, k, operation);
        var outcome := CallBackend(devices[k], operation);
        if Execution.NoRepeats(devices) {
          NotAskedYet(config, n, devices, k, operation, results, errors);
        }
        match outcome {
          case Ok(v) =>
            MapSize(results, devices[k], v);
            OkRecorded(config, n, devices, k, operation, results, errors, v);
            results := results[devices[k] := v];
          case Err(f) =>
            MapSize(errors, devices[k], SafeLabel(FaultClass(f)));
            ErrRecorded(config, n, devices, k, operation, results, errors, f);
            errors := errors[devices[k] := SafeLabel(FaultClass(f))];
        }
      }
      assert devices[..|devices|] == devices;
      r := FleetReport(results, errors, |devices|, |results|, |errors|);
    }

    /** Any sequence of requests on one service. */
    method Serve(requests: seq<Request>) returns (replies: seq<Reply>)
      requires Valid()
      modifies this`trace
      ensures Valid()
      ensures trace == old(trace) + Served(config, ids, requests)
      ensures |replies| == |requests| && forall i | 0 <= i < |replies| :: SafeReply(config, replies[i])
    {
      hide CallResult, Reaches, Reached, Accounts, SafeReply, Permitted, Execution.NoRepeats;
      replies := [];
      for n := 0 to |requests|
        invariant Valid()
        invariant trace == old(trace) + Served(config, ids, requests[..n])
        invariant |replies| == n && forall i | 0 <= i < |replies| :: SafeReply(config, replies[i])
      {
        ghost var k := |trace|;
        assert requests[..n + 1][..n] == requests[..n];
        match requests[n] {
          case OneDevice(device, operation) =>
            var result := CallBackend(device, operation);
            OneReached(config, device, operation);
            ResultSafe(config, k, device, operation);
            replies := replies + [OneReply(result)];
          case ManyDevices(requested, operation) =>
            var report := FleetCall(operation, requested);
            ReportSafe(config, k, Targets(ids, requested), operation, report);
            replies := replies + [ManyReply(report)];
        }
      }
      assert requests[..|requests|] == requests;
    }
  }

  lemma OneReached(c: Config, device: string, operation: string)
    ensures Reached(c, [device], operation) == if Reaches(c, device, operation) then [InvocationOf(c, device, operation)] else []
  {
    assert [device][..0] == [];
  }

  lemma NothingAsked(c: Config, n: nat, devices: seq<string>, operation: string)
    requires devices == []
    ensures Accounts(c, n, devices, operation, map[], map[])
    ensures Reached(c, devices, operation) == []
  {}

  lemma ReachedStep(c: Config, devices: seq<string>, k: nat, operation: string)
    requires k < |devices|
    ensures Reached(c, devices[..k + 1], operation) == Reached(c, devices[..k], operation) +
              if Reaches(c, devices[k], operation) then [InvocationOf(c, devices[k], operation)] else []
  {
    assert devices[..k + 1][..k] == devices[..k];
  }

  lemma SameResult(c: Config, n: nat, devices: seq<string>, k: nat, operation: string, i: nat)
    requires i < k < |devices|
    ensures ResultAt(c, n, devices[..k + 1], operation, i) == ResultAt(c, n, devices[..k], operation, i)
  {
    assert devices[..k + 1][..i] == devices[..k][..i];
  }

  lemma NewResult(c: Config, n: nat, devices: seq<string>, k: nat, operation: string)
    requires k < |devices|
    ensures ResultAt(c, n, devices[..k + 1], operation, k)
         == CallResult(c, n + |Reached(c, devices[..k], operation)|, devices[k], operation)
  {
    assert devices[..k + 1][..k] == devices[..k];
  }

  lemma LastOkStays(c: Config, n: nat, devices: seq<string>, k: nat, operation: string, d: string, v: Json)
    requires k < |devices| && Answers(c, n, devices[..k], operation, d, v)
    requires devices[k] == d ==> ResultAt(c, n, devices[..k + 1], operation, k).Err?
    ensures Answers(c, n, devices[..k + 1], operation, d, v)
  {
    hide ResultAt;
    var i: nat :| LastOk(c, n, devices[..k], operation, d, v, i);
    forall j: nat | j < k
      ensures ResultAt(c, n, devices[..k + 1], operation, j) == ResultAt(c, n, devices[..k], operation, j)
    {
      SameResult(c, n, devices, k, operation, j);
    }
    assert LastOk(c, n, devices[..k + 1], operation, d, v, i);
  }

  lemma LastErrStays(c: Config, n: nat, devices: seq<string>, k: nat, operation: string, d: string, shown: string)
    requires k < |devices| && Blames(c, n, devices[..k], operation, d, shown)
    requires devices[k] == d ==> ResultAt(c, n, devices[..k + 1], operation, k).Ok?
    ensures Blames(c, n, devices[..k + 1], operation, d, shown)
  {
    hide ResultAt;
    var i: nat :| LastErr(c, n, devices[..k], operation, d, shown, i);
    forall j: nat | j < k
      ensures ResultAt(c, n, devices[..k + 1], operation, j) == ResultAt(c, n, devices[..k], operation, j)
    {
      SameResult(c, n, devices, k, operation, j);
    }
    assert LastErr(c, n, devices[..k + 1], operation, d, shown, i);
  }

  lemma NewKey(devices: seq<string>, k: nat)
    requires k < |devices|
    ensures Named(devices[..k + 1]) == Named(devices[..k]) + {devices[k]}
    ensures Execution.NoRepeats(devices) ==> devices[k] !in devices[..k]
  {
    assert devices[..k + 1] == devices[..k] + [devices[k]];
  }

  lemma MapSize<V(!new)>(m: map<string, V>, k: string, v: V)
    ensures |m[k := v]| == |m| + if k in m then 0 else 1
  {
    assert m[k := v].Keys == m.Keys + {k};
    assert |m.Keys| == |m| && |m[k := v].Keys| == |m[k := v]|;
    if k in m { assert m[k := v].Keys == m.Keys; }
  }

  lemma KeyAdded(a: set<string>, b: set<string>, named: set<string>, d: string)
    requires a + b == named
    ensures (a + {d}) + b == named + {d} == a + (b + {d})
  {}

  /** Recording the k-th answer keeps the account right. */
  lemma OkRecorded(c: Config, n: nat, devices: seq<string>, k: nat, operation: string,
                   results: map<string, Json>, errors: map<string, string>, v: Json)
    requires k < |devices| && Accounts(c, n, devices[..k], operation, results, errors)
    requires CallResult(c, n + |Reached(c, devices[..k], operation)|, devices[k], operation) == Ok(v)
    ensures Accounts(c, n, devices[..k + 1], operation, results[devices[k] := v], errors)
  {
    hide ResultAt, CallResult, Reached, Answers, Blames, Named;
    NewResult(c, n, devices, k, operation);
    NewKey(devices, k);
    KeyAdded(results.Keys, errors.Keys, Named(devices[..k]), devices[k]);
    var after := results[devices[k] := v];
    assert after.Keys == results.Keys + {devices[k]};
    forall d | d in after ensures Answers(c, n, devices[..k + 1], operation, d, after[d]) {
      if d == devices[k] {
        LastOkNow(c, n, devices, k, operation, v);
      } else {
        LastOkStays(c, n, devices, k, operation, d, results[d]);
      }
    }
    forall d | d in errors ensures Blames(c, n, devices[..k + 1], operation, d, errors[d]) {
      LastErrStays(c, n, devices, k, operation, d, errors[d]);
    }
  }

  lemma LastOkNow(c: Config, n: nat, devices: seq<string>, k: nat, operation: string, v: Json)
    requires k < |devices| && ResultAt(c, n, devices[..k + 1], operation, k) == Ok(v)
    ensures Answers(c, n, devices[..k + 1], operation, devices[k], v)
  {
    hide ResultAt;
    assert LastOk(c, n, devices[..k + 1], operation, devices[k], v, k);
  }

  lemma LastErrNow(c: Config, n: nat, devices: seq<string>, k: nat, operation: string, f: Fault)
    requires k < |devices| && ResultAt(c, n, devices[..k + 1], operation, k) == Err(f)
    ensures Blames(c, n, devices[..k + 1], operation, devices[k], SafeLabel(FaultClass(f)))
  {
    hide ResultAt, SafeLabel;
    assert LastErr(c, n, devices[..k + 1], operation, devices[k], SafeLabel(FaultClass(f)), k);
  }

  lemma ErrRecorded(c: Config, n: nat, devices: seq<string>, k: nat, operation: string,
                    results: map<string, Json>, errors: map<string, string>, f: Fault)
    requires k < |devices| && Accounts(c, n, devices[..k], operation, results, errors)
    requires CallResult(c, n + |Reached(c, devices[..k], operation)|, devices[k], operation) == Err(f)
    ensures Accounts(c, n, devices[..k + 1], operation, results, errors[devices[k] := SafeLabel(FaultClass(f))])
  {
    hide ResultAt, CallResult, Reached, Answers, Blames, Named, SafeLabel;
    NewResult(c, n, devices, k, operation);
    NewKey(devices, k);
    KeyAdded(results.Keys, errors.Keys, Named(devices[..k]), devices[k]);
    var after := errors[devices[k] := SafeLabel(FaultClass(f))];
    assert after.Keys == errors.Keys + {devices[k]};
    forall d | d in after ensures Blames(c, n, devices[..k + 1], operation, d, after[d]) {
      if d == devices[k] {
        LastErrNow(c, n, devices, k, operation, f);
      } else {
        LastErrStays(c, n, devices, k, operation, d, errors[d]);
      }
    }
    forall d | d in results ensures Answers(c, n, devices[..k + 1], operation, d, results[d]) {
      LastOkStays(c, n, devices, k, operation, d, results[d]);
    }
  }

  /** A device that was not asked before has neither a result nor an error. */
  lemma NotAskedYet(c: Config, n: nat, devices: seq<string>, k: nat, operation: string,
                    results: map<string, Json>, errors: map<string, string>)
    requires k < |devices| && Accounts(c, n, devices[..k], operation, results, errors)
    requires Execution.NoRepeats(devices)
    ensures devices[k] !in results && devices[k] !in errors
  {
    hide Answers, Blames;
    NewKey(devices, k);
    assert devices[k] !in results.Keys + errors.Keys;
  }

  // ------------------------------------------------------------------- gating

  /** A request asks for the call. */
  ghost predicate Asks(ids: seq<string>, q: Request, i: Invocation) {
    i.device in Asked(ids, q) && i.operation == q.operation
  }

  lemma {:induction false} ReachedIff(c: Config, devices: seq<string>, operation: string, i: Invocation)
    ensures i in Reached(c, devices, operation)
       <==> Permitted(c, i) && i.device in devices && i.operation == operation
    decreases |devices|
  {
    if devices != [] {
      ReachedIff(c, devices[..|devices| - 1], operation, i);
      assert devices == devices[..|devices| - 1] + [devices[|devices| - 1]];
    }
  }

  /** Over any sequence of requests, the calls that reach a backend are exactly
    * the permitted ones among those asked for: the gates let nothing else pass
    * and hold nothing back.
    */
  lemma {:induction false} ServedIff(c: Config, ids: seq<string>, requests: seq<Request>, i: Invocation)
    ensures i in Served(c, ids, requests)
       <==> Permitted(c, i) && exists q :: q in requests && Asks(ids, q, i)
    decreases |requests|
  {
    hide Permitted, Reached;
    if requests != [] {
      var front, last := requests[..|requests| - 1], requests[|requests| - 1];
      ServedIff(c, ids, front, i);
      ReachedIff(c, Asked(ids, last), last.operation, i);
      assert Asks(ids, last, i) <==> i.device in Asked(ids, last) && i.operation == last.operation;
      assert requests == front + [last] && last in requests;
    }
  }

  lemma RedactedCleared(c: Config, raw: Json)
    ensures Cleared(c, Redact(c.redactor, raw))
  {
    hide Redact, Mirrors, Visible, Standard;
    RedactMirrors(c.redactor, raw);
    if Standard(c.redactor) { NoResidueAnywhere(c.redactor, raw); }
  }

  lemma ResultSafe(c: Config, n: nat, device: string, operation: string)
    ensures SafeReply(c, OneReply(CallResult(c, n, device, operation)))
  {
    hide Cleared, Admitted, Redact;
    if Reaches(c, device, operation) {
      match c.env(n, InvocationOf(c, device, operation))
      case Payload(v) => RedactedCleared(c, v);
      case Raised(_) =>
    }
  }

  lemma AnswerSafe(c: Config, n: nat, devices: seq<string>, operation: string, d: string, v: Json)
    requires Answers(c, n, devices, operation, d, v)
    ensures Cleared(c, v) && Reaches(c, d, operation)
  {
    hide Cleared, Reaches, CallResult, Reached;
    var i: nat :| LastOk(c, n, devices, operation, d, v, i);
    var k := n + |Reached(c, devices[..i], operation)|;
    ResultSafe(c, k, d, operation);
    OkReaches(c, k, d, operation);
  }

  lemma BlameSafe(c: Config, n: nat, devices: seq<string>, operation: string, d: string, shown: string)
    requires Blames(c, n, devices, operation, d, shown)
    ensures shown in SAFE_LABELS
  {
    hide ResultAt;
    var i: nat :| LastErr(c, n, devices, operation, d, shown, i);
  }

  /** In a fleet report every error is a safe label, and every value a redacted
    * payload of which no visible string holds a key, a quoted community or a
    * certificate header.
    */
  lemma ReportSafe(c: Config, n: nat, devices: seq<string>, operation: string, report: FleetReport)
    requires Accounts(c, n, devices, operation, report.results, report.errors)
    ensures SafeReply(c, ManyReply(report))
    ensures forall d | d in report.results :: Reaches(c, d, operation)
  {
    hide Cleared, Reaches, Answers, Blames;
    forall d | d in report.errors ensures report.errors[d] in SAFE_LABELS {
      BlameSafe(c, n, devices, operation, d, report.errors[d]);
    }
    forall d | d in report.results ensures Cleared(c, report.results[d]) && Reaches(c, d, operation) {
      AnswerSafe(c, n, devices, operation, d, report.results[d]);
    }
  }

  lemma OkReaches(c: Config, n: nat, device: string, operation: string)
    requires CallResult(c, n, device, operation).Ok?
    ensures Reaches(c, device, operation)
  {}

  /** What a client sees for a failed call does not change when the failure is
    * wrapped at the service boundary.
    */
  lemma WrappingKeepsLabel(errorClass: Option<string>)
    ensures SafeLabel(FaultClass(ServiceError(SafeLabel(errorClass)))) == SafeLabel(errorClass)
  {
    LabelStable(errorClass);
  }
}
