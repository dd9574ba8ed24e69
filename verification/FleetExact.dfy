/** What calls and fleet reports contain, told from what the backends did. */
module FleetExact {
  import opened Prelude
  import opened Values
  import opened StructuredRedaction
  import opened Labels
  import opened Fleet

  /** The call for the device and operation that the gates let through. */
  ghost predicate LetThrough(c: Config, device: string, operation: string, i: Invocation) {
    Permitted(c, i) && i.device == device && i.operation == operation
  }

  /** As the k-th call, the device's backend returned a payload. */
  ghost predicate Returned(c: Config, k: nat, device: string, operation: string, raw: Json) {
    exists i :: LetThrough(c, device, operation, i) && c.env(k, i) == Payload(raw)
  }

  /** As the k-th call, it raised an error of the class. */
  ghost predicate Failed(c: Config, k: nat, device: string, operation: string, e: Option<string>) {
    exists i :: LetThrough(c, device, operation, i) && c.env(k, i) == Raised(e)
  }

  /** No gate lets the call through. */
  ghost predicate Refused(c: Config, device: string, operation: string) {
    forall i :: !LetThrough(c, device, operation, i)
  }

  lemma ReachesExact(c: Config, device: string, operation: string, i: Invocation)
    ensures LetThrough(c, device, operation, i)
       <==> Reaches(c, device, operation) && i == InvocationOf(c, device, operation)
  {}

  /** A call gives the redacted payload its backend returned, the label of the
    * error it raised, or an error without a class if it was refused.
    */
  lemma CallExact(c: Config, n: nat, device: string, operation: string)
    ensures var r := CallResult(c, n, device, operation);
            && (forall raw :: Returned(c, n, device, operation, raw) ==> r.Ok? && Mirrors(c.redactor, raw, r.value))
            && (forall e :: Failed(c, n, device, operation, e) ==>
                  r.Err? && r.error.ServiceError? && LabelFor(r.error.errorClass, e))
            && (Refused(c, device, operation) ==> r.Err? && !r.error.ServiceError?)
  {
    hide Admitted, Permitted, Redact, Mirrors;
    forall i: Invocation
      ensures LetThrough(c, device, operation, i) <==> Reaches(c, device, operation) && i == InvocationOf(c, device, operation)
    {
      ReachesExact(c, device, operation, i);
    }
    if Reaches(c, device, operation) {
      var i := InvocationOf(c, device, operation);
      assert LetThrough(c, device, operation, i);
      match c.env(n, i)
      case Payload(raw) => RedactMirrors(c.redactor, raw);
      case Raised(_) =>
    }
  }

  /** One of the three always happens, and only one. */
  lemma CallCases(c: Config, n: nat, device: string, operation: string)
    ensures var r := CallResult(c, n, device, operation);
            && (r.Ok? <==> exists raw :: Returned(c, n, device, operation, raw))
            && (r.Err? && r.error.ServiceError? <==> exists e :: Failed(c, n, device, operation, e))
            && (r.Err? && !r.error.ServiceError? <==> Refused(c, device, operation))
  {
    hide Admitted, Permitted, Redact;
    forall i: Invocation
      ensures LetThrough(c, device, operation, i) <==> Reaches(c, device, operation) && i == InvocationOf(c, device, operation)
    {
      ReachesExact(c, device, operation, i);
    }
    if Reaches(c, device, operation) {
      var i := InvocationOf(c, device, operation);
      assert LetThrough(c, device, operation, i);
      match c.env(n, i)
      case Payload(raw) => assert Returned(c, n, device, operation, raw);
      case Raised(e) => assert Failed(c, n, device, operation, e);
    }
  }

  // ------------------------------------------------------------ fleet reports

  /** Naming no device, or an empty list, asks all of the inventory, in its order. */
  lemma TargetsExact(ids: seq<string>, requested: Option<seq<string>>)
    ensures requested == None || requested == Some([]) ==> Targets(ids, requested) == ids
    ensures requested.Some? && requested.value != [] ==> Targets(ids, requested) == requested.value
  {}

  /** The number of the call made for the i-th device of a list, if it is made. */
  function CallNumber(c: Config, n: nat, devices: seq<string>, operation: string, i: nat): nat
    requires i <= |devices|
  {
    n + |Reached(c, devices[..i], operation)|
  }

  /** The i-th device's turn was the last that returned a payload for d, and v is
    * that payload redacted.
    */
  ghost predicate LastReturn(c: Config, n: nat, devices: seq<string>, operation: string, d: string, v: Json, i: nat) {
    && i < |devices| && devices[i] == d
    && (exists raw :: Returned(c, CallNumber(c, n, devices, operation, i), d, operation, raw) && Mirrors(c.redactor, raw, v))
    && forall j: nat, raw | i < j < |devices| && devices[j] == d ::
         !Returned(c, CallNumber(c, n, devices, operation, j), d, operation, raw)
  }

  /** The i-th device's turn was the last that was refused or failed for d, and l is
    * the label of that.
    */
  ghost predicate LastFailure(c: Config, n: nat, devices: seq<string>, operation: string, d: string, l: string, i: nat) {
    && i < |devices| && devices[i] == d
    && (|| (Refused(c, d, operation) && l == "internal_error")
        || exists e :: Failed(c, CallNumber(c, n, devices, operation, i), d, operation, e) && LabelFor(l, e))
    && forall j: nat | i < j < |devices| && devices[j] == d ::
         exists raw :: Returned(c, CallNumber(c, n, devices, operation, j), d, operation, raw)
  }

  lemma LastOkExact(c: Config, n: nat, devices: seq<string>, operation: string, d: string, v: Json, i: nat)
    requires LastOk(c, n, devices, operation, d, v, i)
    ensures LastReturn(c, n, devices, operation, d, v, i)
  {
    hide CallResult, Returned, Failed, Refused, Mirrors;
    var k := CallNumber(c, n, devices, operation, i);
    CallCases(c, k, d, operation);
    CallExact(c, k, d, operation);
    forall j: nat, raw | i < j < |devices| && devices[j] == d
      ensures !Returned(c, CallNumber(c, n, devices, operation, j), d, operation, raw)
    {
      assert ResultAt(c, n, devices, operation, j).Err?;
      CallExact(c, CallNumber(c, n, devices, operation, j), d, operation);
    }
  }

  lemma LabelOfLabel(f: Fault, e: Option<string>)
    requires f.ServiceError? && LabelFor(f.errorClass, e)
    ensures LabelFor(SafeLabel(FaultClass(f)), e)
  {}

  lemma FailureLabel(c: Config, k: nat, d: string, operation: string)
    requires CallResult(c, k, d, operation).Err?
    ensures var l := SafeLabel(FaultClass(CallResult(c, k, d, operation).error));
            || (Refused(c, d, operation) && l == "internal_error")
            || exists e :: Failed(c, k, d, operation, e) && LabelFor(l, e)
  {
    hide CallResult, Failed, Refused;
    CallCases(c, k, d, operation);
    CallExact(c, k, d, operation);
    if e :| Failed(c, k, d, operation, e) {
      LabelOfLabel(CallResult(c, k, d, operation).error, e);
      assert LabelFor(SafeLabel(FaultClass(CallResult(c, k, d, operation).error)), e);
    }
  }

  lemma LastErrExact(c: Config, n: nat, devices: seq<string>, operation: string, d: string, l: string, i: nat)
    requires LastErr(c, n, devices, operation, d, l, i)
    ensures LastFailure(c, n, devices, operation, d, l, i)
  {
    hide CallResult, Returned, Failed, Refused, LabelFor;
    FailureLabel(c, CallNumber(c, n, devices, operation, i), d, operation);
    forall j: nat | i < j < |devices| && devices[j] == d
      ensures exists raw :: Returned(c, CallNumber(c, n, devices, operation, j), d, operation, raw)
    {
      assert ResultAt(c, n, devices, operation, j).Ok?;
      CallCases(c, CallNumber(c, n, devices, operation, j), d, operation);
    }
  }

  /** In a fleet report, the value of a device is the redacted payload of its last
    * call that returned one, and its error the label of its last call that was
    * refused or failed; a device is in either exactly if there is such a call.
    */
  lemma ReportExact(c: Config, n: nat, devices: seq<string>, operation: string, report: FleetReport)
    requires Accounts(c, n, devices, operation, report.results, report.errors)
    ensures report.results.Keys + report.errors.Keys == set d | d in devices
    ensures forall d | d in report.results ::
              exists i: nat :: LastReturn(c, n, devices, operation, d, report.results[d], i)
    ensures forall d | d in report.errors ::
              exists i: nat :: LastFailure(c, n, devices, operation, d, report.errors[d], i)
  {
    hide LastOk, LastErr, LastReturn, LastFailure;
    forall d | d in report.results ensures exists i: nat :: LastReturn(c, n, devices, operation, d, report.results[d], i) {
      var i: nat :| LastOk(c, n, devices, operation, d, report.results[d], i);
      LastOkExact(c, n, devices, operation, d, report.results[d], i);
    }
    forall d | d in report.errors ensures exists i: nat :: LastFailure(c, n, devices, operation, d, report.errors[d], i) {
      var i: nat :| LastErr(c, n, devices, operation, d, report.errors[d], i);
      LastErrExact(c, n, devices, operation, d, report.errors[d], i);
    }
  }
}
