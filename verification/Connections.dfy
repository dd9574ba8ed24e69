/** The life of device connections in the live backend: every collector call
  * opens its own and must give back what it opened.
  */
module Connections {
  import opened Prelude

  /** What can go wrong at a step; Credentials stands for a failed lookup of the
    * device or its credentials, and only Interrupted is no ordinary exception.
    */
  datatype Fault = Refused | Fatal | Undecodable | Credentials | Other | Interrupted

  /** The outcome of opening a connection or of running a query on one. */
  datatype Step = Done(rows: seq<string>) | Broken(fault: Fault)

  /** What the caller of a query sees. */
  datatype Failure = BackendError(errorClass: string) | CredentialError | Interrupt

  datatype Event = Open(id: nat) | Close(id: nat)

  /** The outcome of the n-th step; it may depend on all that happened before. */
  type Environment = nat -> Step

  /** The state a backend call starts from and leaves: steps taken, connections
    * made so far, and the events.
    */
  datatype State = State(steps: nat, made: nat, log: seq<Event>)

  // ------------------------------------------------ the events of one query

  /** `_connect` tells a refused connection from a refused login. */
  function ConnectFailure(f: Fault): Failure {
    match f
    case Fatal => BackendError("auth")
    case Credentials => CredentialError
    case Interrupted => Interrupt
    case _ => BackendError("unreachable")
  }

  /** Inside the try block every ordinary exception becomes "unreachable". */
  function QueryFailure(f: Fault): Failure {
    if f.Interrupted? then Interrupt else BackendError("unreachable")
  }

  /** What a query does, as a function of the outcomes of its steps. */
  function QueryRun(env: Environment, s: State): (State, Result<seq<string>, Failure>) {
    match env(s.steps)
    case Broken(f) => (s.(steps := s.steps + 1), Err(ConnectFailure(f)))
    case Done(_) =>
      var first := [Open(s.made), Close(s.made)];
      match env(s.steps + 1)
      case Done(rows) => (State(s.steps + 2, s.made + 1, s.log + first), Ok(rows))
      case Broken(f) =>
        if f != Undecodable then (State(s.steps + 2, s.made + 1, s.log + first), Err(QueryFailure(f)))
        else
          match env(s.steps + 2)
          case Broken(g) => (State(s.steps + 3, s.made + 1, s.log + first), Err(QueryFailure(g)))
          case Done(_) =>
            var second := [Open(s.made + 1), Close(s.made + 1)];
            var end := State(s.steps + 4, s.made + 2, s.log + first + second);
            match env(s.steps + 3)
            case Done(rows) => (end, Ok(rows))
            case Broken(g) => (end, Err(QueryFailure(g)))
  }

  class Backend {
    const env: Environment
    var state: State

    constructor (env: Environment)
      ensures this.env == env && state == State(0, 0, [])
    {
      this.env, state := env, State(0, 0, []);
    }

    /** A library call that may fail. */
    method Take() returns (r: Step)
      modifies this
      ensures r == env(old(state).steps) && state == old(state).(steps := old(state).steps + 1)
    {
      r := env(state.steps);
      state := state.(steps := state.steps + 1);
    }

    /** `librouteros.connect`: a connection, or what went wrong. */
    method Connect() returns (id: nat, fault: Option<Fault>)
      modifies this
      ensures match env(old(state).steps)
              case Broken(f) => fault == Some(f) && state == old(state).(steps := old(state).steps + 1)
              case Done(_) =>
                && fault == None && id == old(state).made
                && state == State(old(state).steps + 1, id + 1, old(state).log + [Open(id)])
    {
      id := state.made;
      var r := Take();
      match r {
        case Broken(f) => fault := Some(f);
        case Done(_) =>
          fault := None;
          state := State(state.steps, id + 1, state.log + [Open(id)]);
      }
    }

    method CloseConnection(id: nat)
      modifies this
      ensures state == old(state).(log := old(state).log + [Close(id)])
    {
      state := state.(log := state.log + [Close(id)]);
    }

    /** `_query`: connect, run, on undecodable text close, reconnect and run
      * again; the finally clause closes whatever is still open.
      */
    method Query() returns (r: Result<seq<string>, Failure>)
      modifies this
      ensures (state, r) == QueryRun(env, old(state))
    {
      hide ConnectFailure, QueryFailure;
      var conn: Option<nat> := None;
      var id, fault := Connect();
      if fault.Some? {
        return Err(ConnectFailure(fault.value));
      }
      conn := Some(id);
      var answer := Take();
      if answer == Broken(Undecodable) {
        CloseConnection(conn.value);
        conn := None;
        id, fault := Connect();
        if fault.Some? {
          answer := Broken(fault.value);
        } else {
          conn := Some(id);
          answer := Take();
        }
      }
      match answer {
        case Done(rows) => r := Ok(rows);
        case Broken(f) => r := Err(QueryFailure(f));
      }
      if conn.Some? {
        CloseConnection(conn.value);
      }
      LogShape(old(state).log, old(state).made);
    }

    /** `get_snmp_config`: two queries; the second only if the first succeeds. */
    method TwoQueries() returns (r: Result<(seq<string>, seq<string>), Failure>)
      modifies this
      ensures (state, r) == TwoRun(env, old(state))
    {
      var main := Query();
      match main {
        case Err(f) => return Err(f);
        case Ok(rows) =>
          var more := Query();
          match more {
            case Err(f) => return Err(f);
            case Ok(rows') => return Ok((Single(rows), rows'));
          }
      }
    }

    /** Any sequence of collector calls, each of one query or of two; failures
      * of a call do not stop the next.
      */
    method Serve(calls: seq<Collector>)
      modifies this
      ensures state == ServeRun(env, old(state), calls)
    {
      for n := 0 to |calls|
        invariant state == ServeRun(env, old(state), calls[..n])
      {
        assert calls[..n + 1][..n] == calls[..n];
        match calls[n] {
          case One => var r := Query();
          case Two => var r := TwoQueries();
        }
      }
      assert calls[..|calls|] == calls;
    }
  }

  lemma LogShape(log: seq<Event>, n: nat)
    ensures var first := log + [Open(n)] + [Close(n)];
            && first == log + [Open(n), Close(n)]
            && first + [Open(n + 1)] + [Close(n + 1)]
               == log + [Open(n), Close(n)] + [Open(n + 1), Close(n + 1)]
  {}

  /** `_query_single`: the first row, if any. */
  function Single(rows: seq<string>): seq<string> { if rows == [] then [] else rows[..1] }

  datatype Collector = One | Two

  function TwoRun(env: Environment, s: State): (State, Result<(seq<string>, seq<string>), Failure>) {
    var (s1, main) := QueryRun(env, s);
    match main
    case Err(f) => (s1, Err(f))
    case Ok(rows) =>
      var (s2, more) := QueryRun(env, s1);
      match more
      case Err(f) => (s2, Err(f))
      case Ok(rows') => (s2, Ok((Single(rows), rows')))
  }

  function ServeRun(env: Environment, s: State, calls: seq<Collector>): State {
    if calls == [] then s
    else
      var before := ServeRun(env, s, calls[..|calls| - 1]);
      if calls[|calls| - 1].One? then QueryRun(env, before).0 else TwoRun(env, before).0
  }

  // ------------------------------------------------------- what must balance

  /** The connections open after a list of events. */
  function Live(log: seq<Event>): set<nat> {
    if log == [] then {}
    else
      var live := Live(log[..|log| - 1]);
      match log[|log| - 1]
      case Open(id) => live + {id}
      case Close(id) => live - {id}
  }

  /** Everything opened is closed once and in turn: the k-th connection is opened
    * and closed by two consecutive events.
    */
  ghost predicate Paired(log: seq<Event>, made: nat) {
    && |log| == 2 * made
    && forall k: nat | k < made :: log[2 * k] == Open(k) && log[2 * k + 1] == Close(k)
  }

  /** A query opens and closes its connections in turn, at most two, and a
    * second one only after an undecodable answer.
    */
  lemma QueryPaired(env: Environment, s: State)
    requires Paired(s.log, s.made)
    ensures var t := QueryRun(env, s).0;
            && Paired(t.log, t.made) && s.log <= t.log
            && s.made <= t.made <= s.made + 2
            && (t.made == s.made + 2 ==> env(s.steps).Done? && env(s.steps + 1) == Broken(Undecodable))
  {
    var t := QueryRun(env, s).0;
    var first := [Open(s.made), Close(s.made)];
    var second := [Open(s.made + 1), Close(s.made + 1)];
    PairAdded(s.log, s.made);
    PairAdded(s.log + first, s.made + 1);
    assert s.log <= s.log + first + second;
  }

  lemma PairAdded(log: seq<Event>, made: nat)
    requires Paired(log, made)
    ensures Paired(log + [Open(made), Close(made)], made + 1)
  {}

  /** The step that decides a query: the first answer, or the second if the first
    * could not be decoded and the device could be reached again.
    */
  ghost predicate Decides(env: Environment, k: nat, d: nat) {
    || (d == k && env(k).Broken?)
    || (d == k + 1 && env(k).Done? && env(k + 1) != Broken(Undecodable))
    || (d == k + 2 && env(k).Done? && env(k + 1) == Broken(Undecodable) && env(k + 2).Broken?)
    || (d == k + 3 && env(k).Done? && env(k + 1) == Broken(Undecodable) && env(k + 2).Done?)
  }

  /** What a query makes of the outcome of its deciding step. */
  predicate Tells(step: Step, first: bool, r: Result<seq<string>, Failure>) {
    match step
    case Done(rows) => r == Ok(rows)
    case Broken(Interrupted) => r == Err(Interrupt)
    case Broken(Fatal) => r == Err(BackendError(if first then "auth" else "unreachable"))
    case Broken(Credentials) => r == Err(if first then CredentialError else BackendError("unreachable"))
    case Broken(_) => r == Err(BackendError("unreachable"))
  }

  /** A query gives the rows of the deciding step or says what went wrong in it:
    * only the first attempt to connect tells authentication and credentials from
    * an unreachable device, and interrupts always pass through.
    */
  lemma QueryResult(env: Environment, s: State, d: nat)
    requires Decides(env, s.steps, d)
    ensures QueryRun(env, s).0.steps == d + 1
    ensures Tells(env(d), d == s.steps, QueryRun(env, s).1)
  {}

  /** Exactly one step decides. */
  lemma OneDecides(env: Environment, k: nat)
    ensures exists d: nat :: Decides(env, k, d) && forall e: nat :: Decides(env, k, e) ==> e == d
  {
    var d := if env(k).Broken? then k else if env(k + 1) != Broken(Undecodable) then k + 1
             else if env(k + 2).Broken? then k + 2 else k + 3;
    assert Decides(env, k, d);
  }

  /** Two queries give the first row of the one, if it has any, and all rows of the
    * other; the failure of either is the failure of both.
    */
  lemma TwoResult(env: Environment, s: State)
    ensures var (s1, a) := QueryRun(env, s);
            var (s2, b) := QueryRun(env, s1);
            var (t, r) := TwoRun(env, s);
            && (a.Err? ==> t == s1 && r.Err? && r.error == a.error)
            && (a.Ok? ==> t == s2)
            && (a.Ok? && b.Err? ==> r.Err? && r.error == b.error)
            && (a.Ok? && b.Ok? ==> r == Ok((if a.value == [] then [] else [a.value[0]], b.value)))
  {
    hide QueryRun;
    var a := QueryRun(env, s).1;
    if a.Ok? && a.value != [] { assert a.value[..1] == [a.value[0]]; }
  }

  /** Over any sequence of collector calls and any outcomes, every connection is
    * opened once and closed once, in turn.
    */
  lemma {:induction false} ServePaired(env: Environment, calls: seq<Collector>)
    ensures var t := ServeRun(env, State(0, 0, []), calls);
            Paired(t.log, t.made) && t.made <= 4 * |calls|
    decreases |calls|
  {
    hide QueryRun, Paired;
    if calls == [] {
      NothingMade();
    } else {
      var before := ServeRun(env, State(0, 0, []), calls[..|calls| - 1]);
      ServePaired(env, calls[..|calls| - 1]);
      QueryPaired(env, before);
      QueryPaired(env, QueryRun(env, before).0);
    }
  }

  lemma NothingMade()
    ensures Paired([], 0)
  {}

  lemma LiveStep(log: seq<Event>, n: nat)
    requires n < |log|
    ensures Live(log[..n + 1])
         == match log[n]
            case Open(id) => Live(log[..n]) + {id}
            case Close(id) => Live(log[..n]) - {id}
  {
    assert log[..n + 1][..n] == log[..n];
  }

  /** In a paired log, never more than one connection is open: after an even
    * number of events none, after an odd number the one just opened.
    */
  lemma {:induction false} PairedLive(log: seq<Event>, made: nat, k: nat)
    requires Paired(log, made) && k <= made
    ensures Live(log[..2 * k]) == {}
    ensures k < made ==> Live(log[..2 * k + 1]) == {k}
    decreases k
  {
    hide Live;
    if k == 0 {
      NothingLive();
      assert log[..0] == [];
    } else {
      PairedLive(log, made, k - 1);
      assert log[2 * (k - 1) + 1] == Close(k - 1);
      LiveStep(log, 2 * k - 1);
    }
    if k < made {
      assert log[2 * k] == Open(k);
      LiveStep(log, 2 * k);
    }
  }

  lemma NothingLive()
    ensures Live([]) == {}
  {}

  /** How often an event occurs. */
  function Occurrences(log: seq<Event>, e: Event): nat { multiset(log)[e] }

  lemma {:induction false} PairedCount(log: seq<Event>, made: nat, id: nat)
    requires Paired(log, made)
    ensures Occurrences(log, Open(id)) == Occurrences(log, Close(id)) == if id < made then 1 else 0
    decreases made
  {
    if made > 0 {
      var n := 2 * (made - 1);
      PairedCount(log[..n], made - 1, id);
      assert log == log[..n] + [log[n], log[n + 1]];
      assert log[n] == Open(made - 1) && log[2 * (made - 1) + 1] == Close(made - 1);
    } else {
      assert log == [];
    }
  }

  /** The safety of the backend: whatever is served and whatever fails, at every
    * moment at most one connection is open, none at the end, and each was opened
    * and closed exactly once.
    */
  lemma ServeSafe(env: Environment, calls: seq<Collector>, n: nat, id: nat)
    requires n <= |ServeRun(env, State(0, 0, []), calls).log|
    ensures var t := ServeRun(env, State(0, 0, []), calls);
            && |Live(t.log[..n])| <= 1 && Live(t.log) == {}
            && Occurrences(t.log, Open(id)) == Occurrences(t.log, Close(id)) == if id < t.made then 1 else 0
  {
    hide Live, Occurrences, ServeRun;
    var t := ServeRun(env, State(0, 0, []), calls);
    ServePaired(env, calls);
    PairedLive(t.log, t.made, n / 2);
    PairedLive(t.log, t.made, t.made);
    assert n == 2 * (n / 2) || n == 2 * (n / 2) + 1;
    assert t.log[..|t.log|] == t.log;
    PairedCount(t.log, t.made, id);
  }
}
