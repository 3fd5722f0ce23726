/** The circuit breaker: its critical sections as functions, concurrent requests as a step machine, and the object
    itself. */
module CircuitBreakers {
  datatype Mode = Closed | Open | HalfOpen

  datatype Kind = ConnectionFailure | ProtocolFailure | ServiceFailure

  datatype Limits = Limits(connection: real, protocol: real, service: real, resetTimeout: int)

  datatype Breaker = Breaker(
    limits: Limits,
    mode: Mode,
    last: int,               // lastFailureTime
    connectionFailures: nat,
    protocolFailures: nat,
    serviceFailures: nat,
    totalConnections: nat)

  function Fresh(limits: Limits, last: int): Breaker {
    Breaker(limits, Closed, last, 0, 0, 0, 0)
  }

  /** The rate 0/0 is NaN, which exceeds nothing. */
  predicate RateExceeds(failures: nat, total: nat, limit: real) {
    total > 0 && failures as real / total as real > limit
  }

  predicate Exceeded(b: Breaker) {
    || RateExceeds(b.connectionFailures, b.totalConnections, b.limits.connection)
    || b.protocolFailures as real > b.limits.protocol
    || b.serviceFailures as real > b.limits.service
  }

  function Checked(b: Breaker): Breaker {
    if b.mode == Open then b else if Exceeded(b) then b.(mode := Open) else b
  }

  function AfterFailure(b: Breaker, kind: Kind, now: int): Breaker {
    match kind
    case ConnectionFailure =>
      Checked(b.(connectionFailures := b.connectionFailures + 1, totalConnections := b.totalConnections + 1,
          last := now))
    case ProtocolFailure => Checked(b.(protocolFailures := b.protocolFailures + 1, last := now))
    case ServiceFailure => Checked(b.(serviceFailures := b.serviceFailures + 1, last := now))
  }

  function AfterSuccess(b: Breaker): Breaker {
    if b.mode == HalfOpen then Fresh(b.limits, b.last) else b
  }

  predicate TimedOut(b: Breaker, now: int) {
    b.mode == Open && now - b.last > b.limits.resetTimeout
  }

  function TryHalfOpen(b: Breaker, now: int): Breaker {
    if TimedOut(b, now) then b.(mode := HalfOpen) else b
  }

  // ----- The invariant

  /** Closed exactly when no threshold is exceeded. Every recorded connection is a failed one. */
  ghost predicate Consistent(b: Breaker) {
    (b.mode == Closed <==> !Exceeded(b)) && b.connectionFailures == b.totalConnections
  }

  lemma FullRate(n: nat)
    requires n > 0
    ensures n as real / n as real == 1.0
  {
  }

  // More failures exceed what fewer did.
  lemma StaysExceeded(b: Breaker, kind: Kind, now: int)
    requires b.connectionFailures == b.totalConnections
    ensures var b' := AfterFailure(b, kind, now);
            (Exceeded(b) ==> Exceeded(b')) && b'.connectionFailures == b'.totalConnections
  {
    FullRate(b.totalConnections + 1);
    if b.totalConnections > 0 { FullRate(b.totalConnections); }
  }

  lemma FailureKeeps(b: Breaker, kind: Kind, now: int)
    requires Consistent(b)
    ensures Consistent(AfterFailure(b, kind, now))
    ensures b.mode != Closed ==> AfterFailure(b, kind, now).mode == Open
  {
    StaysExceeded(b, kind, now);
  }

  /** A new breaker meets the invariant exactly when its protocol and service thresholds are not negative. */
  lemma ConsistentAtFirst(limits: Limits, last: int)
    ensures Consistent(Fresh(limits, last)) <==> limits.protocol >= 0.0 && limits.service >= 0.0
  {
  }

  // ----- Concurrent requests

  /** Where a call of AllowRequest is between its critical sections. */
  datatype Request = Outside | Upgrading | Rereading

  datatype State = State(b: Breaker, requests: seq<Request>, clock: int, admitted: nat, refused: nat)

  /** Each action is one critical section, at time `now`. */
  datatype Action =
    | Fail(kind: Kind, now: int)
    | Succeed(now: int)
    | Ask(r: nat, now: int)        // AllowRequest reads the state
    | Upgrade(r: nat, now: int)    // with the write lock, the double check
    | Reread(r: nat, now: int)     // with the read lock again, the answer

  predicate Enabled(s: State, a: Action) {
    && a.now >= s.clock
    && match a
       case Fail(_, _) => true
       case Succeed(_) => true
       case Ask(r, _) => r < |s.requests| && s.requests[r] == Outside
       case Upgrade(r, _) => r < |s.requests| && s.requests[r] == Upgrading
       case Reread(r, _) => r < |s.requests| && s.requests[r] == Rereading
  }

  function Answer(s: State, r: nat, admit: bool): State
    requires r < |s.requests|
  {
    if admit then s.(requests := s.requests[r := Outside], admitted := s.admitted + 1)
    else s.(requests := s.requests[r := Outside], refused := s.refused + 1)
  }

  function Apply(s: State, a: Action): State
    requires Enabled(s, a)
  {
    var s := s.(clock := a.now);
    match a
    case Fail(kind, now) => s.(b := AfterFailure(s.b, kind, now))
    case Succeed(_) => s.(b := AfterSuccess(s.b))
    case Ask(r, now) =>
      if TimedOut(s.b, now) then s.(requests := s.requests[r := Upgrading])
      else Answer(s, r, s.b.mode != Open)
    case Upgrade(r, now) => s.(b := TryHalfOpen(s.b, now), requests := s.requests[r := Rereading])
    case Reread(r, _) => Answer(s, r, s.b.mode == HalfOpen)
  }

  ghost predicate IsRun(s: State, acts: seq<Action>)
    decreases |acts|
  {
    acts == [] || (Enabled(s, acts[0]) && IsRun(Apply(s, acts[0]), acts[1..]))
  }

  ghost function Final(s: State, acts: seq<Action>): State
    requires IsRun(s, acts)
    decreases |acts|
  {
    if acts == [] then s else Final(Apply(s, acts[0]), acts[1..])
  }

  /** What every step keeps: the breaker is closed exactly when no threshold is exceeded, and its last failure is
      past. */
  ghost predicate Sound(s: State) {
    && Consistent(s.b) && s.b.last <= s.clock
    && s.b.limits.protocol >= 0.0 && s.b.limits.service >= 0.0
  }

  lemma StepSound(s: State, a: Action)
    requires Enabled(s, a) && Sound(s)
    ensures Sound(Apply(s, a)) && Apply(s, a).b.limits == s.b.limits
    ensures s.b.mode == Open ==> Apply(s, a).b.mode != Closed
    ensures s.b.mode == Open && Apply(s, a).b.mode == HalfOpen ==> a.now > s.b.last + s.b.limits.resetTimeout
    ensures a.Fail? && s.b.mode == HalfOpen ==> Apply(s, a).b.mode == Open
    ensures s.b.mode == Open && Apply(s, a).b.mode == Open ==> Apply(s, a).admitted == s.admitted
    ensures Apply(s, a).b.last >= s.b.last
  {
    if a.Fail? { FailureKeeps(s.b, a.kind, a.now); }
  }

  /** Over any run of a breaker with non-negative protocol and service thresholds, it is closed exactly when
      no threshold is exceeded. */
  lemma {:induction false} RunSound(s: State, acts: seq<Action>)
    requires IsRun(s, acts) && Sound(s)
    ensures Sound(Final(s, acts)) && Final(s, acts).b.limits == s.b.limits
    decreases |acts|
  {
    if acts == [] {
    } else {
      StepSound(s, acts[0]);
      RunSound(Apply(s, acts[0]), acts[1..]);
    }
  }

  /** An open breaker stays open and admits nothing while no more than resetTimeout has passed since its last
      failure, however requests, failures and successes interleave. */
  lemma {:induction false} OpenAdmitsNothing(s: State, acts: seq<Action>)
    requires IsRun(s, acts) && Sound(s) && s.b.mode == Open
    requires forall i :: 0 <= i < |acts| ==> acts[i].now <= s.b.last + s.b.limits.resetTimeout
    ensures Final(s, acts).b.mode == Open && Final(s, acts).admitted == s.admitted
    decreases |acts|
  {
    if acts == [] {
    } else {
      StepSound(s, acts[0]);
      OpenAdmitsNothing(Apply(s, acts[0]), acts[1..]);
    }
  }

  /** An open breaker closes only by way of half-open. */
  lemma {:induction false} NeverStraightToClosed(s: State, acts: seq<Action>) returns (i: nat)
    requires IsRun(s, acts) && Sound(s) && s.b.mode == Open && Final(s, acts).b.mode == Closed
    ensures i <= |acts| && IsRun(s, acts[..i]) && Final(s, acts[..i]).b.mode == HalfOpen
    decreases |acts|
  {
    var s' := Apply(s, acts[0]);
    StepSound(s, acts[0]);
    if s'.b.mode == HalfOpen {
      i := 1;
      assert acts[..1][1..] == [];
    } else {
      var j := NeverStraightToClosed(s', acts[1..]);
      i := j + 1;
      assert acts[..i][1..] == acts[1..][..j];
    }
  }

  // ----- When it opens, and how it recovers

  /** The failures of one kind in a run. */
  function Failed(acts: seq<Action>, kind: Kind): nat {
    if acts == [] then 0 else (if acts[0].Fail? && acts[0].kind == kind then 1 else 0) + Failed(acts[1..], kind)
  }

  // A run of failures only: the counters count, and no failure closes the breaker.
  lemma {:induction false} FailuresCount(s: State, acts: seq<Action>)
    requires IsRun(s, acts) && s.b.connectionFailures == s.b.totalConnections
    requires forall i :: 0 <= i < |acts| ==> acts[i].Fail?
    ensures var b := Final(s, acts).b;
            && b.limits == s.b.limits && b.connectionFailures == b.totalConnections
            && b.connectionFailures == s.b.connectionFailures + Failed(acts, ConnectionFailure)
            && b.protocolFailures == s.b.protocolFailures + Failed(acts, ProtocolFailure)
            && b.serviceFailures == s.b.serviceFailures + Failed(acts, ServiceFailure)
            && b.last == (if acts == [] then s.b.last else acts[|acts| - 1].now)
    ensures acts != [] && s.b.mode != HalfOpen ==>
              (Final(s, acts).b.mode == Open <==> s.b.mode == Open || Exceeded(Final(s, acts).b))
    ensures s.b.mode != HalfOpen ==> Final(s, acts).b.mode != HalfOpen
    ensures Exceeded(s.b) ==> Exceeded(Final(s, acts).b)
    decreases |acts|
  {
    if acts == [] {
    } else {
      StaysExceeded(s.b, acts[0].kind, acts[0].now);
      FailuresCount(Apply(s, acts[0]), acts[1..]);
    }
  }

  /** Failures can be recorded in any number, of any kind, in any order. */
  lemma {:induction false} FailuresRun(s: State, acts: seq<Action>)
    requires forall i :: 0 <= i < |acts| ==> acts[i].Fail? && acts[i].now >= s.clock
    requires forall i, j :: 0 <= i < j < |acts| ==> acts[i].now <= acts[j].now
    ensures IsRun(s, acts)
    decreases |acts|
  {
    if acts == [] {
    } else {
      FailuresRun(Apply(s, acts[0]), acts[1..]);
    }
  }

  /** Failures alone open a new breaker if and only if the protocol failures number more than their limit, the service
      failures more than theirs, or a connection fails and the limit of the rate is below 1; and the last of them is
      what the reset counts from. */
  lemma OpensIff(limits: Limits, last: int, clock: int, requests: seq<Request>, acts: seq<Action>)
    requires var s := State(Fresh(limits, last), requests, clock, 0, 0); IsRun(s, acts)
    requires acts != [] && forall i :: 0 <= i < |acts| ==> acts[i].Fail?
    ensures var b := Final(State(Fresh(limits, last), requests, clock, 0, 0), acts).b;
            && b.last == acts[|acts| - 1].now && (b.mode == Open || b.mode == Closed)
            && (b.mode == Open
                <==> || Failed(acts, ProtocolFailure) as real > limits.protocol
                     || Failed(acts, ServiceFailure) as real > limits.service
                     || (Failed(acts, ConnectionFailure) > 0 && limits.connection < 1.0))
  {
    var s := State(Fresh(limits, last), requests, clock, 0, 0);
    FailuresCount(s, acts);
    if Failed(acts, ConnectionFailure) > 0 { FullRate(Failed(acts, ConnectionFailure)); }
  }

  lemma Prepend(s: State, a: Action, rest: seq<Action>)
    requires Enabled(s, a) && IsRun(Apply(s, a), rest)
    ensures IsRun(s, [a] + rest) && Final(s, [a] + rest) == Final(Apply(s, a), rest)
  {
    assert ([a] + rest)[1..] == rest;
  }

  /** More than resetTimeout after its last failure an open breaker lets the next request through, alone, and half
      opens; a success then makes it a new one. */
  lemma Recovers(s: State, r: nat, now: int) returns (acts: seq<Action>)
    requires s.b.mode == Open && r < |s.requests| && s.requests[r] == Outside
    requires now >= s.clock && now - s.b.last > s.b.limits.resetTimeout
    ensures IsRun(s, acts)
    ensures Final(s, acts) == s.(b := s.b.(mode := HalfOpen), clock := now, admitted := s.admitted + 1)
    ensures var f := Final(s, acts);
            Enabled(f, Succeed(now)) && Apply(f, Succeed(now)).b == Fresh(s.b.limits, s.b.last)
  {
    var s1 := Apply(s, Ask(r, now));
    var s2 := Apply(s1, Upgrade(r, now));
    var s3 := Apply(s2, Reread(r, now));
    Prepend(s2, Reread(r, now), []);
    Prepend(s1, Upgrade(r, now), [Reread(r, now)] + []);
    Prepend(s, Ask(r, now), [Upgrade(r, now)] + ([Reread(r, now)] + []));
    acts := [Ask(r, now)] + ([Upgrade(r, now)] + ([Reread(r, now)] + []));
    assert s3.requests == s.requests;
  }

  /** A request that finds the breaker closed or half open is let through at once, and one that finds it open sooner
      is refused. */
  lemma AskAnswers(s: State, r: nat, now: int)
    requires Enabled(s, Ask(r, now)) && (s.b.mode == Open ==> now - s.b.last <= s.b.limits.resetTimeout)
    ensures Apply(s, Ask(r, now))
            == if s.b.mode == Open then s.(clock := now, refused := s.refused + 1)
               else s.(clock := now, admitted := s.admitted + 1)
  {
    assert s.requests[r := Outside] == s.requests;
  }

  // ----- The object

  class CircuitBreaker {
    const limits: Limits
    var state: Mode
    var lastFailureTime: int
    var connectionFailures: nat
    var protocolFailures: nat
    var serviceFailures: nat
    var totalConnections: nat

    ghost function View(): Breaker
      reads this
    {
      Breaker(limits, state, lastFailureTime, connectionFailures, protocolFailures, serviceFailures, totalConnections)
    }

    constructor (limits: Limits)
      ensures View() == Fresh(limits, 0)
      ensures limits.protocol >= 0.0 && limits.service >= 0.0 ==> Consistent(View())
    {
      this.limits, state, lastFailureTime := limits, Closed, 0;
      connectionFailures, protocolFailures, serviceFailures, totalConnections := 0, 0, 0, 0;
    }

    method CheckThresholds()
      modifies this`state
      ensures View() == Checked(old(View()))
    {
      if state == Open { return; }
      if RateExceeds(connectionFailures, totalConnections, limits.connection)
        || protocolFailures as real > limits.protocol
        || serviceFailures as real > limits.service {
        state := Open;
      }
    }

    method RecordConnectionFailure(now: int)
      modifies this
      ensures View() == AfterFailure(old(View()), ConnectionFailure, now)
      ensures old(Consistent(View())) ==> Consistent(View()) && (old(state) != Closed ==> state == Open)
    {
      if Consistent(View()) { FailureKeeps(View(), ConnectionFailure, now); }
      connectionFailures := connectionFailures + 1;
      totalConnections := totalConnections + 1;
      lastFailureTime := now;
      CheckThresholds();
    }

    method RecordProtocolFailure(now: int)
      modifies this
      ensures View() == AfterFailure(old(View()), ProtocolFailure, now)
      ensures old(Consistent(View())) ==> Consistent(View()) && (old(state) != Closed ==> state == Open)
    {
      if Consistent(View()) { FailureKeeps(View(), ProtocolFailure, now); }
      protocolFailures := protocolFailures + 1;
      lastFailureTime := now;
      CheckThresholds();
    }

    method RecordServiceFailure(now: int)
      modifies this
      ensures View() == AfterFailure(old(View()), ServiceFailure, now)
      ensures old(Consistent(View())) ==> Consistent(View()) && (old(state) != Closed ==> state == Open)
    {
      if Consistent(View()) { FailureKeeps(View(), ServiceFailure, now); }
      serviceFailures := serviceFailures + 1;
      lastFailureTime := now;
      CheckThresholds();
    }

    method RecordSuccess()
      modifies this
      ensures View() == AfterSuccess(old(View()))
      ensures View() == if old(state) == HalfOpen then Fresh(limits, old(lastFailureTime)) else old(View())
    {
      if state == HalfOpen {
        state := Closed;
        connectionFailures, protocolFailures, serviceFailures, totalConnections := 0, 0, 0, 0;
      }
    }

    /** One call with no other in between: `now` at the first check, `again` at the double check. */
    method AllowRequest(now: int, again: int) returns (allowed: bool)
      requires now <= again
      modifies this`state
      ensures View() == if TimedOut(old(View()), now) then TryHalfOpen(old(View()), again) else old(View())
      ensures allowed <==> state != Open
      ensures allowed <==> old(state) != Open || now - lastFailureTime > limits.resetTimeout
      ensures state == if allowed && old(state) == Open then HalfOpen else old(state)
      ensures allowed && old(state) == Open ==> now > lastFailureTime + limits.resetTimeout
    {
      match state
      case Closed => allowed := true;
      case HalfOpen => allowed := true;
      case Open =>
        if now - lastFailureTime > limits.resetTimeout {
          if state == Open && again - lastFailureTime > limits.resetTimeout { state := HalfOpen; }
          allowed := state == HalfOpen;
        } else {
          allowed := false;
        }
    }
  }
}
