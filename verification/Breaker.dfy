/**
 The circuit breaker: closed until too many failures in a row, open for a while, then half open for a
 few trial calls.
 */
module Breaker {
  datatype Circuit = Closed | Open | HalfOpen

  /** The configuration: thresholds, and the calls a half-open circuit admits after the one that made it so. */
  datatype Config = Config(failureThreshold: nat, successThreshold: nat, timeoutMs: nat, halfOpenRequests: nat)

  datatype State = State(circuit: Circuit, failures: nat, successes: nat, requests: nat, changedNs: nat)

  datatype Op = Allow(now: nat) | Success(now: nat) | Failure(now: nat)

  function Configure(failureThreshold: nat, timeoutMs: nat): Config {
    Config(if failureThreshold == 0 then 5 else failureThreshold, 3, if timeoutMs == 0 then 30000 else timeoutMs, 1)
  }

  function Start(now: nat): State {
    State(Closed, 0, 0, 0, now)
  }

  /** More than the timeout since the circuit changed; a clock that went back wraps the difference around. */
  predicate TimedOut(s: State, c: Config, now: nat) {
    now < s.changedNs || (now - s.changedNs) / 1_000_000 > c.timeoutMs
  }

  function AllowStep(s: State, c: Config, now: nat): (State, bool) {
    match s.circuit
    case Closed => (s.(requests := s.requests + 1), true)
    case Open => if TimedOut(s, c, now) then (State(HalfOpen, s.failures, 0, 0, now), true) else (s, false)
    case HalfOpen => if s.requests < c.halfOpenRequests then (s.(requests := s.requests + 1), true) else (s, false)
  }

  function SuccessStep(s: State, c: Config, now: nat): State {
    match s.circuit
    case Closed => s.(failures := 0)
    case Open => s
    case HalfOpen =>
      if s.successes + 1 >= c.successThreshold then State(Closed, 0, s.successes + 1, s.requests, now)
      else s.(successes := s.successes + 1)
  }

  function FailureStep(s: State, c: Config, now: nat): State {
    match s.circuit
    case Closed =>
      if s.failures + 1 >= c.failureThreshold then s.(circuit := Open, failures := s.failures + 1, changedNs := now)
      else s.(failures := s.failures + 1)
    case Open => s
    case HalfOpen => s.(circuit := Open, changedNs := now)
  }

  function Step(s: State, c: Config, op: Op): State {
    match op
    case Allow(now) => AllowStep(s, c, now).0
    case Success(now) => SuccessStep(s, c, now)
    case Failure(now) => FailureStep(s, c, now)
  }

  predicate Admits(s: State, c: Config, op: Op) {
    op.Allow? && AllowStep(s, c, op.now).1
  }

  // ----- runs without a reset, and what they count

  function Run(c: Config, start: nat, ops: seq<Op>): State {
    if ops == [] then Start(start) else Step(Run(c, start, ops[..|ops| - 1]), c, ops[|ops| - 1])
  }

  /**
   The failures in a row while closed, up to the one that opened the circuit: since the last success, or since the
   circuit closed.
   */
  function FailureStreak(c: Config, start: nat, ops: seq<Op>): nat {
    if ops == [] then 0
    else
      var before, op := ops[..|ops| - 1], ops[|ops| - 1];
      if Run(c, start, before).circuit.Closed? then
        if op.Success? then 0 else FailureStreak(c, start, before) + if op.Failure? then 1 else 0
      else if Run(c, start, ops).circuit.Closed? then 0
      else FailureStreak(c, start, before)
  }

  /** When the circuit last changed. */
  function ChangedAt(c: Config, start: nat, ops: seq<Op>): nat {
    if ops == [] then start
    else
      var before, op := ops[..|ops| - 1], ops[|ops| - 1];
      if Run(c, start, before).circuit != Run(c, start, ops).circuit then op.now else ChangedAt(c, start, before)
  }

  /** The calls admitted in the current half-open episode, counting the one that began it. */
  function AdmittedInEpisode(c: Config, start: nat, ops: seq<Op>): nat {
    if ops == [] || !Run(c, start, ops).circuit.HalfOpen? then 0
    else
      var before, op := ops[..|ops| - 1], ops[|ops| - 1];
      AdmittedInEpisode(c, start, before) + if Admits(Run(c, start, before), c, op) then 1 else 0
  }

  /** The successes reported in the current half-open episode. */
  function SuccessesInEpisode(c: Config, start: nat, ops: seq<Op>): nat {
    if ops == [] || !Run(c, start, ops).circuit.HalfOpen? then 0
    else
      var before, op := ops[..|ops| - 1], ops[|ops| - 1];
      SuccessesInEpisode(c, start, before) + if op.Success? then 1 else 0
  }

  /** The calls admitted since a call last made the circuit half open, not counting that one. */
  function AdmittedSinceReopened(c: Config, start: nat, ops: seq<Op>): nat {
    if ops == [] then 0
    else
      var before, op := ops[..|ops| - 1], ops[|ops| - 1];
      var s := Run(c, start, before);
      if s.circuit.Open? && Run(c, start, ops).circuit.HalfOpen? then 0
      else AdmittedSinceReopened(c, start, before) + if Admits(s, c, op) then 1 else 0
  }

  /** The successes of the latest half-open episode, whether or not it is over. */
  function EpisodeSuccesses(c: Config, start: nat, ops: seq<Op>): nat {
    if ops == [] then 0
    else
      var before, op := ops[..|ops| - 1], ops[|ops| - 1];
      var s := Run(c, start, before);
      if s.circuit.Open? && Run(c, start, ops).circuit.HalfOpen? then 0
      else EpisodeSuccesses(c, start, before) + if s.circuit.HalfOpen? && op.Success? then 1 else 0
  }

  predicate Sensible(c: Config) {
    c.failureThreshold > 0 && c.successThreshold > 0
  }

  /** The counters mean what the run says, in every state. */
  lemma {:induction false} CountersAgree(c: Config, start: nat, ops: seq<Op>)
    requires Sensible(c)
    ensures var s := Run(c, start, ops);
            && s.changedNs == ChangedAt(c, start, ops) && s.failures == FailureStreak(c, start, ops)
            && s.requests == AdmittedSinceReopened(c, start, ops) && s.successes == EpisodeSuccesses(c, start, ops)
            && (s.circuit.Closed? ==> s.failures < c.failureThreshold)
            && (s.circuit.HalfOpen? ==>
                  && s.requests + 1 == AdmittedInEpisode(c, start, ops) <= c.halfOpenRequests + 1
                  && s.successes == SuccessesInEpisode(c, start, ops) < c.successThreshold)
  {
    if ops != [] {
      CountersAgree(c, start, ops[..|ops| - 1]);
    }
  }

  // ----- main results

  /** A closed circuit opens exactly at the failure that completes a streak of failureThreshold. */
  lemma OpensExactly(c: Config, start: nat, ops: seq<Op>, op: Op)
    requires Sensible(c) && Run(c, start, ops).circuit.Closed?
    ensures var after := Step(Run(c, start, ops), c, op);
            && !after.circuit.HalfOpen?
            && (after.circuit.Open? <==> op.Failure? && FailureStreak(c, start, ops) + 1 == c.failureThreshold)
  {
    CountersAgree(c, start, ops);
  }

  /**
   An open circuit admits a call exactly when more than timeoutMs milliseconds have passed since it
   opened; that call makes it half open, and nothing else changes it.
   */
  lemma ReopensExactly(c: Config, start: nat, ops: seq<Op>, op: Op)
    requires Sensible(c) && Run(c, start, ops).circuit.Open? && op.now >= ChangedAt(c, start, ops)
    ensures var s := Run(c, start, ops);
            var elapsedMs := (op.now - ChangedAt(c, start, ops)) / 1_000_000;
            && (Admits(s, c, op) <==> op.Allow? && elapsedMs > c.timeoutMs)
            && Step(s, c, op).circuit == if Admits(s, c, op) then HalfOpen else Open
  {
    CountersAgree(c, start, ops);
  }

  /**
   A half-open episode admits at most halfOpenRequests + 1 calls; it ends at the first failure, which
   opens the circuit, or at the successThreshold-th success, which closes it.
   */
  lemma EpisodeExactly(c: Config, start: nat, ops: seq<Op>, op: Op)
    requires Sensible(c) && Run(c, start, ops).circuit.HalfOpen?
    ensures var s := Run(c, start, ops);
            && AdmittedInEpisode(c, start, ops) <= c.halfOpenRequests + 1
            && (Admits(s, c, op) <==> op.Allow? && AdmittedInEpisode(c, start, ops) <= c.halfOpenRequests)
            && Step(s, c, op).circuit
               == if op.Failure? then Open
                  else if op.Success? && SuccessesInEpisode(c, start, ops) + 1 == c.successThreshold then Closed
                  else HalfOpen
  {
    CountersAgree(c, start, ops);
  }

  /**
   When a call is admitted, in every state a run can lead to: always while the circuit is closed; while it is open, if
   more than timeoutMs milliseconds have passed since it opened, or the clock has gone back behind that; and while it
   is half open, if at most halfOpenRequests calls were admitted in the episode. A run begins with a closed circuit.
   */
  lemma AdmitsExactly(c: Config, start: nat, ops: seq<Op>, now: nat)
    requires Sensible(c)
    ensures var s := Run(c, start, ops);
            && (ops == [] ==> s.circuit.Closed?)
            && (Admits(s, c, Allow(now)) <==>
                  match s.circuit
                  case Closed => true
                  case Open => now < ChangedAt(c, start, ops)
                               || (now - ChangedAt(c, start, ops)) / 1_000_000 > c.timeoutMs
                  case HalfOpen => AdmittedInEpisode(c, start, ops) <= c.halfOpenRequests)
            && forall op: Op :: !op.Allow? ==> !Admits(s, c, op)
  {
    CountersAgree(c, start, ops);
  }

  /** The same with the numbers that circuit_breaker_init sets; 0 stands for the default of an argument. */
  lemma ConfiguredExactly(failureThreshold: nat, timeoutMs: nat, start: nat, ops: seq<Op>, op: Op)
    ensures var c := Configure(failureThreshold, timeoutMs);
            var s, after := Run(c, start, ops), Step(Run(c, start, ops), c, op);
            match s.circuit
            case Closed =>
              after.circuit.Open? <==> op.Failure? && FailureStreak(c, start, ops) + 1
                                                      == if failureThreshold != 0 then failureThreshold else 5
            case Open =>
              after.circuit.HalfOpen? <==>
                && op.Allow?
                && (op.now < ChangedAt(c, start, ops) || (op.now - ChangedAt(c, start, ops)) / 1_000_000
                                                         > if timeoutMs != 0 then timeoutMs else 30000)
            case HalfOpen =>
              && (Admits(s, c, op) <==> op.Allow? && AdmittedInEpisode(c, start, ops) < 2)
              && (after.circuit.Closed? <==> op.Success? && SuccessesInEpisode(c, start, ops) == 2)
  {
    CountersAgree(Configure(failureThreshold, timeoutMs), start, ops);
  }

  // ----- whether the circuit can recover

  /** In every episode no more successes are reported than calls were admitted in that episode. */
  predicate OwnSuccesses(c: Config, start: nat, ops: seq<Op>) {
    ops == [] ||
    var before, op := ops[..|ops| - 1], ops[|ops| - 1];
    && OwnSuccesses(c, start, before)
    && (Run(c, start, before).circuit.HalfOpen? && op.Success? ==>
          SuccessesInEpisode(c, start, before) + 1 <= AdmittedInEpisode(c, start, before))
  }

  predicate EverOpened(c: Config, start: nat, ops: seq<Op>) {
    ops != [] && (!Run(c, start, ops).circuit.Closed? || EverOpened(c, start, ops[..|ops| - 1]))
  }

  /** If an episode admits fewer calls than successes are needed, a circuit that opened stays open or half open. */
  lemma {:induction false} NeverRecovers(c: Config, start: nat, ops: seq<Op>)
    requires Sensible(c) && c.successThreshold > c.halfOpenRequests + 1
    requires OwnSuccesses(c, start, ops) && EverOpened(c, start, ops)
    ensures !Run(c, start, ops).circuit.Closed?
  {
    var before := ops[..|ops| - 1];
    if EverOpened(c, start, before) {
      NeverRecovers(c, start, before);
      CountersAgree(c, start, before);
    }
  }

  /** Calls that all come at one time. */
  function Repeat(op: Op, n: nat): seq<Op> {
    seq(n, _ => op)
  }

  function StepAll(s: State, c: Config, ops: seq<Op>): State {
    if ops == [] then s else Step(StepAll(s, c, ops[..|ops| - 1]), c, ops[|ops| - 1])
  }

  lemma {:induction false} AllowsAdmitted(s: State, c: Config, now: nat, n: nat)
    requires s.circuit.HalfOpen? && s.requests + n <= c.halfOpenRequests
    ensures StepAll(s, c, Repeat(Allow(now), n)) == s.(requests := s.requests + n)
  {
    if n > 0 {
      AllowsAdmitted(s, c, now, n - 1);
      assert Repeat(Allow(now), n)[..n - 1] == Repeat(Allow(now), n - 1);
    }
  }

  lemma {:induction false} SuccessesCounted(s: State, c: Config, now: nat, n: nat)
    requires s.circuit.HalfOpen? && s.successes + n < c.successThreshold
    ensures StepAll(s, c, Repeat(Success(now), n)) == s.(successes := s.successes + n)
  {
    if n > 0 {
      SuccessesCounted(s, c, now, n - 1);
      assert Repeat(Success(now), n)[..n - 1] == Repeat(Success(now), n - 1);
    }
  }

  /**
   Otherwise it can recover on its own calls: a circuit that just became half open admits enough of them
   to report the successes it needs, and the last of these closes it.
   */
  lemma CanRecover(s: State, c: Config, now: nat)
    requires Sensible(c) && c.successThreshold <= c.halfOpenRequests + 1
    requires s.circuit.HalfOpen? && s.requests == 0 && s.successes == 0
    ensures var admitted := StepAll(s, c, Repeat(Allow(now), c.successThreshold - 1));
            && admitted.requests + 1 == c.successThreshold
            && StepAll(admitted, c, Repeat(Success(now), c.successThreshold)).circuit.Closed?
  {
    var n := c.successThreshold;
    AllowsAdmitted(s, c, now, n - 1);
    SuccessesCounted(s.(requests := n - 1), c, now, n - 1);
    assert Repeat(Success(now), n)[..n - 1] == Repeat(Success(now), n - 1);
  }

  /** The configuration the program sets up is one that never recovers, and its trials run out for good. */
  lemma ConfiguredNeverRecovers(failureThreshold: nat, timeoutMs: nat, start: nat, ops: seq<Op>)
    ensures var c := Configure(failureThreshold, timeoutMs);
            && Sensible(c)
            && (OwnSuccesses(c, start, ops) && EverOpened(c, start, ops) ==> !Run(c, start, ops).circuit.Closed?)
            && (Run(c, start, ops).circuit.HalfOpen? && AdmittedInEpisode(c, start, ops) == 2 ==>
                  forall now :: AllowStep(Run(c, start, ops), c, now) == (Run(c, start, ops), false))
  {
    var c := Configure(failureThreshold, timeoutMs);
    CountersAgree(c, start, ops);
    if OwnSuccesses(c, start, ops) && EverOpened(c, start, ops) {
      NeverRecovers(c, start, ops);
    }
  }

  // ----- the program's structure

  class CircuitBreaker {
    var config: Config
    var circuit: Circuit
    var failureCount: nat
    var successCount: nat
    var requestCount: nat
    var stateChangedNs: nat
    var lastFailureNs: nat

    ghost function View(): State
      reads this
    {
      State(circuit, failureCount, successCount, requestCount, stateChangedNs)
    }

    constructor (failureThreshold: nat, timeoutMs: nat, now: nat)
      ensures config == Configure(failureThreshold, timeoutMs) && View() == Start(now) && lastFailureNs == 0
    {
      config := Configure(failureThreshold, timeoutMs);
      circuit, failureCount, successCount, requestCount, stateChangedNs, lastFailureNs := Closed, 0, 0, 0, now, 0;
    }

    method AllowCall(now: nat) returns (allowed: bool)
      modifies this
      ensures config == old(config) && lastFailureNs == old(lastFailureNs)
      ensures (View(), allowed) == AllowStep(old(View()), config, now)
    {
      allowed := false;
      match circuit {
        case Closed =>
          allowed := true;
          requestCount := requestCount + 1;
        case Open =>
          if now < stateChangedNs || (now - stateChangedNs) / 1_000_000 > config.timeoutMs {
            circuit, successCount, requestCount, stateChangedNs := HalfOpen, 0, 0, now;
            allowed := true;
          }
        case HalfOpen =>
          if requestCount < config.halfOpenRequests {
            allowed := true;
            requestCount := requestCount + 1;
          }
      }
    }

    method ReportSuccess(now: nat)
      modifies this
      ensures config == old(config) && lastFailureNs == old(lastFailureNs)
      ensures View() == SuccessStep(old(View()), config, now)
    {
      match circuit {
        case Closed => failureCount := 0;
        case Open =>
        case HalfOpen =>
          successCount := successCount + 1;
          if successCount >= config.successThreshold {
            circuit, failureCount, stateChangedNs := Closed, 0, now;
          }
      }
    }

    method ReportFailure(now: nat)
      modifies this
      ensures config == old(config) && lastFailureNs == now
      ensures View() == FailureStep(old(View()), config, now)
    {
      match circuit {
        case Closed =>
          failureCount := failureCount + 1;
          if failureCount >= config.failureThreshold {
            circuit, stateChangedNs := Open, now;
          }
        case Open =>
        case HalfOpen => circuit, stateChangedNs := Open, now;
      }
      lastFailureNs := now;
    }

    /** Closes the circuit and clears its counters, but not the time of the last change. */
    method Reset()
      modifies this
      ensures config == old(config) && lastFailureNs == old(lastFailureNs)
      ensures View() == Start(old(stateChangedNs))
    {
      circuit, failureCount, successCount, requestCount := Closed, 0, 0, 0;
    }
  }
}
