/** The circuit breaker of src/fault.rs in single-threaded use: the object, its
    state machine, and what every run of it means in terms of the history of
    events alone. */
module CircuitBreaker {
  import opened Prelude

  datatype Circuit = Closed | Open | HalfOpen

  datatype Config = Config(failureThreshold: nat, successThreshold: nat, resetTimeout: nat)

  datatype View = View(state: Circuit, failures: nat, successes: nat, openedAt: Option<nat>)

  /** What happens to a breaker, with the reading of the clock at that moment. */
  datatype Event = Allow(now: nat) | Success(now: nat) | Failure(now: nat) | Reset(now: nat)

  const FRESH := View(Closed, 0, 0, None)

  predicate TimedOut(c: Config, v: View, now: nat) {
    v.openedAt.Some? && Elapsed(v.openedAt.value, now) >= c.resetTimeout
  }

  /** The answer of allows_execution. */
  predicate Allows(c: Config, v: View, now: nat) {
    v.state != Open || TimedOut(c, v, now)
  }

  function Next(c: Config, v: View, e: Event): View {
    match e
    case Allow(now) =>
      if v.state == Open && TimedOut(c, v, now) then v.(state := HalfOpen, failures := 0, successes := 0) else v
    case Success(_) =>
      if v.state == Closed then v.(failures := 0)
      else if v.state == Open then v
      else if v.successes + 1 >= c.successThreshold then FRESH
      else v.(successes := v.successes + 1)
    case Failure(now) =>
      if v.state == Open then v
      else if v.state == HalfOpen then v.(state := Open, openedAt := Some(now), successes := 0)
      else if v.failures + 1 >= c.failureThreshold then
        View(Open, v.failures + 1, 0, Some(now))
      else v.(failures := v.failures + 1)
    case Reset(_) => FRESH
  }

  function After(c: Config, h: seq<Event>): View {
    if h == [] then FRESH else Next(c, After(c, h[..|h| - 1]), h[|h| - 1])
  }

  /** What is answered after history `h`: a request gets an answer, anything else none. */
  function AnswerTo(c: Config, h: seq<Event>, e: Event): Option<bool> {
    if e.Allow? then Some(Allows(c, After(c, h), e.now)) else None
  }

  // ------------------------------------------------------------- the object

  class CircuitBreaker {
    const config: Config
    var state: Circuit
    var failureCount: nat
    var successCount: nat
    var openedAt: Option<nat>

    function Current(): View
      reads this
    {
      View(state, failureCount, successCount, openedAt)
    }

    constructor (config: Config)
      ensures Current() == FRESH && this.config == config
    {
      this.config := config;
      state, failureCount, successCount, openedAt := Closed, 0, 0, None;
    }

    method AllowsExecution(now: nat) returns (r: bool)
      modifies this
      ensures r == Allows(config, old(Current()), now)
      ensures Current() == Next(config, old(Current()), Allow(now))
    {
      if state == Closed || state == HalfOpen {
        return true;
      }
      if openedAt.Some? && Elapsed(openedAt.value, now) >= config.resetTimeout {
        state := HalfOpen;
        successCount := 0;
        failureCount := 0;
        return true;
      }
      return false;
    }

    method TransitionToOpen(now: nat)
      modifies this
      ensures Current() == old(Current()).(state := Open, openedAt := Some(now), successes := 0)
    {
      state := Open;
      openedAt := Some(now);
      successCount := 0;
    }

    method TransitionToClosed()
      modifies this
      ensures Current() == FRESH
    {
      state := Closed;
      openedAt := None;
      failureCount := 0;
      successCount := 0;
    }

    method RecordSuccess(now: nat)
      modifies this
      ensures Current() == Next(config, old(Current()), Success(now))
    {
      match state
      case Closed => failureCount := 0;
      case HalfOpen =>
        successCount := successCount + 1;
        if successCount >= config.successThreshold {
          TransitionToClosed();
        }
      case Open =>
    }

    method RecordFailure(now: nat)
      modifies this
      ensures Current() == Next(config, old(Current()), Failure(now))
    {
      match state
      case Closed =>
        failureCount := failureCount + 1;
        if failureCount >= config.failureThreshold {
          TransitionToOpen(now);
        }
      case HalfOpen => TransitionToOpen(now);
      case Open =>
    }

    method ResetNow(now: nat)
      modifies this
      ensures Current() == Next(config, old(Current()), Reset(now))
    {
      TransitionToClosed();
    }

    /** A run of calls leaves the object as the history says, and answers each request as the history before it says. */
    method Replay(h: seq<Event>) returns (answers: seq<Option<bool>>)
      requires Current() == FRESH
      modifies this
      ensures Current() == After(config, h)
      ensures |answers| == |h|
      ensures forall k :: 0 <= k < |h| ==> answers[k] == AnswerTo(config, h[..k], h[k])
    {
      answers := [];
      for k := 0 to |h|
        invariant Current() == After(config, h[..k])
        invariant |answers| == k
        invariant forall j :: 0 <= j < k ==> answers[j] == AnswerTo(config, h[..j], h[j])
      {
        assert h[..k + 1][..k] == h[..k];
        var answer := None;
        match h[k] {
          case Allow(now) =>
            var r := AllowsExecution(now);
            answer := Some(r);
          case Success(now) => RecordSuccess(now);
          case Failure(now) => RecordFailure(now);
          case Reset(now) => ResetNow(now);
        }
        answers := answers + [answer];
      }
      assert h[..|h|] == h;
    }
  }

  // -------------------------------------------------------- leaving Closed

  /** A threshold of zero acts like one, because counting precedes comparing. */
  function AtLeastOne(n: nat): nat {
    if n == 0 then 1 else n
  }

  /** Failures since the last success or reset; a fact about the history alone. */
  function Streak(h: seq<Event>): nat {
    if h == [] then 0 else
    match h[|h| - 1]
    case Failure(_) => Streak(h[..|h| - 1]) + 1
    case Allow(_) => Streak(h[..|h| - 1])
    case _ => 0
  }

  /** While the circuit is closed its counter is the streak, which is below the threshold. */
  lemma {:induction false} ClosedStreak(c: Config, h: seq<Event>)
    requires After(c, h).state == Closed
    ensures After(c, h).failures == Streak(h) < AtLeastOne(c.failureThreshold)
  {
    if h == [] {
    } else {
      var v := After(c, h[..|h| - 1]);
      if v.state == Closed {
        ClosedStreak(c, h[..|h| - 1]);
      }
    }
  }

  /** A closed circuit opens exactly on the failure that completes the streak, and never half-opens. */
  lemma OpensExactly(c: Config, h: seq<Event>, e: Event)
    requires After(c, h).state == Closed
    ensures After(c, h + [e]).state == Open <==> e.Failure? && Streak(h + [e]) == AtLeastOne(c.failureThreshold)
    ensures After(c, h + [e]).state != HalfOpen
  {
    ClosedStreak(c, h);
    assert (h + [e])[..|h|] == h;
  }

  // ---------------------------------------------------------- staying Open

  /** An open circuit was opened by a failure, and has been open since the time it recorded. */
  lemma {:induction false} OpenSince(c: Config, h: seq<Event>) returns (i: nat)
    requires After(c, h).state == Open
    ensures i < |h| && h[i].Failure? && After(c, h[..i]).state != Open
    ensures After(c, h).openedAt == Some(h[i].now) && After(c, h).successes == 0
    ensures forall j :: i < j <= |h| ==> After(c, h[..j]).state == Open
  {
    var n := |h| - 1;
    assert h[..n + 1] == h;
    if After(c, h[..n]).state != Open {
      i := n;
    } else {
      i := OpenSince(c, h[..n]);
      assert h[..n][..i] == h[..i];
      forall j | i < j <= |h|
        ensures After(c, h[..j]).state == Open
      {
        if j <= n {
          assert h[..n][..j] == h[..j];
        }
      }
    }
  }

  /** No reset, and the clock between the two readings. */
  ghost predicate NoResetWithin(h: seq<Event>, since: nat, deadline: nat) {
    forall j :: 0 <= j < |h| ==> !h[j].Reset? && since <= h[j].now < deadline
  }

  /** From opening until the timeout nothing but a reset gets through: the circuit
      stays open and refuses every request. */
  lemma {:induction false} RefusesUntilTimeout(c: Config, h: seq<Event>, later: seq<Event>, now: nat)
    requires After(c, h).state == Open && After(c, h).openedAt.Some?
    requires
      var since := After(c, h).openedAt.value;
      since <= now < since + c.resetTimeout && NoResetWithin(later, since, since + c.resetTimeout)
    ensures After(c, h + later) == After(c, h)
    ensures !Allows(c, After(c, h + later), now)
  {
    if later == [] {
      assert h + later == h;
    } else {
      var n := |later| - 1;
      RefusesUntilTimeout(c, h, later[..n], later[n].now);
      assert (h + later)[..|h| + n] == h + later[..n];
    }
  }

  /** A request is let through exactly if the circuit is not open, or has been
      open for the reset timeout since the failure that opened it. */
  lemma AnswerExactly(c: Config, h: seq<Event>, now: nat) returns (i: nat)
    ensures After(c, h).state == Closed || After(c, h).state == HalfOpen ==> AnswerTo(c, h, Allow(now)) == Some(true)
    ensures After(c, h).state == Open ==>
      && i < |h| && h[i].Failure? && After(c, h[..i]).state != Open
      && (forall j :: i < j <= |h| ==> After(c, h[..j]).state == Open)
      && AnswerTo(c, h, Allow(now)) == Some(c.resetTimeout == 0 || h[i].now + c.resetTimeout <= now)
  {
    i := 0;
    if After(c, h).state == Open {
      i := OpenSince(c, h);
    }
  }

  /** An open circuit becomes half-open exactly on a request once the reset
      timeout has passed since the failure that opened it, and closes only by a reset. */
  lemma LeavesOpen(c: Config, h: seq<Event>, e: Event) returns (i: nat)
    requires After(c, h).state == Open
    ensures i < |h| && h[i].Failure? && After(c, h[..i]).state != Open
    ensures forall j :: i < j <= |h| ==> After(c, h[..j]).state == Open
    ensures After(c, h + [e]).state == HalfOpen <==>
            e.Allow? && (c.resetTimeout == 0 || h[i].now + c.resetTimeout <= e.now)
    ensures After(c, h + [e]).state == Closed <==> e.Reset?
  {
    i := OpenSince(c, h);
    assert (h + [e])[..|h|] == h;
  }

  // ------------------------------------------------------- leaving HalfOpen

  function CountSuccesses(h: seq<Event>): nat {
    if h == [] then 0 else CountSuccesses(h[..|h| - 1]) + (if h[|h| - 1].Success? then 1 else 0)
  }

  ghost predicate OnlySuccesses(h: seq<Event>) {
    forall j :: 0 <= j < |h| ==> h[j].Success? || h[j].Allow?
  }

  /** A half-open circuit was entered by a request to an open one, and since
      then has seen only requests and fewer successes than the threshold. */
  lemma {:induction false} HalfOpenSince(c: Config, h: seq<Event>) returns (i: nat)
    requires After(c, h).state == HalfOpen
    ensures i < |h| && h[i].Allow? && After(c, h[..i]).state == Open
    ensures OnlySuccesses(h[i + 1..])
    ensures After(c, h).successes == CountSuccesses(h[i + 1..]) < AtLeastOne(c.successThreshold)
    ensures After(c, h).failures == 0
  {
    var n := |h| - 1;
    if After(c, h[..n]).state == Open {
      i := n;
      assert h[n + 1..] == [];
    } else {
      i := HalfOpenSince(c, h[..n]);
      assert h[..n][..i] == h[..i];
      assert h[i + 1..][..n - i - 1] == h[..n][i + 1..];
      assert h[i + 1..][n - i - 1] == h[n];
    }
  }

  /** A half-open circuit closes only by a reset, or on the success that
      completes the threshold with no failure since it was entered; a failure
      opens it again. */
  lemma ClosesExactly(c: Config, h: seq<Event>, e: Event) returns (i: nat)
    requires After(c, h).state == HalfOpen
    ensures i < |h| && h[i].Allow? && After(c, h[..i]).state == Open && OnlySuccesses(h[i + 1..])
    ensures After(c, h + [e]).state == Closed <==>
            e.Reset? || (e.Success? && CountSuccesses(h[i + 1..] + [e]) == AtLeastOne(c.successThreshold))
    ensures After(c, h + [e]).state == Open <==> e.Failure?
  {
    i := HalfOpenSince(c, h);
    assert (h + [e])[..|h|] == h;
    var since := h[i + 1..];
    assert (since + [e])[..|since|] == since;
  }
}
