/** What an operation on the circuit breaker of src/fault.rs does that no other thread disturbs.

    While no lock is held, a thread that moves alone does what the state machine
    of module CircuitBreaker prescribes for the event, and answers as it does.
 */
module CircuitAlone {
  import opened Prelude
  import opened CircuitBreaker
  import opened CircuitThreads

  function ViewOf(s: State): View {
    View(s.circuit, s.failures, s.successes, s.openedAt)
  }

  function EventOf(call: Call, now: nat): Event {
    match call
    case CallAllow => Allow(now)
    case CallSuccess => Success(now)
    case CallFailure => Failure(now)
    case CallReset => Reset(now)
  }

  /** Step `i` of a path is a step of thread `t`, inside its operation until the last one. */
  ghost predicate NextOn(c: Config, path: seq<State>, i: nat, t: nat, call: Call, now: nat)
    requires i + 1 < |path|
  {
    Step(c, path[i], t, call, now) == Some(path[i + 1]) && (PcOf(path[i + 1], t) == Idle <==> i + 2 == |path|)
  }

  /** Thread `t` alone returns from `s`, leaving behind the view `v` and no
      lock, having given `answers`; no other thread has moved. */
  ghost predicate ReturnsAlone(c: Config, s: State, path: seq<State>, t: nat, call: Call, now: nat,
                               v: View, answers: seq<bool>) {
    && |path| >= 2 && path[0] == s
    && (forall i :: 0 <= i < |path| - 1 ==> NextOn(c, path, i, t, call, now))
    && var end := path[|path| - 1];
       && ViewOf(end) == v && NoLocks(end)
       && end.answers == s.answers + answers
       && end.pcs == s.pcs[t := Idle]
  }

  lemma OneStepAlone(c: Config, s: State, s': State, path: seq<State>, t: nat, call: Call, now: nat,
                     v: View, answers: seq<bool>) returns (path': seq<State>)
    requires Step(c, s, t, call, now) == Some(s') && PcOf(s', t) != Idle
    requires s'.pcs == s.pcs[t := PcOf(s', t)] && s'.answers == s.answers
    requires ReturnsAlone(c, s', path, t, call, now, v, answers)
    ensures ReturnsAlone(c, s, path', t, call, now, v, answers)
  {
    path' := [s] + path;
    assert s'.pcs[t := Idle] == s.pcs[t := Idle];
    forall i | 0 <= i < |path'| - 1
      ensures NextOn(c, path', i, t, call, now)
    {
      if i > 0 {
        assert NextOn(c, path, i - 1, t, call, now);
        assert path'[i] == path[i - 1] && path'[i + 1] == path[i];
      }
    }
  }

  lemma LastStepAlone(c: Config, s: State, s': State, t: nat, call: Call, now: nat, v: View, answers: seq<bool>)
    returns (path: seq<State>)
    requires Step(c, s, t, call, now) == Some(s') && s'.pcs == s.pcs[t := Idle]
    requires ViewOf(s') == v && NoLocks(s') && s'.answers == s.answers + answers
    ensures ReturnsAlone(c, s, path, t, call, now, v, answers)
  {
    path := [s, s'];
    assert NextOn(c, path, 0, t, call, now);
  }

  // ------------------------------------------------------------- transitions

  lemma OpensAlone(c: Config, s: State, t: nat, call: Call, now: nat) returns (path: seq<State>)
    requires PcOf(s, t) == WantOpen && NoLocks(s)
    ensures ReturnsAlone(c, s, path, t, call, now, View(Open, s.failures, 0, Some(now)), [])
  {
    var v := View(Open, s.failures, 0, Some(now));
    var s1 := Step(c, s, t, call, now).value;
    var s2 := Step(c, s1, t, call, now).value;
    var s3 := Step(c, s2, t, call, now).value;
    path := LastStepAlone(c, s2, s3, t, call, now, v, []);
    path := OneStepAlone(c, s1, s2, path, t, call, now, v, []);
    path := OneStepAlone(c, s, s1, path, t, call, now, v, []);
  }

  lemma ClosesAlone(c: Config, s: State, t: nat, call: Call, now: nat) returns (path: seq<State>)
    requires PcOf(s, t) == WantClosed && NoLocks(s)
    ensures ReturnsAlone(c, s, path, t, call, now, FRESH, [])
  {
    var s1 := Step(c, s, t, call, now).value;
    var s2 := Step(c, s1, t, call, now).value;
    var s3 := Step(c, s2, t, call, now).value;
    path := LastStepAlone(c, s2, s3, t, call, now, FRESH, []);
    path := OneStepAlone(c, s1, s2, path, t, call, now, FRESH, []);
    path := OneStepAlone(c, s, s1, path, t, call, now, FRESH, []);
  }

  lemma HalfOpensAlone(c: Config, s: State, t: nat, call: Call, now: nat) returns (path: seq<State>)
    requires PcOf(s, t) == WantHalf && NoLocks(s)
    ensures ReturnsAlone(c, s, path, t, call, now, View(HalfOpen, 0, 0, s.openedAt), [true])
  {
    var v := View(HalfOpen, 0, 0, s.openedAt);
    var s1 := Step(c, s, t, call, now).value;
    var s2 := Step(c, s1, t, call, now).value;
    path := LastStepAlone(c, s1, s2, t, call, now, v, [true]);
    path := OneStepAlone(c, s, s1, path, t, call, now, v, [true]);
  }

  // -------------------------------------------------------------- operations

  /** A request that saw the circuit open. */
  lemma AsksAlone(c: Config, s: State, t: nat, call: Call, now: nat) returns (path: seq<State>)
    requires PcOf(s, t) == WantOpenedAt && NoLocks(s) && s.circuit == Open
    ensures ReturnsAlone(c, s, path, t, call, now, Next(c, ViewOf(s), Allow(now)), [Allows(c, ViewOf(s), now)])
  {
    var v, answers := Next(c, ViewOf(s), Allow(now)), [Allows(c, ViewOf(s), now)];
    var s1 := Step(c, s, t, call, now).value;
    var s2 := Step(c, s1, t, call, now).value;
    assert s.openedAtReaders + {t} - {t} == {};
    if PcOf(s2, t) == WantHalf {
      path := HalfOpensAlone(c, s2, t, call, now);
      path := OneStepAlone(c, s1, s2, path, t, call, now, v, answers);
    } else {
      path := LastStepAlone(c, s1, s2, t, call, now, v, answers);
    }
    path := OneStepAlone(c, s, s1, path, t, call, now, v, answers);
  }

  /** A success or failure after it has seen the circuit's state. */
  lemma CountsAlone(c: Config, s: State, t: nat, call: Call, now: nat, v: View) returns (path: seq<State>)
    requires NoLocks(s) && s.failures + 1 < U64 && s.successes + 1 < U64
    requires || (PcOf(s, t) == ClearFailures && v == Next(c, ViewOf(s), Success(now)) && s.circuit == Closed)
             || (PcOf(s, t) == CountSuccess && v == Next(c, ViewOf(s), Success(now)) && s.circuit == HalfOpen)
             || (PcOf(s, t) == CountFailure && v == Next(c, ViewOf(s), Failure(now)) && s.circuit == Closed)
    ensures ReturnsAlone(c, s, path, t, call, now, v, [])
  {
    var s1 := Step(c, s, t, call, now).value;
    if PcOf(s1, t) == WantClosed {
      path := ClosesAlone(c, s1, t, call, now);
      path := OneStepAlone(c, s, s1, path, t, call, now, v, []);
    } else if PcOf(s1, t) == WantOpen {
      path := OpensAlone(c, s1, t, call, now);
      path := OneStepAlone(c, s, s1, path, t, call, now, v, []);
    } else {
      path := LastStepAlone(c, s, s1, t, call, now, v, []);
    }
  }

  function AnswersTo(c: Config, v: View, e: Event): seq<bool> {
    if e.Allow? then [Allows(c, v, e.now)] else []
  }

  /** An operation about to read the state. */
  lemma ReadsAlone(c: Config, s: State, t: nat, call: Call, now: nat) returns (path: seq<State>)
    requires NoLocks(s) && s.failures + 1 < U64 && s.successes + 1 < U64
    requires call != CallReset && PcOf(s, t) == WantState(call)
    ensures
      var e := EventOf(call, now);
      ReturnsAlone(c, s, path, t, call, now, Next(c, ViewOf(s), e), AnswersTo(c, ViewOf(s), e))
  {
    var e := EventOf(call, now);
    var v, answers := Next(c, ViewOf(s), e), AnswersTo(c, ViewOf(s), e);
    var s1 := Step(c, s, t, call, now).value;
    if PcOf(s1, t) == Idle {
      path := LastStepAlone(c, s, s1, t, call, now, v, answers);
    } else {
      if PcOf(s1, t) == WantOpenedAt {
        path := AsksAlone(c, s1, t, call, now);
      } else if PcOf(s1, t) == WantOpen {
        path := OpensAlone(c, s1, t, call, now);
      } else {
        path := CountsAlone(c, s1, t, call, now, v);
      }
      path := OneStepAlone(c, s, s1, path, t, call, now, v, answers);
    }
  }

  /** Every operation that begins while no lock is held and is not disturbed
      does and answers what the state machine of one thread does. */
  lemma OperationUndisturbed(c: Config, s: State, t: nat, call: Call, now: nat) returns (path: seq<State>)
    requires PcOf(s, t) == Idle && NoLocks(s) && s.failures + 1 < U64 && s.successes + 1 < U64
    ensures
      var e := EventOf(call, now);
      ReturnsAlone(c, s, path, t, call, now, Next(c, ViewOf(s), e), AnswersTo(c, ViewOf(s), e))
  {
    var e := EventOf(call, now);
    var s1 := Step(c, s, t, call, now).value;
    if call == CallReset {
      path := ClosesAlone(c, s1, t, call, now);
    } else {
      path := ReadsAlone(c, s1, t, call, now);
    }
    path := OneStepAlone(c, s, s1, path, t, call, now, Next(c, ViewOf(s), e), AnswersTo(c, ViewOf(s), e));
  }
}
