/** The circuit breaker of src/fault.rs under threads.

    The state and the opening time sit behind two reader-writer locks, the
    counts in atomics.  An operation first reads the state under the state lock
    and releases it, so another thread may move the breaker before the decision
    is acted on.  Transitions hold the state lock while they take the lock on
    the opening time.
 */
module CircuitThreads {
  import opened Prelude
  import opened CircuitBreaker

  datatype Call = CallAllow | CallSuccess | CallFailure | CallReset

  /** Where a thread stands.  `Want` points wait for a lock, `Have` points hold one or both. */
  datatype Pc =
    | Idle
    | WantState(call: Call)      // about to read the state
    | WantOpenedAt               // allows_execution saw Open
    | HaveOpenedAt               // holds the opening time for reading
    | WantHalf                   // timed out; waits to write the state
    | HaveHalf                   // holds the state lock, HalfOpen written
    | ClearFailures              // record_success saw Closed
    | CountSuccess               // record_success saw HalfOpen
    | CountFailure               // record_failure saw Closed
    | WantOpen | HaveOpen | HaveOpenBoth
    | WantClosed | HaveClosed | HaveClosedBoth

  datatype State = State(
    circuit: Circuit,
    openedAt: Option<nat>,
    failures: nat,
    successes: nat,
    stateWriter: Option<nat>,       // who holds the state lock for writing
    openedAtWriter: Option<nat>,    // who holds the opening-time lock for writing
    openedAtReaders: set<nat>,      // who holds it for reading
    pcs: map<nat, Pc>,
    answers: seq<bool>)             // a record: the answers to requests, in the order they were given

  const START := State(Closed, None, 0, 0, None, None, {}, map[], [])

  function PcOf(s: State, t: nat): Pc {
    if t in s.pcs then s.pcs[t] else Idle
  }

  function Goto(s: State, t: nat, pc: Pc): State {
    s.(pcs := s.pcs[t := pc])
  }

  /** A request returns with its answer. */
  function Reply(s: State, t: nat, answer: bool): State {
    Goto(s.(answers := s.answers + [answer]), t, Idle)
  }

  /** The state lock is free for readers; reading takes and releases it in one step. */
  function ReadState(s: State, t: nat, call: Call): Option<State> {
    if s.stateWriter.Some? then None
    else if call == CallAllow && s.circuit != Open then Some(Reply(s, t, true)) else
    Some(Goto(s, t,
      match call
      case CallAllow => WantOpenedAt
      case CallSuccess =>
        if s.circuit == Closed then ClearFailures else if s.circuit == HalfOpen then CountSuccess else Idle
      case CallFailure => if s.circuit == Closed then CountFailure else if s.circuit == HalfOpen then WantOpen else Idle
      case CallReset => WantClosed))
  }

  function TakeStateLock(s: State, t: nat, circuit: Circuit, pc: Pc): Option<State> {
    if s.stateWriter.Some? then None
    else Some(Goto(s.(stateWriter := Some(t), circuit := circuit), t, pc))
  }

  function TakeOpenedAtLock(s: State, t: nat, openedAt: Option<nat>, pc: Pc): Option<State> {
    if s.openedAtWriter.Some? || s.openedAtReaders != {} then None
    else Some(Goto(s.(openedAtWriter := Some(t), openedAt := openedAt), t, pc))
  }

  /** The next state if thread `t` moves at time `now`, or None if it waits for a lock. */
  function Step(c: Config, s: State, t: nat, call: Call, now: nat): Option<State> {
    match PcOf(s, t)
    case Idle => Some(Goto(s, t, if call == CallReset then WantClosed else WantState(call)))
    case WantState(k) => ReadState(s, t, k)
    case WantOpenedAt =>
      if s.openedAtWriter.Some? then None
      else Some(Goto(s.(openedAtReaders := s.openedAtReaders + {t}), t, HaveOpenedAt))
    case HaveOpenedAt =>
      var timedOut := s.openedAt.Some? && Elapsed(s.openedAt.value, now) >= c.resetTimeout;
      var s' := s.(openedAtReaders := s.openedAtReaders - {t});
      Some(if timedOut then Goto(s', t, WantHalf) else Reply(s', t, false))
    case WantHalf => TakeStateLock(s, t, HalfOpen, HaveHalf)
    case HaveHalf => Some(Reply(s.(successes := 0, failures := 0, stateWriter := None), t, true))
    case ClearFailures => Some(Goto(s.(failures := 0), t, Idle))
    case CountSuccess =>
      var n := (s.successes + 1) % U64;
      Some(Goto(s.(successes := n), t, if n >= c.successThreshold then WantClosed else Idle))
    case CountFailure =>
      var n := (s.failures + 1) % U64;
      Some(Goto(s.(failures := n), t, if n >= c.failureThreshold then WantOpen else Idle))
    case WantOpen => TakeStateLock(s, t, Open, HaveOpen)
    case HaveOpen => TakeOpenedAtLock(s, t, Some(now), HaveOpenBoth)
    case HaveOpenBoth => Some(Goto(s.(successes := 0, openedAtWriter := None, stateWriter := None), t, Idle))
    case WantClosed => TakeStateLock(s, t, Closed, HaveClosed)
    case HaveClosed => TakeOpenedAtLock(s, t, None, HaveClosedBoth)
    case HaveClosedBoth =>
      Some(Goto(s.(failures := 0, successes := 0, openedAtWriter := None, stateWriter := None), t, Idle))
  }

  datatype Move = Move(t: nat, call: Call, now: nat)

  /** A thread that has to wait stays where it is. */
  function Advance(c: Config, s: State, m: Move): State {
    var s' := Step(c, s, m.t, m.call, m.now);
    if s'.Some? then s'.value else s
  }

  function RunFrom(c: Config, s: State, schedule: seq<Move>): State {
    if schedule == [] then s
    else Advance(c, RunFrom(c, s, schedule[..|schedule| - 1]), schedule[|schedule| - 1])
  }

  function Run(c: Config, schedule: seq<Move>): State {
    RunFrom(c, START, schedule)
  }

  // --------------------------------------------------------------- invariant

  predicate HoldsState(pc: Pc) {
    pc in {HaveHalf, HaveOpen, HaveOpenBoth, HaveClosed, HaveClosedBoth}
  }

  predicate HoldsOpenedAt(pc: Pc) {
    pc in {HaveOpenBoth, HaveClosedBoth}
  }

  /** Locks are held by exactly the threads whose program counter says so. */
  ghost predicate LocksMatch(s: State) {
    forall t: nat ::
      && (HoldsState(PcOf(s, t)) <==> s.stateWriter == Some(t))
      && (HoldsOpenedAt(PcOf(s, t)) <==> s.openedAtWriter == Some(t))
      && (PcOf(s, t) == HaveOpenedAt <==> t in s.openedAtReaders)
  }

  /** What the writer has done so far; without a writer, an open circuit has an
      opening time and a closed one has none. */
  predicate DataMatch(s: State) {
    match s.stateWriter
    case None => (s.circuit == Open ==> s.openedAt.Some?) && (s.circuit == Closed ==> s.openedAt.None?)
    case Some(w) =>
      match PcOf(s, w)
      case HaveHalf => s.circuit == HalfOpen
      case HaveOpen => s.circuit == Open
      case HaveOpenBoth => s.circuit == Open && s.openedAt.Some?
      case HaveClosedBoth => s.circuit == Closed && s.openedAt.None?
      case _ => s.circuit == Closed
  }

  ghost predicate Inv(s: State) {
    LocksMatch(s) && DataMatch(s)
  }

  /** What a step does to the locks and to its own program counter. */
  lemma LocksStep(c: Config, s: State, t: nat, call: Call, now: nat)
    requires LocksMatch(s) && Step(c, s, t, call, now).Some?
    ensures
      var s' := Step(c, s, t, call, now).value;
      var pc := PcOf(s', t);
      && s'.pcs == s.pcs[t := pc]
      && s'.stateWriter ==
           (if HoldsState(pc) then Some(t) else if s.stateWriter == Some(t) then None else s.stateWriter)
      && s'.openedAtWriter ==
           (if HoldsOpenedAt(pc) then Some(t) else if s.openedAtWriter == Some(t) then None else s.openedAtWriter)
      && s'.openedAtReaders == (if pc == HaveOpenedAt then s.openedAtReaders + {t} else s.openedAtReaders - {t})
      && (HoldsState(pc) ==> s.stateWriter.None? || s.stateWriter == Some(t))
      && (HoldsOpenedAt(pc) ==> s.openedAtWriter.None? || s.openedAtWriter == Some(t))
  {
  }

  lemma LocksKept(c: Config, s: State, t: nat, call: Call, now: nat)
    requires LocksMatch(s) && Step(c, s, t, call, now).Some?
    ensures LocksMatch(Step(c, s, t, call, now).value)
  {
    var s' := Step(c, s, t, call, now).value;
    LocksStep(c, s, t, call, now);
    forall u: nat
      ensures
        && (HoldsState(PcOf(s', u)) <==> s'.stateWriter == Some(u))
        && (HoldsOpenedAt(PcOf(s', u)) <==> s'.openedAtWriter == Some(u))
        && (PcOf(s', u) == HaveOpenedAt <==> u in s'.openedAtReaders)
    {
      assert u != t ==> PcOf(s', u) == PcOf(s, u);
    }
  }

  lemma DataKept(c: Config, s: State, t: nat, call: Call, now: nat)
    requires Inv(s) && Step(c, s, t, call, now).Some?
    ensures DataMatch(Step(c, s, t, call, now).value)
  {
    var s' := Step(c, s, t, call, now).value;
    if s.stateWriter.Some? && s.stateWriter.value != t {
      var w := s.stateWriter.value;
      assert PcOf(s', w) == PcOf(s, w);
      assert HoldsState(PcOf(s, w)) && !HoldsState(PcOf(s, t)) && !HoldsOpenedAt(PcOf(s, t));
    }
  }

  lemma InvKept(c: Config, s: State, m: Move)
    requires Inv(s)
    ensures Inv(Advance(c, s, m))
  {
    if Step(c, s, m.t, m.call, m.now).Some? {
      LocksKept(c, s, m.t, m.call, m.now);
      DataKept(c, s, m.t, m.call, m.now);
    }
  }

  lemma {:induction false} AlwaysInv(c: Config, schedule: seq<Move>)
    ensures Inv(Run(c, schedule))
  {
    if schedule == [] {
    } else {
      var n := |schedule| - 1;
      AlwaysInv(c, schedule[..n]);
      InvKept(c, Run(c, schedule[..n]), schedule[n]);
    }
  }

  /** Under every interleaving, whenever nobody holds the state lock for writing
      an open circuit has an opening time, so allows_execution can time it out,
      and a closed one has none. */
  lemma OpenHasTime(c: Config, schedule: seq<Move>)
    ensures
      var s := Run(c, schedule);
      s.stateWriter.None? ==> (s.circuit == Open ==> s.openedAt.Some?) && (s.circuit == Closed ==> s.openedAt.None?)
  {
    AlwaysInv(c, schedule);
  }

  /** The lock order never deadlocks: if some thread is inside an operation, some thread inside one can move. */
  lemma NoDeadlock(c: Config, schedule: seq<Move>, t: nat, call: Call, now: nat)
    requires PcOf(Run(c, schedule), t) != Idle
    ensures exists u :: PcOf(Run(c, schedule), u) != Idle && Step(c, Run(c, schedule), u, call, now).Some?
  {
    var s := Run(c, schedule);
    AlwaysInv(c, schedule);
    var u := t;
    if s.openedAtWriter.Some? {
      u := s.openedAtWriter.value;
    } else if s.openedAtReaders != {} {
      u :| u in s.openedAtReaders;
    } else if s.stateWriter.Some? {
      u := s.stateWriter.value;
    }
    assert PcOf(s, u) != Idle && Step(c, s, u, call, now).Some?;
  }

  // -------------------------------------------------- half-opening after a reset

  ghost predicate Reachable(c: Config, s: State) {
    exists schedule :: Run(c, schedule) == s
  }

  /** A continuation that half-opens the circuit without its being opened on the way. */
  ghost predicate HalfOpensUnopened(c: Config, s: State, later: seq<Move>) {
    && RunFrom(c, s, later).circuit == HalfOpen
    && forall k :: 0 <= k <= |later| ==> RunFrom(c, s, later[..k]).circuit != Open
  }

  /** Closed for good, unless failures open the circuit again. */
  ghost predicate Calm(s: State) {
    Inv(s) && s.circuit == Closed && s.openedAt.None? && forall t: nat :: PcOf(s, t) != WantHalf
  }

  lemma CalmKept(c: Config, s: State, m: Move)
    requires Calm(s) && Advance(c, s, m).circuit != Open
    ensures Calm(Advance(c, s, m))
  {
    var s' := Advance(c, s, m);
    InvKept(c, s, m);
    assert !HoldsState(PcOf(s, m.t)) || PcOf(s, m.t) in {HaveClosed, HaveClosedBoth};
    assert forall u :: u != m.t ==> PcOf(s', u) == PcOf(s, u);
  }

  lemma {:induction false} StaysCalm(c: Config, s: State, later: seq<Move>)
    requires Calm(s) && forall k :: 0 <= k <= |later| ==> RunFrom(c, s, later[..k]).circuit != Open
    ensures Calm(RunFrom(c, s, later))
  {
    if later == [] {
    } else {
      var n := |later| - 1;
      forall k | 0 <= k <= n
        ensures RunFrom(c, s, later[..n][..k]).circuit != Open
      {
        assert later[..n][..k] == later[..k];
      }
      StaysCalm(c, s, later[..n]);
      assert later[..n + 1] == later;
      CalmKept(c, RunFrom(c, s, later[..n]), later[n]);
    }
  }

  /** A closed circuit can be half-opened without being opened first exactly if
      some request that saw it open, and timed out, is still in flight. */
  lemma StaleHalfOpenIff(c: Config, s: State)
    requires Reachable(c, s) && s.stateWriter.None? && s.circuit == Closed
    ensures (exists later :: HalfOpensUnopened(c, s, later)) <==> (exists t: nat :: PcOf(s, t) == WantHalf)
  {
    var schedule :| Run(c, schedule) == s;
    AlwaysInv(c, schedule);
    if t: nat :| PcOf(s, t) == WantHalf {
      var later := [Move(t, CallAllow, 0)];
      assert later[..0] == [] && later[..1] == later;
      assert HalfOpensUnopened(c, s, later);
    } else if later :| HalfOpensUnopened(c, s, later) {
      StaysCalm(c, s, later);
    }
  }

  /** The points of allows_execution after it has seen the circuit open. */
  predicate SawOpen(pc: Pc) {
    pc in {WantOpenedAt, HaveOpenedAt, WantHalf}
  }

  /** Thread `t` read the state at step `i` of the schedule, saw Open, and has been in that call ever since. */
  ghost predicate SeesOpenAt(c: Config, schedule: seq<Move>, t: nat, i: nat) {
    && i < |schedule| && schedule[i].t == t
    && PcOf(Run(c, schedule[..i]), t) == WantState(CallAllow) && Run(c, schedule[..i]).circuit == Open
    && forall j :: i < j <= |schedule| ==> SawOpen(PcOf(Run(c, schedule[..j]), t))
  }

  /** Thread `t` read the opening time at step `k`, found the timeout over, and has been about to half-open since. */
  ghost predicate TimesOutAt(c: Config, schedule: seq<Move>, t: nat, k: nat) {
    && k < |schedule| && schedule[k].t == t
    && (forall j :: k < j <= |schedule| ==> PcOf(Run(c, schedule[..j]), t) == WantHalf)
    && var s := Run(c, schedule[..k]);
       PcOf(s, t) == HaveOpenedAt && s.openedAt.Some? && Elapsed(s.openedAt.value, schedule[k].now) >= c.resetTimeout
  }

  /** How a thread gets to those points. */
  lemma SeesOpenStep(c: Config, s: State, m: Move, t: nat)
    ensures
      var pc, pc' := PcOf(s, t), PcOf(Advance(c, s, m), t);
      && (SawOpen(pc') && !SawOpen(pc) ==> m.t == t && pc == WantState(CallAllow) && s.circuit == Open)
      && (pc' == WantHalf && pc != WantHalf ==>
            && m.t == t && pc == HaveOpenedAt
            && s.openedAt.Some? && Elapsed(s.openedAt.value, m.now) >= c.resetTimeout)
  {
  }

  lemma SeesOpenLonger(c: Config, schedule: seq<Move>, t: nat, i: nat)
    requires schedule != [] && SeesOpenAt(c, schedule[..|schedule| - 1], t, i)
    requires SawOpen(PcOf(Run(c, schedule), t))
    ensures SeesOpenAt(c, schedule, t, i)
  {
    var n := |schedule| - 1;
    assert schedule[..n][..i] == schedule[..i];
    forall j | i < j <= |schedule|
      ensures SawOpen(PcOf(Run(c, schedule[..j]), t))
    {
      assert if j <= n then schedule[..n][..j] == schedule[..j] else schedule[..j] == schedule;
    }
  }

  lemma {:induction false} SawOpenSince(c: Config, schedule: seq<Move>, t: nat) returns (i: nat)
    requires SawOpen(PcOf(Run(c, schedule), t))
    ensures SeesOpenAt(c, schedule, t, i)
  {
    var n := |schedule| - 1;
    SeesOpenStep(c, Run(c, schedule[..n]), schedule[n], t);
    if SawOpen(PcOf(Run(c, schedule[..n]), t)) {
      i := SawOpenSince(c, schedule[..n], t);
      SeesOpenLonger(c, schedule, t, i);
    } else {
      i := n;
      assert schedule[..n + 1] == schedule;
    }
  }

  lemma TimesOutLonger(c: Config, schedule: seq<Move>, t: nat, k: nat)
    requires schedule != [] && TimesOutAt(c, schedule[..|schedule| - 1], t, k)
    requires PcOf(Run(c, schedule), t) == WantHalf
    ensures TimesOutAt(c, schedule, t, k)
  {
    var n := |schedule| - 1;
    assert schedule[..n][..k] == schedule[..k];
    forall j | k < j <= |schedule|
      ensures PcOf(Run(c, schedule[..j]), t) == WantHalf
    {
      assert if j <= n then schedule[..n][..j] == schedule[..j] else schedule[..j] == schedule;
    }
  }

  lemma {:induction false} TimedOutSince(c: Config, schedule: seq<Move>, t: nat) returns (k: nat)
    requires PcOf(Run(c, schedule), t) == WantHalf
    ensures TimesOutAt(c, schedule, t, k)
  {
    var n := |schedule| - 1;
    SeesOpenStep(c, Run(c, schedule[..n]), schedule[n], t);
    if PcOf(Run(c, schedule[..n]), t) == WantHalf {
      k := TimedOutSince(c, schedule[..n], t);
      TimesOutLonger(c, schedule, t, k);
    } else {
      k := n;
      assert schedule[..n + 1] == schedule;
    }
  }

  /** Under every interleaving, a thread about to half-open the circuit has, in
      this same call, seen it open and then read an opening time at least the
      reset timeout old. */
  lemma HalfOpenerTimedOut(c: Config, schedule: seq<Move>, t: nat) returns (i: nat, k: nat)
    requires PcOf(Run(c, schedule), t) == WantHalf
    ensures i < k && SeesOpenAt(c, schedule, t, i) && TimesOutAt(c, schedule, t, k)
  {
    i := SawOpenSince(c, schedule, t);
    k := TimedOutSince(c, schedule, t);
  }

  // -------------------------------------------- such a request exists, for every configuration

  lemma ReachableStep(c: Config, s: State, t: nat, call: Call, now: nat)
    requires Reachable(c, s) && Step(c, s, t, call, now).Some?
    ensures Reachable(c, Step(c, s, t, call, now).value)
  {
    var schedule :| Run(c, schedule) == s;
    var longer := schedule + [Move(t, call, now)];
    assert longer[..|schedule|] == schedule;
    assert Run(c, longer) == Step(c, s, t, call, now).value;
  }

  lemma GotoTwice(s: State, t: nat, pc: Pc, pc': Pc)
    ensures Goto(Goto(s, t, pc), t, pc') == Goto(s, t, pc')
  {
    assert s.pcs[t := pc][t := pc'] == s.pcs[t := pc'];
  }

  predicate NoLocks(s: State) {
    s.stateWriter == None && s.openedAtWriter == None && s.openedAtReaders == {}
  }

  /** A failure sees the closed circuit. */
  lemma FailureSeen(c: Config, s: State, t: nat)
    requires Reachable(c, s) && NoLocks(s) && s.circuit == Closed && PcOf(s, t) == Idle
    ensures Reachable(c, Goto(s, t, CountFailure))
  {
    ReachableStep(c, s, t, CallFailure, 0);
    ReachableStep(c, Goto(s, t, WantState(CallFailure)), t, CallFailure, 0);
    GotoTwice(s, t, WantState(CallFailure), CountFailure);
  }

  lemma CountsOne(c: Config, s: State, t: nat)
    requires PcOf(s, t) == CountFailure && s.failures + 1 < U64
    ensures
      var n := s.failures + 1;
      Step(c, s, t, CallFailure, 0)
      == Some(Goto(s.(failures := n), t, if n >= c.failureThreshold then WantOpen else Idle))
  {
  }

  /** One failure in a closed circuit, up to the decision to open it. */
  lemma FailureCounts(c: Config, s: State, t: nat)
    requires Reachable(c, s) && s.failures + 1 < U64
    requires NoLocks(s) && s.circuit == Closed && PcOf(s, t) == Idle
    ensures
      var n := s.failures + 1;
      Reachable(c, Goto(s.(failures := n), t, if n >= c.failureThreshold then WantOpen else Idle))
  {
    var n := s.failures + 1;
    var pc' := if n >= c.failureThreshold then WantOpen else Idle;
    var s1 := Goto(s, t, CountFailure);
    FailureSeen(c, s, t);
    GotoTwice(s.(failures := n), t, CountFailure, pc');
    CountsOne(c, s1, t);
    ReachableStep(c, s1, t, CallFailure, 0);
  }

  /** Failures of thread 0 alone, one short of `n`. */
  lemma {:induction false} FailuresAddUp(c: Config, n: nat) returns (s: State)
    requires n < U64 && n < AtLeastOne(c.failureThreshold)
    ensures Reachable(c, s) && NoLocks(s) && s.circuit == Closed && s.failures == n
    ensures PcOf(s, 0) == Idle && PcOf(s, 1) == Idle
  {
    if n == 0 {
      s := START;
      assert Run(c, []) == s;
    } else {
      s := FailuresAddUp(c, n - 1);
      FailureCounts(c, s, 0);
      s := Goto(s.(failures := n), 0, Idle);
    }
  }

  /** Opening the circuit without interference: both locks, the time, release. */
  lemma OpeningFinishes(c: Config, s: State, t: nat, now: nat)
    requires Reachable(c, s) && NoLocks(s) && PcOf(s, t) == WantOpen
    ensures Reachable(c, Goto(s.(circuit := Open, openedAt := Some(now), successes := 0), t, Idle))
  {
    ReachableStep(c, s, t, CallFailure, now);
    var s1 := Goto(s.(stateWriter := Some(t), circuit := Open), t, HaveOpen);
    ReachableStep(c, s1, t, CallFailure, now);
    var s2 := Goto(s1.(openedAtWriter := Some(t), openedAt := Some(now)), t, HaveOpenBoth);
    ReachableStep(c, s2, t, CallFailure, now);
    var open := s.(circuit := Open, openedAt := Some(now), successes := 0);
    GotoTwice(open, t, HaveOpen, HaveOpenBoth);
    GotoTwice(open, t, HaveOpenBoth, Idle);
  }

  /** Closing the circuit without interference. */
  lemma ClosingFinishes(c: Config, s: State, t: nat, now: nat)
    requires Reachable(c, s) && NoLocks(s) && PcOf(s, t) == WantClosed
    ensures Reachable(c, Goto(s.(circuit := Closed, openedAt := None, failures := 0, successes := 0), t, Idle))
  {
    ReachableStep(c, s, t, CallReset, now);
    var s1 := Goto(s.(stateWriter := Some(t), circuit := Closed), t, HaveClosed);
    ReachableStep(c, s1, t, CallReset, now);
    var s2 := Goto(s1.(openedAtWriter := Some(t), openedAt := None), t, HaveClosedBoth);
    ReachableStep(c, s2, t, CallReset, now);
    var closed := s.(circuit := Closed, openedAt := None, failures := 0, successes := 0);
    GotoTwice(closed, t, HaveClosed, HaveClosedBoth);
    GotoTwice(closed, t, HaveClosedBoth, Idle);
  }

  /** A request to an open circuit that has timed out, stopped just before it writes the state. */
  lemma RequestTimesOut(c: Config, s: State, t: nat, now: nat)
    requires Reachable(c, s) && NoLocks(s) && s.circuit == Open && PcOf(s, t) == Idle
    requires s.openedAt.Some? && Elapsed(s.openedAt.value, now) >= c.resetTimeout
    ensures Reachable(c, Goto(s, t, WantHalf))
  {
    ReachableStep(c, s, t, CallAllow, now);
    var s1 := Goto(s, t, WantState(CallAllow));
    ReachableStep(c, s1, t, CallAllow, now);
    GotoTwice(s, t, WantState(CallAllow), WantOpenedAt);
    var s2 := Goto(s, t, WantOpenedAt);
    ReachableStep(c, s2, t, CallAllow, now);
    var s3 := Goto(s2.(openedAtReaders := {t}), t, HaveOpenedAt);
    assert s2.openedAtReaders + {t} == {t};
    ReachableStep(c, s3, t, CallAllow, now);
    assert s3.openedAtReaders - {t} == {};
    GotoTwice(s, t, WantOpenedAt, HaveOpenedAt);
    GotoTwice(s, t, HaveOpenedAt, WantHalf);
  }

  lemma CircuitOpens(c: Config) returns (s: State)
    requires c.failureThreshold < U64
    ensures Reachable(c, s) && NoLocks(s) && s.circuit == Open && s.openedAt == Some(0)
    ensures PcOf(s, 0) == Idle && PcOf(s, 1) == Idle
  {
    var n := AtLeastOne(c.failureThreshold);
    s := FailuresAddUp(c, n - 1);
    FailureCounts(c, s, 0);
    s := Goto(s.(failures := n), 0, WantOpen);
    OpeningFinishes(c, s, 0, 0);
    s := Goto(s.(circuit := Open, openedAt := Some(0), successes := 0), 0, Idle);
  }

  lemma ResetFinishes(c: Config, s: State, t: nat, now: nat)
    requires Reachable(c, s) && NoLocks(s) && PcOf(s, t) == Idle
    ensures Reachable(c, Goto(s.(circuit := Closed, openedAt := None, failures := 0, successes := 0), t, Idle))
  {
    ReachableStep(c, s, t, CallReset, now);
    ClosingFinishes(c, Goto(s, t, WantClosed), t, now);
    GotoTwice(s.(circuit := Closed, openedAt := None, failures := 0, successes := 0), t, WantClosed, Idle);
  }

  /** With every configuration a reset need not survive: some reachable state is
      closed and free of locks, the resetting thread is done, and a request in
      flight can still half-open the circuit. */
  lemma StaleHalfOpen(c: Config) returns (s: State)
    requires c.failureThreshold < U64
    ensures Reachable(c, s) && NoLocks(s) && s.circuit == Closed && PcOf(s, 0) == Idle
    ensures exists later :: HalfOpensUnopened(c, s, later)
  {
    s := CircuitOpens(c);
    RequestTimesOut(c, s, 1, c.resetTimeout);
    s := Goto(s, 1, WantHalf);
    ResetFinishes(c, s, 0, c.resetTimeout);
    s := Goto(s.(circuit := Closed, openedAt := None, failures := 0, successes := 0), 0, Idle);
    assert PcOf(s, 1) == WantHalf;
    StaleHalfOpenIff(c, s);
  }
}
