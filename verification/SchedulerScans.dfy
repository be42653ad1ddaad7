/** What the scans of the threaded scheduler find, over every interleaving.

    A submission looks at the workers one after the other for room, a thief for
    tasks.  Each look is at its own moment, so what a scan concludes need not
    hold at any single moment.  The theorems say exactly when a submission is
    refused and when a thief comes back with nothing, in terms of what each
    look of the same scan found.
 */
module SchedulerScans {
  import opened Prelude
  import SchedulerSpec
  import opened SchedulerThreads
  import DequeThreads
  import Arith
  import Seqs

  // ----------------------------------------------------- the order of a scan

  /** The workers that a scan from `start` has passed after `i` looks. */
  function Passed(start: nat, i: nat, n: nat): set<nat>
    requires n > 0
  {
    if i == 0 then {} else Passed(start, i - 1, n) + {(start + i - 1) % n}
  }

  lemma PassedNext(start: nat, i: nat, n: nat)
    requires n > 0
    ensures Passed(start, i + 1, n) == Passed(start, i, n) + {(start + i) % n}
  {
    assert start + (i + 1) - 1 == start + i;
  }

  lemma {:induction false} PassedHas(start: nat, i: nat, n: nat, k: nat)
    requires k < i && n > 0
    ensures (start + k) % n in Passed(start, i, n)
  {
    if k < i - 1 {
      PassedHas(start, i - 1, n, k);
    } else {
    }
  }

  lemma {:induction false} PassedMisses(start: nat, i: nat, n: nat, k: nat)
    requires i <= k < n
    ensures (start + k) % n !in Passed(start, i, n)
  {
    if i == 0 {
    } else {
      PassedMisses(start, i - 1, n, k);
      Arith.ModDistinct(start + i - 1, start + k, n);
    }
  }

  /** A scan has passed every worker exactly after a full round. */
  lemma PassedAll(start: nat, i: nat, n: nat, passed: set<nat>)
    requires start < n && i <= n && passed == Passed(start, i, n)
    ensures (forall v :: 0 <= v < n ==> v in passed) <==> i == n
  {
    if i < n {
      PassedMisses(start, i, n, i);
      assert 0 <= (start + i) % n < n;
    } else {
      forall v | 0 <= v < n
        ensures v in passed
      {
        var k := SchedulerSpec.OffsetOf(start, v, n);
        PassedHas(start, i, n, k);
      }
    }
  }

  // ------------------------------------------------------ what a scan carries

  predicate Submitting<T>(pc: Pc<T>) {
    pc.SeeActive? || pc.SeeLength?
  }

  predicate Stealing<T>(pc: Pc<T>) {
    pc.StealSee? || pc.StealTake?
  }

  predicate Scanning<T>(pc: Pc<T>) {
    Submitting(pc) || Stealing(pc)
  }

  /** A thief has passed itself and the workers it found closed. */
  predicate TheftFits(thief: nat, offset: nat, closed: set<nat>, n: nat) {
    thief < n && 1 <= offset <= n && closed + {thief} == Passed(thief, offset, n)
  }

  /** What a scan carries is what it has passed. */
  predicate ScanFits<T>(pc: Pc<T>, n: nat) {
    match pc
    case SeeActive(_, start, i, closed) => start < n && i < n && closed == Passed(start, i, n)
    case SeeLength(_, target, start, i, closed) =>
      start < n && i < n && target == (start + i) % n && closed == Passed(start, i, n)
    case Push(_, target) => target < n
    case StealSee(thief, offset, closed) => thief < n ==> TheftFits(thief, offset, closed, n)
    case StealTake(thief, offset, closed) => offset < n && TheftFits(thief, offset, closed, n)
    case _ => true
  }

  ghost predicate ScansFit<T>(c: Control<T>, n: nat) {
    forall t: nat :: ScanFits(PcOf(c, t), n)
  }

  /** Where a step takes its thread. */
  lemma PcAfter<T>(s: State<T>, t: nat, call: Call<T>)
    ensures
      var pc, n := PcOf(s.control, t), |s.workers|;
      PcOf(ThreadStep(s, t, call).control, t) ==
        match Inside(pc, n)
        case None => Glance(pc, s.control, Flags(s.workers, IsActive), call)
        case Some(Visit(w, k)) =>
          Onward(pc, s.control.capacity, n, DequeThreads.Atomically(s.workers[w].items, s.control.capacity, k).reply)
  {
  }

  lemma NextScanFits<T>(task: T, start: nat, i: nat, n: nat)
    requires start < n && i < n
    ensures ScanFits(Scan(task, start, i + 1, Passed(start, i, n) + {(start + i) % n}, n), n)
  {
    PassedNext(start, i, n);
  }

  lemma NextTheftFits(thief: nat, offset: nat, closed: set<nat>, n: nat)
    requires offset < n && TheftFits(thief, offset, closed, n)
    ensures TheftFits(thief, offset + 1, closed + {(thief + offset) % n}, n)
  {
    PassedNext(thief, offset, n);
  }

  lemma FirstTheftFits(thief: nat, n: nat)
    requires thief < n
    ensures TheftFits(thief, 1, {}, n)
  {
    PassedNext(thief, 0, n);
    Arith.DivModUnique(thief, n, 0, thief);
  }

  /** From outside a scan a thread can only begin one. */
  lemma GlanceBegins<T>(pc: Pc<T>, c: Control<T>, flags: seq<bool>, call: Call<T>)
    requires !Scanning(pc)
    ensures
      var pc' := Glance(pc, c, flags, call);
      && !pc'.SeeLength? && !pc'.Push? && !pc'.StealTake?
      && (pc'.SeeActive? ==> flags != [] && pc'.start == c.counter % |flags| && pc'.i == 0 && pc'.closed == {})
      && (pc'.StealSee? ==> pc'.offset == 1 && pc'.closed == {})
  {
  }

  lemma OnwardElsewhere<T>(pc: Pc<T>, capacity: nat, n: nat, r: DequeThreads.Reply<T>)
    requires !Scanning(pc)
    ensures !Scanning(Onward(pc, capacity, n, r)) && !Onward(pc, capacity, n, r).Push?
  {
  }

  lemma FreshScan<T>(s: State<T>, t: nat, call: Call<T>)
    requires !Scanning(PcOf(s.control, t))
    ensures
      var pc' := PcOf(ThreadStep(s, t, call).control, t);
      ScanFits(pc', |s.workers|) && !pc'.Push? && (Scanning(pc') ==> pc'.closed == {})
  {
    var pc, n := PcOf(s.control, t), |s.workers|;
    PcAfter(s, t, call);
    match Inside(pc, n)
    case None =>
      GlanceBegins(pc, s.control, Flags(s.workers, IsActive), call);
      var pc' := Glance(pc, s.control, Flags(s.workers, IsActive), call);
      if pc'.StealSee? && pc'.thief < n {
        FirstTheftFits(pc'.thief, n);
      }
    case Some(Visit(w, k)) =>
      OnwardElsewhere(pc, s.control.capacity, n,
                      DequeThreads.Atomically(s.workers[w].items, s.control.capacity, k).reply);
  }

  lemma ScanGoesOn<T>(s: State<T>, t: nat, call: Call<T>)
    requires Submitting(PcOf(s.control, t)) && ScanFits(PcOf(s.control, t), |s.workers|)
    ensures
      var pc, pc', n := PcOf(s.control, t), PcOf(ThreadStep(s, t, call).control, t), |s.workers|;
      var w := (pc.start + pc.i) % n;
      || pc' == SeeLength(pc.task, w, pc.start, pc.i, pc.closed)
      || pc' == Push(pc.task, w)
      || pc' == Scan(pc.task, pc.start, pc.i + 1, pc.closed + {w}, n)
  {
  }

  lemma TheftGoesOn<T>(s: State<T>, t: nat, call: Call<T>)
    requires Stealing(PcOf(s.control, t)) && ScanFits(PcOf(s.control, t), |s.workers|)
    ensures
      var pc, pc', n := PcOf(s.control, t), PcOf(ThreadStep(s, t, call).control, t), |s.workers|;
      || pc'.Idle?
      || (pc.thief < n && pc.offset < n
          && (|| pc' == StealTake(pc.thief, pc.offset, pc.closed)
              || pc' == StealSee(pc.thief, pc.offset + 1, pc.closed + {(pc.thief + pc.offset) % n})))
  {
  }

  lemma SubmitScans<T>(s: State<T>, t: nat, call: Call<T>)
    requires Submitting(PcOf(s.control, t)) && ScanFits(PcOf(s.control, t), |s.workers|)
    ensures ScanFits(PcOf(ThreadStep(s, t, call).control, t), |s.workers|)
  {
    var pc := PcOf(s.control, t);
    NextScanFits(pc.task, pc.start, pc.i, |s.workers|);
    ScanGoesOn(s, t, call);
  }

  lemma StealScans<T>(s: State<T>, t: nat, call: Call<T>)
    requires Stealing(PcOf(s.control, t)) && ScanFits(PcOf(s.control, t), |s.workers|)
    ensures ScanFits(PcOf(ThreadStep(s, t, call).control, t), |s.workers|)
  {
    var pc, n := PcOf(s.control, t), |s.workers|;
    if pc.thief < n && pc.offset < n {
      NextTheftFits(pc.thief, pc.offset, pc.closed, n);
    }
    TheftGoesOn(s, t, call);
  }

  lemma ThreadScans<T>(s: State<T>, t: nat, call: Call<T>)
    requires ScanFits(PcOf(s.control, t), |s.workers|)
    ensures ScanFits(PcOf(ThreadStep(s, t, call).control, t), |s.workers|)
  {
    if Submitting(PcOf(s.control, t)) {
      SubmitScans(s, t, call);
    } else if Stealing(PcOf(s.control, t)) {
      StealScans(s, t, call);
    } else {
      FreshScan(s, t, call);
    }
  }

  lemma StepScans<T>(s: State<T>, m: Move<T>)
    requires ScansFit(s.control, |s.workers|)
    ensures ScansFit(Step(s, m).control, |Step(s, m).workers|)
  {
    var s' := Step(s, m);
    if m.Thread? {
      ThreadScans(s, m.t, m.call);
      OwnPcOnly(s, m.t, m.call);
      assert forall u :: u != m.t ==> PcOf(s'.control, u) == PcOf(s.control, u);
    } else {
      assert forall u :: PcOf(s'.control, u) == PcOf(s.control, u);
      assert m.Grow? && NoReaders(s.control) ==>
        forall u :: PcOf(s.control, u).Idle? || PcOf(s.control, u).CheckRunning?;
    }
  }

  lemma {:induction false} ScansAlwaysFit<T>(n: nat, capacity: nat, moves: seq<Move<T>>)
    ensures ScansFit(Execute(n, capacity, moves).control, |Execute(n, capacity, moves).workers|)
  {
    if moves == [] {
    } else {
      ScansAlwaysFit(n, capacity, moves[..|moves| - 1]);
      StepScans(Execute(n, capacity, moves[..|moves| - 1]), moves[|moves| - 1]);
    }
  }

  // ------------------------------------------------------ what a look finds

  /** The scan of thread `t` now looks at worker `v` and finds it of no use. */
  predicate FindsClosed<T>(s: State<T>, t: nat, v: nat) {
    var n := |s.workers|;
    match PcOf(s.control, t)
    case SeeActive(_, start, i, _) => n > 0 && v == (start + i) % n && !s.workers[v].active
    case SeeLength(_, target, _, _, _) => v == target && Full(s, v)
    case StealSee(thief, offset, _) =>
      thief < n && offset < n && v == (thief + offset) % n && !s.workers[v].active
    case StealTake(thief, offset, _) => n > 0 && v == (thief + offset) % n && |s.workers[v].items| == 0
    case _ => false
  }

  function ClosedSoFar<T>(pc: Pc<T>): set<nat> {
    if Scanning(pc) then pc.closed else {}
  }

  /** Step `j` of a run is a look of thread `t` that found worker `v` of no
      use, and the same scan has been going on ever since. */
  ghost predicate FoundClosedAt<T>(states: seq<State<T>>, moves: seq<Move<T>>, t: nat, v: nat, j: nat) {
    && j < |moves| && |states| == |moves| + 1 && moves[j].Thread? && moves[j].t == t
    && FindsClosed(states[j], t, v)
    && forall k :: j < k < |states| ==> Scanning(PcOf(states[k].control, t))
  }

  lemma SubmitClosedStep<T>(s: State<T>, t: nat, call: Call<T>, v: nat)
    requires Submitting(PcOf(s.control, t))
    ensures
      var pc, pc' := PcOf(s.control, t), PcOf(ThreadStep(s, t, call).control, t);
      Scanning(pc') ==> (v in pc'.closed <==> v in pc.closed || FindsClosed(s, t, v))
  {
  }

  lemma StealClosedStep<T>(s: State<T>, t: nat, call: Call<T>, v: nat)
    requires Stealing(PcOf(s.control, t))
    ensures
      var pc, pc' := PcOf(s.control, t), PcOf(ThreadStep(s, t, call).control, t);
      Scanning(pc') ==> (v in pc'.closed <==> v in pc.closed || FindsClosed(s, t, v))
  {
  }

  /** How one step changes what a scan carries. */
  lemma ClosedStep<T>(s: State<T>, m: Move<T>, t: nat, v: nat)
    ensures
      var pc, pc' := PcOf(s.control, t), PcOf(Step(s, m).control, t);
      Scanning(pc') ==>
        (v in pc'.closed <==> v in ClosedSoFar(pc) || (m.Thread? && m.t == t && FindsClosed(s, t, v)))
  {
    if m.Thread? && m.t == t {
      if Submitting(PcOf(s.control, t)) {
        SubmitClosedStep(s, t, m.call, v);
      } else if Stealing(PcOf(s.control, t)) {
        StealClosedStep(s, t, m.call, v);
      } else {
        FreshScan(s, t, m.call);
      }
    } else if m.Thread? {
      OwnPcOnly(s, m.t, m.call);
    }
  }

  lemma FoundClosedStep<T>(states: seq<State<T>>, moves: seq<Move<T>>, s': State<T>, m: Move<T>, t: nat, v: nat, j: nat)
    requires |states| == |moves| + 1
    ensures FoundClosedAt(states + [s'], moves + [m], t, v, j) <==>
      && Scanning(PcOf(s'.control, t))
      && if j == |moves| then m.Thread? && m.t == t && FindsClosed(states[j], t, v)
         else FoundClosedAt(states, moves, t, v, j)
  {
    var states', moves' := states + [s'], moves + [m];
    assert forall k :: 0 <= k < |states| ==> states'[k] == states[k];
    assert forall k :: 0 <= k < |moves| ==> moves'[k] == moves[k];
    assert states'[|states|] == s';
  }

  /** Some look of the present scan of thread `t` has found worker `v` closed. */
  ghost predicate WasFoundClosed<T>(states: seq<State<T>>, moves: seq<Move<T>>, t: nat, v: nat) {
    exists j :: FoundClosedAt(states, moves, t, v, j)
  }

  lemma FoundClosedGrows<T>(states: seq<State<T>>, moves: seq<Move<T>>, s': State<T>, m: Move<T>, t: nat, v: nat)
    requires |states| == |moves| + 1
    ensures WasFoundClosed(states + [s'], moves + [m], t, v) <==>
      && Scanning(PcOf(s'.control, t))
      && ((m.Thread? && m.t == t && FindsClosed(states[|moves|], t, v)) || WasFoundClosed(states, moves, t, v))
  {
    forall j: nat
      ensures FoundClosedAt(states + [s'], moves + [m], t, v, j) <==>
        && Scanning(PcOf(s'.control, t))
        && if j == |moves| then m.Thread? && m.t == t && FindsClosed(states[j], t, v)
           else FoundClosedAt(states, moves, t, v, j)
    {
      FoundClosedStep(states, moves, s', m, t, v, j);
    }
    assert !FoundClosedAt(states, moves, t, v, |moves|);
  }

  lemma ClosedIffStep<T>(states: seq<State<T>>, moves: seq<Move<T>>, m: Move<T>, t: nat, v: nat)
    requires |states| == |moves| + 1
    requires v in ClosedSoFar(PcOf(states[|moves|].control, t)) <==> WasFoundClosed(states, moves, t, v)
    ensures
      var s' := Step(states[|moves|], m);
      v in ClosedSoFar(PcOf(s'.control, t)) <==> WasFoundClosed(states + [s'], moves + [m], t, v)
  {
    var s' := Step(states[|moves|], m);
    ClosedStep(states[|moves|], m, t, v);
    FoundClosedGrows(states, moves, s', m, t, v);
  }

  /** The set that a scan carries is what its looks have found. */
  lemma {:induction false} ClosedIff<T>(n: nat, capacity: nat, moves: seq<Move<T>>, t: nat, v: nat)
    ensures v in ClosedSoFar(PcOf(Execute(n, capacity, moves).control, t))
            <==> WasFoundClosed(States(n, capacity, moves), moves, t, v)
  {
    if moves == [] {
      assert PcOf(Execute(n, capacity, moves).control, t).Idle?;
    } else {
      var before, m := moves[..|moves| - 1], moves[|moves| - 1];
      ClosedIff(n, capacity, before, t, v);
      assert moves == before + [m];
      StatesSplit(n, capacity, before, m);
      ClosedIffStep(States(n, capacity, before), before, m, t, v);
    }
  }

  /** The workers that the looks of thread `t` in its present scan have found closed. */
  ghost function FoundClosed<T>(states: seq<State<T>>, moves: seq<Move<T>>, t: nat): iset<nat> {
    iset v: nat | WasFoundClosed(states, moves, t, v)
  }

  ghost function Infinite(closed: set<nat>): iset<nat> {
    iset v | v in closed
  }

  lemma FoundIsCarried<T>(n: nat, capacity: nat, moves: seq<Move<T>>, t: nat)
    ensures Infinite(ClosedSoFar(PcOf(Execute(n, capacity, moves).control, t)))
            == FoundClosed(States(n, capacity, moves), moves, t)
  {
    var closed := ClosedSoFar(PcOf(Execute(n, capacity, moves).control, t));
    var found := FoundClosed(States(n, capacity, moves), moves, t);
    forall v: nat
      ensures v in closed <==> v in found
    {
      ClosedIff(n, capacity, moves, t, v);
    }
    assert Infinite(closed) == found;
  }

  ghost predicate AllButIn(v: nat, n: nat, closed: iset<nat>) {
    forall u: nat :: u < n && u != v ==> u in closed
  }

  lemma LastMissing(passed: set<nat>, w: nat, n: nat)
    ensures (forall v :: 0 <= v < n ==> v in passed + {w}) <==> AllButIn(w, n, Infinite(passed))
  {
    if AllButIn(w, n, Infinite(passed)) {
      forall v: nat | v < n
        ensures v in passed + {w}
      {
        assert v != w ==> v in Infinite(passed);
      }
    }
    if forall v :: 0 <= v < n ==> v in passed + {w} {
      forall u: nat | u < n && u != w
        ensures u in Infinite(passed)
      {
        assert u in passed + {w};
      }
    }
  }

  // ------------------------------------------ when a submission is refused

  /** The next step of thread `t` decides that its submission is refused. */
  predicate Refuses<T>(s: State<T>, t: nat, call: Call<T>) {
    !PcOf(s.control, t).Finish? && PcOf(ThreadStep(s, t, call).control, t) == Finish(None)
  }

  /** The last worker that the scan has not found closed is found so now. */
  ghost predicate ClosesRound<T>(s: State<T>, t: nat, closed: iset<nat>) {
    exists v :: FindsClosed(s, t, v) && AllButIn(v, |s.workers|, closed)
  }

  /** The ways to be refused, given which workers the scan has found closed:
      not running, no workers, the last open worker found closed, or the
      chosen queue full. */
  ghost predicate Refusable<T>(s: State<T>, t: nat, closed: iset<nat>) {
    match PcOf(s.control, t)
    case CheckRunning(_) => !s.control.running
    case DrawStart(_) => s.workers == []
    case SeeActive(_, _, _, _) => ClosesRound(s, t, closed)
    case SeeLength(_, _, _, _, _) => ClosesRound(s, t, closed)
    case Push(_, target) => Full(s, target)
    case _ => false
  }

  lemma RoundEnds(start: nat, i: nat, n: nat, w: nat, passed: set<nat>)
    requires start < n && i < n && w == (start + i) % n && passed == Passed(start, i, n)
    ensures i + 1 >= n <==> AllButIn(w, n, Infinite(passed))
  {
    PassedNext(start, i, n);
    PassedAll(start, i + 1, n, passed + {w});
    LastMissing(passed, w, n);
  }

  /** A look at a worker ends the scan in a refusal exactly if it finds the worker closed in the last place. */
  lemma LookRefusesIff<T>(s: State<T>, t: nat, call: Call<T>, w: nat)
    requires Submitting(PcOf(s.control, t)) && ScanFits(PcOf(s.control, t), |s.workers|)
    requires w == (PcOf(s.control, t).start + PcOf(s.control, t).i) % |s.workers|
    ensures Refuses(s, t, call) <==> FindsClosed(s, t, w) && PcOf(s.control, t).i + 1 >= |s.workers|
  {
  }

  lemma RefusableScan<T>(s: State<T>, t: nat, closed: iset<nat>, w: nat)
    requires Submitting(PcOf(s.control, t)) && ScanFits(PcOf(s.control, t), |s.workers|)
    requires w == (PcOf(s.control, t).start + PcOf(s.control, t).i) % |s.workers|
    ensures Refusable(s, t, closed) <==> FindsClosed(s, t, w) && AllButIn(w, |s.workers|, closed)
  {
    assert forall v :: FindsClosed(s, t, v) ==> v == w;
  }

  lemma ScanRefusesIff<T>(s: State<T>, t: nat, call: Call<T>, closed: iset<nat>)
    requires Submitting(PcOf(s.control, t)) && ScanFits(PcOf(s.control, t), |s.workers|)
    requires closed == Infinite(PcOf(s.control, t).closed)
    ensures Refuses(s, t, call) <==> Refusable(s, t, closed)
  {
    var pc := PcOf(s.control, t);
    var w := (pc.start + pc.i) % |s.workers|;
    LookRefusesIff(s, t, call, w);
    RefusableScan(s, t, closed, w);
    RoundEnds(pc.start, pc.i, |s.workers|, w, pc.closed);
  }

  lemma ElsewhereRefusesIff<T>(s: State<T>, t: nat, call: Call<T>, closed: iset<nat>)
    requires !Submitting(PcOf(s.control, t))
    ensures Refuses(s, t, call) <==> Refusable(s, t, closed)
  {
    PcAfter(s, t, call);
  }

  lemma RefusesIff<T>(s: State<T>, t: nat, call: Call<T>, closed: iset<nat>)
    requires ScanFits(PcOf(s.control, t), |s.workers|) && closed == Infinite(ClosedSoFar(PcOf(s.control, t)))
    ensures Refuses(s, t, call) <==> Refusable(s, t, closed)
  {
    if Submitting(PcOf(s.control, t)) {
      ScanRefusesIff(s, t, call, closed);
    } else {
      ElsewhereRefusesIff(s, t, call, closed);
    }
  }

  /** Under every interleaving a submission is refused exactly if it sees the
      scheduler stopped, finds no workers, pushes to a full queue, or looks at a
      worker that is inactive or full after finding every other one so at some
      earlier moment of the same scan. */
  lemma RefusedExactly<T>(n: nat, capacity: nat, moves: seq<Move<T>>, t: nat, call: Call<T>)
    ensures
      Refuses(Execute(n, capacity, moves), t, call)
      <==> Refusable(Execute(n, capacity, moves), t, FoundClosed(States(n, capacity, moves), moves, t))
  {
    FoundIsCarried(n, capacity, moves, t);
    ScansAlwaysFit(n, capacity, moves);
    RefusesIff(Execute(n, capacity, moves), t, call, FoundClosed(States(n, capacity, moves), moves, t));
  }

  // ------------------------------------------ when a thief comes back empty

  /** The next step of thread `t` ends its theft without a task. */
  predicate GivesUp<T>(s: State<T>, t: nat, call: Call<T>) {
    PcOf(s.control, t).StealSee? && PcOf(ThreadStep(s, t, call).control, t).Idle?
  }

  /** There is no such thief, or it has found every other worker inactive or empty. */
  ghost predicate NothingToSteal<T>(s: State<T>, t: nat, closed: iset<nat>) {
    match PcOf(s.control, t)
    case StealSee(thief, _, _) => thief >= |s.workers| || AllButIn(thief, |s.workers|, closed)
    case _ => false
  }

  lemma TheftRoundEnds(thief: nat, offset: nat, closed: set<nat>, n: nat)
    requires TheftFits(thief, offset, closed, n)
    ensures offset >= n <==> AllButIn(thief, n, Infinite(closed))
  {
    PassedAll(thief, offset, n, closed + {thief});
    LastMissing(closed, thief, n);
  }

  lemma GivesUpIff<T>(s: State<T>, t: nat, call: Call<T>, closed: iset<nat>)
    requires ScanFits(PcOf(s.control, t), |s.workers|) && closed == Infinite(ClosedSoFar(PcOf(s.control, t)))
    ensures GivesUp(s, t, call) <==> NothingToSteal(s, t, closed)
  {
    var pc, n := PcOf(s.control, t), |s.workers|;
    if pc.StealSee? && pc.thief < n {
      TheftRoundEnds(pc.thief, pc.offset, pc.closed, n);
    }
  }

  /** A theft that is over has a task or has given up. */
  lemma TheftEnds<T>(s: State<T>, t: nat, call: Call<T>)
    requires Stealing(PcOf(s.control, t)) && PcOf(ThreadStep(s, t, call).control, t).Idle?
    requires ScanFits(PcOf(s.control, t), |s.workers|)
    ensures GivesUp(s, t, call) || |ThreadStep(s, t, call).control.handed| == |s.control.handed| + 1
  {
  }

  /** Under every interleaving a thief comes back with nothing exactly if there
      is no such worker or every other worker was inactive or empty at the
      moment this same scan looked at it. */
  lemma EmptyHandedExactly<T>(n: nat, capacity: nat, moves: seq<Move<T>>, t: nat, call: Call<T>)
    ensures
      GivesUp(Execute(n, capacity, moves), t, call)
      <==> NothingToSteal(Execute(n, capacity, moves), t, FoundClosed(States(n, capacity, moves), moves, t))
  {
    FoundIsCarried(n, capacity, moves, t);
    ScansAlwaysFit(n, capacity, moves);
    GivesUpIff(Execute(n, capacity, moves), t, call, FoundClosed(States(n, capacity, moves), moves, t));
  }

  // ------------------------------------------ the look before the push

  predicate SeesRoom<T>(s: State<T>, t: nat, target: nat) {
    && PcOf(s.control, t).SeeLength? && PcOf(s.control, t).target == target
    && target < |s.workers| && |s.workers[target].items| < s.control.capacity
  }

  /** Step `j` of a run is a look of thread `t` that found room in the queue of
      `target`, and it has been about to push there ever since. */
  ghost predicate FoundRoomAt<T>(states: seq<State<T>>, moves: seq<Move<T>>, t: nat, target: nat, j: nat) {
    && j < |moves| && |states| == |moves| + 1 && moves[j].Thread? && moves[j].t == t
    && SeesRoom(states[j], t, target)
    && forall k :: j < k < |states| ==> PcOf(states[k].control, t).Push?
  }

  lemma PushStepFrom<T>(s: State<T>, m: Move<T>, t: nat)
    ensures
      var pc, pc' := PcOf(s.control, t), PcOf(Step(s, m).control, t);
      pc'.Push? ==> pc == pc' || (m.Thread? && m.t == t && SeesRoom(s, t, pc'.target))
  {
    if m.Thread? {
      OwnPcOnly(s, m.t, m.call);
    }
  }

  lemma FoundRoomGrows<T>(states: seq<State<T>>, moves: seq<Move<T>>, s': State<T>, m: Move<T>,
                          t: nat, target: nat, j: nat)
    requires |states| == |moves| + 1 && PcOf(s'.control, t).Push?
    requires if j == |moves| then m.Thread? && m.t == t && SeesRoom(states[j], t, target)
             else FoundRoomAt(states, moves, t, target, j)
    ensures FoundRoomAt(states + [s'], moves + [m], t, target, j)
  {
    var states', moves' := states + [s'], moves + [m];
    assert forall k :: 0 <= k < |states| ==> states'[k] == states[k];
    assert forall k :: 0 <= k < |moves| ==> moves'[k] == moves[k];
  }

  /** A queue that turns out full at the push had room when this same call looked. */
  lemma {:induction false} PushSawRoom<T>(n: nat, capacity: nat, moves: seq<Move<T>>, t: nat) returns (j: nat)
    requires PcOf(Execute(n, capacity, moves).control, t).Push?
    ensures FoundRoomAt(States(n, capacity, moves), moves, t, PcOf(Execute(n, capacity, moves).control, t).target, j)
  {
    var last := |moves| - 1;
    var before, m := moves[..last], moves[last];
    var s := Execute(n, capacity, before);
    var target := PcOf(Execute(n, capacity, moves).control, t).target;
    PushStepFrom(s, m, t);
    Seqs.TakeLast(moves, last + 1);
    assert moves[..last + 1] == moves;
    if PcOf(s.control, t).Push? {
      j := PushSawRoom(n, capacity, before, t);
    } else {
      j := last;
    }
    FoundRoomGrows(States(n, capacity, before), before, Execute(n, capacity, moves), m, t, target, j);
  }
}
