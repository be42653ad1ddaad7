/** Whom a batch theft robs, over every interleaving of the threaded scheduler.

    The thief looks at the other workers one after the other, each look at its
    own moment.  `Looks` reads off a run what the present scan of a thread has
    seen; the theorems say that the worker robbed is the first of those seen
    with the longest queue, and when there is none.
 */
module SchedulerBatches {
  import opened Prelude
  import opened SchedulerThreads

  /** Worker and queue length, or None if it was found inactive. */
  datatype Sight = Sight(worker: nat, size: Option<nat>)

  predicate Batching<T>(pc: Pc<T>) {
    pc.BatchSee? || pc.BatchLength? || pc.BatchTake?
  }

  /** What the next step of thread `t` sees of another worker. */
  function Sights<T>(s: State<T>, t: nat): seq<Sight> {
    match PcOf(s.control, t)
    case BatchSee(thief, i, _, _) =>
      if i < |s.workers| && i != thief && !s.workers[i].active then [Sight(i, None)] else []
    case BatchLength(_, i, _, _) => if i < |s.workers| then [Sight(i, Some(|s.workers[i].items|))] else []
    case _ => []
  }

  /** What thread `t` has seen in the batch scan it is in, in order. */
  function Looks<T>(n: nat, capacity: nat, moves: seq<Move<T>>, t: nat): seq<Sight> {
    if moves == [] || !Batching(PcOf(Execute(n, capacity, moves).control, t)) then [] else
    var before, m := moves[..|moves| - 1], moves[|moves| - 1];
    Looks(n, capacity, before, t) + if m.Thread? && m.t == t then Sights(Execute(n, capacity, before), t) else []
  }

  /** The looks are at the workers below `i` other than the thief, each once and in order. */
  predicate InOrder(looks: seq<Sight>, thief: nat, i: nat) {
    && |looks| == (if thief < i then i - 1 else i)
    && forall k :: 0 <= k < |looks| ==> looks[k].worker == if k < thief then k else k + 1
  }

  predicate SizeAtMost(l: Sight, max: nat) {
    l.size.Some? ==> l.size.value <= max
  }

  predicate SizeBelow(l: Sight, max: nat) {
    l.size.Some? ==> l.size.value < max
  }

  /** Look `p` saw the longest queue, a nonempty one, of `max` tasks, and no earlier look saw one as long. */
  predicate FirstLongest(looks: seq<Sight>, p: nat, max: nat) {
    && p < |looks| && looks[p].size == Some(max) && max > 0
    && (forall k :: 0 <= k < |looks| ==> SizeAtMost(looks[k], max))
    && (forall k :: 0 <= k < p ==> SizeBelow(looks[k], max))
  }

  /** Every worker seen was inactive or had nothing. */
  predicate NothingSeen(looks: seq<Sight>) {
    forall k :: 0 <= k < |looks| ==> SizeAtMost(looks[k], 0)
  }

  // ------------------------------------------------------ what a scan carries

  /** The best so far and its length are right. */
  ghost predicate Chosen(looks: seq<Sight>, best: Option<nat>, max: nat) {
    match best
    case None => max == 0 && NothingSeen(looks)
    case Some(v) => exists p: nat :: FirstLongest(looks, p, max) && looks[p].worker == v
  }

  ghost predicate BatchFits<T>(pc: Pc<T>, looks: seq<Sight>, n: nat) {
    match pc
    case BatchSee(thief, i, best, max) => i <= n && InOrder(looks, thief, i) && Chosen(looks, best, max)
    case BatchLength(thief, i, best, max) =>
      i < n && i != thief && thief < n && InOrder(looks, thief, i) && Chosen(looks, best, max)
    case BatchTake(v) =>
      exists thief: nat, max: nat :: thief < n && InOrder(looks, thief, n) && Chosen(looks, Some(v), max)
    case _ => true
  }

  lemma ChosenMore(looks: seq<Sight>, best: Option<nat>, max: nat, l: Sight, looks': seq<Sight>)
    requires Chosen(looks, best, max) && looks' == looks + [l]
    ensures l.size.Some? && l.size.value > max ==> Chosen(looks', Some(l.worker), l.size.value)
    ensures SizeAtMost(l, max) ==> Chosen(looks', best, max)
  {
    assert forall k :: 0 <= k < |looks| ==> looks'[k] == looks[k];
    assert looks'[|looks|] == l;
    if l.size.Some? && l.size.value > max {
      assert FirstLongest(looks', |looks|, l.size.value);
    } else if best.Some? {
      var p: nat :| FirstLongest(looks, p, max) && looks[p].worker == best.value;
      assert FirstLongest(looks', p, max);
    }
  }

  lemma InOrderMore(looks: seq<Sight>, thief: nat, i: nat, l: Sight)
    requires InOrder(looks, thief, i) && i != thief && l.worker == i
    ensures InOrder(looks + [l], thief, i + 1)
  {
  }

  lemma SeeGoes<T>(s: State<T>, t: nat, call: Call<T>, thief: nat, i: nat, best: Option<nat>, max: nat)
    requires PcOf(s.control, t) == BatchSee(thief, i, best, max)
    ensures PcOf(ThreadStep(s, t, call).control, t) ==
            if |s.workers| <= 1 || thief >= |s.workers| then Idle
            else if i >= |s.workers| then (if best.Some? then BatchTake(best.value) else Idle)
            else if i != thief && s.workers[i].active then BatchLength(thief, i, best, max)
            else BatchSee(thief, i + 1, best, max)
  {
  }

  lemma SkipFits(thief: nat, i: nat, best: Option<nat>, max: nat, looks: seq<Sight>, l: Sight)
    requires i != thief && l == Sight(i, None) && InOrder(looks, thief, i) && Chosen(looks, best, max)
    ensures InOrder(looks + [l], thief, i + 1) && Chosen(looks + [l], best, max)
  {
    ChosenMore(looks, best, max, l, looks + [l]);
    InOrderMore(looks, thief, i, l);
  }

  /** A look at a flag. */
  lemma SeeStep<T>(s: State<T>, t: nat, call: Call<T>, looks: seq<Sight>)
    requires PcOf(s.control, t).BatchSee? && BatchFits(PcOf(s.control, t), looks, |s.workers|)
    ensures
      var pc' := PcOf(ThreadStep(s, t, call).control, t);
      Batching(pc') ==> BatchFits(pc', looks + Sights(s, t), |s.workers|)
  {
    var BatchSee(thief, i, best, max) := PcOf(s.control, t);
    SeeGoes(s, t, call, thief, i, best, max);
    if i < |s.workers| && i != thief && !s.workers[i].active {
      SkipFits(thief, i, best, max, looks, Sight(i, None));
    } else {
      assert looks + [] == looks;
    }
  }

  /** A look at a length. */
  lemma LengthStep<T>(s: State<T>, t: nat, call: Call<T>, looks: seq<Sight>)
    requires PcOf(s.control, t).BatchLength? && BatchFits(PcOf(s.control, t), looks, |s.workers|)
    ensures BatchFits(PcOf(ThreadStep(s, t, call).control, t), looks + Sights(s, t), |s.workers|)
  {
    var BatchLength(thief, i, best, max) := PcOf(s.control, t);
    var l := Sight(i, Some(|s.workers[i].items|));
    ChosenMore(looks, best, max, l, looks + [l]);
    InOrderMore(looks, thief, i, l);
  }

  /** A scan begins having seen nothing. */
  lemma ScanBegins<T>(s: State<T>, t: nat, call: Call<T>)
    requires !Batching(PcOf(s.control, t))
    ensures
      var pc' := PcOf(ThreadStep(s, t, call).control, t);
      Sights(s, t) == [] && (Batching(pc') ==> BatchFits(pc', [], |s.workers|))
  {
  }

  lemma TakeEnds<T>(s: State<T>, t: nat, call: Call<T>)
    requires PcOf(s.control, t).BatchTake?
    ensures !Batching(PcOf(ThreadStep(s, t, call).control, t))
  {
  }

  lemma ThreadFits<T>(s: State<T>, t: nat, call: Call<T>, looks: seq<Sight>)
    requires BatchFits(PcOf(s.control, t), looks, |s.workers|) && (!Batching(PcOf(s.control, t)) ==> looks == [])
    ensures
      var pc' := PcOf(ThreadStep(s, t, call).control, t);
      Batching(pc') ==> BatchFits(pc', looks + Sights(s, t), |s.workers|)
  {
    match PcOf(s.control, t)
    case BatchSee(_, _, _, _) => SeeStep(s, t, call, looks);
    case BatchLength(_, _, _, _) => LengthStep(s, t, call, looks);
    case BatchTake(_) => TakeEnds(s, t, call);
    case _ =>
      ScanBegins(s, t, call);
      assert looks + [] == looks;
  }

  lemma StepFits<T>(s: State<T>, m: Move<T>, t: nat, looks: seq<Sight>)
    requires BatchFits(PcOf(s.control, t), looks, |s.workers|) && (!Batching(PcOf(s.control, t)) ==> looks == [])
    ensures
      var s' := Step(s, m);
      var looks' := looks + if m.Thread? && m.t == t then Sights(s, t) else [];
      Batching(PcOf(s'.control, t)) ==> BatchFits(PcOf(s'.control, t), looks', |s'.workers|)
  {
    assert looks + [] == looks;
    if m.Thread? {
      OwnPcOnly(s, m.t, m.call);
      if m.t == t {
        ThreadFits(s, t, m.call, looks);
      }
    }
  }

  lemma {:induction false} BatchesFit<T>(n: nat, capacity: nat, moves: seq<Move<T>>, t: nat)
    ensures
      var s, looks := Execute(n, capacity, moves), Looks(n, capacity, moves, t);
      && (!Batching(PcOf(s.control, t)) ==> looks == [])
      && BatchFits(PcOf(s.control, t), looks, |s.workers|)
  {
    if moves == [] {
    } else {
      var before, m := moves[..|moves| - 1], moves[|moves| - 1];
      BatchesFit(n, capacity, before, t);
      StepFits(Execute(n, capacity, before), m, t, Looks(n, capacity, before, t));
    }
  }

  // ------------------------------------------------------------- what it means

  /** Under every interleaving a batch thief about to take has looked once at
      every other worker, and robs the first of those it saw with the longest queue. */
  lemma BatchRobsLongest<T>(n: nat, capacity: nat, moves: seq<Move<T>>, t: nat)
    returns (thief: nat, p: nat, max: nat)
    requires PcOf(Execute(n, capacity, moves).control, t).BatchTake?
    ensures
      var s, looks := Execute(n, capacity, moves), Looks(n, capacity, moves, t);
      && thief < |s.workers| && InOrder(looks, thief, |s.workers|)
      && FirstLongest(looks, p, max) && PcOf(s.control, t).victim == looks[p].worker
  {
    var s, looks := Execute(n, capacity, moves), Looks(n, capacity, moves, t);
    BatchesFit(n, capacity, moves, t);
    var v := PcOf(s.control, t).victim;
    thief, max :| thief < |s.workers| && InOrder(looks, thief, |s.workers|) && Chosen(looks, Some(v), max);
    p :| FirstLongest(looks, p, max) && looks[p].worker == v;
  }

  /** The next step of thread `t` ends its batch theft without a theft. */
  predicate GivesUpBatch<T>(s: State<T>, t: nat, call: Call<T>) {
    PcOf(s.control, t).BatchSee? && PcOf(ThreadStep(s, t, call).control, t).Idle?
  }

  /** And it comes back with nothing exactly if there is no such worker, or no
      other one, or it has looked at every other one and found each inactive or empty. */
  lemma BatchGivesUpExactly<T>(n: nat, capacity: nat, moves: seq<Move<T>>, t: nat, call: Call<T>)
    requires PcOf(Execute(n, capacity, moves).control, t).BatchSee?
    ensures
      var s, looks := Execute(n, capacity, moves), Looks(n, capacity, moves, t);
      var thief := PcOf(s.control, t).thief;
      GivesUpBatch(s, t, call) <==>
        || |s.workers| <= 1 || thief >= |s.workers|
        || (|looks| == |s.workers| - 1 && PcOf(s.control, t).i == |s.workers| && NothingSeen(looks))
  {
    BatchesFit(n, capacity, moves, t);
  }
}
