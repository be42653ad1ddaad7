/** Runs of the threaded scheduler in which a submission is refused although a
    worker has room, so that the law of the documentation, "None if all queues
    full", holds only for undisturbed submissions. */
module SchedulerRaces {
  import opened Prelude
  import opened SchedulerThreads
  import opened SchedulerAlone
  import SchedulerSpec
  import RoundRobin
  import Arith

  ghost function Reachable<T(!new)>(n: nat, capacity: nat): iset<State<T>> {
    iset moves: seq<Move<T>> :: Execute(n, capacity, moves)
  }

  /** A set of states that no thread can leave. */
  ghost predicate Closed<T(!new)>(reach: iset<State<T>>) {
    forall s, t, call :: s in reach ==> ThreadStep(s, t, call) in reach
  }

  lemma ReachableClosed<T(!new)>(n: nat, capacity: nat)
    ensures Closed<T>(Reachable(n, capacity)) && Start(n, capacity) in Reachable<T>(n, capacity)
  {
    forall s: State<T>, t, call | s in Reachable(n, capacity)
      ensures ThreadStep(s, t, call) in Reachable(n, capacity)
    {
      var moves :| Execute(n, capacity, moves) == s;
      var longer := moves + [Thread(t, call)];
      assert longer[..|moves|] == moves;
      assert Execute(n, capacity, longer) == ThreadStep(s, t, call);
    }
    assert Execute<T>(n, capacity, []) == Start(n, capacity);
  }

  // -------------------------------------------------------- pieces of a run

  /** Only thread `t` has moved, to `pc`; the scheduler is now `sched` and nobody got a reply. */
  ghost predicate Moved<T>(s: State<T>, s': State<T>, t: nat, pc: Pc<T>, sched: SchedulerSpec.Sched<T>) {
    && SchedOf(s') == sched && s'.control.replies == s.control.replies
    && s'.control.pcs == s.control.pcs[t := pc]
  }

  lemma {:induction false} AloneStays<T(!new)>(reach: iset<State<T>>, path: seq<State<T>>, t: nat, call: Call<T>,
                                               i: nat)
    requires Closed(reach) && PathAlone(path, t, call) && path[0] in reach && i < |path|
    ensures path[i] in reach
  {
    if i == 0 {
    } else {
      AloneStays(reach, path, t, call, i - 1);
      assert NextOn(path, i - 1, t, call);
    }
  }

  lemma MovedTwice<T>(s: State<T>, s1: State<T>, s2: State<T>, t: nat,
                      pc: Pc<T>, sched: SchedulerSpec.Sched<T>, pc': Pc<T>, sched': SchedulerSpec.Sched<T>)
    requires Moved(s, s1, t, pc, sched) && Moved(s1, s2, t, pc', sched')
    ensures Moved(s, s2, t, pc', sched')
  {
    assert s.control.pcs[t := pc][t := pc'] == s.control.pcs[t := pc'];
  }

  lemma Begins<T(!new)>(reach: iset<State<T>>, s: State<T>, t: nat, call: Call<T>) returns (s': State<T>)
    requires Closed(reach) && s in reach && PcOf(s.control, t).Idle?
    ensures s' in reach && Moved(s, s', t, Begin(call), SchedOf(s))
  {
    s' := ThreadStep(s, t, call);
  }

  lemma SeesRunning<T(!new)>(reach: iset<State<T>>, s: State<T>, t: nat, task: T) returns (s': State<T>)
    requires Closed(reach) && s in reach && PcOf(s.control, t) == CheckRunning(task) && s.control.running
    ensures s' in reach && Moved(s, s', t, DrawStart(task), SchedOf(s))
  {
    s' := ThreadStep(s, t, DoSubmit(task));
  }

  /** The scheduler after the round-robin counter is drawn. */
  function Drawn<T>(s: State<T>): SchedulerSpec.Sched<T> {
    SchedOf(s).(counter := (s.control.counter + 1) % U64)
  }

  lemma Draws<T(!new)>(reach: iset<State<T>>, s: State<T>, t: nat, task: T) returns (s': State<T>)
    requires Closed(reach) && s in reach && PcOf(s.control, t) == DrawStart(task) && s.workers != []
    ensures s' in reach && Moved(s, s', t, SeeActive(task, s.control.counter % |s.workers|, 0, {}), Drawn(s))
  {
    s' := ThreadStep(s, t, DoSubmit(task));
  }

  /** A submission up to its first look. */
  lemma ToScan<T(!new)>(reach: iset<State<T>>, s: State<T>, t: nat, task: T) returns (s': State<T>)
    requires Closed(reach) && s in reach && PcOf(s.control, t).Idle? && s.control.running && s.workers != []
    ensures s' in reach && Moved(s, s', t, SeeActive(task, s.control.counter % |s.workers|, 0, {}), Drawn(s))
  {
    var s1 := Begins(reach, s, t, DoSubmit(task));
    var s2 := SeesRunning(reach, s1, t, task);
    MovedTwice(s, s1, s2, t, CheckRunning(task), SchedOf(s), DrawStart(task), SchedOf(s1));
    s' := Draws(reach, s2, t, task);
    MovedTwice(s, s2, s', t, DrawStart(task), SchedOf(s),
               SeeActive(task, s.control.counter % |s.workers|, 0, {}), Drawn(s2));
  }

  lemma SeesActive<T(!new)>(reach: iset<State<T>>, s: State<T>, t: nat, task: T, w: nat) returns (s': State<T>)
    requires Closed(reach) && s in reach && PcOf(s.control, t) == SeeActive(task, w, 0, {})
    requires w < |s.workers| && s.workers[w].active
    ensures s' in reach && Moved(s, s', t, SeeLength(task, w, w, 0, {}), SchedOf(s))
  {
    Arith.DivModUnique(w, |s.workers|, 0, w);
    ActiveLook(s, t, DoSubmit(task));
    OwnPcOnly(s, t, DoSubmit(task));
    s' := ThreadStep(s, t, DoSubmit(task));
  }

  lemma SeesLength<T(!new)>(reach: iset<State<T>>, s: State<T>, t: nat, task: T, w: nat) returns (s': State<T>)
    requires Closed(reach) && s in reach && PcOf(s.control, t) == SeeLength(task, w, w, 0, {}) && w < |s.workers|
    ensures s' in reach
    ensures Moved(s, s', t, if Full(s, w) then Scan(task, w, 1, {w}, |s.workers|) else Push(task, w), SchedOf(s))
  {
    LengthLook(s, t, DoSubmit(task));
    OwnPcOnly(s, t, DoSubmit(task));
    s' := ThreadStep(s, t, DoSubmit(task));
    assert {} + {w} == {w};
  }

  /** The first look of a submission, at an active worker: its flag, then its length. */
  lemma FirstLook<T(!new)>(reach: iset<State<T>>, s: State<T>, t: nat, task: T, w: nat) returns (s': State<T>)
    requires Closed(reach) && s in reach && PcOf(s.control, t) == SeeActive(task, w, 0, {})
    requires w < |s.workers| && s.workers[w].active
    ensures s' in reach
    ensures Moved(s, s', t, if Full(s, w) then Scan(task, w, 1, {w}, |s.workers|) else Push(task, w), SchedOf(s))
  {
    var s1 := SeesActive(reach, s, t, task, w);
    s' := SeesLength(reach, s1, t, task, w);
    MovedTwice(s, s1, s', t, SeeLength(task, w, w, 0, {}), SchedOf(s),
               if Full(s, w) then Scan(task, w, 1, {w}, |s.workers|) else Push(task, w), SchedOf(s1));
  }

  // ------------------------------------------------ the chosen queue fills up

  /** Two threads about to push to the same worker. */
  lemma TwoPushes(reach: iset<State<int>>) returns (s: State<int>)
    requires Closed(reach) && Start(2, 1) in reach
    ensures s in reach
    ensures s.workers == Filled(SchedulerSpec.Worker([], true), 2) && s.control.capacity == 1 && s.control.replies == []
    ensures PcOf(s.control, 0) == Push(100, 0) && PcOf(s.control, 2) == Push(102, 0)
  {
    s := Start(2, 1);
    s := ToScan(reach, s, 0, 100);
    s := FirstLook(reach, s, 0, 100, 0);
    s := ToScan(reach, s, 1, 101);
    s := ToScan(reach, s, 2, 102);
    s := FirstLook(reach, s, 2, 102, 0);
  }

  lemma Pushes<T(!new)>(reach: iset<State<T>>, s: State<T>, t: nat, task: T, w: nat) returns (s': State<T>)
    requires Closed(reach) && s in reach && PcOf(s.control, t) == Push(task, w) && w < |s.workers| && !Full(s, w)
    ensures s' in reach
    ensures Moved(s, s', t, DrawId,
      SchedOf(s).(workers := s.workers[w := s.workers[w].(items := s.workers[w].items + [task])]))
  {
    s' := ThreadStep(s, t, DoSubmit(task));
  }

  lemma FailsToPush<T(!new)>(reach: iset<State<T>>, s: State<T>, t: nat, task: T, w: nat) returns (s': State<T>)
    requires Closed(reach) && s in reach && PcOf(s.control, t) == Push(task, w) && Full(s, w)
    ensures s' in reach && Moved(s, s', t, Finish(None), SchedOf(s))
  {
    s' := ThreadStep(s, t, DoSubmit(task));
    assert s.workers[w := s.workers[w].(items := s.workers[w].items)] == s.workers;
  }

  lemma Returns<T(!new)>(reach: iset<State<T>>, s: State<T>, t: nat, reply: Option<nat>) returns (s': State<T>)
    requires Closed(reach) && s in reach && PcOf(s.control, t) == Finish(reply)
    ensures s' in reach && SchedOf(s') == SchedOf(s) && s'.control.replies == s.control.replies + [reply]
  {
    s' := ThreadStep(s, t, DoPop(0));
  }

  lemma RaceForOne(reach: iset<State<int>>) returns (s: State<int>)
    requires Closed(reach) && Start(2, 1) in reach
    ensures s in reach && s.control.replies == [None]
    ensures |s.workers| == 2 && SchedulerSpec.HasRoom(SchedOf(s), 1) && s.workers[1].items == []
  {
    s := TwoPushes(reach);
    s := Pushes(reach, s, 2, 102, 0);
    s := FailsToPush(reach, s, 0, 100, 0);
    s := Returns(reach, s, 0, None);
  }

  /** Between the look and the push the chosen queue fills up, and the
      submission is refused while the other worker, active all along, has
      never had a task. */
  lemma RefusedAtPush() returns (s: State<int>)
    ensures s in Reachable(2, 1) && s.control.replies == [None]
    ensures |s.workers| == 2 && SchedulerSpec.HasRoom(SchedOf(s), 1) && s.workers[1].items == []
  {
    ReachableClosed<int>(2, 1);
    s := RaceForOne(Reachable(2, 1));
  }

  // --------------------------------------------- a queue drains behind the scan

  ghost predicate AllIdle<T>(c: Control<T>) {
    forall t: nat :: PcOf(c, t).Idle?
  }

  lemma SubmitsOne<T(!new)>(reach: iset<State<T>>, s: State<T>, task: T) returns (s': State<T>)
    requires Closed(reach) && s in reach && AllIdle(s.control)
    ensures s' in reach && AllIdle(s'.control) && SchedOf(s') == SchedulerSpec.SubmitStep(SchedOf(s), task).state
  {
    assert PcOf(s.control, 0).Idle?;
    var path := SubmitUndisturbed(s, 0, task);
    AloneStays(reach, path, 0, DoSubmit(task), |path| - 1);
    s' := path[|path| - 1];
    forall t: nat
      ensures PcOf(s'.control, t).Idle?
    {
      assert PcOf(s.control, t).Idle?;
    }
  }

  /** Undisturbed submissions of thread 0 are a run of the atomic scheduler. */
  lemma {:induction false} SubmitsInTurn<T(!new)>(reach: iset<State<T>>, n: nat, c: nat, tasks: seq<T>)
    returns (s: State<T>)
    requires Closed(reach) && Start(n, c) in reach
    ensures s in reach && AllIdle(s.control)
    ensures SchedOf(s) == RoundRobin.SubmitAll(SchedulerSpec.Fresh(n, c), tasks)
  {
    if tasks == [] {
      s := Start(n, c);
    } else {
      s := SubmitsInTurn(reach, n, c, tasks[..|tasks| - 1]);
      s := SubmitsOne(reach, s, tasks[|tasks| - 1]);
    }
  }

  ghost predicate AllBusy<T>(s: State<T>) {
    forall i :: 0 <= i < |s.workers| ==> s.workers[i].active && |s.workers[i].items| == s.control.capacity
  }

  /** n * c of them fill every queue. */
  lemma FillsUp<T(!new)>(reach: iset<State<T>>, n: nat, c: nat, task: T) returns (s: State<T>)
    requires Closed(reach) && Start(n, c) in reach && n >= 1 && n * c <= U64
    ensures s in reach && AllIdle(s.control) && AllBusy(s)
    ensures |s.workers| == n && s.control.capacity == c && s.control.running
  {
    var tasks := Filled(task, n * c);
    s := SubmitsInTurn(reach, n, c, tasks);
    RoundRobin.FirstSubmits(n, c, tasks);
    forall i | 0 <= i < n
      ensures s.workers[i].active && |s.workers[i].items| == c
    {
      assert RoundRobin.HoldsShare(s.workers[i].items, tasks, n, i);
      RoundRobin.FullShare(n, c, i);
    }
  }

  lemma Pops<T(!new)>(reach: iset<State<T>>, s: State<T>, u: nat, w: nat) returns (s': State<T>)
    requires Closed(reach) && s in reach && PcOf(s.control, u) == Take(w)
    requires w < |s.workers| && s.workers[w].items != []
    ensures s' in reach
    ensures
      var items := s.workers[w].items;
      Moved(s, s', u, Idle, SchedOf(s).(workers := s.workers[w := s.workers[w].(items := items[..|items| - 1])]))
  {
    s' := ThreadStep(s, u, DoPop(w));
  }

  /** A scan that has passed the only worker with room finds none. */
  lemma {:induction false} NoneBehind<T>(s: SchedulerSpec.Sched<T>, start: nat, i: nat)
    requires start < |s.workers| && 1 <= i <= |s.workers|
    requires forall v :: 0 <= v < |s.workers| && v != start ==> !SchedulerSpec.HasRoom(s, v)
    ensures SchedulerSpec.FirstWithRoom(s, start, i) == None
    decreases |s.workers| - i
  {
    if i == |s.workers| {
    } else {
      SchedulerSpec.OffsetIsOther(start, i, |s.workers|);
      NoneBehind(s, start, i + 1);
    }
  }

  /** A scan passes a full worker, which another thread then pops. */
  lemma PassesThenDrains<T(!new)>(reach: iset<State<T>>, s: State<T>, task: T) returns (s': State<T>, w: nat)
    requires Closed(reach) && s in reach && AllIdle(s.control) && AllBusy(s)
    requires |s.workers| >= 2 && s.control.capacity >= 1 && s.control.running
    ensures s' in reach && |s'.workers| == |s.workers| && w < |s'.workers|
    ensures PcOf(s'.control, 0) == Scan(task, w, 1, {w}, |s'.workers|)
    ensures forall v :: 0 <= v < |s'.workers| ==> (SchedulerSpec.HasRoom(SchedOf(s'), v) <==> v == w)
  {
    assert PcOf(s.control, 0).Idle? && PcOf(s.control, 1).Idle?;
    w := s.control.counter % |s.workers|;
    s' := ToScan(reach, s, 0, task);
    s' := FirstLook(reach, s', 0, task, w);
    s' := Begins(reach, s', 1, DoPop(w));
    s' := Pops(reach, s', 1, w);
  }

  lemma DrainedRefusal<T(!new)>(reach: iset<State<T>>, n: nat, c: nat, task: T) returns (s: State<T>, w: nat)
    requires Closed(reach) && Start(n, c) in reach && n >= 2 && 1 <= c && n * c <= U64
    ensures s in reach && w < |s.workers| && SchedulerSpec.HasRoom(SchedOf(s), w)
    ensures s.control.replies != [] && s.control.replies[|s.control.replies| - 1] == None
  {
    s := FillsUp(reach, n, c, task);
    s, w := PassesThenDrains(reach, s, task);
    NoneBehind(SchedOf(s), w, 1);
    var o := SchedulerSpec.Outcome(SchedOf(s), None, []);
    var path := ScanAlone(s, 0, DoSubmit(task), task, w, 1, {w}, o);
    AloneStays(reach, path, 0, DoSubmit(task), |path| - 1);
    s := path[|path| - 1];
  }

  /** With any number of workers and any capacity: all queues are full, a scan
      passes one, another thread pops it, and the submission is still refused
      although nothing was pushed since and that worker has room. */
  lemma RefusedAfterDraining<T(!new)>(n: nat, c: nat, task: T) returns (s: State<T>, w: nat)
    requires n >= 2 && 1 <= c && n * c <= U64
    ensures s in Reachable(n, c) && w < |s.workers| && SchedulerSpec.HasRoom(SchedOf(s), w)
    ensures s.control.replies != [] && s.control.replies[|s.control.replies| - 1] == None
  {
    ReachableClosed<T>(n, c);
    s, w := DrainedRefusal(Reachable(n, c), n, c, task);
  }
}
