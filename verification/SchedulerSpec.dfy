/** The work-stealing scheduler of src/scheduler.rs as a state machine of atomic operations.

    Every operation is a function from a state to an outcome; module Scheduler
    holds the imperative code and proves it against these functions.  The
    lemmas say what the scans find, what every run conserves and how the
    round robin spreads tasks.
 */
module SchedulerSpec {
  import opened Prelude
  import Arith
  import Seqs

  datatype Worker<T> = Worker(items: seq<T>, active: bool)

  /** `counter` and `nextId` are 64-bit counters that wrap. */
  datatype Sched<T> = Sched(
    workers: seq<Worker<T>>,
    capacity: nat,
    counter: nat,
    nextId: nat,
    running: bool)

  datatype Op<T> =
    | Submit(task: T)
    | Pop(worker: nat)
    | Steal(thief: nat)
    | StealBatch(thief: nat)
    | AddWorker
    | Deactivate(worker: nat)
    | Stop

  /** The state after an operation, the id it issued, and the tasks it handed out. */
  datatype Outcome<T> = Outcome(state: Sched<T>, id: Option<nat>, handed: seq<T>)

  function Fresh<T>(n: nat, capacity: nat): Sched<T> {
    Sched(Filled(Worker([], true), n), capacity, 0, 0, true)
  }

  predicate HasRoom<T>(s: Sched<T>, i: nat)
    requires i < |s.workers|
  {
    s.workers[i].active && |s.workers[i].items| < s.capacity
  }

  predicate CanRob<T>(s: Sched<T>, thief: nat, i: nat)
    requires i < |s.workers|
  {
    i != thief && s.workers[i].active && s.workers[i].items != []
  }

  // ----------------------------------------------------------------- scans

  lemma OffsetIsOther(thief: nat, i: nat, n: nat)
    requires thief < n && 1 <= i < n
    ensures (thief + i) % n != thief
  {
    if thief + i < n {
      Arith.DivModUnique(thief + i, n, 0, thief + i);
    } else {
      Arith.DivModUnique(thief + i, n, 1, thief + i - n);
    }
  }

  /** The first worker with room, counting from `start` and starting at offset `i`. */
  function FirstWithRoom<T>(s: Sched<T>, start: nat, i: nat): (r: Option<nat>)
    requires i <= |s.workers|
    ensures r.Some? ==> r.value < |s.workers| && HasRoom(s, r.value)
    decreases |s.workers| - i
  {
    if i == |s.workers| then None
    else if HasRoom(s, (start + i) % |s.workers|) then Some((start + i) % |s.workers|)
    else FirstWithRoom(s, start, i + 1)
  }

  /** The scan looks at nothing but the workers and the capacity. */
  lemma {:induction false} SameScan<T>(s: Sched<T>, s': Sched<T>, start: nat, i: nat)
    requires s'.workers == s.workers && s'.capacity == s.capacity && i <= |s.workers|
    ensures FirstWithRoom(s', start, i) == FirstWithRoom(s, start, i)
    decreases |s.workers| - i
  {
    if i == |s.workers| {
    } else {
      SameScan(s, s', start, i + 1);
    }
  }

  /** The first worker behind the thief that can be robbed, starting at offset `i`. */
  function FirstVictim<T>(s: Sched<T>, thief: nat, i: nat): (r: Option<nat>)
    requires thief < |s.workers| && 1 <= i <= |s.workers|
    ensures r.Some? ==> r.value < |s.workers| && CanRob(s, thief, r.value)
    decreases |s.workers| - i
  {
    if i == |s.workers| then None else
    var v := (thief + i) % |s.workers|;
    if s.workers[v].active && s.workers[v].items != [] then OffsetIsOther(thief, i, |s.workers|); Some(v)
    else FirstVictim(s, thief, i + 1)
  }

  /** The first of the most loaded among the first `n` workers the thief can rob. */
  function Busiest<T>(s: Sched<T>, thief: nat, n: nat): (r: Option<nat>)
    requires n <= |s.workers|
    ensures r.Some? ==> r.value < n && CanRob(s, thief, r.value)
    ensures forall i :: 0 <= i < n && CanRob(s, thief, i) ==>
      r.Some? && |s.workers[i].items| <= |s.workers[r.value].items|
    ensures r.Some? ==> forall i :: 0 <= i < r.value && CanRob(s, thief, i) ==>
      |s.workers[i].items| < |s.workers[r.value].items|
  {
    if n == 0 then None else
    var best := Busiest(s, thief, n - 1);
    var max := if best.Some? then |s.workers[best.value].items| else 0;
    if n - 1 != thief && s.workers[n - 1].active && |s.workers[n - 1].items| > max then Some(n - 1) else best
  }

  // ------------------------------------------------------------- operations

  function SubmitStep<T>(s: Sched<T>, task: T): Outcome<T> {
    if !s.running || s.workers == [] then Outcome(s, None, []) else
    var s' := s.(counter := (s.counter + 1) % U64);
    match FirstWithRoom(s, s.counter % |s.workers|, 0)
    case None => Outcome(s', None, [])
    case Some(t) =>
      var w := s.workers[t];
      Outcome(s'.(workers := s.workers[t := w.(items := w.items + [task])], nextId := (s.nextId + 1) % U64),
              Some(s.nextId), [])
  }

  function PopStep<T>(s: Sched<T>, i: nat): Outcome<T> {
    if i >= |s.workers| || s.workers[i].items == [] then Outcome(s, None, []) else
    var w := s.workers[i];
    var n := |w.items| - 1;
    Outcome(s.(workers := s.workers[i := w.(items := w.items[..n])]), None, [w.items[n]])
  }

  /** The first `n` tasks of worker `v` change hands. */
  function TakeFront<T>(s: Sched<T>, v: nat, n: nat): Outcome<T>
    requires v < |s.workers| && n <= |s.workers[v].items|
  {
    var w := s.workers[v];
    Outcome(s.(workers := s.workers[v := w.(items := w.items[n..])]), None, w.items[..n])
  }

  function StealStep<T>(s: Sched<T>, thief: nat): Outcome<T> {
    if |s.workers| <= 1 || thief >= |s.workers| then Outcome(s, None, []) else
    match FirstVictim(s, thief, 1)
    case None => Outcome(s, None, [])
    case Some(v) => TakeFront(s, v, 1)
  }

  function BatchStep<T>(s: Sched<T>, thief: nat): Outcome<T> {
    if |s.workers| <= 1 || thief >= |s.workers| then Outcome(s, None, []) else
    match Busiest(s, thief, |s.workers|)
    case None => Outcome(s, None, [])
    case Some(v) => TakeFront(s, v, |s.workers[v].items| / 2)
  }

  function Step<T>(s: Sched<T>, op: Op<T>): Outcome<T> {
    match op
    case Submit(task) => SubmitStep(s, task)
    case Pop(i) => PopStep(s, i)
    case Steal(thief) => StealStep(s, thief)
    case StealBatch(thief) => BatchStep(s, thief)
    case AddWorker => Outcome(s.(workers := s.workers + [Worker([], true)]), None, [])
    case Deactivate(i) =>
      Outcome(if i < |s.workers| then s.(workers := s.workers[i := s.workers[i].(active := false)]) else s, None, [])
    case Stop => Outcome(s.(running := false), None, [])
  }

  // ------------------------------------------------------- scan completeness

  /** Counting from any start, the offsets below n visit worker j; `start` itself only at offset 0. */
  lemma OffsetOf(start: nat, j: nat, n: nat) returns (i: nat)
    requires start < n && j < n
    ensures i < n && (start + i) % n == j && (j != start ==> i >= 1)
  {
    if j >= start {
      i := j - start;
      Arith.DivModUnique(start + i, n, 0, j);
    } else {
      i := j + n - start;
      Arith.DivModUnique(start + i, n, 1, j);
    }
  }

  lemma {:induction false} RoomNotMissed<T>(s: Sched<T>, start: nat, i: nat, k: nat)
    requires i <= k < |s.workers| && HasRoom(s, (start + k) % |s.workers|)
    ensures FirstWithRoom(s, start, i).Some?
    decreases k - i
  {
    if HasRoom(s, (start + i) % |s.workers|) {
    } else {
      RoomNotMissed(s, start, i + 1, k);
    }
  }

  lemma {:induction false} VictimNotMissed<T>(s: Sched<T>, thief: nat, i: nat, k: nat)
    requires thief < |s.workers| && 1 <= i <= k < |s.workers|
    requires CanRob(s, thief, (thief + k) % |s.workers|)
    ensures FirstVictim(s, thief, i).Some?
    decreases k - i
  {
    if i == k {
    } else {
      VictimNotMissed(s, thief, i + 1, k);
    }
  }

  /** A submission is accepted exactly when the scheduler runs and some active worker has room. */
  lemma SubmitSucceedsIff<T>(s: Sched<T>, task: T)
    ensures SubmitStep(s, task).id.Some? <==> s.running && exists j :: 0 <= j < |s.workers| && HasRoom(s, j)
  {
    if s.running && exists j :: 0 <= j < |s.workers| && HasRoom(s, j) {
      var j :| 0 <= j < |s.workers| && HasRoom(s, j);
      var start := s.counter % |s.workers|;
      var i := OffsetOf(start, j, |s.workers|);
      RoomNotMissed(s, start, 0, i);
    }
  }

  /** A valid thief comes back with a task exactly when some other active worker has one. */
  lemma StealSucceedsIff<T>(s: Sched<T>, thief: nat)
    requires thief < |s.workers|
    ensures |StealStep(s, thief).handed| == 1 <==> exists j :: 0 <= j < |s.workers| && CanRob(s, thief, j)
    ensures |StealStep(s, thief).handed| <= 1
  {
    if exists j :: 0 <= j < |s.workers| && CanRob(s, thief, j) {
      var j :| 0 <= j < |s.workers| && CanRob(s, thief, j);
      var i := OffsetOf(thief, j, |s.workers|);
      VictimNotMissed(s, thief, 1, i);
    }
  }

  /** A batch is the front half, in order, of a longest queue the thief can rob. */
  lemma BatchIsFrontHalf<T>(s: Sched<T>, thief: nat, j: nat) returns (v: nat)
    requires thief < |s.workers| && j < |s.workers| && CanRob(s, thief, j)
    ensures v < |s.workers| && CanRob(s, thief, v)
    ensures forall i :: 0 <= i < |s.workers| && CanRob(s, thief, i) ==>
      |s.workers[i].items| <= |s.workers[v].items|
    ensures
      var items, o := s.workers[v].items, BatchStep(s, thief);
      o.handed == items[..|items| / 2] && o.state.workers[v].items == items[|items| / 2..]
  {
    v := Busiest(s, thief, |s.workers|).value;
  }

  // --------------------------------------------------- what each operation does

  /** The worker `d` places on from `start`, going round. */
  function Turn<T>(s: Sched<T>, start: nat, d: nat): Worker<T>
    requires s.workers != []
  {
    s.workers[(start + d) % |s.workers|]
  }

  lemma {:induction false} FirstRoomIs<T>(s: Sched<T>, start: nat, i: nat, d: nat)
    requires i <= d < |s.workers|
    requires Turn(s, start, d).active && |Turn(s, start, d).items| < s.capacity
    requires forall e :: i <= e < d ==> !Turn(s, start, e).active || |Turn(s, start, e).items| >= s.capacity
    ensures FirstWithRoom(s, start, i) == Some((start + d) % |s.workers|)
    decreases d - i
  {
    if i == d {
    } else {
      assert !Turn(s, start, i).active || |Turn(s, start, i).items| >= s.capacity;
      FirstRoomIs(s, start, i + 1, d);
    }
  }

  /** A submission goes to the first active worker with room in the order that
      begins with the worker whose turn it is, and to the back of its queue. */
  lemma SubmitPlaces<T>(s: Sched<T>, task: T, d: nat)
    requires s.running && d < |s.workers|
    requires
      var start := s.counter % |s.workers|;
      && Turn(s, start, d).active && |Turn(s, start, d).items| < s.capacity
      && forall e :: 0 <= e < d ==> !Turn(s, start, e).active || |Turn(s, start, e).items| >= s.capacity
    ensures
      var v := (s.counter % |s.workers| + d) % |s.workers|;
      SubmitStep(s, task) == Outcome(
        s.(workers := s.workers[v := Worker(s.workers[v].items + [task], s.workers[v].active)],
           counter := (s.counter + 1) % 0x1_0000_0000_0000_0000,
           nextId := (s.nextId + 1) % 0x1_0000_0000_0000_0000),
        Some(s.nextId), [])
  {
    FirstRoomIs(s, s.counter % |s.workers|, 0, d);
  }

  /** A submission that is refused changes nothing but the round-robin counter,
      and that only if the scheduler runs and has workers. */
  lemma SubmitRefused<T>(s: Sched<T>, task: T)
    requires !s.running || forall w :: w in s.workers ==> !w.active || |w.items| >= s.capacity
    ensures
      SubmitStep(s, task) == Outcome(
        if s.running && s.workers != [] then s.(counter := (s.counter + 1) % 0x1_0000_0000_0000_0000) else s,
        None, [])
  {
    SubmitSucceedsIff(s, task);
    if s.running && s.workers != [] {
      forall j | 0 <= j < |s.workers|
        ensures !HasRoom(s, j)
      {
        assert s.workers[j] in s.workers;
      }
    }
  }

  lemma {:induction false} FirstVictimIs<T>(s: Sched<T>, thief: nat, i: nat, d: nat)
    requires thief < |s.workers| && 1 <= i <= d < |s.workers|
    requires Turn(s, thief, d).active && Turn(s, thief, d).items != []
    requires forall e :: i <= e < d ==> !Turn(s, thief, e).active || Turn(s, thief, e).items == []
    ensures FirstVictim(s, thief, i) == Some((thief + d) % |s.workers|)
    decreases d - i
  {
    if i == d {
    } else {
      assert !Turn(s, thief, i).active || Turn(s, thief, i).items == [];
      FirstVictimIs(s, thief, i + 1, d);
    }
  }

  /** A thief takes the front task of the first active worker behind it that has one, and touches nothing else. */
  lemma StealTakes<T>(s: Sched<T>, thief: nat, d: nat)
    requires thief < |s.workers| && 1 <= d < |s.workers|
    requires Turn(s, thief, d).active && Turn(s, thief, d).items != []
    requires forall e :: 1 <= e < d ==> !Turn(s, thief, e).active || Turn(s, thief, e).items == []
    ensures
      var v := (thief + d) % |s.workers|;
      var items := s.workers[v].items;
      StealStep(s, thief) == Outcome(
        s.(workers := s.workers[v := Worker(items[1..], s.workers[v].active)]), None, [items[0]])
  {
    FirstVictimIs(s, thief, 1, d);
    var items := s.workers[(thief + d) % |s.workers|].items;
    assert items[..1] == [items[0]];
  }

  /** A thief that is no worker, or behind which no active worker has a task, changes nothing and gets nothing. */
  lemma StealFails<T>(s: Sched<T>, thief: nat)
    requires thief >= |s.workers|
             || forall i :: 0 <= i < |s.workers| && i != thief ==> !s.workers[i].active || s.workers[i].items == []
    ensures StealStep(s, thief) == Outcome(s, None, [])
    ensures BatchStep(s, thief) == Outcome(s, None, [])
  {
    if |s.workers| > 1 && thief < |s.workers| {
      assert FirstVictim(s, thief, 1) == None && Busiest(s, thief, |s.workers|) == None;
    }
  }

  /** A batch is the front half, in order, of the first of the most loaded
      active other workers, and nothing else changes. */
  lemma BatchTakes<T>(s: Sched<T>, thief: nat, v: nat)
    requires thief < |s.workers| && v < |s.workers| && v != thief
    requires s.workers[v].active && s.workers[v].items != []
    requires forall i :: 0 <= i < |s.workers| && i != thief && s.workers[i].active ==>
      |s.workers[i].items| <= |s.workers[v].items| && (i < v ==> |s.workers[i].items| < |s.workers[v].items|)
    ensures
      var items := s.workers[v].items;
      BatchStep(s, thief) == Outcome(
        s.(workers := s.workers[v := Worker(items[|items| / 2..], s.workers[v].active)]), None, items[..|items| / 2])
  {
    assert CanRob(s, thief, v);
    var u := Busiest(s, thief, |s.workers|).value;
    assert CanRob(s, thief, u) && |s.workers[v].items| <= |s.workers[u].items|;
    assert u == v;
  }

  /** A pop takes the last task of the worker named, active or not, running or
      stopped; from an empty queue, or for no such worker, it takes nothing. */
  lemma PopTakes<T>(s: Sched<T>, i: nat)
    ensures
      PopStep(s, i) ==
        if i < |s.workers| && |s.workers[i].items| > 0 then
          var items, last := s.workers[i].items, |s.workers[i].items| - 1;
          Outcome(s.(workers := s.workers[i := Worker(items[..last], s.workers[i].active)]), None, [items[last]])
        else Outcome(s, None, [])
  {
  }

  /** Adding a worker, deactivating one and stopping: each changes one thing. */
  lemma OtherOperations<T>(s: Sched<T>, i: nat)
    ensures Step(s, AddWorker) == Outcome(s.(workers := s.workers + [Worker([], true)]), None, [])
    ensures
      var s' := Step(s, Deactivate(i)).state;
      && Step(s, Deactivate(i)) == Outcome(s.(workers := s'.workers), None, []) && |s'.workers| == |s.workers|
      && (forall j :: 0 <= j < |s.workers| && j != i ==> s'.workers[j] == s.workers[j])
      && (i < |s.workers| ==> !s'.workers[i].active && s'.workers[i].items == s.workers[i].items)
    ensures Step(s, Stop) == Outcome(s.(running := false), None, [])
  {
  }

  /** The local end is last in, first out: popping the worker that got a task gives it back and restores every queue. */
  lemma PopUndoesSubmit<T>(s: Sched<T>, task: T) returns (w: nat)
    requires SubmitStep(s, task).id.Some?
    ensures w < |s.workers| && HasRoom(s, w)
    ensures
      var o := PopStep(SubmitStep(s, task).state, w);
      o.handed == [task] && o.state.workers == s.workers
  {
    w := FirstWithRoom(s, s.counter % |s.workers|, 0).value;
    Seqs.Split(s.workers[w].items, [task]);
  }

  // ------------------------------------------------------------ whole runs

  /** Everything a run did: its last state, the tasks accepted, the tasks handed out and the ids issued, in order. */
  datatype Trace<T> = Trace(state: Sched<T>, accepted: seq<T>, handed: seq<T>, ids: seq<nat>)

  /** The task an operation got accepted, if any. */
  function Accepted<T>(op: Op<T>, o: Outcome<T>): seq<T> {
    if o.id.Some? && op.Submit? then [op.task] else []
  }

  function Issued<T>(o: Outcome<T>): seq<nat> {
    if o.id.Some? then [o.id.value] else []
  }

  /** A run with one more operation. */
  function Extended<T>(t: Trace<T>, op: Op<T>): Trace<T> {
    var o := Step(t.state, op);
    Trace(o.state, t.accepted + Accepted(op, o), t.handed + o.handed, t.ids + Issued(o))
  }

  function Run<T>(s: Sched<T>, ops: seq<Op<T>>): Trace<T> {
    if ops == [] then Trace(s, [], [], []) else Extended(Run(s, ops[..|ops| - 1]), ops[|ops| - 1])
  }

  /** The tasks waiting in the queues. */
  ghost function Pending<T>(ws: seq<Worker<T>>): multiset<T> {
    if ws == [] then multiset{} else Pending(ws[..|ws| - 1]) + multiset(ws[|ws| - 1].items)
  }

  lemma {:induction false} PendingUpdate<T>(ws: seq<Worker<T>>, i: nat, w: Worker<T>)
    requires i < |ws|
    ensures Pending(ws[i := w]) + multiset(ws[i].items) == Pending(ws) + multiset(w.items)
  {
    var n := |ws| - 1;
    if i < n {
      PendingUpdate(ws[..n], i, w);
      assert ws[i := w][..n] == ws[..n][i := w];
      Seqs.ExchangeWithin(Pending(ws[..n][i := w]), Pending(ws[..n]), multiset(ws[n].items),
                          multiset(ws[i].items), multiset(w.items));
    } else {
      assert ws[i := w][..n] == ws[..n];
    }
  }

  ghost predicate Conserves<T>(s: Sched<T>, o: Outcome<T>, accepted: seq<T>) {
    Pending(o.state.workers) + multiset(o.handed) == Pending(s.workers) + multiset(accepted)
  }

  lemma Cancel<T>(p': multiset<T>, kept: multiset<T>, p: multiset<T>, more: multiset<T>, less: multiset<T>)
    requires p' + (kept + less) == p + (kept + more)
    ensures p' + less == p + more
  {
    forall x
      ensures (p' + less)[x] == (p + more)[x]
    {
      assert (p' + (kept + less))[x] == (p + (kept + more))[x];
    }
    assert p' + less == p + more;
  }

  lemma SubmitConserves<T>(s: Sched<T>, task: T)
    ensures Conserves(s, SubmitStep(s, task), Accepted(Submit(task), SubmitStep(s, task)))
  {
    var o := SubmitStep(s, task);
    if o.id.Some? {
      var t := FirstWithRoom(s, s.counter % |s.workers|, 0).value;
      var w := s.workers[t];
      PendingUpdate(s.workers, t, w.(items := w.items + [task]));
      assert multiset(w.items + [task]) == multiset(w.items) + multiset([task]);
      Cancel(Pending(o.state.workers), multiset(w.items), Pending(s.workers), multiset([task]), multiset{});
    }
  }

  /** Splitting a queue in two and keeping one part. */
  lemma SplitConserves<T>(s: Sched<T>, i: nat, kept: Worker<T>, handed: seq<T>)
    requires i < |s.workers|
    requires multiset(s.workers[i].items) == multiset(kept.items) + multiset(handed)
    ensures Pending(s.workers[i := kept]) + multiset(handed) == Pending(s.workers)
  {
    PendingUpdate(s.workers, i, kept);
    Cancel(Pending(s.workers[i := kept]), multiset(kept.items), Pending(s.workers), multiset{}, multiset(handed));
  }

  lemma PopConserves<T>(s: Sched<T>, i: nat)
    ensures Conserves(s, PopStep(s, i), [])
  {
    if i < |s.workers| && s.workers[i].items != [] {
      var w := s.workers[i];
      var n := |w.items| - 1;
      assert w.items == w.items[..n] + [w.items[n]];
      SplitConserves(s, i, w.(items := w.items[..n]), [w.items[n]]);
    }
  }

  lemma TakeFrontConserves<T>(s: Sched<T>, v: nat, n: nat)
    requires v < |s.workers| && n <= |s.workers[v].items|
    ensures Conserves(s, TakeFront(s, v, n), [])
  {
    var w := s.workers[v];
    Seqs.TakeDrop(w.items, n);
    assert multiset(w.items[..n] + w.items[n..]) == multiset(w.items[n..]) + multiset(w.items[..n]);
    SplitConserves(s, v, w.(items := w.items[n..]), w.items[..n]);
  }

  lemma StealConserves<T>(s: Sched<T>, thief: nat)
    ensures Conserves(s, StealStep(s, thief), []) && Conserves(s, BatchStep(s, thief), [])
  {
    if |s.workers| > 1 && thief < |s.workers| {
      if FirstVictim(s, thief, 1).Some? {
        TakeFrontConserves(s, FirstVictim(s, thief, 1).value, 1);
      }
      if Busiest(s, thief, |s.workers|).Some? {
        var v := Busiest(s, thief, |s.workers|).value;
        TakeFrontConserves(s, v, |s.workers[v].items| / 2);
      }
    }
  }

  lemma StepConserves<T>(s: Sched<T>, op: Op<T>)
    ensures Conserves(s, Step(s, op), Accepted(op, Step(s, op)))
  {
    match op
    case Submit(task) => SubmitConserves(s, task);
    case Pop(i) => PopConserves(s, i);
    case Steal(thief) => StealConserves(s, thief);
    case StealBatch(thief) => StealConserves(s, thief);
    case AddWorker =>
      assert (s.workers + [Worker([], true)])[..|s.workers|] == s.workers;
    case Deactivate(i) =>
      if i < |s.workers| {
        SplitConserves(s, i, s.workers[i].(active := false), []);
      }
    case Stop =>
  }

  /** Over every run nothing is lost or duplicated: what was accepted is pending or was handed out, exactly once. */
  lemma {:induction false} TasksConserved<T>(s: Sched<T>, ops: seq<Op<T>>)
    ensures
      var t := Run(s, ops);
      Pending(t.state.workers) + multiset(t.handed) == Pending(s.workers) + multiset(t.accepted)
  {
    if ops == [] {
    } else {
      var t, op := Run(s, ops[..|ops| - 1]), ops[|ops| - 1];
      TasksConserved(s, ops[..|ops| - 1]);
      StepConserves(t.state, op);
      var o := Step(t.state, op);
      Seqs.ExchangeTwice(Pending(s.workers), Pending(t.state.workers), Pending(o.state.workers),
                         t.handed, t.accepted, o.handed, Accepted(op, o));
    }
  }

  lemma IdsStep<T>(s: Sched<T>, op: Op<T>)
    ensures
      var o := Step(s, op);
      && |Issued(o)| == |Accepted(op, o)|
      && (o.id.Some? ==> o.id.value == s.nextId && o.state.nextId == (s.nextId + 1) % U64)
      && (o.id.None? ==> o.state.nextId == s.nextId)
  {
  }

  /** Consecutive numbers modulo 2^64 from `base` on. */
  ghost predicate Consecutive(ids: seq<nat>, base: nat) {
    forall j :: 0 <= j < |ids| ==> ids[j] == (base + j) % U64
  }

  lemma NextWraps(n: nat)
    ensures (n % U64 + 1) % U64 == (n + 1) % U64
  {
  }

  lemma ConsecutiveNext<T>(ids: seq<nat>, base: nat, next: nat, o: Outcome<T>)
    requires Consecutive(ids, base) && next == (base + |ids|) % U64
    requires if o.id.Some? then o.id.value == next && o.state.nextId == (next + 1) % U64 else o.state.nextId == next
    ensures Consecutive(ids + Issued(o), base)
    ensures o.state.nextId == (base + |ids + Issued(o)|) % U64
  {
    NextWraps(base + |ids|);
  }

  /** One id per accepted task, consecutive from `base` on. */
  ghost predicate WellIssued<T>(t: Trace<T>, base: nat) {
    && |t.ids| == |t.accepted|
    && t.state.nextId == (base + |t.ids|) % U64
    && Consecutive(t.ids, base)
  }

  lemma IssuedNext<T>(t: Trace<T>, op: Op<T>, base: nat)
    requires WellIssued(t, base)
    ensures WellIssued(Extended(t, op), base)
  {
    IdsStep(t.state, op);
    ConsecutiveNext(t.ids, base, t.state.nextId, Step(t.state, op));
  }

  /** Ids are issued consecutively, one per accepted task. */
  lemma {:induction false} IdsConsecutive<T>(s: Sched<T>, ops: seq<Op<T>>)
    requires s.nextId < U64
    ensures WellIssued(Run(s, ops), s.nextId)
  {
    if ops == [] {
    } else {
      IdsConsecutive(s, ops[..|ops| - 1]);
      IssuedNext(Run(s, ops[..|ops| - 1]), ops[|ops| - 1], s.nextId);
    }
  }

  lemma WrapInjective(a: nat, b: nat)
    requires a < b < a + U64
    ensures a % U64 != b % U64
  {
  }

  lemma ConsecutiveDistinct(ids: seq<nat>, base: nat, i: nat, j: nat)
    requires Consecutive(ids, base) && i < j < |ids| <= U64
    ensures ids[i] != ids[j]
  {
    WrapInjective(base + i, base + j);
  }

  /** Issued ids are pairwise distinct as long as the 64-bit counter has not gone round. */
  lemma IdsDistinct<T>(s: Sched<T>, ops: seq<Op<T>>, i: nat, j: nat)
    requires s.nextId < U64 && i < j < |Run(s, ops).ids| <= U64
    ensures Run(s, ops).ids[i] != Run(s, ops).ids[j]
  {
    IdsConsecutive(s, ops);
    ConsecutiveDistinct(Run(s, ops).ids, s.nextId, i, j);
  }

  // ------------------------------------------------------- bounded, deactivated

  ghost predicate WithinCapacity<T>(s: Sched<T>) {
    forall i :: 0 <= i < |s.workers| ==> |s.workers[i].items| <= s.capacity
  }

  lemma CapacityStep<T>(s: Sched<T>, op: Op<T>)
    requires WithinCapacity(s)
    ensures WithinCapacity(Step(s, op).state) && Step(s, op).state.capacity == s.capacity
  {
  }

  /** No run overfills a queue. */
  lemma {:induction false} CapacityKept<T>(s: Sched<T>, ops: seq<Op<T>>)
    requires WithinCapacity(s)
    ensures WithinCapacity(Run(s, ops).state) && Run(s, ops).state.capacity == s.capacity
  {
    if ops == [] {
    } else {
      CapacityKept(s, ops[..|ops| - 1]);
      CapacityStep(Run(s, ops[..|ops| - 1]).state, ops[|ops| - 1]);
    }
  }

  lemma InactiveSubmit<T>(s: Sched<T>, task: T, w: nat)
    requires w < |s.workers| && !s.workers[w].active
    ensures w < |SubmitStep(s, task).state.workers| && SubmitStep(s, task).state.workers[w] == s.workers[w]
  {
  }

  lemma InactiveSteal<T>(s: Sched<T>, thief: nat, w: nat)
    requires w < |s.workers| && !s.workers[w].active
    ensures w < |StealStep(s, thief).state.workers| && StealStep(s, thief).state.workers[w] == s.workers[w]
  {
  }

  lemma InactiveBatch<T>(s: Sched<T>, thief: nat, w: nat)
    requires w < |s.workers| && !s.workers[w].active
    ensures w < |BatchStep(s, thief).state.workers| && BatchStep(s, thief).state.workers[w] == s.workers[w]
  {
    if |s.workers| > 1 && thief < |s.workers| {
      var v := Busiest(s, thief, |s.workers|);
      assert v.Some? ==> v.value != w;
    }
  }

  lemma InactiveStep<T>(s: Sched<T>, op: Op<T>, w: nat)
    requires w < |s.workers| && !s.workers[w].active
    ensures
      var s' := Step(s, op).state;
      && w < |s'.workers| && !s'.workers[w].active
      && s'.workers[w].items <= s.workers[w].items
      && (op != Pop(w) ==> s'.workers[w].items == s.workers[w].items)
  {
    match op
    case Submit(task) => InactiveSubmit(s, task, w);
    case Steal(thief) => InactiveSteal(s, thief, w);
    case StealBatch(thief) => InactiveBatch(s, thief, w);
    case _ =>
  }

  /** A deactivated worker stays inactive; its queue is ever after a prefix of
      what it held, and keeps everything unless its own id is popped. */
  lemma {:induction false} InactiveForever<T>(s: Sched<T>, ops: seq<Op<T>>, w: nat)
    requires w < |s.workers| && !s.workers[w].active
    ensures
      var s' := Run(s, ops).state;
      && w < |s'.workers| && !s'.workers[w].active
      && s'.workers[w].items <= s.workers[w].items
      && (Pop(w) !in ops ==> s'.workers[w].items == s.workers[w].items)
  {
    if ops == [] {
    } else {
      InactiveForever(s, ops[..|ops| - 1], w);
      InactiveStep(Run(s, ops[..|ops| - 1]).state, ops[|ops| - 1], w);
    }
  }
}
