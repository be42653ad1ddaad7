/** The whole scheduler of src/scheduler.rs under threads.

    An operation on one deque is a single step here; module SchedulerProduct
    replaces it by the step-by-step deque and proves that nothing changes.
    Everything else interleaves: the check of the running flag, the round-robin
    counter, every look at an active flag or a length, the push or the theft,
    the drawing of the id and the return.  A thread inside an operation holds
    the read guard on the worker list, so workers are added only when none does.
 */
module SchedulerThreads {
  import opened Prelude
  import opened SchedulerSpec
  import DequeThreads
  import Seqs

  datatype Call<T> = DoSubmit(task: T) | DoPop(worker: nat) | DoSteal(thief: nat) | DoBatch(thief: nat)

  /** Where a thread stands.  `closed` holds the workers that a scan has found of no use: inactive
      or full for a submission, inactive or empty for a theft. */
  datatype Pc<T> =
    | Idle
    | CheckRunning(task: T)
    | DrawStart(task: T)                                  // has the read guard from here on
    | SeeActive(task: T, start: nat, i: nat, closed: set<nat>)
    | SeeLength(task: T, target: nat, start: nat, i: nat, closed: set<nat>)
    | Push(task: T, target: nat)
    | DrawId
    | Finish(reply: Option<nat>)                          // a submission about to return
    | Take(worker: nat)
    | StealSee(thief: nat, offset: nat, closed: set<nat>)
    | StealTake(thief: nat, offset: nat, closed: set<nat>)
    | BatchSee(thief: nat, i: nat, best: Option<nat>, max: nat)
    | BatchLength(thief: nat, i: nat, best: Option<nat>, max: nat)
    | BatchTake(victim: nat)

  /** Everything but the workers.  The last five fields are records: the threads
      between push and id, the tasks that entered and left the queues, the ids
      drawn and the replies of the submissions. */
  datatype Control<T> = Control(
    capacity: nat,
    counter: nat,
    nextId: nat,
    running: bool,
    pcs: map<nat, Pc<T>>,
    numbering: set<nat>,
    accepted: seq<T>,
    handed: seq<T>,
    ids: seq<nat>,
    replies: seq<Option<nat>>)

  datatype State<T> = State(workers: seq<Worker<T>>, control: Control<T>)

  /** A thread moves, a worker is added or deactivated, the scheduler is stopped, or nothing happens. */
  datatype Move<T> = Thread(t: nat, call: Call<T>) | Grow | Retire(worker: nat) | Halt | Stay

  // ----------------------------------------------------- outside the deques

  function NewControl<T>(capacity: nat): Control<T> {
    Control(capacity, 0, 0, true, map[], {}, [], [], [], [])
  }

  function PcOf<T>(c: Control<T>, t: nat): Pc<T> {
    if t in c.pcs then c.pcs[t] else Idle
  }

  function Goto<T>(c: Control<T>, t: nat, pc: Pc<T>): Control<T> {
    c.(pcs := c.pcs[t := pc])
  }

  function Begin<T>(call: Call<T>): Pc<T> {
    match call
    case DoSubmit(task) => CheckRunning(task)
    case DoPop(w) => Take(w)
    case DoSteal(thief) => StealSee(thief, 1, {})
    case DoBatch(thief) => BatchSee(thief, 0, None, 0)
  }

  /** The next place to look in the submit scan, or a refusal after a full round. */
  function Scan<T>(task: T, start: nat, i: nat, closed: set<nat>, n: nat): Pc<T> {
    if i >= n then Finish(None) else SeeActive(task, start, i, closed)
  }

  /** Where a thread goes in a step that touches no deque; `flags` tells which workers are active. */
  function Glance<T>(pc: Pc<T>, c: Control<T>, flags: seq<bool>, call: Call<T>): Pc<T> {
    var n := |flags|;
    match pc
    case Idle => Begin(call)
    case CheckRunning(task) => if c.running then DrawStart(task) else Finish(None)
    case DrawStart(task) => if n == 0 then Finish(None) else SeeActive(task, c.counter % n, 0, {})
    case SeeActive(task, start, i, closed) =>
      if n == 0 then Finish(None) else
      var w := (start + i) % n;
      if flags[w] then SeeLength(task, w, start, i, closed) else Scan(task, start, i + 1, closed + {w}, n)
    case DrawId => Finish(Some(c.nextId))
    case StealSee(thief, offset, closed) =>
      if n <= 1 || thief >= n || offset >= n then Idle else
      var v := (thief + offset) % n;
      if flags[v] then StealTake(thief, offset, closed) else StealSee(thief, offset + 1, closed + {v})
    case BatchSee(thief, i, best, max) =>
      if n <= 1 || thief >= n then Idle
      else if i >= n then (if best.Some? then BatchTake(best.value) else Idle)
      else if i != thief && flags[i] then BatchLength(thief, i, best, max)
      else BatchSee(thief, i + 1, best, max)
    case _ => Idle                                        // a reply is delivered, or there is no such worker
  }

  /** What such a step changes besides: the counters and the replies. */
  function Noted<T>(c: Control<T>, t: nat, n: nat): Control<T> {
    match PcOf(c, t)
    case DrawStart(_) => if n == 0 then c else c.(counter := (c.counter + 1) % U64)
    case DrawId => c.(nextId := (c.nextId + 1) % U64, ids := c.ids + [c.nextId], numbering := c.numbering - {t})
    case Finish(reply) => c.(replies := c.replies + [reply])
    case _ => c
  }

  /** One step of thread `t` that touches no deque. */
  function Look<T>(c: Control<T>, flags: seq<bool>, t: nat, call: Call<T>): Control<T> {
    Goto(Noted(c, t, |flags|), t, Glance(PcOf(c, t), c, flags, call))
  }

  // ------------------------------------------------------- inside the deques

  /** An operation on the deque of one worker. */
  datatype Visit<T> = Visit(worker: nat, call: DequeThreads.Call<T>)

  /** The deque operation a thread is at, if any. */
  function Inside<T>(pc: Pc<T>, n: nat): (r: Option<Visit<T>>)
    ensures r.Some? ==> r.value.worker < n
  {
    match pc
    case SeeLength(_, target, _, _, _) => if target < n then Some(Visit(target, DequeThreads.Len)) else None
    case Push(task, target) => if target < n then Some(Visit(target, DequeThreads.Push(task))) else None
    case Take(w) => if w < n then Some(Visit(w, DequeThreads.Pop)) else None
    case StealTake(thief, offset, _) => if n > 0 then Some(Visit((thief + offset) % n, DequeThreads.Steal)) else None
    case BatchLength(_, i, _, _) => if i < n then Some(Visit(i, DequeThreads.Len)) else None
    case BatchTake(v) => if v < n then Some(Visit(v, DequeThreads.StealHalf)) else None
    case _ => None
  }

  /** Where a thread goes with the reply of its deque operation. */
  function Onward<T>(pc: Pc<T>, capacity: nat, n: nat, r: DequeThreads.Reply<T>): Pc<T> {
    match pc
    case SeeLength(task, target, start, i, closed) =>
      if r.Size? && r.n < capacity then Push(task, target) else Scan(task, start, i + 1, closed + {target}, n)
    case Push(_, _) => if r.Pushed? then DrawId else Finish(None)
    case StealTake(thief, offset, closed) =>
      if r.Item? || n == 0 then Idle else StealSee(thief, offset + 1, closed + {(thief + offset) % n})
    case BatchLength(thief, i, best, max) =>
      if r.Size? && r.n > max then BatchSee(thief, i + 1, Some(i), r.n) else BatchSee(thief, i + 1, best, max)
    case _ => Idle
  }

  /** The tasks a reply puts into the queues and takes out of them. */
  function Put<T>(call: DequeThreads.Call<T>, r: DequeThreads.Reply<T>): seq<T> {
    if call.Push? && r.Pushed? then [call.item] else []
  }

  function Taken<T>(r: DequeThreads.Reply<T>): seq<T> {
    match r
    case Item(x) => [x]
    case Batch(xs) => xs
    case _ => []
  }

  function Record<T>(c: Control<T>, t: nat, call: DequeThreads.Call<T>, r: DequeThreads.Reply<T>): Control<T> {
    c.(accepted := c.accepted + Put(call, r),
       handed := c.handed + Taken(r),
       numbering := if call.Push? && r.Pushed? then c.numbering + {t} else c.numbering)
  }

  // ------------------------------------------------------------ the machine

  function Start<T>(n: nat, capacity: nat): State<T> {
    State(Filled(Worker([], true), n), NewControl(capacity))
  }

  /** Which workers are active, whatever else a worker consists of. */
  function Flags<W>(ws: seq<W>, active: W -> bool): (r: seq<bool>)
    ensures |r| == |ws| && forall i :: 0 <= i < |ws| ==> r[i] == active(ws[i])
  {
    seq(|ws|, i requires 0 <= i < |ws| => active(ws[i]))
  }

  function IsActive<T>(w: Worker<T>): bool {
    w.active
  }

  /** A whole deque operation in one step. */
  function VisitStep<T>(s: State<T>, t: nat, w: nat, call: DequeThreads.Call<T>): State<T>
    requires w < |s.workers|
  {
    var c := s.control;
    var a := DequeThreads.Atomically(s.workers[w].items, c.capacity, call);
    State(s.workers[w := s.workers[w].(items := a.queue)],
          Goto(Record(c, t, call, a.reply), t, Onward(PcOf(c, t), c.capacity, |s.workers|, a.reply)))
  }

  function ThreadStep<T>(s: State<T>, t: nat, call: Call<T>): State<T> {
    var visit := Inside(PcOf(s.control, t), |s.workers|);
    if visit.Some? then VisitStep(s, t, visit.value.worker, visit.value.call)
    else s.(control := Look(s.control, Flags(s.workers, IsActive), t, call))
  }

  /** No thread holds the read guard. */
  predicate NoReaders<T>(c: Control<T>) {
    forall t :: t in c.pcs ==> c.pcs[t].Idle? || c.pcs[t].CheckRunning?
  }

  function Step<T>(s: State<T>, m: Move<T>): State<T> {
    match m
    case Thread(t, call) => ThreadStep(s, t, call)
    case Grow => if NoReaders(s.control) then s.(workers := s.workers + [Worker([], true)]) else s
    case Retire(w) => if w < |s.workers| then s.(workers := s.workers[w := s.workers[w].(active := false)]) else s
    case Halt => s.(control := s.control.(running := false))
    case Stay => s
  }

  function Execute<T>(n: nat, capacity: nat, moves: seq<Move<T>>): State<T> {
    if moves == [] then Start(n, capacity)
    else Step(Execute(n, capacity, moves[..|moves| - 1]), moves[|moves| - 1])
  }

  /** All states of a run, the last one included. */
  function States<T>(n: nat, capacity: nat, moves: seq<Move<T>>): (r: seq<State<T>>)
    ensures |r| == |moves| + 1 && r[|moves|] == Execute(n, capacity, moves)
  {
    if moves == [] then [Start(n, capacity)]
    else States(n, capacity, moves[..|moves| - 1]) + [Execute(n, capacity, moves)]
  }

  lemma StatesSplit<T>(n: nat, capacity: nat, moves: seq<Move<T>>, m: Move<T>)
    ensures
      var states := States(n, capacity, moves);
      var s' := Step(states[|moves|], m);
      Execute(n, capacity, moves + [m]) == s' && States(n, capacity, moves + [m]) == states + [s']
  {
    assert (moves + [m])[..|moves|] == moves;
  }

  /** The scheduler as the atomic state machine sees it. */
  function SchedOf<T>(s: State<T>): Sched<T> {
    Sched(s.workers, s.control.capacity, s.control.counter, s.control.nextId, s.control.running)
  }

  // ------------------------------------------------------------- conservation

  /** Accepted tasks are waiting or were handed out. */
  ghost predicate Conserved<T>(s: State<T>) {
    Pending(s.workers) + multiset(s.control.handed) == multiset(s.control.accepted)
  }

  /** What a deque holds and gives away is what it held and was given. */
  ghost predicate Balanced<T>(queue: seq<T>, capacity: nat, call: DequeThreads.Call<T>) {
    var a := DequeThreads.Atomically(queue, capacity, call);
    multiset(a.queue) + multiset(Taken(a.reply)) == multiset(queue) + multiset(Put(call, a.reply))
  }

  lemma PushBalanced<T>(queue: seq<T>, capacity: nat, x: T)
    ensures Balanced(queue, capacity, DequeThreads.Push(x))
  {
  }

  lemma PopBalanced<T>(queue: seq<T>, capacity: nat)
    ensures Balanced(queue, capacity, DequeThreads.Pop)
  {
    var n := |queue|;
    if n > 0 {
      var front, last := queue[..n - 1], queue[n - 1];
      Seqs.SplitMultiset(queue, n - 1);
      assert queue[n - 1..] == [last];
      assert DequeThreads.Atomically(queue, capacity, DequeThreads.Pop)
        == DequeThreads.Answer(front, DequeThreads.Item(last));
    }
  }

  lemma StealBalanced<T>(queue: seq<T>, capacity: nat)
    ensures Balanced(queue, capacity, DequeThreads.Steal)
  {
    if |queue| > 0 {
      Seqs.SplitMultiset(queue, 1);
      assert queue[..1] == [queue[0]];
    }
  }

  /** Every deque operation conserves the tasks of its deque. */
  lemma AtomicallyConserves<T>(queue: seq<T>, capacity: nat, call: DequeThreads.Call<T>)
    ensures Balanced(queue, capacity, call)
  {
    match call
    case Push(x) => PushBalanced(queue, capacity, x);
    case Pop => PopBalanced(queue, capacity);
    case Steal => StealBalanced(queue, capacity);
    case StealHalf => Seqs.SplitMultiset(queue, |queue| / 2);
    case Len =>
  }

  /** The balance of one queue is the balance of all of them. */
  lemma Trade<T>(p': multiset<T>, p: multiset<T>, q': multiset<T>, q: multiset<T>, less: multiset<T>, more: multiset<T>)
    requires p' + q == p + q' && q' + less == q + more
    ensures p' + less == p + more
  {
    forall x
      ensures (p' + less)[x] == (p + more)[x]
    {
      assert (p' + q)[x] == (p + q')[x] && (q' + less)[x] == (q + more)[x];
    }
    assert p' + less == p + more;
  }

  lemma VisitConserved<T>(s: State<T>, t: nat, w: nat, call: DequeThreads.Call<T>)
    requires Conserved(s) && w < |s.workers|
    ensures Conserved(VisitStep(s, t, w, call))
  {
    var before := s.workers[w];
    var a := DequeThreads.Atomically(before.items, s.control.capacity, call);
    var after := s.workers[w := before.(items := a.queue)];
    AtomicallyConserves(before.items, s.control.capacity, call);
    PendingUpdate(s.workers, w, before.(items := a.queue));
    Trade(Pending(after), Pending(s.workers), multiset(a.queue), multiset(before.items),
          multiset(Taken(a.reply)), multiset(Put(call, a.reply)));
    Seqs.ExchangeTwice(multiset{}, Pending(s.workers), Pending(after),
                       s.control.handed, s.control.accepted, Taken(a.reply), Put(call, a.reply));
  }

  /** Looking touches no books except to draw an id. */
  lemma LookIsQuiet<T>(c: Control<T>, flags: seq<bool>, t: nat, call: Call<T>)
    ensures
      var c' := Look(c, flags, t, call);
      && c'.accepted == c.accepted && c'.handed == c.handed && c'.capacity == c.capacity
      && c'.pcs == c.pcs[t := PcOf(c', t)] && !PcOf(c', t).DrawId?
      && (!PcOf(c, t).DrawId? ==> c'.ids == c.ids && c'.numbering == c.numbering && c'.nextId == c.nextId)
  {
  }

  lemma SameQueuesConserved<T>(s: State<T>, s': State<T>)
    requires Conserved(s) && Pending(s'.workers) == Pending(s.workers)
    requires s'.control.handed == s.control.handed && s'.control.accepted == s.control.accepted
    ensures Conserved(s')
  {
  }

  lemma RetireKeepsPending<T>(ws: seq<Worker<T>>, w: nat)
    requires w < |ws|
    ensures Pending(ws[w := ws[w].(active := false)]) == Pending(ws)
  {
    var p, p' := Pending(ws), Pending(ws[w := ws[w].(active := false)]);
    PendingUpdate(ws, w, ws[w].(active := false));
    Trade(p', p, multiset(ws[w].items), multiset(ws[w].items), multiset{}, multiset{});
    assert p' + multiset{} == p' && p + multiset{} == p;
  }

  lemma GrowKeepsPending<T>(ws: seq<Worker<T>>, w: Worker<T>)
    requires w.items == []
    ensures Pending(ws + [w]) == Pending(ws)
  {
    assert (ws + [w])[..|ws|] == ws;
  }

  lemma StepConserved<T>(s: State<T>, m: Move<T>)
    requires Conserved(s)
    ensures Conserved(Step(s, m))
  {
    match m
    case Thread(t, call) =>
      var visit := Inside(PcOf(s.control, t), |s.workers|);
      if visit.Some? {
        VisitConserved(s, t, visit.value.worker, visit.value.call);
      } else {
        LookIsQuiet(s.control, Flags(s.workers, IsActive), t, call);
        SameQueuesConserved(s, Step(s, m));
      }
    case Grow =>
      GrowKeepsPending(s.workers, Worker([], true));
      SameQueuesConserved(s, Step(s, m));
    case Retire(w) =>
      if w < |s.workers| {
        RetireKeepsPending(s.workers, w);
      }
      SameQueuesConserved(s, Step(s, m));
    case Halt => SameQueuesConserved(s, Step(s, m));
    case Stay =>
  }

  lemma {:induction false} EmptyQueues<T>(ws: seq<Worker<T>>)
    requires forall i :: 0 <= i < |ws| ==> ws[i].items == []
    ensures Pending(ws) == multiset{}
  {
    if ws == [] {
    } else {
      EmptyQueues(ws[..|ws| - 1]);
    }
  }

  /** Under every interleaving nothing is lost or duplicated. */
  lemma {:induction false} ThreadsConserveTasks<T>(n: nat, capacity: nat, moves: seq<Move<T>>)
    ensures Conserved(Execute(n, capacity, moves))
  {
    if moves == [] {
      EmptyQueues(Execute(n, capacity, moves).workers);
    } else {
      ThreadsConserveTasks(n, capacity, moves[..|moves| - 1]);
      StepConserved(Execute(n, capacity, moves[..|moves| - 1]), moves[|moves| - 1]);
    }
  }

  // ---------------------------------------------------------- ids and capacity

  /** Ids are drawn in order, one for each accepted task whose thread is not still about to draw it. */
  ghost predicate Numbered<T>(c: Control<T>) {
    && c.nextId == |c.ids| % U64
    && (forall j :: 0 <= j < |c.ids| ==> c.ids[j] == j % U64)
    && |c.ids| + |c.numbering| == |c.accepted|
    && (forall t: nat :: t in c.numbering <==> PcOf(c, t).DrawId?)
  }

  lemma IdNumbered<T>(c: Control<T>, c': Control<T>, t: nat)
    requires Numbered(c) && PcOf(c, t).DrawId? && c'.pcs == c.pcs[t := Finish(Some(c.nextId))]
    requires c'.nextId == (c.nextId + 1) % U64 && c'.ids == c.ids + [c.nextId]
    requires c'.numbering == c.numbering - {t} && c'.accepted == c.accepted
    ensures Numbered(c')
  {
    assert t in c.numbering;
    NextWraps(|c.ids|);
    assert forall u :: u != t ==> PcOf(c', u) == PcOf(c, u);
  }

  lemma LookNumbered<T>(c: Control<T>, flags: seq<bool>, t: nat, call: Call<T>)
    requires Numbered(c)
    ensures Numbered(Look(c, flags, t, call))
  {
    var c' := Look(c, flags, t, call);
    if PcOf(c, t).DrawId? {
      IdNumbered(c, c', t);
    } else {
      LookIsQuiet(c, flags, t, call);
      assert forall u :: u != t ==> PcOf(c', u) == PcOf(c, u);
    }
  }

  /** The books of a deque operation: exactly a push that succeeded leads to the drawing of an id. */
  lemma RecordNumbered<T>(c: Control<T>, t: nat, call: DequeThreads.Call<T>, r: DequeThreads.Reply<T>, pc: Pc<T>)
    requires Numbered(c) && !PcOf(c, t).DrawId? && (pc.DrawId? <==> call.Push? && r.Pushed?)
    ensures Numbered(Goto(Record(c, t, call, r), t, pc))
  {
    var c' := Goto(Record(c, t, call, r), t, pc);
    assert forall u :: u != t ==> PcOf(c', u) == PcOf(c, u);
    assert t !in c.numbering;
  }

  lemma VisitNumbered<T>(s: State<T>, t: nat, w: nat, call: DequeThreads.Call<T>)
    requires Numbered(s.control) && Inside(PcOf(s.control, t), |s.workers|) == Some(Visit(w, call))
    ensures Numbered(VisitStep(s, t, w, call).control)
  {
    var c, pc, n := s.control, PcOf(s.control, t), |s.workers|;
    var r := DequeThreads.Atomically(s.workers[w].items, c.capacity, call).reply;
    RecordNumbered(c, t, call, r, Onward(pc, c.capacity, n, r));
  }

  /** No queue is overfilled, and the capacity stays what it was. */
  ghost predicate Bounded<T>(s: State<T>, capacity: nat) {
    s.control.capacity == capacity && WithinCapacity(SchedOf(s))
  }

  lemma StepNumbered<T>(s: State<T>, m: Move<T>, capacity: nat)
    requires Numbered(s.control) && Bounded(s, capacity)
    ensures Numbered(Step(s, m).control) && Bounded(Step(s, m), capacity)
  {
    if m.Thread? {
      var visit := Inside(PcOf(s.control, m.t), |s.workers|);
      if visit.Some? {
        VisitNumbered(s, m.t, visit.value.worker, visit.value.call);
      } else {
        LookNumbered(s.control, Flags(s.workers, IsActive), m.t, m.call);
      }
    } else {
      assert forall u :: PcOf(Step(s, m).control, u) == PcOf(s.control, u);
    }
  }

  lemma {:induction false} ThreadsNumberTasks<T>(n: nat, capacity: nat, moves: seq<Move<T>>)
    ensures Numbered(Execute(n, capacity, moves).control) && Bounded(Execute(n, capacity, moves), capacity)
  {
    if moves == [] {
    } else {
      ThreadsNumberTasks(n, capacity, moves[..|moves| - 1]);
      StepNumbered(Execute(n, capacity, moves[..|moves| - 1]), moves[|moves| - 1], capacity);
    }
  }

  /** Ids are pairwise distinct before the 64-bit counter goes round, and there
      is one per accepted task once no thread is between push and id. */
  ghost predicate WellNumbered<T>(c: Control<T>) {
    && (|c.ids| <= U64 ==> forall i, j :: 0 <= i < j < |c.ids| ==> c.ids[i] != c.ids[j])
    && |c.ids| <= |c.accepted|
    && (c.numbering == {} ==> |c.ids| == |c.accepted|)
  }

  lemma NumberedWell<T>(c: Control<T>)
    requires Numbered(c)
    ensures WellNumbered(c)
  {
    if |c.ids| <= U64 {
      forall i, j | 0 <= i < j < |c.ids|
        ensures c.ids[i] != c.ids[j]
      {
        WrapInjective(i, j);
      }
    }
  }

  /** Under every interleaving the tasks are well numbered and no queue is overfilled. */
  lemma ThreadIdsDistinct<T>(n: nat, capacity: nat, moves: seq<Move<T>>)
    ensures
      var s := Execute(n, capacity, moves);
      WellNumbered(s.control) && WithinCapacity(SchedOf(s))
  {
    ThreadsNumberTasks(n, capacity, moves);
    NumberedWell(Execute(n, capacity, moves).control);
  }

  // ------------------------------------------------- one thread among others

  /** A thread moves no other thread. */
  lemma OwnPcOnly<T>(s: State<T>, t: nat, call: Call<T>)
    ensures
      var c' := ThreadStep(s, t, call).control;
      c'.pcs == s.control.pcs[t := PcOf(c', t)] && |ThreadStep(s, t, call).workers| == |s.workers|
  {
    LookIsQuiet(s.control, Flags(s.workers, IsActive), t, call);
  }

  predicate Full<T>(s: State<T>, v: nat) {
    v < |s.workers| && |s.workers[v].items| >= s.control.capacity
  }

  // ----------------------------------------------- the moves of no thread

  /** Adding a worker is what the atomic operation says unless some thread is
      past its look at the running flag; deactivating and stopping always are.
      None of them touches a thread or a record. */
  lemma OtherMoves<T>(s: State<T>, w: nat)
    ensures
      var guarded := exists t :: t in s.control.pcs && !s.control.pcs[t].Idle? && !s.control.pcs[t].CheckRunning?;
      Step(s, Grow) == if guarded then s else s.(workers := SchedulerSpec.Step(SchedOf(s), AddWorker).state.workers)
    ensures Step(s, Retire(w)) == s.(workers := SchedulerSpec.Step(SchedOf(s), Deactivate(w)).state.workers)
    ensures Step(s, Halt) == s.(control := s.control.(running := SchedulerSpec.Step(SchedOf(s), Stop).state.running))
  {
  }
}
