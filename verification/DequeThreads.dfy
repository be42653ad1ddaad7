/** The deque of src/scheduler.rs under threads.

    Each thread runs push, pop, steal, steal_half or len step by step: take the
    mutex, look at the deque, change it, update the counter, release the mutex.
    Steps of different threads interleave freely; atomics are sequentially
    consistent.  The update of the counter is the moment an operation takes
    effect.  With that choice the counter always equals the size of the logical
    queue, so even the lock-free `len` is an atomic read of it.
 */
module DequeThreads {
  import opened Prelude
  import Seqs

  datatype Call<T> = Push(item: T) | Pop | Steal | StealHalf | Len

  datatype Reply<T> = Pushed | Full | Item(item: T) | Nothing | Batch(items: seq<T>) | Size(n: nat)

  /** Where a thread stands inside an operation. */
  datatype Pc<T> =
    | Idle
    | Wants(call: Call<T>)                        // called, nothing done yet
    | Holds(call: Call<T>)                        // has the mutex
    | Moved(call: Call<T>, item: T)               // deque changed by one item, counter not yet updated
    | Halving(count: nat, taken: seq<T>)          // steal_half is moving items one by one
    | Done(call: Call<T>, reply: Reply<T>)        // took effect, still has the mutex
    | Leaving(call: Call<T>, reply: Reply<T>)     // mutex released, about to return

  datatype Event<T> =
    | Called(t: nat, call: Call<T>)
    | Took(t: nat, call: Call<T>, reply: Reply<T>)      // the operation takes effect
    | Returned(t: nat, call: Call<T>, reply: Reply<T>)

  datatype State<T> = State(
    queue: seq<T>,
    counter: nat,
    holder: Option<nat>,
    pcs: map<nat, Pc<T>>,
    log: seq<Event<T>>)

  function PcOf<T>(s: State<T>, t: nat): Pc<T> {
    if t in s.pcs then s.pcs[t] else Idle
  }

  function Start<T>(): State<T> {
    State([], 0, None, map[], [])
  }

  // ------------------------------------------------------------------ steps

  function Goto<T>(s: State<T>, t: nat, pc: Pc<T>): State<T> {
    s.(pcs := s.pcs[t := pc])
  }

  /** The operation takes effect with the given reply. */
  function Effect<T>(s: State<T>, t: nat, pc: Pc<T>, call: Call<T>, reply: Reply<T>): State<T> {
    s.(pcs := s.pcs[t := pc], log := s.log + [Took(t, call, reply)])
  }

  function HoldsStep<T>(s: State<T>, capacity: nat, t: nat, call: Call<T>): State<T> {
    var n := |s.queue|;
    match call
    case Push(x) =>
      if n >= capacity then Effect(s, t, Done(call, Full), call, Full)
      else Goto(s.(queue := s.queue + [x]), t, Moved(call, x))
    case Pop =>
      if n == 0 then Effect(s, t, Done(call, Nothing), call, Nothing)
      else Goto(s.(queue := s.queue[..n - 1]), t, Moved(call, s.queue[n - 1]))
    case Steal =>
      if n == 0 then Effect(s, t, Done(call, Nothing), call, Nothing)
      else Goto(s.(queue := s.queue[1..]), t, Moved(call, s.queue[0]))
    case StealHalf =>
      if n / 2 == 0 then Effect(s, t, Done(call, Batch([])), call, Batch([]))
      else Goto(s, t, Halving(n / 2, []))
    case Len => s
  }

  /** fetch_add(1) for push, fetch_sub(1) for pop and steal; both wrap at 64 bits. */
  function MovedStep<T>(s: State<T>, t: nat, call: Call<T>, item: T): State<T> {
    var reply := if call.Push? then Pushed else Item(item);
    var delta := if call.Push? then 1 else -1;
    Effect(s.(counter := (s.counter + delta) % U64), t, Done(call, reply), call, reply)
  }

  function HalvingStep<T>(s: State<T>, t: nat, count: nat, taken: seq<T>): State<T> {
    if |taken| < count && s.queue != [] then
      Goto(s.(queue := s.queue[1..]), t, Halving(count, taken + [s.queue[0]]))
    else
      Effect(s.(counter := (s.counter - |taken|) % U64), t, Done(StealHalf, Batch(taken)), StealHalf, Batch(taken))
  }

  /** The next state if thread `t` moves, or None if it waits for the mutex.  An idle thread starts `call`. */
  function Step<T>(s: State<T>, capacity: nat, t: nat, call: Call<T>): Option<State<T>> {
    match PcOf(s, t)
    case Idle => Some(s.(pcs := s.pcs[t := Wants(call)], log := s.log + [Called(t, call)]))
    case Wants(k) =>
      if k == Len then Some(Effect(s, t, Leaving(k, Size(s.counter)), k, Size(s.counter)))
      else if s.holder == None then Some(Goto(s.(holder := Some(t)), t, Holds(k)))
      else None
    case Holds(k) => Some(HoldsStep(s, capacity, t, k))
    case Moved(k, x) => Some(MovedStep(s, t, k, x))
    case Halving(count, taken) => Some(HalvingStep(s, t, count, taken))
    case Done(k, r) => Some(Goto(s.(holder := None), t, Leaving(k, r)))
    case Leaving(k, r) => Some(s.(pcs := s.pcs[t := Idle], log := s.log + [Returned(t, k, r)]))
  }

  /** A schedule says which thread moves next and what it calls if it is idle; blocked moves change nothing. */
  datatype Move<T> = Move(t: nat, call: Call<T>)

  function Run<T>(capacity: nat, schedule: seq<Move<T>>): State<T> {
    if schedule == [] then Start() else
    var s := Run(capacity, schedule[..|schedule| - 1]);
    var m := schedule[|schedule| - 1];
    var s' := Step(s, capacity, m.t, m.call);
    if s'.Some? then s'.value else s
  }

  // ------------------------------------------------- the sequential bounded deque

  datatype Answer<T> = Answer(queue: seq<T>, reply: Reply<T>)

  function Atomically<T>(queue: seq<T>, capacity: nat, call: Call<T>): Answer<T> {
    var n := |queue|;
    match call
    case Push(x) => if n >= capacity then Answer(queue, Full) else Answer(queue + [x], Pushed)
    case Pop => if n == 0 then Answer(queue, Nothing) else Answer(queue[..n - 1], Item(queue[n - 1]))
    case Steal => if n == 0 then Answer(queue, Nothing) else Answer(queue[1..], Item(queue[0]))
    case StealHalf => Answer(queue[n / 2..], Batch(queue[..n / 2]))
    case Len => Answer(queue, Size(n))
  }

  /** Performs the logged effects one after the other on a sequential deque; None if a reply differs. */
  function Replay<T(==)>(log: seq<Event<T>>, capacity: nat): Option<seq<T>> {
    if log == [] then Some([]) else
    var before := Replay(log[..|log| - 1], capacity);
    var e := log[|log| - 1];
    if before.None? || !e.Took? then before else
    var a := Atomically(before.value, capacity, e.call);
    if a.reply == e.reply then Some(a.queue) else None
  }

  /** What a thread's own events say about it. */
  datatype Phase<T> = Quiet | Open(call: Call<T>) | Answered(call: Call<T>, reply: Reply<T>) | Broken

  function PhaseStep<T(==)>(p: Phase<T>, e: Event<T>): Phase<T> {
    match e
    case Called(_, k) => if p.Quiet? then Open(k) else Broken
    case Took(_, k, r) => if p == Open(k) then Answered(k, r) else Broken
    case Returned(_, k, r) => if p == Answered(k, r) then Quiet else Broken
  }

  /** Reads the events of thread `t`: each call takes effect once and returns what it took. */
  function PhaseAfter<T(==)>(log: seq<Event<T>>, t: nat): Phase<T> {
    if log == [] then Quiet else
    var p := PhaseAfter(log[..|log| - 1], t);
    if log[|log| - 1].t == t then PhaseStep(p, log[|log| - 1]) else p
  }

  // --------------------------------------------------------------- invariant

  /** The queue as other threads may think of it: without the holder's unfinished work. */
  function Logical<T>(s: State<T>): seq<T> {
    if s.holder.None? then s.queue else
    match PcOf(s, s.holder.value)
    case Moved(k, x) =>
      if k.Push? then (if s.queue == [] then [] else s.queue[..|s.queue| - 1])
      else if k.Pop? then s.queue + [x]
      else [x] + s.queue
    case Halving(_, taken) => taken + s.queue
    case _ => s.queue
  }

  predicate InCritical<T>(pc: Pc<T>) {
    pc.Holds? || pc.Moved? || pc.Halving? || pc.Done?
  }

  predicate PcFits<T(==)>(pc: Pc<T>, queue: seq<T>) {
    match pc
    case Holds(k) => !k.Len?
    case Moved(k, x) => (k == Push(x) && queue != [] && queue[|queue| - 1] == x) || k.Pop? || k.Steal?
    case Halving(count, taken) => count == (|taken| + |queue|) / 2 && |taken| <= count
    case _ => true
  }

  function PhaseOf<T>(pc: Pc<T>): Phase<T> {
    match pc
    case Idle => Quiet
    case Wants(k) => Open(k)
    case Holds(k) => Open(k)
    case Moved(k, _) => Open(k)
    case Halving(_, _) => Open(StealHalf)
    case Done(k, r) => Answered(k, r)
    case Leaving(k, r) => Answered(k, r)
  }

  /** The mutex is held by exactly the thread inside its critical section. */
  ghost predicate Exclusive<T>(s: State<T>) {
    forall t: nat :: InCritical(PcOf(s, t)) <==> s.holder == Some(t)
  }

  ghost predicate Consistent<T>(s: State<T>, capacity: nat) {
    && Exclusive(s)
    && (s.holder.Some? ==> PcFits(PcOf(s, s.holder.value), s.queue))
    && |s.queue| <= capacity && |Logical(s)| <= capacity
    && s.counter == |Logical(s)|
  }

  ghost predicate Faithful<T>(s: State<T>, capacity: nat) {
    && Replay(s.log, capacity) == Some(Logical(s))
    && forall t :: PhaseAfter(s.log, t) == PhaseOf(PcOf(s, t))
  }

  lemma ReplayAppend<T>(log: seq<Event<T>>, e: Event<T>, capacity: nat)
    ensures
      var before := Replay(log, capacity);
      Replay(log + [e], capacity) ==
        if before.None? || !e.Took? then before
        else
          var a := Atomically(before.value, capacity, e.call);
          if a.reply == e.reply then Some(a.queue) else None
  {
    assert (log + [e])[..|log|] == log;
  }

  lemma PhaseAppend<T>(log: seq<Event<T>>, e: Event<T>, t: nat)
    ensures PhaseAfter(log + [e], t) == if e.t == t then PhaseStep(PhaseAfter(log, t), e) else PhaseAfter(log, t)
  {
    assert (log + [e])[..|log|] == log;
  }

  /** A step that logs one effect: the sequential deque agrees with the reply and with the new logical queue. */
  lemma EffectFaithful<T>(s: State<T>, s': State<T>, capacity: nat, t: nat, call: Call<T>, reply: Reply<T>, pc: Pc<T>)
    requires Faithful(s, capacity)
    requires s'.log == s.log + [Took(t, call, reply)] && s'.pcs == s.pcs[t := pc]
    requires PhaseOf(PcOf(s, t)) == Open(call) && PhaseOf(pc) == Answered(call, reply)
    requires Atomically(Logical(s), capacity, call) == Answer(Logical(s'), reply)
    ensures Faithful(s', capacity)
  {
    ReplayAppend(s.log, Took(t, call, reply), capacity);
    forall u
      ensures PhaseAfter(s'.log, u) == PhaseOf(PcOf(s', u))
    {
      PhaseAppend(s.log, Took(t, call, reply), u);
    }
  }

  /** A silent step: nothing is logged, the phase and the logical queue stay. */
  lemma SilentFaithful<T>(s: State<T>, s': State<T>, capacity: nat, t: nat, pc: Pc<T>)
    requires Faithful(s, capacity)
    requires s'.log == s.log && s'.pcs == s.pcs[t := pc]
    requires PhaseOf(pc) == PhaseOf(PcOf(s, t)) && Logical(s') == Logical(s)
    ensures Faithful(s', capacity)
  {
    forall u
      ensures PhaseAfter(s'.log, u) == PhaseOf(PcOf(s', u))
    {
    }
  }

  /** A call or a return. */
  lemma BoundaryFaithful<T>(s: State<T>, s': State<T>, capacity: nat, t: nat, e: Event<T>, pc: Pc<T>)
    requires Faithful(s, capacity) && !e.Took? && e.t == t
    requires s'.log == s.log + [e] && s'.pcs == s.pcs[t := pc]
    requires PhaseOf(pc) == PhaseStep(PhaseOf(PcOf(s, t)), e) && Logical(s') == Logical(s)
    ensures Faithful(s', capacity)
  {
    ReplayAppend(s.log, e, capacity);
    forall u
      ensures PhaseAfter(s'.log, u) == PhaseOf(PcOf(s', u))
    {
      PhaseAppend(s.log, e, u);
    }
  }

  lemma CallReturnKeep<T>(s: State<T>, capacity: nat, t: nat, call: Call<T>)
    requires Consistent(s, capacity) && Faithful(s, capacity)
    requires PcOf(s, t).Idle? || PcOf(s, t).Leaving?
    ensures
      var s' := Step(s, capacity, t, call).value;
      Consistent(s', capacity) && Faithful(s', capacity)
  {
    var s' := Step(s, capacity, t, call).value;
    assert forall u :: u != t ==> PcOf(s', u) == PcOf(s, u);
    assert s.holder != Some(t);
    assert Logical(s') == Logical(s);
    match PcOf(s, t)
    case Idle => BoundaryFaithful(s, s', capacity, t, Called(t, call), Wants(call));
    case Leaving(k, r) => BoundaryFaithful(s, s', capacity, t, Returned(t, k, r), Idle);
  }

  /** Taking and releasing the mutex, and the lock-free read of the counter. */
  lemma LockKeep<T>(s: State<T>, capacity: nat, t: nat, call: Call<T>)
    requires Consistent(s, capacity) && Faithful(s, capacity) && Step(s, capacity, t, call).Some?
    requires PcOf(s, t).Wants? || PcOf(s, t).Done?
    ensures
      var s' := Step(s, capacity, t, call).value;
      Consistent(s', capacity) && Faithful(s', capacity)
  {
    var s' := Step(s, capacity, t, call).value;
    assert forall u :: u != t ==> PcOf(s', u) == PcOf(s, u);
    assert Logical(s') == Logical(s);
    match PcOf(s, t)
    case Wants(k) =>
      if k == Len {
        EffectFaithful(s, s', capacity, t, k, Size(s.counter), Leaving(k, Size(s.counter)));
      } else {
        SilentFaithful(s, s', capacity, t, Holds(k));
      }
    case Done(k, r) => SilentFaithful(s, s', capacity, t, Leaving(k, r));
  }

  lemma DoneConsistent<T>(s: State<T>, s': State<T>, capacity: nat, t: nat, call: Call<T>, reply: Reply<T>)
    requires Consistent(s, capacity) && PcOf(s, t) == Holds(call)
    requires s' == Effect(s, t, Done(call, reply), call, reply)
    ensures Consistent(s', capacity) && Logical(s) == s.queue == Logical(s')
  {
    assert s.holder == Some(t);
    assert forall u :: u != t ==> PcOf(s', u) == PcOf(s, u);
  }

  /** An operation that finds the deque full or empty takes effect at once. */
  lemma RefusalKeeps<T>(s: State<T>, capacity: nat, t: nat, call: Call<T>, reply: Reply<T>)
    requires Consistent(s, capacity) && Faithful(s, capacity) && PcOf(s, t) == Holds(call)
    requires Atomically(s.queue, capacity, call) == Answer(s.queue, reply)
    ensures
      var s' := Effect(s, t, Done(call, reply), call, reply);
      Consistent(s', capacity) && Faithful(s', capacity)
  {
    var s' := Effect(s, t, Done(call, reply), call, reply);
    DoneConsistent(s, s', capacity, t, call, reply);
    EffectFaithful(s, s', capacity, t, call, reply, Done(call, reply));
  }

  /** The holder changes the deque; others keep seeing the logical queue. */
  lemma ChangeKeeps<T>(s: State<T>, capacity: nat, t: nat, queue: seq<T>, pc: Pc<T>)
    requires Consistent(s, capacity) && Faithful(s, capacity) && s.holder == Some(t)
    requires InCritical(pc) && PhaseOf(pc) == PhaseOf(PcOf(s, t)) && PcFits(pc, queue) && |queue| <= capacity
    requires
      var s' := Goto(s.(queue := queue), t, pc);
      Logical(s') == Logical(s)
    ensures
      var s' := Goto(s.(queue := queue), t, pc);
      Consistent(s', capacity) && Faithful(s', capacity)
  {
    var s' := Goto(s.(queue := queue), t, pc);
    assert forall u :: u != t ==> PcOf(s', u) == PcOf(s, u);
    SilentFaithful(s, s', capacity, t, pc);
  }

  lemma PushPopKeep<T>(s: State<T>, capacity: nat, t: nat, call: Call<T>)
    requires Consistent(s, capacity) && Faithful(s, capacity) && PcOf(s, t) == Holds(call)
    requires call.Push? || call.Pop?
    ensures
      var s' := HoldsStep(s, capacity, t, call);
      Consistent(s', capacity) && Faithful(s', capacity)
  {
    assert s.holder == Some(t);
    var n := |s.queue|;
    match call
    case Push(x) =>
      if n >= capacity {
        RefusalKeeps(s, capacity, t, call, Full);
      } else {
        Seqs.Split(s.queue, [x]);
        ChangeKeeps(s, capacity, t, s.queue + [x], Moved(call, x));
      }
    case Pop =>
      if n == 0 {
        RefusalKeeps(s, capacity, t, call, Nothing);
      } else {
        assert s.queue[..n] == s.queue;
        Seqs.TakeLast(s.queue, n);
        ChangeKeeps(s, capacity, t, s.queue[..n - 1], Moved(call, s.queue[n - 1]));
      }
  }

  lemma StealKeep<T>(s: State<T>, capacity: nat, t: nat, call: Call<T>)
    requires Consistent(s, capacity) && Faithful(s, capacity) && PcOf(s, t) == Holds(call)
    requires call.Steal? || call.StealHalf?
    ensures
      var s' := HoldsStep(s, capacity, t, call);
      Consistent(s', capacity) && Faithful(s', capacity)
  {
    assert s.holder == Some(t);
    var n := |s.queue|;
    match call
    case Steal =>
      if n == 0 {
        RefusalKeeps(s, capacity, t, call, Nothing);
      } else {
        assert [s.queue[0]] + s.queue[1..] == s.queue;
        ChangeKeeps(s, capacity, t, s.queue[1..], Moved(call, s.queue[0]));
      }
    case StealHalf =>
      if n / 2 == 0 {
        assert s.queue[0..] == s.queue && s.queue[..0] == [];
        RefusalKeeps(s, capacity, t, call, Batch([]));
      } else {
        assert [] + s.queue == s.queue;
        ChangeKeeps(s, capacity, t, s.queue, Halving(n / 2, []));
      }
  }

  /** Updating the counter finishes an operation: the logical queue becomes the deque. */
  lemma FinishKeeps<T>(s: State<T>, capacity: nat, t: nat, call: Call<T>, reply: Reply<T>)
    requires Consistent(s, capacity) && Faithful(s, capacity) && s.holder == Some(t)
    requires PhaseOf(PcOf(s, t)) == Open(call)
    requires Atomically(Logical(s), capacity, call) == Answer(s.queue, reply)
    ensures
      var s' := Effect(s.(counter := |s.queue|), t, Done(call, reply), call, reply);
      Consistent(s', capacity) && Faithful(s', capacity)
  {
    var s' := Effect(s.(counter := |s.queue|), t, Done(call, reply), call, reply);
    assert forall u :: u != t ==> PcOf(s', u) == PcOf(s, u);
    EffectFaithful(s, s', capacity, t, call, reply, Done(call, reply));
  }

  /** The counter updates do not wrap. */
  lemma MovedStepCounts<T>(s: State<T>, t: nat, call: Call<T>, item: T)
    requires |s.queue| < U64
    requires s.counter == if call.Push? then |s.queue| - 1 else |s.queue| + 1
    ensures
      var reply := if call.Push? then Pushed else Item(item);
      MovedStep(s, t, call, item) == Effect(s.(counter := |s.queue|), t, Done(call, reply), call, reply)
  {
  }

  lemma HalvingStepCounts<T>(s: State<T>, t: nat, count: nat, taken: seq<T>)
    requires |s.queue| < U64 && s.counter == |taken| + |s.queue| && |taken| == count
    ensures HalvingStep(s, t, count, taken)
            == Effect(s.(counter := |s.queue|), t, Done(StealHalf, Batch(taken)), StealHalf, Batch(taken))
  {
  }

  /** The item in transit is the one the sequential deque would move. */
  lemma MovedAtomically<T>(s: State<T>, capacity: nat, t: nat, call: Call<T>, item: T)
    requires s.holder == Some(t) && PcOf(s, t) == Moved(call, item) && PcFits(PcOf(s, t), s.queue)
    requires |s.queue| <= capacity
    ensures
      var reply := if call.Push? then Pushed else Item(item);
      && Atomically(Logical(s), capacity, call) == Answer(s.queue, reply)
      && |Logical(s)| == if call.Push? then |s.queue| - 1 else |s.queue| + 1
  {
    if call.Push? {
      Seqs.TakeLast(s.queue, |s.queue|);
      assert s.queue[..|s.queue|] == s.queue;
    } else if call.Pop? {
      Seqs.Split(s.queue, [item]);
    } else {
      Seqs.ConsTail(item, s.queue);
    }
  }

  lemma MovedKeep<T>(s: State<T>, capacity: nat, t: nat, call: Call<T>, item: T)
    requires capacity < U64
    requires Consistent(s, capacity) && Faithful(s, capacity) && PcOf(s, t) == Moved(call, item)
    ensures
      var s' := MovedStep(s, t, call, item);
      Consistent(s', capacity) && Faithful(s', capacity)
  {
    assert s.holder == Some(t);
    MovedAtomically(s, capacity, t, call, item);
    MovedStepCounts(s, t, call, item);
    FinishKeeps(s, capacity, t, call, if call.Push? then Pushed else Item(item));
  }

  lemma HalvingKeep<T>(s: State<T>, capacity: nat, t: nat, count: nat, taken: seq<T>)
    requires capacity < U64
    requires Consistent(s, capacity) && Faithful(s, capacity) && PcOf(s, t) == Halving(count, taken)
    ensures
      var s' := HalvingStep(s, t, count, taken);
      Consistent(s', capacity) && Faithful(s', capacity)
  {
    assert s.holder == Some(t);
    if |taken| < count {
      Seqs.Assoc(taken, [s.queue[0]], s.queue[1..]);
      assert [s.queue[0]] + s.queue[1..] == s.queue;
      ChangeKeeps(s, capacity, t, s.queue[1..], Halving(count, taken + [s.queue[0]]));
    } else {
      Seqs.Split(taken, s.queue);
      HalvingStepCounts(s, t, count, taken);
      FinishKeeps(s, capacity, t, StealHalf, Batch(taken));
    }
  }

  lemma StepKeeps<T>(s: State<T>, capacity: nat, t: nat, call: Call<T>)
    requires capacity < U64
    requires Consistent(s, capacity) && Faithful(s, capacity) && Step(s, capacity, t, call).Some?
    ensures
      var s' := Step(s, capacity, t, call).value;
      Consistent(s', capacity) && Faithful(s', capacity)
  {
    match PcOf(s, t)
    case Idle => CallReturnKeep(s, capacity, t, call);
    case Leaving(_, _) => CallReturnKeep(s, capacity, t, call);
    case Wants(_) => LockKeep(s, capacity, t, call);
    case Done(_, _) => LockKeep(s, capacity, t, call);
    case Holds(k) =>
      assert s.holder == Some(t);
      if k.Push? || k.Pop? {
        PushPopKeep(s, capacity, t, k);
      } else {
        StealKeep(s, capacity, t, k);
      }
    case Moved(k, x) => MovedKeep(s, capacity, t, k, x);
    case Halving(n, taken) => HalvingKeep(s, capacity, t, n, taken);
  }

  /** The event a step logs, if any, is the one that changes the thread's phase. */
  lemma StepLogs<T>(s: State<T>, capacity: nat, t: nat, call: Call<T>)
    requires Consistent(s, capacity) && Step(s, capacity, t, call).Some?
    ensures
      var s' := Step(s, capacity, t, call).value;
      var p, p' := PhaseOf(PcOf(s, t)), PhaseOf(PcOf(s', t));
      && s'.pcs == s.pcs[t := PcOf(s', t)]
      && (match p
          case Quiet => s'.log == s.log + [Called(t, call)] && p' == Open(call)
          case Open(k) => (s'.log == s.log && p' == p)
                          || (p'.Answered? && p'.call == k && s'.log == s.log + [Took(t, k, p'.reply)])
          case Answered(k, r) => (s'.log == s.log && p' == p) || (s'.log == s.log + [Returned(t, k, r)] && p' == Quiet)
          case Broken => false)
  {
    assert PcOf(s, t).Holds? ==> s.holder == Some(t);
  }

  /** A step takes its call from open to answered exactly when the operation
      takes effect on the logical queue; all other steps leave that alone. */
  lemma StepShape<T>(s: State<T>, capacity: nat, t: nat, call: Call<T>)
    requires capacity < U64
    requires Consistent(s, capacity) && Faithful(s, capacity) && Step(s, capacity, t, call).Some?
    ensures
      var s' := Step(s, capacity, t, call).value;
      var p, p' := PhaseOf(PcOf(s, t)), PhaseOf(PcOf(s', t));
      && Consistent(s', capacity) && Faithful(s', capacity)
      && s'.pcs == s.pcs[t := PcOf(s', t)]
      && (match p
          case Quiet => p' == Open(call) && Logical(s') == Logical(s)
          case Open(k) => (p' == p && Logical(s') == Logical(s))
                          || (p'.Answered? && p'.call == k
                              && Atomically(Logical(s), capacity, k) == Answer(Logical(s'), p'.reply))
          case Answered(_, _) => (p' == p || p' == Quiet) && Logical(s') == Logical(s)
          case Broken => false)
  {
    var s' := Step(s, capacity, t, call).value;
    StepLogs(s, capacity, t, call);
    StepKeeps(s, capacity, t, call);
    if s'.log != s.log {
      var e := s'.log[|s.log|];
      ReplayAppend(s.log, e, capacity);
    }
  }

  /** Every interleaving is linearizable: the effects, in the order they took
      place, are a run of the sequential bounded deque with the same replies;
      every thread's calls take effect once, between call and return. */
  lemma {:induction false} Linearizable<T>(capacity: nat, schedule: seq<Move<T>>)
    requires capacity < U64
    ensures Consistent(Run(capacity, schedule), capacity) && Faithful(Run(capacity, schedule), capacity)
  {
    if schedule == [] {
    } else {
      var s, m := Run(capacity, schedule[..|schedule| - 1]), schedule[|schedule| - 1];
      Linearizable(capacity, schedule[..|schedule| - 1]);
      if Step(s, capacity, m.t, m.call).Some? {
        StepKeeps(s, capacity, m.t, m.call);
      }
    }
  }

  // ------------------------------------------------------- what it means

  /** The counter never underflows or passes the capacity; it equals the size
      whenever the mutex is free, and otherwise differs by the holder's
      unfinished work only. */
  lemma CounterTracksSize<T>(capacity: nat, schedule: seq<Move<T>>)
    requires capacity < U64
    ensures
      var s := Run(capacity, schedule);
      && |s.queue| <= capacity && s.counter <= capacity
      && (s.holder.None? ==> s.counter == |s.queue|)
      && (s.holder.Some? ==>
            match PcOf(s, s.holder.value)
            case Moved(k, _) => s.counter == if k.Push? then |s.queue| - 1 else |s.queue| + 1
            case Halving(_, taken) => s.counter == |s.queue| + |taken|
            case _ => s.counter == |s.queue|)
  {
    Linearizable(capacity, schedule);
  }

  /** A waiting thread never waits for itself: some thread inside an operation can always move. */
  lemma SomeoneCanMove<T>(capacity: nat, schedule: seq<Move<T>>, t: nat, call: Call<T>)
    requires capacity < U64 && !PcOf(Run(capacity, schedule), t).Idle?
    ensures exists u ::
      !PcOf(Run(capacity, schedule), u).Idle? && Step(Run(capacity, schedule), capacity, u, call).Some?
  {
    var s := Run(capacity, schedule);
    Linearizable(capacity, schedule);
    var u := if s.holder.Some? then s.holder.value else t;
    assert InCritical(PcOf(s, u)) || s.holder.None?;
    assert !PcOf(s, u).Idle? && Step(s, capacity, u, call).Some?;
  }

  lemma {:induction false} PrefixNotBroken<T>(log: seq<Event<T>>, n: nat, t: nat)
    requires n <= |log| && PhaseAfter(log, t) != Broken
    ensures PhaseAfter(log[..n], t) != Broken
    decreases |log|
  {
    if n < |log| {
      PrefixNotBroken(log[..|log| - 1], n, t);
      assert log[..|log| - 1][..n] == log[..n];
    } else {
      assert log[..n] == log;
    }
  }

  /** Thread `t` logs nothing between positions `from` and `to`. */
  ghost predicate Silent<T>(log: seq<Event<T>>, t: nat, from: nat, to: nat) {
    to <= |log| && forall k :: from < k < to ==> log[k].t != t
  }

  /** If a thread is inside an answered call, the last thing it logged is that the call took effect;
      if inside an open one, that it was called. */
  lemma {:induction false} PhaseHasOrigin<T>(log: seq<Event<T>>, t: nat) returns (i: nat)
    requires PhaseAfter(log, t).Open? || PhaseAfter(log, t).Answered?
    ensures i < |log| && Silent(log, t, i, |log|)
    ensures PhaseAfter(log, t).Open? ==> log[i] == Called(t, PhaseAfter(log, t).call)
    ensures PhaseAfter(log, t).Answered? ==>
      log[i] == Took(t, PhaseAfter(log, t).call, PhaseAfter(log, t).reply)
      && PhaseAfter(log[..i], t) == Open(PhaseAfter(log, t).call)
  {
    var n := |log| - 1;
    if log[n].t == t {
      i := n;
    } else {
      i := PhaseHasOrigin(log[..n], t);
      assert log[..n][..i] == log[..i];
      assert forall k :: i < k < n ==> log[k] == log[..n][k];
    }
  }

  /** In an unbroken log every return is preceded by its effect, and that by
      its call, and the thread logs nothing else in between. */
  lemma ReturnHasEffect<T>(log: seq<Event<T>>, r: nat) returns (c: nat, e: nat)
    requires r < |log| && log[r].Returned? && PhaseAfter(log, log[r].t) != Broken
    ensures c < e < r && Silent(log, log[r].t, c, e) && Silent(log, log[r].t, e, r)
    ensures log[c] == Called(log[r].t, log[r].call) && log[e] == Took(log[r].t, log[r].call, log[r].reply)
  {
    var t := log[r].t;
    PrefixNotBroken(log, r + 1, t);
    Seqs.TakeLast(log, r + 1);
    PhaseAppend(log[..r], log[r], t);
    e := PhaseHasOrigin(log[..r], t);
    assert forall k :: e < k < r ==> log[k] == log[..r][k];
    assert log[..r][..e] == log[..e];
    c := PhaseHasOrigin(log[..e], t);
    assert forall k :: c < k < e ==> log[k] == log[..e][k];
  }

  /** Real-time order: the effect of a call that returned lies between its call
      and its return, and is all that its thread logged in between. */
  lemma EffectBetween<T>(capacity: nat, schedule: seq<Move<T>>, r: nat) returns (c: nat, e: nat)
    requires capacity < U64 && r < |Run(capacity, schedule).log| && Run(capacity, schedule).log[r].Returned?
    ensures c < e < r
    ensures
      var log := Run(capacity, schedule).log;
      && log[c] == Called(log[r].t, log[r].call) && log[e] == Took(log[r].t, log[r].call, log[r].reply)
      && forall k :: c < k < r && k != e ==> log[k].t != log[r].t
  {
    Linearizable(capacity, schedule);
    var s := Run(capacity, schedule);
    assert PhaseAfter(s.log, s.log[r].t) == PhaseOf(PcOf(s, s.log[r].t));
    c, e := ReturnHasEffect(s.log, r);
  }
}
