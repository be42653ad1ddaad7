/** The threaded scheduler of src/scheduler.rs with its deques taken apart.

    The machine of module SchedulerThreads does a whole deque operation in one
    step.  Here every worker owns a deque of module DequeThreads, and an
    operation on it is the call, the wait for its mutex, the look, the change,
    the update of the counter, the release and the return, each a step that
    interleaves with everything else.  This machine refines the other one, so
    what is proved of all runs there holds here.
 */
module SchedulerProduct {
  import opened Prelude
  import opened SchedulerThreads
  import opened SchedulerAlone
  import opened SchedulerScans
  import opened SchedulerBatches
  import SchedulerSpec
  import DequeThreads
  import Seqs

  datatype Node<T> = Node(deque: DequeThreads.State<T>, active: bool)

  datatype System<T> = System(nodes: seq<Node<T>>, control: Control<T>)

  function IsNodeActive<T>(node: Node<T>): bool {
    node.active
  }

  /** What a step inside a deque means outside: the effect is recorded when it
      happens, and the thread goes on when the operation has returned. */
  function Follow<T>(c: Control<T>, t: nat, n: nat, before: DequeThreads.Phase<T>, after: DequeThreads.Phase<T>)
    : Control<T>
  {
    if before.Open? && after.Answered? then Record(c, t, after.call, after.reply)
    else if before.Answered? && after.Quiet? then Goto(c, t, Onward(PcOf(c, t), c.capacity, n, before.reply))
    else c
  }

  function PhaseIn<T>(node: Node<T>, t: nat): DequeThreads.Phase<T> {
    DequeThreads.PhaseOf(DequeThreads.PcOf(node.deque, t))
  }

  /** The next state if thread `t` moves, or None if it waits for the mutex of a deque. */
  function Advance<T>(s: System<T>, t: nat, call: Call<T>): Option<System<T>> {
    var n, c := |s.nodes|, s.control;
    match Inside(PcOf(c, t), n)
    case None => Some(s.(control := Look(c, Flags(s.nodes, IsNodeActive), t, call)))
    case Some(Visit(w, k)) =>
      var deque' := DequeThreads.Step(s.nodes[w].deque, c.capacity, t, k);
      if deque'.None? then None else
      var node' := s.nodes[w].(deque := deque'.value);
      Some(System(s.nodes[w := node'], Follow(c, t, n, PhaseIn(s.nodes[w], t), PhaseIn(node', t))))
  }

  function Begun<T>(n: nat, capacity: nat): System<T> {
    System(Filled(Node(DequeThreads.Start(), true), n), NewControl(capacity))
  }

  function Transition<T>(s: System<T>, m: Move<T>): System<T> {
    match m
    case Thread(t, call) =>
      var s' := Advance(s, t, call);
      if s'.Some? then s'.value else s
    case Grow => if NoReaders(s.control) then s.(nodes := s.nodes + [Node(DequeThreads.Start(), true)]) else s
    case Retire(w) => if w < |s.nodes| then s.(nodes := s.nodes[w := s.nodes[w].(active := false)]) else s
    case Halt => s.(control := s.control.(running := false))
    case Stay => s
  }

  function Play<T>(n: nat, capacity: nat, moves: seq<Move<T>>): System<T> {
    if moves == [] then Begun(n, capacity)
    else Transition(Play(n, capacity, moves[..|moves| - 1]), moves[|moves| - 1])
  }

  // -------------------------------------------------------------- abstraction

  /** Where a thread is as far as the queues are concerned: past its deque
      operation as soon as that has taken effect. */
  function Shown<T>(s: System<T>, t: nat): Pc<T> {
    var pc, n := PcOf(s.control, t), |s.nodes|;
    match Inside(pc, n)
    case None => pc
    case Some(visit) =>
      var phase := PhaseIn(s.nodes[visit.worker], t);
      if phase.Answered? then Onward(pc, s.control.capacity, n, phase.reply) else pc
  }

  function Workers<T>(nodes: seq<Node<T>>): (r: seq<SchedulerSpec.Worker<T>>)
    ensures |r| == |nodes|
    ensures forall i :: 0 <= i < |nodes| ==>
      r[i] == SchedulerSpec.Worker(DequeThreads.Logical(nodes[i].deque), nodes[i].active)
  {
    seq(|nodes|, i requires 0 <= i < |nodes| =>
      SchedulerSpec.Worker(DequeThreads.Logical(nodes[i].deque), nodes[i].active))
  }

  function ShownPcs<T>(s: System<T>): map<nat, Pc<T>> {
    map t | t in s.control.pcs :: Shown(s, t)
  }

  /** The state of the coarser machine that a system stands for. */
  function Abstract<T>(s: System<T>): State<T> {
    State(Workers(s.nodes), s.control.(pcs := ShownPcs(s)))
  }

  // ---------------------------------------------------------------- invariant

  /** A thread is inside a deque only where its place outside says so, and there with that call. */
  predicate InPlace<T(==)>(s: System<T>, t: nat, w: nat)
    requires w < |s.nodes|
  {
    match PhaseIn(s.nodes[w], t)
    case Quiet => true
    case Open(k) => Inside(PcOf(s.control, t), |s.nodes|) == Some(Visit(w, k))
    case Answered(k, _) => Inside(PcOf(s.control, t), |s.nodes|) == Some(Visit(w, k))
    case Broken => false
  }

  ghost predicate Sound<T>(s: System<T>) {
    && s.control.capacity < U64
    && (forall w :: 0 <= w < |s.nodes| ==>
          DequeThreads.Consistent(s.nodes[w].deque, s.control.capacity)
          && DequeThreads.Faithful(s.nodes[w].deque, s.control.capacity))
    && forall t: nat, w: nat :: w < |s.nodes| ==> InPlace(s, t, w)
  }

  // --------------------------------------------------- steps outside the deques

  /** What Look does does not depend on where other threads are. */
  lemma LookElsewhere<T>(c: Control<T>, pcs: map<nat, Pc<T>>, flags: seq<bool>, t: nat, call: Call<T>)
    requires PcOf(c.(pcs := pcs), t) == PcOf(c, t)
    ensures
      var c' := Look(c, flags, t, call);
      Look(c.(pcs := pcs), flags, t, call) == c'.(pcs := pcs[t := PcOf(c', t)])
  {
  }

  lemma ShownPc<T>(s: System<T>, t: nat)
    ensures PcOf(Abstract(s).control, t) == Shown(s, t)
  {
  }

  /** A thread outside the deques, or not yet heard in one, is shown where it is. */
  lemma ShownAsIs<T>(s: System<T>, t: nat)
    requires forall w: nat :: w < |s.nodes| ==> PhaseIn(s.nodes[w], t).Quiet?
    ensures Shown(s, t) == PcOf(s.control, t)
  {
  }

  /** Other threads are shown where they were if neither their place nor their phase changes. */
  lemma ShownOthers<T>(s: System<T>, s': System<T>, t: nat)
    requires |s'.nodes| == |s.nodes| && s'.control.capacity == s.control.capacity
    requires s'.control.pcs == s.control.pcs[t := PcOf(s'.control, t)]
    requires forall u: nat, w: nat :: u != t && w < |s.nodes| ==> PhaseIn(s'.nodes[w], u) == PhaseIn(s.nodes[w], u)
    ensures ShownPcs(s') == ShownPcs(s)[t := Shown(s', t)]
  {
    forall u: nat | u != t && u in s.control.pcs
      ensures Shown(s', u) == Shown(s, u)
    {
      assert PcOf(s'.control, u) == PcOf(s.control, u);
      var visit := Inside(PcOf(s.control, u), |s.nodes|);
      if visit.Some? {
        assert PhaseIn(s'.nodes[visit.value.worker], u) == PhaseIn(s.nodes[visit.value.worker], u);
      }
    }
  }

  lemma LookSound<T>(s: System<T>, s': System<T>, t: nat)
    requires Sound(s) && forall w: nat :: w < |s.nodes| ==> PhaseIn(s.nodes[w], t).Quiet?
    requires s'.nodes == s.nodes && s'.control.capacity == s.control.capacity
    requires s'.control.pcs == s.control.pcs[t := PcOf(s'.control, t)]
    ensures Sound(s')
  {
    forall u: nat, w: nat | w < |s.nodes|
      ensures InPlace(s', u, w)
    {
      assert InPlace(s, u, w);
      assert u != t ==> PcOf(s'.control, u) == PcOf(s.control, u);
    }
  }

  lemma LookRefines<T>(s: System<T>, t: nat, call: Call<T>)
    requires Sound(s) && Inside(PcOf(s.control, t), |s.nodes|).None?
    ensures Sound(Advance(s, t, call).value)
    ensures Abstract(Advance(s, t, call).value) == ThreadStep(Abstract(s), t, call)
  {
    var c, flags := s.control, Flags(s.nodes, IsNodeActive);
    var s' := s.(control := Look(c, flags, t, call));
    LookIsQuiet(c, flags, t, call);
    forall w: nat | w < |s.nodes|
      ensures PhaseIn(s.nodes[w], t).Quiet?
    {
      assert InPlace(s, t, w);
    }
    LookSound(s, s', t);
    ShownAsIs(s, t);
    ShownAsIs(s', t);
    ShownPc(s, t);
    ShownOthers(s, s', t);
    LookElsewhere(c, ShownPcs(s), flags, t, call);
    assert Flags(Workers(s.nodes), IsActive) == flags;
  }

  // ---------------------------------------------------- steps inside a deque

  /** Thread `t` is at operation `k` on the deque of worker `w` and can move. */
  predicate CanVisit<T(==)>(s: System<T>, t: nat, w: nat, k: DequeThreads.Call<T>) {
    && Inside(PcOf(s.control, t), |s.nodes|) == Some(Visit(w, k))
    && DequeThreads.Step(s.nodes[w].deque, s.control.capacity, t, k).Some?
  }

  /** Thread `t` is in no other deque, and in this one, if at all, with this call. */
  lemma PhaseHere<T>(s: System<T>, t: nat, w: nat, k: DequeThreads.Call<T>)
    requires Sound(s) && Inside(PcOf(s.control, t), |s.nodes|) == Some(Visit(w, k))
    ensures forall v: nat :: v < |s.nodes| && v != w ==> PhaseIn(s.nodes[v], t).Quiet?
    ensures
      var p := PhaseIn(s.nodes[w], t);
      p.Quiet? || p == DequeThreads.Open(k) || (p.Answered? && p.call == k)
  {
    forall v: nat | v < |s.nodes| && v != w
      ensures PhaseIn(s.nodes[v], t).Quiet?
    {
      assert InPlace(s, t, v);
    }
    assert InPlace(s, t, w);
  }

  /** One step inside a deque: what changes in the system around it. */
  ghost predicate DequeStep<T>(s: System<T>, s': System<T>, t: nat, w: nat, k: DequeThreads.Call<T>) {
    && w < |s.nodes| == |s'.nodes| && s'.nodes == s.nodes[w := s'.nodes[w]]
    && s'.nodes[w].active == s.nodes[w].active
    && s'.control == Follow(s.control, t, |s.nodes|, PhaseIn(s.nodes[w], t), PhaseIn(s'.nodes[w], t))
    && (forall u: nat :: u != t ==> PhaseIn(s'.nodes[w], u) == PhaseIn(s.nodes[w], u))
    && DequeThreads.Consistent(s'.nodes[w].deque, s.control.capacity)
    && DequeThreads.Faithful(s'.nodes[w].deque, s.control.capacity)
    && var p, p' := PhaseIn(s.nodes[w], t), PhaseIn(s'.nodes[w], t);
       var q, q' := DequeThreads.Logical(s.nodes[w].deque), DequeThreads.Logical(s'.nodes[w].deque);
       if p == DequeThreads.Open(k) && p' != p
       then p'.Answered? && p'.call == k
            && DequeThreads.Atomically(q, s.control.capacity, k) == DequeThreads.Answer(q', p'.reply)
       else q' == q && (p' == p || (p.Quiet? && p' == DequeThreads.Open(k)) || (p.Answered? && p'.Quiet?))
  }

  lemma VisitIsDequeStep<T>(s: System<T>, t: nat, call: Call<T>, w: nat, k: DequeThreads.Call<T>)
    requires Sound(s) && CanVisit(s, t, w, k)
    ensures Advance(s, t, call).Some? && DequeStep(s, Advance(s, t, call).value, t, w, k)
  {
    var d := s.nodes[w].deque;
    PhaseHere(s, t, w, k);
    DequeThreads.StepShape(d, s.control.capacity, t, k);
    var d' := DequeThreads.Step(d, s.control.capacity, t, k).value;
    assert forall u :: u != t ==> DequeThreads.PcOf(d', u) == DequeThreads.PcOf(d, u);
  }

  lemma FollowKeepsOthers<T>(c: Control<T>, t: nat, n: nat, p: DequeThreads.Phase<T>, p': DequeThreads.Phase<T>)
    ensures
      var c' := Follow(c, t, n, p, p');
      && c'.capacity == c.capacity
      && (forall u: nat :: u != t ==> PcOf(c', u) == PcOf(c, u))
      && (p'.Quiet? || PcOf(c', t) == PcOf(c, t))
  {
  }

  lemma VisitSound<T>(s: System<T>, s': System<T>, t: nat, w: nat, k: DequeThreads.Call<T>)
    requires Sound(s) && Inside(PcOf(s.control, t), |s.nodes|) == Some(Visit(w, k)) && DequeStep(s, s', t, w, k)
    ensures Sound(s')
  {
    PhaseHere(s, t, w, k);
    FollowKeepsOthers(s.control, t, |s.nodes|, PhaseIn(s.nodes[w], t), PhaseIn(s'.nodes[w], t));
    forall u: nat, v: nat | v < |s.nodes|
      ensures InPlace(s', u, v)
    {
      assert InPlace(s, u, v);
    }
  }

  lemma WorkersUpdate<T>(s: System<T>, s': System<T>, t: nat, w: nat, k: DequeThreads.Call<T>)
    requires DequeStep(s, s', t, w, k)
    ensures
      var before := Workers(s.nodes);
      Workers(s'.nodes) == before[w := before[w].(items := DequeThreads.Logical(s'.nodes[w].deque))]
  {
  }

  /** A step that is not the effect leaves the coarse state alone. */
  lemma SilentVisit<T>(s: System<T>, s': System<T>, t: nat, w: nat, k: DequeThreads.Call<T>)
    requires Sound(s) && Inside(PcOf(s.control, t), |s.nodes|) == Some(Visit(w, k)) && DequeStep(s, s', t, w, k)
    requires !(PhaseIn(s.nodes[w], t).Open? && PhaseIn(s'.nodes[w], t).Answered?)
    ensures Abstract(s') == Abstract(s)
  {
    PhaseHere(s, t, w, k);
    WorkersUpdate(s, s', t, w, k);
    assert Workers(s'.nodes) == Workers(s.nodes);
    assert t in s.control.pcs;
    if PhaseIn(s.nodes[w], t).Answered? && PhaseIn(s'.nodes[w], t).Quiet? {
      ShownAsIs(s', t);
    }
    assert Shown(s', t) == Shown(s, t);
    assert s'.control.pcs == s.control.pcs[t := PcOf(s'.control, t)];
    ShownOthers(s, s', t);
    assert ShownPcs(s)[t := Shown(s, t)] == ShownPcs(s);
  }

  /** The effect is the whole operation of the coarser machine. */
  lemma EffectVisit<T>(s: System<T>, s': System<T>, t: nat, call: Call<T>, w: nat, k: DequeThreads.Call<T>)
    requires Sound(s) && Inside(PcOf(s.control, t), |s.nodes|) == Some(Visit(w, k)) && DequeStep(s, s', t, w, k)
    requires PhaseIn(s.nodes[w], t).Open? && PhaseIn(s'.nodes[w], t).Answered?
    ensures Abstract(s') == ThreadStep(Abstract(s), t, call)
  {
    PhaseHere(s, t, w, k);
    WorkersUpdate(s, s', t, w, k);
    ShownPc(s, t);
    assert Shown(s, t) == PcOf(s.control, t);
    assert t in s.control.pcs;
    assert s'.control.pcs == s.control.pcs[t := PcOf(s'.control, t)];
    ShownOthers(s, s', t);
  }

  // --------------------------------------------------------------- refinement

  /** Every step of a thread is a step of the coarser machine or changes nothing there. */
  lemma AdvanceRefines<T>(s: System<T>, t: nat, call: Call<T>)
    requires Sound(s) && Advance(s, t, call).Some?
    ensures
      var s' := Advance(s, t, call).value;
      Sound(s') && (Abstract(s') == Abstract(s) || Abstract(s') == ThreadStep(Abstract(s), t, call))
  {
    var visit := Inside(PcOf(s.control, t), |s.nodes|);
    if visit.None? {
      LookRefines(s, t, call);
    } else {
      var Visit(w, k) := visit.value;
      var s' := Advance(s, t, call).value;
      VisitIsDequeStep(s, t, call, w, k);
      VisitSound(s, s', t, w, k);
      if PhaseIn(s.nodes[w], t).Open? && PhaseIn(s'.nodes[w], t).Answered? {
        EffectVisit(s, s', t, call, w, k);
      } else {
        SilentVisit(s, s', t, w, k);
      }
    }
  }

  lemma GrowRefines<T>(s: System<T>)
    requires Sound(s) && NoReaders(s.control)
    ensures Sound(Transition(s, Grow)) && Abstract(Transition(s, Grow)) == Step(Abstract(s), Grow)
  {
    var s' := Transition(s, Grow);
    forall t: nat
      ensures Inside(PcOf(s.control, t), |s.nodes|).None? && Inside(PcOf(s.control, t), |s'.nodes|).None?
    {
      assert PcOf(s.control, t).Idle? || PcOf(s.control, t).CheckRunning?;
    }
    forall t: nat, w: nat | w < |s'.nodes|
      ensures InPlace(s', t, w)
    {
      if w < |s.nodes| {
        assert InPlace(s, t, w);
      }
    }
    assert forall t :: t in s.control.pcs ==> Shown(s, t) == PcOf(s.control, t);
    assert forall t :: t in s.control.pcs ==> Shown(s', t) == PcOf(s.control, t);
    assert ShownPcs(s') == ShownPcs(s);
    assert Workers(s'.nodes) == Workers(s.nodes) + [SchedulerSpec.Worker([], true)];
  }

  /** A move that touches no deque and moves no thread. */
  lemma SameInside<T>(s: System<T>, s': System<T>)
    requires Sound(s) && |s'.nodes| == |s.nodes|
    requires forall w :: 0 <= w < |s.nodes| ==> s'.nodes[w].deque == s.nodes[w].deque
    requires s'.control.pcs == s.control.pcs && s'.control.capacity == s.control.capacity
    ensures Sound(s') && ShownPcs(s') == ShownPcs(s)
  {
    forall t: nat, v: nat | v < |s'.nodes|
      ensures InPlace(s', t, v)
    {
      assert InPlace(s, t, v);
    }
    forall t | t in s.control.pcs
      ensures Shown(s', t) == Shown(s, t)
    {
    }
  }

  lemma RetireRefines<T>(s: System<T>, w: nat)
    requires Sound(s) && w < |s.nodes|
    ensures Sound(Transition(s, Retire(w))) && Abstract(Transition(s, Retire(w))) == Step(Abstract(s), Retire(w))
  {
    var s' := s.(nodes := s.nodes[w := s.nodes[w].(active := false)]);
    SameInside(s, s');
    assert Workers(s'.nodes) == Workers(s.nodes)[w := Workers(s.nodes)[w].(active := false)];
  }

  lemma HaltRefines<T>(s: System<T>)
    requires Sound(s)
    ensures Sound(Transition(s, Halt)) && Abstract(Transition(s, Halt)) == Step(Abstract(s), Halt)
  {
    SameInside(s, Transition(s, Halt));
  }

  /** The simulation: every move is the same move of the coarser machine or changes nothing there. */
  lemma StepRefines<T>(s: System<T>, m: Move<T>)
    requires Sound(s)
    ensures Sound(Transition(s, m))
    ensures Abstract(Transition(s, m)) == Abstract(s) || Abstract(Transition(s, m)) == Step(Abstract(s), m)
  {
    match m
    case Thread(t, call) =>
      if Advance(s, t, call).Some? {
        AdvanceRefines(s, t, call);
      }
    case Grow =>
      if NoReaders(s.control) {
        GrowRefines(s);
      }
    case Retire(w) =>
      if w < |s.nodes| {
        RetireRefines(s, w);
      }
    case Halt => HaltRefines(s);
    case Stay =>
  }

  lemma BegunRefines<T>(n: nat, capacity: nat)
    requires capacity < U64
    ensures Sound<T>(Begun(n, capacity)) && Abstract<T>(Begun(n, capacity)) == Start(n, capacity)
  {
    var s := Begun<T>(n, capacity);
    assert ShownPcs(s) == map[];
    assert Workers(s.nodes) == Start<T>(n, capacity).workers;
    forall w | 0 <= w < n
      ensures DequeThreads.Consistent(s.nodes[w].deque, capacity) && DequeThreads.Faithful(s.nodes[w].deque, capacity)
    {
      DequeThreads.Linearizable<T>(capacity, []);
    }
  }

  /** All states of a run, the last one included. */
  function Systems<T>(n: nat, capacity: nat, moves: seq<Move<T>>): (r: seq<System<T>>)
    ensures |r| == |moves| + 1 && r[|moves|] == Play(n, capacity, moves)
  {
    if moves == [] then [Begun(n, capacity)]
    else Systems(n, capacity, moves[..|moves| - 1]) + [Play(n, capacity, moves)]
  }

  /** The same run as the coarser machine sees it: each move or no move. */
  ghost predicate Mirrors<T>(coarse: seq<Move<T>>, moves: seq<Move<T>>) {
    |coarse| == |moves| && forall j :: 0 <= j < |moves| ==> coarse[j] == moves[j] || coarse[j] == Stay
  }

  /** Every state of the one run stands for the state of the other at the same time. */
  ghost predicate InStep<T>(systems: seq<System<T>>, states: seq<State<T>>) {
    |systems| == |states| && forall j :: 0 <= j < |states| ==> Abstract(systems[j]) == states[j]
  }

  lemma InStepLonger<T>(systems: seq<System<T>>, states: seq<State<T>>, s: System<T>, a: State<T>)
    requires InStep(systems, states) && Abstract(s) == a
    ensures InStep(systems + [s], states + [a])
  {
    forall j | 0 <= j < |states + [a]|
      ensures Abstract((systems + [s])[j]) == (states + [a])[j]
    {
      if j < |states| {
        assert (systems + [s])[j] == systems[j];
      }
    }
  }

  /** The coarser machine's part in one move. */
  lemma MoveRefines<T>(s: System<T>, m: Move<T>) returns (m': Move<T>)
    requires Sound(s)
    ensures Sound(Transition(s, m)) && (m' == m || m' == Stay) && Abstract(Transition(s, m)) == Step(Abstract(s), m')
  {
    StepRefines(s, m);
    m' := if Abstract(Transition(s, m)) == Abstract(s) then Stay else m;
  }

  lemma SystemsSplit<T>(n: nat, capacity: nat, moves: seq<Move<T>>, m: Move<T>)
    ensures
      var s' := Transition(Play(n, capacity, moves), m);
      Play(n, capacity, moves + [m]) == s' && Systems(n, capacity, moves + [m]) == Systems(n, capacity, moves) + [s']
  {
    assert (moves + [m])[..|moves|] == moves;
  }

  lemma RefinesNothing<T>(n: nat, capacity: nat, moves: seq<Move<T>>)
    requires capacity < U64 && moves == []
    ensures Mirrors(moves, moves) && Sound(Play(n, capacity, moves))
    ensures InStep(Systems(n, capacity, moves), States(n, capacity, moves))
  {
    BegunRefines<T>(n, capacity);
  }

  lemma RefinesOneMore<T>(n: nat, capacity: nat, before: seq<Move<T>>, coarse: seq<Move<T>>, m: Move<T>,
                          moves: seq<Move<T>>) returns (coarse': seq<Move<T>>)
    requires Mirrors(coarse, before) && Sound(Play(n, capacity, before)) && moves == before + [m]
    requires InStep(Systems(n, capacity, before), States(n, capacity, coarse))
    ensures Mirrors(coarse', moves) && Sound(Play(n, capacity, moves))
    ensures InStep(Systems(n, capacity, moves), States(n, capacity, coarse'))
  {
    var systems, states := Systems(n, capacity, before), States(n, capacity, coarse);
    var s, a := systems[|before|], states[|coarse|];
    assert Abstract(s) == a;
    var m' := MoveRefines(s, m);
    coarse' := coarse + [m'];
    SystemsSplit(n, capacity, before, m);
    StatesSplit(n, capacity, coarse, m');
    InStepLonger(systems, states, Transition(s, m), Step(a, m'));
  }

  /** Every interleaving of all the small steps stands, state by state, for a run of the coarser machine. */
  lemma {:induction false} Refines<T>(n: nat, capacity: nat, moves: seq<Move<T>>) returns (coarse: seq<Move<T>>)
    requires capacity < U64
    ensures Mirrors(coarse, moves) && Sound(Play(n, capacity, moves))
    ensures InStep(Systems(n, capacity, moves), States(n, capacity, coarse))
  {
    if moves == [] {
      coarse := [];
      RefinesNothing<T>(n, capacity, moves);
    } else {
      var before, m := moves[..|moves| - 1], moves[|moves| - 1];
      Seqs.Unsnoc(moves, before, m);
      var coarse' := Refines(n, capacity, before);
      coarse := RefinesOneMore(n, capacity, before, coarse', m, moves);
    }
  }

  lemma RefinesNow<T>(n: nat, capacity: nat, moves: seq<Move<T>>) returns (coarse: seq<Move<T>>)
    requires capacity < U64
    ensures Sound(Play(n, capacity, moves)) && Abstract(Play(n, capacity, moves)) == Execute(n, capacity, coarse)
  {
    coarse := Refines(n, capacity, moves);
    assert Systems(n, capacity, moves)[|moves|] == Play(n, capacity, moves);
  }

  // ---------------------------------------------------------- what it means

  /** A small step shows its thread where it was, or where the coarser machine takes it. */
  lemma StepShown<T>(s: System<T>, t: nat, call: Call<T>)
    requires Sound(s) && Advance(s, t, call).Some?
    ensures PcOf(Abstract(s).control, t) == Shown(s, t)
    ensures
      var s' := Advance(s, t, call).value;
      if Abstract(s') == Abstract(s) then Shown(s', t) == Shown(s, t)
      else Shown(s', t) == PcOf(ThreadStep(Abstract(s), t, call).control, t)
  {
    AdvanceRefines(s, t, call);
    ShownPc(s, t);
    ShownPc(Advance(s, t, call).value, t);
  }

  lemma WellNumberedAnyPcs<T>(c: Control<T>, c': Control<T>)
    requires WellNumbered(c') && c' == c.(pcs := c'.pcs)
    ensures WellNumbered(c)
  {
  }

  /** Under every interleaving of all the small steps nothing is lost or
      duplicated, ids are as they should be, and no deque is overfilled. */
  lemma SmallStepsConserve<T>(n: nat, capacity: nat, moves: seq<Move<T>>)
    requires capacity < U64
    ensures
      var s := Play(n, capacity, moves);
      && SchedulerSpec.Pending(Workers(s.nodes)) + multiset(s.control.handed) == multiset(s.control.accepted)
      && WellNumbered(s.control)
      && forall w :: 0 <= w < |s.nodes| ==> |s.nodes[w].deque.queue| <= capacity
  {
    var coarse := RefinesNow(n, capacity, moves);
    ThreadsConserveTasks(n, capacity, coarse);
    ThreadsNumberTasks(n, capacity, coarse);
    NumberedWell(Execute(n, capacity, coarse).control);
    WellNumberedAnyPcs(Play(n, capacity, moves).control, Execute(n, capacity, coarse).control);
  }

  /** Under every interleaving of all the small steps a submission is refused
      exactly by a step that takes effect when it sees the scheduler stopped,
      finds no workers, pushes to a full queue, or closes a round of looks, each
      of which took effect in the same scan and found its worker closed. */
  lemma SmallStepsRefuse<T>(n: nat, capacity: nat, moves: seq<Move<T>>, t: nat, call: Call<T>)
    returns (coarse: seq<Move<T>>)
    requires capacity < U64 && Advance(Play(n, capacity, moves), t, call).Some?
    ensures Mirrors(coarse, moves) && InStep(Systems(n, capacity, moves), States(n, capacity, coarse))
    ensures
      var s := Play(n, capacity, moves);
      var s', found := Advance(s, t, call).value, FoundClosed(States(n, capacity, coarse), coarse, t);
      (!Shown(s, t).Finish? && Shown(s', t) == Finish(None))
      <==> (Abstract(s') != Abstract(s) && Refusable(Abstract(s), t, found))
  {
    var s := Play(n, capacity, moves);
    coarse := Refines(n, capacity, moves);
    assert Systems(n, capacity, moves)[|moves|] == s;
    StepShown(s, t, call);
    RefusedExactly(n, capacity, coarse, t, call);
  }

  /** And a thief comes back with nothing exactly by a step that takes effect
      when there is no such worker or each other one was inactive or empty when
      a look of the same scan took effect. */
  lemma SmallStepsGiveUp<T>(n: nat, capacity: nat, moves: seq<Move<T>>, t: nat, call: Call<T>)
    returns (coarse: seq<Move<T>>)
    requires capacity < U64 && Advance(Play(n, capacity, moves), t, call).Some?
    ensures Mirrors(coarse, moves) && InStep(Systems(n, capacity, moves), States(n, capacity, coarse))
    ensures
      var s := Play(n, capacity, moves);
      var s', found := Advance(s, t, call).value, FoundClosed(States(n, capacity, coarse), coarse, t);
      (Shown(s, t).StealSee? && Shown(s', t).Idle?)
      <==> (Abstract(s') != Abstract(s) && NothingToSteal(Abstract(s), t, found))
  {
    var s := Play(n, capacity, moves);
    coarse := Refines(n, capacity, moves);
    assert Systems(n, capacity, moves)[|moves|] == s;
    StepShown(s, t, call);
    EmptyHandedExactly(n, capacity, coarse, t, call);
  }

  /** Under every interleaving of all the small steps a batch thief about to
      take robs the first of the longest queues that its looks found, one at
      every other worker, each when it took effect. */
  lemma SmallStepsRob<T>(n: nat, capacity: nat, moves: seq<Move<T>>, t: nat)
    returns (coarse: seq<Move<T>>, thief: nat, p: nat, max: nat)
    requires capacity < U64 && Shown(Play(n, capacity, moves), t).BatchTake?
    ensures Mirrors(coarse, moves) && InStep(Systems(n, capacity, moves), States(n, capacity, coarse))
    ensures
      var s, looks := Play(n, capacity, moves), Looks(n, capacity, coarse, t);
      && thief < |s.nodes| && InOrder(looks, thief, |s.nodes|)
      && FirstLongest(looks, p, max) && Shown(s, t).victim == looks[p].worker
  {
    var s := Play(n, capacity, moves);
    coarse := Refines(n, capacity, moves);
    assert Systems(n, capacity, moves)[|moves|] == s;
    ShownPc(s, t);
    thief, p, max := BatchRobsLongest(n, capacity, coarse, t);
  }

  // -------------------------------------------- an undisturbed call

  /** No thread but `t` holds a mutex. */
  ghost predicate OthersOut<T>(s: System<T>, t: nat) {
    forall w :: 0 <= w < |s.nodes| ==> s.nodes[w].deque.holder == None || s.nodes[w].deque.holder == Some(t)
  }

  /** Step `i` of a run is a step of thread `t`, inside its operation until the last one. */
  ghost predicate SmallNext<T>(run: seq<System<T>>, i: nat, t: nat, call: Call<T>)
    requires i + 1 < |run|
  {
    Advance(run[i], t, call) == Some(run[i + 1]) && (PcOf(run[i + 1].control, t).Idle? <==> i + 2 == |run|)
  }

  /** Thread `t` moves alone, never blocked, until its operation returns. */
  ghost predicate RunAlone<T>(run: seq<System<T>>, t: nat, call: Call<T>) {
    |run| >= 2 && forall i :: 0 <= i < |run| - 1 ==> SmallNext(run, i, t, call)
  }

  ghost predicate RunsTo<T>(run: seq<System<T>>, s: System<T>, end: System<T>, t: nat, call: Call<T>) {
    RunAlone(run, t, call) && run[0] == s && run[|run| - 1] == end
  }

  lemma LongerRun<T>(s: System<T>, s': System<T>, run: seq<System<T>>, end: System<T>, t: nat, call: Call<T>)
    requires RunsTo(run, s', end, t, call) && Advance(s, t, call) == Some(s') && !PcOf(s'.control, t).Idle?
    ensures RunsTo([s] + run, s, end, t, call)
  {
    var longer := [s] + run;
    forall i | 0 <= i < |longer| - 1
      ensures SmallNext(longer, i, t, call)
    {
      if i == 0 {
        assert longer[0] == s && longer[1] == run[0];
      } else {
        assert SmallNext(run, i - 1, t, call);
        assert longer[i] == run[i - 1] && longer[i + 1] == run[i];
      }
    }
  }

  lemma ShortRun<T>(s: System<T>, s': System<T>, t: nat, call: Call<T>)
    requires Advance(s, t, call) == Some(s') && PcOf(s'.control, t).Idle?
    ensures RunsTo([s, s'], s, s', t, call)
  {
    assert SmallNext([s, s'], 0, t, call);
  }

  /** Bounds the steps a thread takes inside a deque without taking effect. */
  function Rank<T>(pc: DequeThreads.Pc<T>, capacity: nat): nat {
    match pc
    case Done(_, _) => capacity + 7
    case Leaving(_, _) => capacity + 6
    case Idle => capacity + 5
    case Wants(_) => capacity + 4
    case Holds(_) => capacity + 3
    case Moved(_, _) => 0
    case Halving(count, taken) => if count > |taken| then count - |taken| else 0
  }

  function StepsLeft<T>(s: System<T>, t: nat): nat {
    match Inside(PcOf(s.control, t), |s.nodes|)
    case None => 0
    case Some(visit) => Rank(DequeThreads.PcOf(s.nodes[visit.worker].deque, t), s.control.capacity)
  }

  lemma RankFalls<T>(d: DequeThreads.State<T>, capacity: nat, t: nat, k: DequeThreads.Call<T>)
    requires DequeThreads.Consistent(d, capacity) && (d.holder == None || d.holder == Some(t))
    ensures DequeThreads.Step(d, capacity, t, k).Some?
    ensures
      var pc, pc' := DequeThreads.PcOf(d, t), DequeThreads.PcOf(DequeThreads.Step(d, capacity, t, k).value, t);
      || (DequeThreads.PhaseOf(pc).Open? && DequeThreads.PhaseOf(pc').Answered?)
      || Rank(pc', capacity) < Rank(pc, capacity)
  {
    assert DequeThreads.InCritical(DequeThreads.PcOf(d, t)) <==> d.holder == Some(t);
  }

  lemma HolderIsOwn<T>(d: DequeThreads.State<T>, d': DequeThreads.State<T>, capacity: nat, t: nat)
    requires DequeThreads.Exclusive(d) && DequeThreads.Exclusive(d') && (d.holder == None || d.holder == Some(t))
    requires d'.pcs == d.pcs[t := DequeThreads.PcOf(d', t)]
    ensures d'.holder == None || d'.holder == Some(t)
  {
    assert forall u :: u != t ==> DequeThreads.PcOf(d', u) == DequeThreads.PcOf(d, u);
  }

  lemma AtRest<T>(s: System<T>, t: nat)
    requires forall v: nat :: v < |s.nodes| ==> PhaseIn(s.nodes[v], t).Quiet?
    ensures StepsLeft(s, t) <= s.control.capacity + 5
  {
  }

  /** Leaving one deque for the next is progress too. */
  lemma ComesCloser<T>(s: System<T>, s': System<T>, t: nat, w: nat, k: DequeThreads.Call<T>)
    requires Sound(s) && Inside(PcOf(s.control, t), |s.nodes|) == Some(Visit(w, k)) && DequeStep(s, s', t, w, k)
    requires
      var pc, pc' := DequeThreads.PcOf(s.nodes[w].deque, t), DequeThreads.PcOf(s'.nodes[w].deque, t);
      !(DequeThreads.PhaseOf(pc).Open? && DequeThreads.PhaseOf(pc').Answered?)
      && Rank(pc', s.control.capacity) < Rank(pc, s.control.capacity)
    ensures StepsLeft(s', t) < StepsLeft(s, t)
  {
    PhaseHere(s, t, w, k);
    FollowKeepsOthers(s.control, t, |s.nodes|, PhaseIn(s.nodes[w], t), PhaseIn(s'.nodes[w], t));
    if PhaseIn(s'.nodes[w], t).Quiet? {
      forall v: nat | v < |s'.nodes|
        ensures PhaseIn(s'.nodes[v], t).Quiet?
      {
      }
      AtRest(s', t);
    }
  }

  /** A visiting thread that moves alone either takes effect or comes closer to it, and never blocks. */
  lemma VisitAlone<T>(s: System<T>, t: nat, call: Call<T>, w: nat, k: DequeThreads.Call<T>) returns (s': System<T>)
    requires Sound(s) && OthersOut(s, t) && Inside(PcOf(s.control, t), |s.nodes|) == Some(Visit(w, k))
    ensures Advance(s, t, call) == Some(s') && DequeStep(s, s', t, w, k) && OthersOut(s', t)
    ensures (PhaseIn(s.nodes[w], t).Open? && PhaseIn(s'.nodes[w], t).Answered?) || StepsLeft(s', t) < StepsLeft(s, t)
  {
    var d := s.nodes[w].deque;
    RankFalls(d, s.control.capacity, t, k);
    VisitIsDequeStep(s, t, call, w, k);
    s' := Advance(s, t, call).value;
    DequeThreads.StepShape(d, s.control.capacity, t, k);
    HolderIsOwn(d, s'.nodes[w].deque, s.control.capacity, t);
    if !(PhaseIn(s.nodes[w], t).Open? && PhaseIn(s'.nodes[w], t).Answered?) {
      ComesCloser(s, s', t, w, k);
    }
  }

  /** One step of a thread alone: a step of the coarser machine, or progress inside a deque. */
  lemma StepAlone<T>(s: System<T>, t: nat, call: Call<T>) returns (s': System<T>, coarse: bool)
    requires Sound(s) && OthersOut(s, t)
    ensures Advance(s, t, call) == Some(s') && Sound(s') && OthersOut(s', t)
    ensures coarse ==> Abstract(s') == ThreadStep(Abstract(s), t, call) && Shown(s, t) == PcOf(s.control, t)
    ensures !coarse ==>
      Abstract(s') == Abstract(s) && !PcOf(s.control, t).Idle? && StepsLeft(s', t) < StepsLeft(s, t)
  {
    coarse := true;
    var visit := Inside(PcOf(s.control, t), |s.nodes|);
    if visit.None? {
      LookRefines(s, t, call);
      s' := Advance(s, t, call).value;
    } else {
      var Visit(w, k) := visit.value;
      s' := VisitAlone(s, t, call, w, k);
      VisitSound(s, s', t, w, k);
      if PhaseIn(s.nodes[w], t).Open? && PhaseIn(s'.nodes[w], t).Answered? {
        EffectVisit(s, s', t, call, w, k);
      } else {
        SilentVisit(s, s', t, w, k);
        coarse := false;
      }
    }
  }

  /** A thread whose operation is over in the coarser machine returns. */
  lemma {:induction false} LeavesAlone<T>(s: System<T>, t: nat, call: Call<T>)
    returns (run: seq<System<T>>, end: System<T>)
    requires Sound(s) && OthersOut(s, t) && Shown(s, t).Idle? && !PcOf(s.control, t).Idle?
    ensures RunsTo(run, s, end, t, call) && Abstract(end) == Abstract(s)
    decreases StepsLeft(s, t)
  {
    var s', _ := StepAlone(s, t, call);
    if PcOf(s'.control, t).Idle? {
      ShortRun(s, s', t, call);
      run, end := [s, s'], s';
    } else {
      ShownPc(s, t);
      ShownPc(s', t);
      run, end := LeavesAlone(s', t, call);
      LongerRun(s, s', run, end, t, call);
      run := [s] + run;
    }
  }

  /** One step of a thread alone, seen against its path in the coarser machine. */
  lemma StepAlong<T>(s: System<T>, t: nat, call: Call<T>, path: seq<State<T>>, i: nat)
    returns (s': System<T>, coarse: bool)
    requires Sound(s) && OthersOut(s, t) && PathAlone(path, t, call) && i + 1 < |path| && Abstract(s) == path[i]
    ensures Sound(s') && OthersOut(s', t)
    ensures if PcOf(s'.control, t).Idle? then RunsTo([s, s'], s, s', t, call)
            else forall run, end :: RunsTo(run, s', end, t, call) ==> RunsTo([s] + run, s, end, t, call)
    ensures coarse ==> Abstract(s') == path[i + 1] && (Shown(s', t).Idle? <==> i + 2 == |path|)
    ensures !coarse ==>
      && Abstract(s') == Abstract(s) && Shown(s', t) == Shown(s, t)
      && !PcOf(s.control, t).Idle? && StepsLeft(s', t) < StepsLeft(s, t)
  {
    s', coarse := StepAlone(s, t, call);
    ShownPc(s, t);
    ShownPc(s', t);
    assert NextOn(path, i, t, call);
    if PcOf(s'.control, t).Idle? {
      ShortRun(s, s', t, call);
    } else {
      forall run, end | RunsTo(run, s', end, t, call)
        ensures RunsTo([s] + run, s, end, t, call)
      {
        LongerRun(s, s', run, end, t, call);
      }
    }
  }

  /** A thread alone does in small steps what it does alone in the coarser machine. */
  lemma {:induction false} AloneRefines<T>(s: System<T>, t: nat, call: Call<T>, path: seq<State<T>>, i: nat)
    returns (run: seq<System<T>>, end: System<T>)
    requires Sound(s) && OthersOut(s, t) && (Shown(s, t).Idle? ==> PcOf(s.control, t).Idle?)
    requires PathAlone(path, t, call) && i + 1 < |path| && Abstract(s) == path[i]
    ensures RunsTo(run, s, end, t, call) && Abstract(end) == path[|path| - 1]
    decreases |path| - i, StepsLeft(s, t)
  {
    var s', coarse := StepAlong(s, t, call, path, i);
    if PcOf(s'.control, t).Idle? {
      run, end := [s, s'], s';
    } else {
      if !coarse {
        run, end := AloneRefines(s', t, call, path, i);
      } else if i + 2 == |path| {
        run, end := LeavesAlone(s', t, call);
      } else {
        run, end := AloneRefines(s', t, call, path, i + 1);
      }
      run := [s] + run;
    }
  }

  /** A call during which no other thread moves, begun while no mutex is held,
      does in all its small steps what its atomic operation prescribes. */
  lemma CallInSmallSteps<T>(s: System<T>, t: nat, call: Call<T>) returns (run: seq<System<T>>)
    requires Sound(s) && OthersOut(s, t) && PcOf(s.control, t).Idle?
    ensures RunAlone(run, t, call) && run[0] == s
    ensures
      var o, end := SchedulerSpec.Step(SchedOf(Abstract(s)), OpOf(call)), run[|run| - 1];
      && SchedOf(Abstract(end)) == o.state
      && end.control.handed == s.control.handed + o.handed
      && end.control.replies == s.control.replies + if call.DoSubmit? then [o.id] else []
  {
    ShownPc(s, t);
    var path := CallUndisturbed(Abstract(s), t, call);
    var end;
    run, end := AloneRefines(s, t, call, path, 0);
  }

  /** In particular a submission, begun so, replies what the atomic submit step does. */
  lemma SubmitInSmallSteps<T>(s: System<T>, t: nat, task: T) returns (run: seq<System<T>>)
    requires Sound(s) && OthersOut(s, t) && PcOf(s.control, t).Idle?
    ensures RunAlone(run, t, DoSubmit(task)) && run[0] == s
    ensures
      var o, end := SchedulerSpec.SubmitStep(SchedOf(Abstract(s)), task), run[|run| - 1];
      SchedOf(Abstract(end)) == o.state && end.control.replies == s.control.replies + [o.id]
  {
    run := CallInSmallSteps(s, t, DoSubmit(task));
  }
}
