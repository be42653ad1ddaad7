/** What a call does that no other thread disturbs.

    From any state, whatever other threads are in the middle of, a thread that
    moves alone ends with what the atomic operation of module SchedulerSpec
    prescribes: the same scheduler, the same tasks handed out, the same reply.
 */
module SchedulerAlone {
  import opened Prelude
  import opened SchedulerSpec
  import opened SchedulerThreads

  /** Step `i` of a path is a step of thread `t`, inside its operation until the last one. */
  ghost predicate NextOn<T>(path: seq<State<T>>, i: nat, t: nat, call: Call<T>)
    requires i + 1 < |path|
  {
    path[i + 1] == ThreadStep(path[i], t, call) && (PcOf(path[i + 1].control, t).Idle? <==> i + 2 == |path|)
  }

  /** Thread `t` moves alone until its operation returns. */
  ghost predicate PathAlone<T>(path: seq<State<T>>, t: nat, call: Call<T>) {
    |path| >= 2 && forall i :: 0 <= i < |path| - 1 ==> NextOn(path, i, t, call)
  }

  /** Thread `t` alone returns from `s` having done `o` and replied `replies`; no other thread has moved. */
  ghost predicate ReturnsAlone<T>(s: State<T>, path: seq<State<T>>, t: nat, call: Call<T>,
                                  o: Outcome<T>, replies: seq<Option<nat>>) {
    && PathAlone(path, t, call) && path[0] == s
    && var end := path[|path| - 1];
       && SchedOf(end) == o.state
       && end.control.handed == s.control.handed + o.handed
       && end.control.replies == s.control.replies + replies
       && end.control.pcs == s.control.pcs[t := Idle]
  }

  lemma LongerPath<T>(s: State<T>, path: seq<State<T>>, t: nat, call: Call<T>)
    requires PathAlone(path, t, call) && path[0] == ThreadStep(s, t, call) && !PcOf(path[0].control, t).Idle?
    ensures PathAlone([s] + path, t, call)
  {
    var longer := [s] + path;
    forall i | 0 <= i < |longer| - 1
      ensures NextOn(longer, i, t, call)
    {
      if i == 0 {
        assert longer[0] == s && longer[1] == path[0];
      } else {
        assert NextOn(path, i - 1, t, call);
        assert longer[i] == path[i - 1] && longer[i + 1] == path[i];
      }
    }
  }

  /** A step that hands out nothing and replies to nothing. */
  predicate Quietly<T(==)>(s: State<T>, s': State<T>) {
    s'.control.replies == s.control.replies && s'.control.handed == s.control.handed
  }

  lemma OneStepAlone<T>(s: State<T>, s': State<T>, path: seq<State<T>>, t: nat, call: Call<T>,
                        o: Outcome<T>, replies: seq<Option<nat>>) returns (path': seq<State<T>>)
    requires s' == ThreadStep(s, t, call) && !PcOf(s'.control, t).Idle? && Quietly(s, s')
    requires ReturnsAlone(s', path, t, call, o, replies)
    ensures ReturnsAlone(s, path', t, call, o, replies)
  {
    path' := [s] + path;
    LongerPath(s, path, t, call);
    OwnPcOnly(s, t, call);
    assert s'.control.pcs[t := Idle] == s.control.pcs[t := Idle];
  }

  /** The last step of an operation. */
  lemma LastStepAlone<T>(s: State<T>, s': State<T>, t: nat, call: Call<T>, o: Outcome<T>, replies: seq<Option<nat>>)
    returns (path: seq<State<T>>)
    requires s' == ThreadStep(s, t, call) && PcOf(s'.control, t).Idle? && SchedOf(s') == o.state
    requires s'.control.handed == s.control.handed + o.handed && s'.control.replies == s.control.replies + replies
    ensures ReturnsAlone(s, path, t, call, o, replies)
  {
    path := [s, s'];
    OwnPcOnly(s, t, call);
    assert NextOn(path, 0, t, call);
  }

  lemma NothingMore<T>(s: State<T>)
    ensures s.control.handed + [] == s.control.handed && s.control.replies + [] == s.control.replies
  {
  }

  /** From `s` one step, or two by way of `mid`, quietly to `s'`. */
  ghost predicate Leads<T>(s: State<T>, mid: State<T>, s': State<T>, t: nat, call: Call<T>) {
    && mid == ThreadStep(s, t, call) && !PcOf(mid.control, t).Idle? && Quietly(s, mid)
    && (s' != mid ==> s' == ThreadStep(mid, t, call) && !PcOf(s'.control, t).Idle? && Quietly(mid, s'))
  }

  lemma LeadsAlone<T>(s: State<T>, mid: State<T>, s': State<T>, path: seq<State<T>>, t: nat, call: Call<T>,
                      o: Outcome<T>, replies: seq<Option<nat>>) returns (path': seq<State<T>>)
    requires Leads(s, mid, s', t, call) && ReturnsAlone(s', path, t, call, o, replies)
    ensures ReturnsAlone(s, path', t, call, o, replies)
  {
    path' := path;
    if s' != mid {
      path' := OneStepAlone(mid, s', path', t, call, o, replies);
    }
    path' := OneStepAlone(s, mid, path', t, call, o, replies);
  }

  // ----------------------------------------------------------- a submission

  lemma FinishAlone<T>(s: State<T>, t: nat, call: Call<T>, o: Outcome<T>) returns (path: seq<State<T>>)
    requires PcOf(s.control, t) == Finish(o.id) && o.state == SchedOf(s) && o.handed == []
    ensures ReturnsAlone(s, path, t, call, o, [o.id])
  {
    NothingMore(s);
    path := LastStepAlone(s, ThreadStep(s, t, call), t, call, o, [o.id]);
  }

  lemma DrawIdAlone<T>(s: State<T>, t: nat, call: Call<T>, o: Outcome<T>) returns (path: seq<State<T>>)
    requires PcOf(s.control, t).DrawId?
    requires o == Outcome(SchedOf(s).(nextId := (s.control.nextId + 1) % U64), Some(s.control.nextId), [])
    ensures ReturnsAlone(s, path, t, call, o, [o.id])
  {
    var s' := ThreadStep(s, t, call);
    path := FinishAlone(s', t, call, o);
    path := OneStepAlone(s, s', path, t, call, o, [o.id]);
  }

  /** The scheduler and the reply after a scan that found `target`. */
  function Placed<T>(s: Sched<T>, task: T, target: Option<nat>): Outcome<T>
    requires target.Some? ==> target.value < |s.workers|
  {
    match target
    case None => Outcome(s, None, [])
    case Some(w) =>
      Outcome(s.(workers := s.workers[w := s.workers[w].(items := s.workers[w].items + [task])],
                 nextId := (s.nextId + 1) % U64),
              Some(s.nextId), [])
  }

  lemma PushAlone<T>(s: State<T>, t: nat, call: Call<T>, o: Outcome<T>) returns (path: seq<State<T>>)
    requires PcOf(s.control, t).Push?
    requires PcOf(s.control, t).target < |s.workers| && !Full(s, PcOf(s.control, t).target)
    requires o == Placed(SchedOf(s), PcOf(s.control, t).task, Some(PcOf(s.control, t).target))
    ensures ReturnsAlone(s, path, t, call, o, [o.id])
  {
    var s' := ThreadStep(s, t, call);
    NothingMore(s);
    path := DrawIdAlone(s', t, call, o);
    path := OneStepAlone(s, s', path, t, call, o, [o.id]);
  }

  /** One look at a length changes nothing but the place of the thread. */
  lemma LengthLook<T>(s: State<T>, t: nat, call: Call<T>)
    requires PcOf(s.control, t).SeeLength? && PcOf(s.control, t).target < |s.workers|
    ensures
      var pc, s' := PcOf(s.control, t), ThreadStep(s, t, call);
      && SchedOf(s') == SchedOf(s) && Quietly(s, s')
      && PcOf(s'.control, t) ==
           if Full(s, pc.target) then Scan(pc.task, pc.start, pc.i + 1, pc.closed + {pc.target}, |s.workers|)
           else Push(pc.task, pc.target)
  {
    var w := PcOf(s.control, t).target;
    NothingMore(s);
    assert s.workers[w := s.workers[w].(items := s.workers[w].items)] == s.workers;
  }

  /** So does a look at an active flag. */
  lemma ActiveLook<T>(s: State<T>, t: nat, call: Call<T>)
    requires PcOf(s.control, t).SeeActive? && s.workers != []
    ensures
      var pc, s' := PcOf(s.control, t), ThreadStep(s, t, call);
      var w := (pc.start + pc.i) % |s.workers|;
      && SchedOf(s') == SchedOf(s) && Quietly(s, s')
      && PcOf(s'.control, t) ==
           if s.workers[w].active then SeeLength(pc.task, w, pc.start, pc.i, pc.closed)
           else Scan(pc.task, pc.start, pc.i + 1, pc.closed + {w}, |s.workers|)
  {
  }

  /** One look at a worker and, if it is active, at its length. */
  lemma ScanLook<T>(s: State<T>, t: nat, call: Call<T>, task: T, start: nat, i: nat, closed: set<nat>, w: nat)
    returns (mid: State<T>, s': State<T>)
    requires PcOf(s.control, t) == SeeActive(task, start, i, closed)
    requires s.workers != [] && w == (start + i) % |s.workers|
    ensures Leads(s, mid, s', t, call) && SchedOf(s') == SchedOf(s)
    ensures PcOf(s'.control, t) == if HasRoom(SchedOf(s), w) then Push(task, w)
                                   else Scan(task, start, i + 1, closed + {w}, |s.workers|)
  {
    mid := ThreadStep(s, t, call);
    s' := mid;
    ActiveLook(s, t, call);
    if s.workers[w].active {
      s' := ThreadStep(mid, t, call);
      LengthLook(mid, t, call);
    }
  }

  /** The rest of a submission from the look at a flag on, or its refusal after the last one. */
  lemma {:induction false} ScanAlone<T>(s: State<T>, t: nat, call: Call<T>, task: T, start: nat, i: nat,
                                        closed: set<nat>, o: Outcome<T>) returns (path: seq<State<T>>)
    requires i <= |s.workers| && PcOf(s.control, t) == Scan(task, start, i, closed, |s.workers|)
    requires o == Placed(SchedOf(s), task, FirstWithRoom(SchedOf(s), start, i))
    ensures ReturnsAlone(s, path, t, call, o, [o.id])
    decreases |s.workers| - i
  {
    if i == |s.workers| {
      path := FinishAlone(s, t, call, o);
    } else {
      var w := (start + i) % |s.workers|;
      var mid, s' := ScanLook(s, t, call, task, start, i, closed, w);
      if HasRoom(SchedOf(s), w) {
        path := PushAlone(s', t, call, o);
      } else {
        path := ScanAlone(s', t, call, task, start, i + 1, closed + {w}, o);
      }
      path := LeadsAlone(s, mid, s', path, t, call, o, [o.id]);
    }
  }

  lemma DrawAlone<T>(s: State<T>, t: nat, call: Call<T>, o: Outcome<T>) returns (path: seq<State<T>>)
    requires PcOf(s.control, t).DrawStart? && s.control.running
    requires o == SubmitStep(SchedOf(s), PcOf(s.control, t).task)
    ensures ReturnsAlone(s, path, t, call, o, [o.id])
  {
    var task := PcOf(s.control, t).task;
    var s' := ThreadStep(s, t, call);
    if s.workers == [] {
      path := FinishAlone(s', t, call, o);
    } else {
      var start := s.control.counter % |s.workers|;
      SameScan(SchedOf(s), SchedOf(s'), start, 0);
      path := ScanAlone(s', t, call, task, start, 0, {}, o);
    }
    path := OneStepAlone(s, s', path, t, call, o, [o.id]);
  }

  lemma CheckAlone<T>(s: State<T>, t: nat, call: Call<T>, o: Outcome<T>) returns (path: seq<State<T>>)
    requires PcOf(s.control, t).CheckRunning?
    requires o == SubmitStep(SchedOf(s), PcOf(s.control, t).task)
    ensures ReturnsAlone(s, path, t, call, o, [o.id])
  {
    var s' := ThreadStep(s, t, call);
    if !s.control.running {
      path := FinishAlone(s', t, call, o);
    } else {
      path := DrawAlone(s', t, call, o);
    }
    path := OneStepAlone(s, s', path, t, call, o, [o.id]);
  }

  /** A submission that no other thread disturbs does what the atomic submit
      step prescribes, whatever the other threads are in the middle of. */
  lemma SubmitUndisturbed<T>(s: State<T>, t: nat, task: T) returns (path: seq<State<T>>)
    requires PcOf(s.control, t).Idle?
    ensures
      var o := SubmitStep(SchedOf(s), task);
      ReturnsAlone(s, path, t, DoSubmit(task), o, [o.id])
  {
    var call, o := DoSubmit(task), SubmitStep(SchedOf(s), task);
    var s' := ThreadStep(s, t, call);
    path := CheckAlone(s', t, call, o);
    path := OneStepAlone(s, s', path, t, call, o, [o.id]);
  }

  /** The documented law holds for an undisturbed submission: it is refused
      exactly if the scheduler is stopped or no active worker has room. */
  lemma UndisturbedRefusal<T>(s: State<T>, t: nat, task: T) returns (path: seq<State<T>>, reply: Option<nat>)
    requires PcOf(s.control, t).Idle?
    ensures PathAlone(path, t, DoSubmit(task)) && path[0] == s
    ensures path[|path| - 1].control.replies == s.control.replies + [reply]
    ensures reply == None <==> !s.control.running || forall j :: 0 <= j < |s.workers| ==> !HasRoom(SchedOf(s), j)
  {
    path := SubmitUndisturbed(s, t, task);
    reply := SubmitStep(SchedOf(s), task).id;
    SubmitSucceedsIff(SchedOf(s), task);
  }

  // ------------------------------------------------------ a pop and a theft

  lemma PopUndisturbed<T>(s: State<T>, t: nat, w: nat) returns (path: seq<State<T>>)
    requires PcOf(s.control, t).Idle?
    ensures ReturnsAlone(s, path, t, DoPop(w), PopStep(SchedOf(s), w), [])
  {
    var call, o := DoPop(w), PopStep(SchedOf(s), w);
    var s1 := ThreadStep(s, t, call);
    var s2 := ThreadStep(s1, t, call);
    NothingMore(s);
    if w < |s.workers| && s.workers[w].items == [] {
      assert s.workers[w := s.workers[w].(items := s.workers[w].items)] == s.workers;
    }
    path := LastStepAlone(s1, s2, t, call, o, []);
    path := OneStepAlone(s, s1, path, t, call, o, []);
  }

  /** What a theft that has come to `offset` still does. */
  function StolenFrom<T>(s: Sched<T>, thief: nat, offset: nat): Outcome<T>
    requires 1 <= offset
  {
    if |s.workers| <= 1 || thief >= |s.workers| || offset >= |s.workers| then Outcome(s, None, []) else
    match FirstVictim(s, thief, offset)
    case None => Outcome(s, None, [])
    case Some(v) => TakeFront(s, v, 1)
  }

  lemma StolenNext<T>(s: Sched<T>, thief: nat, offset: nat, v: nat)
    requires 1 < |s.workers| && thief < |s.workers| && 1 <= offset < |s.workers|
    requires v == (thief + offset) % |s.workers|
    ensures StolenFrom(s, thief, offset) ==
            if s.workers[v].active && s.workers[v].items != [] then TakeFront(s, v, 1)
            else StolenFrom(s, thief, offset + 1)
  {
    assert FirstVictim(s, thief, offset) ==
      if s.workers[v].active && s.workers[v].items != [] then Some(v) else FirstVictim(s, thief, offset + 1);
    assert offset + 1 == |s.workers| ==> FirstVictim(s, thief, offset + 1) == None;
  }

  /** The attempt on an active worker. */
  lemma TakeLook<T>(s: State<T>, t: nat, call: Call<T>, thief: nat, offset: nat, closed: set<nat>)
    requires thief < |s.workers| && offset < |s.workers| && PcOf(s.control, t) == StealTake(thief, offset, closed)
    ensures
      var v, s' := (thief + offset) % |s.workers|, ThreadStep(s, t, call);
      if s.workers[v].items == [] then
        && SchedOf(s') == SchedOf(s) && Quietly(s, s')
        && PcOf(s'.control, t) == StealSee(thief, offset + 1, closed + {v})
      else
        var o := TakeFront(SchedOf(s), v, 1);
        && SchedOf(s') == o.state && PcOf(s'.control, t).Idle?
        && s'.control.handed == s.control.handed + o.handed && s'.control.replies == s.control.replies + []
  {
    var v := (thief + offset) % |s.workers|;
    NothingMore(s);
    if s.workers[v].items == [] {
      assert s.workers[v := s.workers[v].(items := s.workers[v].items)] == s.workers;
    } else {
      assert s.workers[v].items[..1] == [s.workers[v].items[0]];
    }
  }

  /** One look at a worker and, if it is active and empty, the vain attempt on it. */
  lemma StealLook<T>(s: State<T>, t: nat, call: Call<T>, thief: nat, offset: nat, closed: set<nat>, v: nat)
    returns (mid: State<T>, s': State<T>)
    requires 1 < |s.workers| && thief < |s.workers| && offset < |s.workers| && v == (thief + offset) % |s.workers|
    requires PcOf(s.control, t) == StealSee(thief, offset, closed)
    ensures Leads(s, mid, s', t, call) && SchedOf(s') == SchedOf(s)
    ensures PcOf(s'.control, t) ==
            if s.workers[v].active && s.workers[v].items != [] then StealTake(thief, offset, closed)
            else StealSee(thief, offset + 1, closed + {v})
  {
    mid := ThreadStep(s, t, call);
    s' := mid;
    if s.workers[v].active && s.workers[v].items == [] {
      s' := ThreadStep(mid, t, call);
      TakeLook(mid, t, call, thief, offset, closed);
    }
  }

  lemma TakeAlone<T>(s: State<T>, t: nat, call: Call<T>, thief: nat, offset: nat, closed: set<nat>, v: nat,
                     o: Outcome<T>) returns (path: seq<State<T>>)
    requires thief < |s.workers| && offset < |s.workers| && v == (thief + offset) % |s.workers|
    requires PcOf(s.control, t) == StealTake(thief, offset, closed) && s.workers[v].items != []
    requires o == TakeFront(SchedOf(s), v, 1)
    ensures ReturnsAlone(s, path, t, call, o, [])
  {
    TakeLook(s, t, call, thief, offset, closed);
    path := LastStepAlone(s, ThreadStep(s, t, call), t, call, o, []);
  }

  lemma NoTheftAlone<T>(s: State<T>, t: nat, call: Call<T>, o: Outcome<T>) returns (path: seq<State<T>>)
    requires PcOf(s.control, t).StealSee? || PcOf(s.control, t).BatchSee?
    requires PcOf(ThreadStep(s, t, call).control, t).Idle? && o.state == SchedOf(s) && o.handed == []
    ensures ReturnsAlone(s, path, t, call, o, [])
  {
    NothingMore(s);
    path := LastStepAlone(s, ThreadStep(s, t, call), t, call, o, []);
  }

  lemma {:induction false} StealAlone<T>(s: State<T>, t: nat, call: Call<T>, thief: nat, offset: nat,
                                         closed: set<nat>, o: Outcome<T>) returns (path: seq<State<T>>)
    requires 1 <= offset && PcOf(s.control, t) == StealSee(thief, offset, closed)
    requires o == StolenFrom(SchedOf(s), thief, offset)
    ensures ReturnsAlone(s, path, t, call, o, [])
    decreases if offset < |s.workers| then |s.workers| - offset else 0
  {
    var n := |s.workers|;
    if n <= 1 || thief >= n || offset >= n {
      path := NoTheftAlone(s, t, call, o);
    } else {
      var v := (thief + offset) % n;
      var mid, s' := StealLook(s, t, call, thief, offset, closed, v);
      StolenNext(SchedOf(s), thief, offset, v);
      if s.workers[v].active && s.workers[v].items != [] {
        path := TakeAlone(s', t, call, thief, offset, closed, v, o);
      } else {
        path := StealAlone(s', t, call, thief, offset + 1, closed + {v}, o);
      }
      path := LeadsAlone(s, mid, s', path, t, call, o, []);
    }
  }

  lemma StealUndisturbed<T>(s: State<T>, t: nat, thief: nat) returns (path: seq<State<T>>)
    requires PcOf(s.control, t).Idle?
    ensures ReturnsAlone(s, path, t, DoSteal(thief), StealStep(SchedOf(s), thief), [])
  {
    var call, o := DoSteal(thief), StealStep(SchedOf(s), thief);
    var s' := ThreadStep(s, t, call);
    path := StealAlone(s', t, call, thief, 1, {}, o);
    path := OneStepAlone(s, s', path, t, call, o, []);
  }

  // ------------------------------------------------------------- a batch

  function MaxOf<T>(s: Sched<T>, best: Option<nat>): nat
    requires best.Some? ==> best.value < |s.workers|
  {
    if best.Some? then |s.workers[best.value].items| else 0
  }

  /** One look at a length. */
  lemma SizeLook<T>(s: State<T>, t: nat, call: Call<T>, thief: nat, i: nat, best: Option<nat>, max: nat)
    requires i < |s.workers| && PcOf(s.control, t) == BatchLength(thief, i, best, max)
    ensures
      var n, s' := |s.workers[i].items|, ThreadStep(s, t, call);
      && SchedOf(s') == SchedOf(s) && Quietly(s, s')
      && PcOf(s'.control, t) ==
           if n > max then BatchSee(thief, i + 1, Some(i), n) else BatchSee(thief, i + 1, best, max)
  {
    NothingMore(s);
    assert s.workers[i := s.workers[i].(items := s.workers[i].items)] == s.workers;
  }

  /** The best of one worker more. */
  lemma BusiestNext<T>(s: Sched<T>, thief: nat, i: nat, best: Option<nat>, max: nat)
    requires i < |s.workers| && best == Busiest(s, thief, i) && max == MaxOf(s, best)
    ensures
      var best', n := Busiest(s, thief, i + 1), |s.workers[i].items|;
      if i != thief && s.workers[i].active && n > max then best' == Some(i) && MaxOf(s, best') == n
      else best' == best && MaxOf(s, best') == max
  {
  }

  /** A batch scan has come to worker `i`. */
  ghost predicate HasCome<T>(s: State<T>, t: nat, thief: nat, i: nat, sched: Sched<T>) {
    && SchedOf(s) == sched && 1 < |sched.workers| && thief < |sched.workers| && i <= |sched.workers|
    && var best := Busiest(sched, thief, i);
       PcOf(s.control, t) == BatchSee(thief, i, best, MaxOf(sched, best))
  }

  lemma SkipLook<T>(s: State<T>, t: nat, call: Call<T>, thief: nat, i: nat, best: Option<nat>, max: nat)
    requires 1 < |s.workers| && thief < |s.workers| && i < |s.workers|
    requires PcOf(s.control, t) == BatchSee(thief, i, best, max)
    ensures
      var s' := ThreadStep(s, t, call);
      && SchedOf(s') == SchedOf(s) && Quietly(s, s')
      && PcOf(s'.control, t) == if i != thief && s.workers[i].active then BatchLength(thief, i, best, max)
                                else BatchSee(thief, i + 1, best, max)
  {
  }

  /** One look at a worker other than the thief and, if it is active, at its length. */
  lemma BatchLook<T>(s: State<T>, t: nat, call: Call<T>, thief: nat, i: nat, sched: Sched<T>)
    returns (mid: State<T>, s': State<T>)
    requires HasCome(s, t, thief, i, sched) && i < |sched.workers|
    ensures Leads(s, mid, s', t, call) && HasCome(s', t, thief, i + 1, sched)
  {
    var best := Busiest(sched, thief, i);
    var max := MaxOf(sched, best);
    BusiestNext(sched, thief, i, best, max);
    SkipLook(s, t, call, thief, i, best, max);
    mid := ThreadStep(s, t, call);
    s' := mid;
    if i != thief && s.workers[i].active {
      s' := ThreadStep(mid, t, call);
      SizeLook(mid, t, call, thief, i, best, max);
    }
  }

  lemma HalfAlone<T>(s: State<T>, t: nat, call: Call<T>, v: nat, o: Outcome<T>) returns (path: seq<State<T>>)
    requires v < |s.workers| && PcOf(s.control, t) == BatchTake(v)
    requires o == TakeFront(SchedOf(s), v, |s.workers[v].items| / 2)
    ensures ReturnsAlone(s, path, t, call, o, [])
  {
    NothingMore(s);
    path := LastStepAlone(s, ThreadStep(s, t, call), t, call, o, []);
  }

  /** After the last look: the front half of the best, if there is one. */
  lemma ChoiceAlone<T>(s: State<T>, t: nat, call: Call<T>, thief: nat, sched: Sched<T>, o: Outcome<T>)
    returns (path: seq<State<T>>)
    requires HasCome(s, t, thief, |sched.workers|, sched) && o == BatchStep(sched, thief)
    ensures ReturnsAlone(s, path, t, call, o, [])
  {
    var best := Busiest(sched, thief, |sched.workers|);
    if best.Some? {
      var s' := ThreadStep(s, t, call);
      path := HalfAlone(s', t, call, best.value, o);
      path := OneStepAlone(s, s', path, t, call, o, []);
    } else {
      path := NoTheftAlone(s, t, call, o);
    }
  }

  lemma {:induction false} BatchAlone<T>(s: State<T>, t: nat, call: Call<T>, thief: nat, i: nat,
                                         sched: Sched<T>, o: Outcome<T>) returns (path: seq<State<T>>)
    requires HasCome(s, t, thief, i, sched) && o == BatchStep(sched, thief)
    ensures ReturnsAlone(s, path, t, call, o, [])
    decreases |sched.workers| - i
  {
    if i == |sched.workers| {
      path := ChoiceAlone(s, t, call, thief, sched, o);
    } else {
      var mid, s' := BatchLook(s, t, call, thief, i, sched);
      path := BatchAlone(s', t, call, thief, i + 1, sched, o);
      path := LeadsAlone(s, mid, s', path, t, call, o, []);
    }
  }

  lemma BatchUndisturbed<T>(s: State<T>, t: nat, thief: nat) returns (path: seq<State<T>>)
    requires PcOf(s.control, t).Idle?
    ensures ReturnsAlone(s, path, t, DoBatch(thief), BatchStep(SchedOf(s), thief), [])
  {
    var call, o := DoBatch(thief), BatchStep(SchedOf(s), thief);
    var s' := ThreadStep(s, t, call);
    if |s.workers| <= 1 || thief >= |s.workers| {
      path := NoTheftAlone(s', t, call, o);
    } else {
      path := BatchAlone(s', t, call, thief, 0, SchedOf(s), o);
    }
    path := OneStepAlone(s, s', path, t, call, o, []);
  }

  // -------------------------------------------------------------- any call

  /** The atomic operation that a call stands for. */
  function OpOf<T>(call: Call<T>): Op<T> {
    match call
    case DoSubmit(task) => Submit(task)
    case DoPop(w) => Pop(w)
    case DoSteal(thief) => Steal(thief)
    case DoBatch(thief) => StealBatch(thief)
  }

  /** Every call that no other thread disturbs is its atomic operation. */
  lemma CallUndisturbed<T>(s: State<T>, t: nat, call: Call<T>) returns (path: seq<State<T>>)
    requires PcOf(s.control, t).Idle?
    ensures
      var o := SchedulerSpec.Step(SchedOf(s), OpOf(call));
      ReturnsAlone(s, path, t, call, o, if call.DoSubmit? then [o.id] else [])
  {
    match call
    case DoSubmit(task) => path := SubmitUndisturbed(s, t, task);
    case DoPop(w) => path := PopUndisturbed(s, t, w);
    case DoSteal(thief) => path := StealUndisturbed(s, t, thief);
    case DoBatch(thief) => path := BatchUndisturbed(s, t, thief);
  }
}
