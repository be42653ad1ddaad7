/** The imperative scheduler of src/scheduler.rs: deques with a length counter,
    worker states, and a scheduler that scans them in loops.  Each method is
    proved against the state machine of module SchedulerSpec. */
module Scheduler {
  import opened Prelude
  import opened SchedulerSpec

  /** The mutex-guarded deque and its length counter; src/scheduler.rs reads the counter without the lock. */
  class WorkStealingDeque<T> {
    var items: seq<T>
    var len: nat
    const capacity: nat

    ghost predicate Valid()
      reads this
    {
      len == |items| <= capacity
    }

    constructor (capacity: nat)
      ensures Valid() && items == [] && this.capacity == capacity
    {
      items := [];
      len := 0;
      this.capacity := capacity;
    }

    method Push(item: T) returns (r: Result<()>)
      requires Valid()
      modifies this
      ensures Valid()
      ensures r.Ok? <==> |old(items)| < capacity
      ensures items == if r.Ok? then old(items) + [item] else old(items)
      ensures r.Err? ==> r.error == UblkQueueFull
    {
      if |items| >= capacity {
        return Err(UblkQueueFull);
      }
      items := items + [item];
      len := len + 1;
      return Ok(());
    }

    method Pop() returns (r: Option<T>)
      requires Valid()
      modifies this
      ensures Valid()
      ensures if old(items) == [] then r == None && items == []
              else r.Some? && items + [r.value] == old(items)
    {
      if items == [] {
        return None;
      }
      r := Some(items[|items| - 1]);
      items := items[..|items| - 1];
      len := len - 1;
    }

    method StealOne() returns (r: Option<T>)
      requires Valid()
      modifies this
      ensures Valid()
      ensures if old(items) == [] then r == None && items == []
              else r.Some? && [r.value] + items == old(items)
    {
      if items == [] {
        return None;
      }
      r := Some(items[0]);
      items := items[1..];
      len := len - 1;
    }

    method StealHalf() returns (stolen: seq<T>)
      requires Valid()
      modifies this
      ensures Valid()
      ensures stolen == old(items)[..|old(items)| / 2] && items == old(items)[|old(items)| / 2..]
    {
      var count := |items| / 2;
      stolen := [];
      for k := 0 to count
        invariant stolen == old(items)[..k] && items == old(items)[k..]
        invariant len == old(len)
      {
        stolen := stolen + [items[0]];
        items := items[1..];
      }
      len := len - |stolen|;
    }
  }

  class WorkerState<T> {
    const deque: WorkStealingDeque<T>
    var active: bool

    constructor (capacity: nat)
      ensures active && fresh(deque) && deque.Valid() && deque.items == [] && deque.capacity == capacity
    {
      deque := new WorkStealingDeque<T>(capacity);
      active := true;
    }
  }

  class Scheduler<T> {
    var workers: seq<WorkerState<T>>
    const queueCapacity: nat
    var nextTaskId: nat
    var submitCounter: nat
    var running: bool
    ghost var state: Sched<T>
    ghost var Repr: set<object>

    /** Worker objects are distinct and `state` records what they hold. */
    ghost predicate Valid()
      reads this, Repr
      ensures Valid() ==> this in Repr
    {
      && this in Repr
      && |state.workers| == |workers|
      && state.capacity == queueCapacity && state.counter == submitCounter
      && state.nextId == nextTaskId && state.running == running
      && (forall i :: 0 <= i < |workers| ==>
            && workers[i] in Repr && workers[i].deque in Repr && workers[i].deque.Valid()
            && workers[i].deque.capacity == queueCapacity
            && state.workers[i] == Worker(workers[i].deque.items, workers[i].active))
      && forall i, j :: 0 <= i < j < |workers| ==>
            workers[i] != workers[j] && workers[i].deque != workers[j].deque
    }

    constructor (n: nat, capacity: nat)
      ensures Valid() && fresh(Repr) && state == Fresh(n, capacity)
    {
      workers := [];
      queueCapacity := capacity;
      nextTaskId, submitCounter, running := 0, 0, true;
      Repr := {this};
      state := Sched([], capacity, 0, 0, true);
      new;
      for k := 0 to n
        invariant Valid() && fresh(Repr) && |workers| == k
        invariant state == Sched(state.workers, capacity, 0, 0, true)
        invariant forall i :: 0 <= i < k ==> state.workers[i] == Worker([], true)
      {
        var _ := AddWorker();
      }
      assert state.workers == Filled(Worker([], true), n);
    }

    method AddWorker() returns (id: nat)
      requires Valid()
      modifies this
      ensures Valid() && fresh(Repr - old(Repr)) && old(Repr) <= Repr
      ensures state == Step(old(state), SchedulerSpec.AddWorker).state && id == |old(state.workers)|
    {
      id := |workers|;
      var w := new WorkerState<T>(queueCapacity);
      workers := workers + [w];
      Repr := Repr + {w, w.deque};
      state := state.(workers := state.workers + [Worker([], true)]);
    }

    /** Records what worker `i` holds after its deque or flag has been changed. */
    ghost method Record(i: nat)
      requires |state.workers| == |workers| && this in Repr && i < |workers|
      modifies this`state
      ensures
        var w := Worker(workers[i].deque.items, workers[i].active);
        state == old(state).(workers := old(state).workers[i := w])
    {
      state := state.(workers := state.workers[i := Worker(workers[i].deque.items, workers[i].active)]);
    }

    /** The round-robin scan: the first active worker whose counter is below its capacity. */
    method FindRoom(start: nat) returns (target: Option<nat>)
      requires Valid()
      ensures target == FirstWithRoom(state, start, 0)
    {
      for i := 0 to |workers|
        invariant FirstWithRoom(state, start, 0) == FirstWithRoom(state, start, i)
      {
        var idx := (start + i) % |workers|;
        if workers[idx].active && workers[idx].deque.len < workers[idx].deque.capacity {
          return Some(idx);
        }
      }
      return None;
    }

    /** Pushes to one worker's deque. */
    method PushTo(target: nat, task: T) returns (ok: bool)
      requires Valid() && target < |workers|
      modifies Repr
      ensures Valid() && Repr == old(Repr) && workers == old(workers)
      ensures running == old(running) && submitCounter == old(submitCounter) && nextTaskId == old(nextTaskId)
      ensures ok <==> |old(state).workers[target].items| < queueCapacity
      ensures
        var w := old(state).workers[target];
        state == if ok then old(state).(workers := old(state).workers[target := w.(items := w.items + [task])])
                 else old(state)
    {
      var r := workers[target].deque.Push(task);
      Record(target);
      ok := r.Ok?;
    }

    /** Advances the round-robin counter and says where the scan begins. */
    method DrawStart() returns (start: nat)
      requires Valid() && workers != []
      modifies this`submitCounter, this`state
      ensures Valid()
      ensures start == old(state).counter % |workers|
      ensures state == old(state).(counter := (old(state).counter + 1) % U64)
    {
      start := submitCounter % |workers|;
      submitCounter := (submitCounter + 1) % U64;
      state := state.(counter := submitCounter);
    }

    /** Issues the next id. */
    method DrawId() returns (id: nat)
      requires Valid()
      modifies this`nextTaskId, this`state
      ensures Valid()
      ensures id == old(state).nextId && state == old(state).(nextId := (old(state).nextId + 1) % U64)
    {
      id := nextTaskId;
      nextTaskId := (nextTaskId + 1) % U64;
      state := state.(nextId := nextTaskId);
    }

    method Submit(task: T) returns (id: Option<nat>)
      requires Valid()
      modifies Repr
      ensures Valid() && Repr == old(Repr)
      ensures var o := SubmitStep(old(state), task); state == o.state && id == o.id
    {
      if !running || workers == [] {
        return None;
      }
      var start := DrawStart();
      var target := FindRoom(start);
      SameScan(old(state), state, start, 0);
      if target == None {
        return None;
      }
      var ok := PushTo(target.value, task);
      if !ok {
        return None;
      }
      var drawn := DrawId();
      id := Some(drawn);
    }

    method Pop(worker: nat) returns (r: Option<T>)
      requires Valid()
      modifies Repr
      ensures Valid() && Repr == old(Repr)
      ensures var o := PopStep(old(state), worker);
              state == o.state && o.handed == if r.Some? then [r.value] else []
    {
      if worker >= |workers| {
        return None;
      }
      r := workers[worker].deque.Pop();
      Record(worker);
    }

    /** Tries to take the front task of one worker, if it is active. */
    method TryRob(victim: nat) returns (r: Option<T>)
      requires Valid() && victim < |workers|
      modifies Repr
      ensures Valid() && Repr == old(Repr) && workers == old(workers)
      ensures r.Some? <==> old(state).workers[victim].active && old(state).workers[victim].items != []
      ensures if r.Some? then Outcome(state, None, [r.value]) == TakeFront(old(state), victim, 1)
              else state == old(state)
    {
      r := None;
      if workers[victim].active {
        r := workers[victim].deque.StealOne();
        Record(victim);
      }
    }

    method Steal(thief: nat) returns (r: Option<T>)
      requires Valid()
      modifies Repr
      ensures Valid() && Repr == old(Repr)
      ensures var o := StealStep(old(state), thief);
              state == o.state && o.handed == if r.Some? then [r.value] else []
    {
      if |workers| <= 1 || thief >= |workers| {
        return None;
      }
      for offset := 1 to |workers|
        invariant Valid() && Repr == old(Repr) && state == old(state) && workers == old(workers)
        invariant FirstVictim(state, thief, 1) == FirstVictim(state, thief, offset)
      {
        var victim := (thief + offset) % |workers|;
        r := TryRob(victim);
        if r.Some? {
          return;
        }
      }
      return None;
    }

    /** The scan for the first most loaded active worker other than the thief. */
    method FindBusiest(thief: nat) returns (busiest: Option<nat>)
      requires Valid()
      ensures busiest == Busiest(state, thief, |state.workers|)
    {
      busiest := None;
      var maxLen := 0;
      for idx := 0 to |workers|
        invariant busiest == Busiest(state, thief, idx)
        invariant maxLen == if busiest.Some? then |state.workers[busiest.value].items| else 0
      {
        if idx != thief && workers[idx].active {
          if workers[idx].deque.len > maxLen {
            maxLen := workers[idx].deque.len;
            busiest := Some(idx);
          }
        }
      }
    }

    /** Takes the front half of one worker's deque. */
    method TakeHalf(victim: nat) returns (stolen: seq<T>)
      requires Valid() && victim < |workers|
      modifies Repr
      ensures Valid() && Repr == old(Repr)
      ensures Outcome(state, None, stolen) == TakeFront(old(state), victim, |old(state).workers[victim].items| / 2)
    {
      stolen := workers[victim].deque.StealHalf();
      Record(victim);
    }

    method StealBatch(thief: nat) returns (stolen: seq<T>)
      requires Valid()
      modifies Repr
      ensures Valid() && Repr == old(Repr)
      ensures var o := BatchStep(old(state), thief); state == o.state && stolen == o.handed
    {
      if |workers| <= 1 || thief >= |workers| {
        return [];
      }
      var busiest := FindBusiest(thief);
      if busiest == None {
        return [];
      }
      stolen := TakeHalf(busiest.value);
    }

    method DeactivateWorker(worker: nat) returns (found: bool)
      requires Valid()
      modifies Repr
      ensures Valid() && Repr == old(Repr)
      ensures state == Step(old(state), Deactivate(worker)).state && found == (worker < |old(state.workers)|)
    {
      if worker >= |workers| {
        return false;
      }
      workers[worker].active := false;
      Record(worker);
      return true;
    }

    /** The counters add up to the number of waiting tasks. */
    method PendingTasks() returns (n: nat)
      requires Valid()
      ensures n == |Pending(state.workers)|
    {
      n := 0;
      for idx := 0 to |workers|
        invariant n == |Pending(state.workers[..idx])|
      {
        assert state.workers[..idx + 1][..idx] == state.workers[..idx];
        n := n + workers[idx].deque.len;
      }
      assert state.workers[..|workers|] == state.workers;
    }
  }
}
