/** How the round robin of src/scheduler.rs spreads tasks over a fresh scheduler. */
module RoundRobin {
  import opened Prelude
  import opened SchedulerSpec
  import Arith

  function SubmitAll<T>(s: Sched<T>, tasks: seq<T>): Sched<T> {
    if tasks == [] then s
    else SubmitStep(SubmitAll(s, tasks[..|tasks| - 1]), tasks[|tasks| - 1]).state
  }

  /** How many of the first `k` tasks worker `i` of `n` holds. */
  function Share(k: nat, n: nat, i: nat): nat
    requires i < n
  {
    (k + n - 1 - i) / n
  }

  lemma ShareValue(k: nat, n: nat, i: nat)
    requires i < n
    ensures Share(k, n, i) == k / n + (if i < k % n then 1 else 0)
  {
    var q, r := k / n, k % n;
    assert k == q * n + r;
    if i < r {
      assert k + n - 1 - i == (q + 1) * n + (r - 1 - i) by { assert (q + 1) * n == q * n + n; }
      Arith.DivModUnique(k + n - 1 - i, n, q + 1, r - 1 - i);
    } else {
      Arith.DivModUnique(k + n - 1 - i, n, q, n - 1 - i + r);
    }
  }

  /** One more task goes to worker k % n and to no other. */
  lemma ShareStep(k: nat, n: nat, i: nat)
    requires i < n
    ensures Share(k + 1, n, i) == Share(k, n, i) + (if i == k % n then 1 else 0)
    ensures i == k % n ==> Share(k, n, i) * n + i == k
  {
    ShareValue(k, n, i);
    ShareValue(k + 1, n, i);
    Arith.DivModNext(k, n);
  }

  lemma QuotientBelow(k: nat, n: nat, c: nat)
    requires n >= 1 && k < n * c
    ensures k / n < c
  {
    if k / n >= c {
      Arith.MulMono(c, k / n, n);
    }
  }

  function Slot(p: nat, n: nat, i: nat): nat {
    p * n + i
  }

  /** Worker `i` holds tasks i, n + i, 2n + i, ... in that order. */
  ghost predicate HoldsShare<T>(items: seq<T>, tasks: seq<T>, n: nat, i: nat)
    requires i < n
  {
    && |items| == Share(|tasks|, n, i)
    && forall p :: 0 <= p < |items| ==> Slot(p, n, i) < |tasks| && items[p] == tasks[Slot(p, n, i)]
  }

  ghost predicate Balanced<T>(s: Sched<T>, tasks: seq<T>, n: nat, c: nat) {
    && s.running && s.capacity == c && |s.workers| == n
    && s.counter == |tasks| % U64 && s.nextId == |tasks| % U64
    && forall i :: 0 <= i < n ==> s.workers[i].active && HoldsShare(s.workers[i].items, tasks, n, i)
  }

  lemma ShareGrows<T>(items: seq<T>, tasks: seq<T>, n: nat, i: nat)
    requires i < n && |tasks| >= 1 && HoldsShare(items, tasks[..|tasks| - 1], n, i)
    ensures
      var k := |tasks| - 1;
      HoldsShare(if i == k % n then items + [tasks[k]] else items, tasks, n, i)
  {
    ShareStep(|tasks| - 1, n, i);
  }

  /** If the worker whose turn it is has room, it gets the task. */
  lemma SubmitInTurn<T>(s: Sched<T>, t: nat, task: T)
    requires s.running && s.workers != [] && t == s.counter % |s.workers| && HasRoom(s, t)
    ensures SubmitStep(s, task) == Outcome(
        s.(workers := s.workers[t := s.workers[t].(items := s.workers[t].items + [task])],
           counter := (s.counter + 1) % U64,
           nextId := (s.nextId + 1) % U64),
        Some(s.nextId), [])
  {
    Arith.DivModUnique(t, |s.workers|, 0, t);
    assert FirstWithRoom(s, t, 0) == Some(t);
  }

  lemma TurnHasRoom<T>(s: Sched<T>, tasks: seq<T>, n: nat, c: nat)
    requires n >= 1 && |tasks| < n * c && Balanced(s, tasks, n, c)
    ensures HasRoom(s, |tasks| % n)
  {
    var t := |tasks| % n;
    assert HoldsShare(s.workers[t].items, tasks, n, t);
    ShareValue(|tasks|, n, t);
    QuotientBelow(|tasks|, n, c);
  }

  lemma SubmitToNext<T>(s: Sched<T>, tasks: seq<T>, n: nat, c: nat)
    requires n >= 1 && 1 <= |tasks| <= n * c <= U64
    requires Balanced(s, tasks[..|tasks| - 1], n, c)
    ensures Balanced(SubmitStep(s, tasks[|tasks| - 1]).state, tasks, n, c)
    ensures SubmitStep(s, tasks[|tasks| - 1]).id == Some(|tasks| - 1)
  {
    var k := |tasks| - 1;
    var t := k % n;
    TurnHasRoom(s, tasks[..k], n, c);
    SubmitInTurn(s, t, tasks[k]);
    var s' := SubmitStep(s, tasks[k]).state;
    forall i | 0 <= i < n
      ensures s'.workers[i].active && HoldsShare(s'.workers[i].items, tasks, n, i)
    {
      assert HoldsShare(s.workers[i].items, tasks[..k], n, i);
      ShareGrows(s.workers[i].items, tasks, n, i);
    }
  }

  lemma {:induction false} FirstSubmits<T>(n: nat, c: nat, tasks: seq<T>)
    requires n >= 1 && |tasks| <= n * c <= U64
    ensures Balanced(SubmitAll(Fresh(n, c), tasks), tasks, n, c)
  {
    if tasks == [] {
      forall i | 0 <= i < n
        ensures Share(0, n, i) == 0
      {
        ShareValue(0, n, i);
      }
    } else {
      var k := |tasks| - 1;
      var s := SubmitAll(Fresh(n, c), tasks[..k]);
      FirstSubmits(n, c, tasks[..k]);
      SubmitToNext(s, tasks, n, c);
    }
  }

  lemma FullShare(n: nat, c: nat, i: nat)
    requires i < n
    ensures Share(n * c, n, i) == c
  {
    ShareValue(n * c, n, i);
    Arith.DivModUnique(n * c, n, c, 0);
  }

  ghost predicate AllFull<T>(s: Sched<T>) {
    forall i :: 0 <= i < |s.workers| ==> !HasRoom(s, i)
  }

  lemma FullWhenBalanced<T>(s: Sched<T>, tasks: seq<T>, n: nat, c: nat)
    requires |tasks| == n * c && Balanced(s, tasks, n, c)
    ensures AllFull(s)
  {
    forall i | 0 <= i < n
      ensures !HasRoom(s, i)
    {
      assert HoldsShare(s.workers[i].items, tasks, n, i);
      FullShare(n, c, i);
    }
  }

  lemma FullRefuses<T>(s: Sched<T>, task: T)
    requires AllFull(s)
    ensures
      var o := SubmitStep(s, task);
      o.id == None && o.state.workers == s.workers && o.state.capacity == s.capacity && AllFull(o.state)
  {
    SubmitSucceedsIff(s, task);
    var s' := SubmitStep(s, task).state;
    assert forall i :: 0 <= i < |s.workers| ==> HasRoom(s', i) == HasRoom(s, i);
  }

  /** Submissions to a full scheduler change no queue. */
  lemma {:induction false} LaterSubmits<T>(s: Sched<T>, first: nat, tasks: seq<T>)
    requires first <= |tasks| && AllFull(SubmitAll(s, tasks[..first]))
    ensures SubmitAll(s, tasks).workers == SubmitAll(s, tasks[..first]).workers && AllFull(SubmitAll(s, tasks))
    decreases |tasks|
  {
    var k := |tasks| - 1;
    if |tasks| == first {
      assert tasks[..first] == tasks;
    } else {
      assert tasks[..k][..first] == tasks[..first];
      LaterSubmits(s, first, tasks[..k]);
      FullRefuses(SubmitAll(s, tasks[..k]), tasks[k]);
    }
  }

  /** The balance theorem.  From a fresh scheduler of `n` workers with room for
      `c` tasks each, the first n * c submissions are accepted in turn and all
      later ones refused; after k accepted ones worker i holds (k + n - 1 - i) / n
      tasks, namely those whose number is i modulo n, so loads differ by at most one. */
  lemma Balance<T>(n: nat, c: nat, tasks: seq<T>, next: T)
    requires n >= 1 && n * c <= U64
    ensures |tasks| < n * c ==> SubmitStep(SubmitAll(Fresh(n, c), tasks), next).id == Some(|tasks|)
    ensures |tasks| >= n * c ==> SubmitStep(SubmitAll(Fresh(n, c), tasks), next).id == None
    ensures
      var kept := if |tasks| < n * c then tasks else tasks[..n * c];
      var s := SubmitAll(Fresh(n, c), tasks);
      && |s.workers| == n
      && (forall i :: 0 <= i < n ==> HoldsShare(s.workers[i].items, kept, n, i))
      && forall i, j :: 0 <= i < n && 0 <= j < n ==> |s.workers[i].items| <= |s.workers[j].items| + 1
  {
    var kept := if |tasks| < n * c then tasks else tasks[..n * c];
    var s := SubmitAll(Fresh(n, c), tasks);
    FirstSubmits(n, c, kept);
    if |tasks| < n * c {
      assert (tasks + [next])[..|tasks|] == tasks;
      SubmitToNext(s, tasks + [next], n, c);
    } else {
      FullWhenBalanced(SubmitAll(Fresh(n, c), kept), kept, n, c);
      LaterSubmits(Fresh(n, c), n * c, tasks);
      FullRefuses(s, next);
    }
    forall i | 0 <= i < n
      ensures |kept| / n <= |s.workers[i].items| <= |kept| / n + 1
    {
      assert HoldsShare(s.workers[i].items, kept, n, i);
      ShareValue(|kept|, n, i);
    }
  }
}
