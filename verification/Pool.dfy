/** Retry with exponential backoff (src/fault.rs) and the retrying pool (src/pool.rs).
    The executor is an oracle that answers each attempt. */
module Pool {
  import opened Prelude
  import opened Scheduler
  import SchedulerSpec
  import Arith

  // ------------------------------------------------------------------ backoff

  /** Durations are in milliseconds. */
  datatype RetryPolicy = RetryPolicy(maxRetries: nat, initialDelay: nat, maxDelay: nat, backoffFactor: nat)

  function Pow(b: nat, e: nat): nat {
    if e == 0 then 1 else b * Pow(b, e - 1)
  }

  /** delay_for_attempt in a build without overflow checks: the power wraps at
      32 bits, the product saturates at 64, and both delays are cut to 64 bits. */
  function DelayFor(p: RetryPolicy, attempt: nat): nat {
    if attempt == 0 then 0 else
    var factor := Pow(p.backoffFactor, attempt - 1) % U32;
    var delay := Min((p.initialDelay % U64) * factor, U64 - 1);
    Min(delay, p.maxDelay % U64)
  }

  /** The intended delay: exponential, capped. */
  function IdealDelay(p: RetryPolicy, attempt: nat): nat {
    if attempt == 0 then 0 else Min(p.initialDelay * Pow(p.backoffFactor, attempt - 1), p.maxDelay)
  }

  /** No delay before the first attempt; the first retry waits for the initial delay, cut to the longest. */
  lemma FirstDelays(p: RetryPolicy)
    requires p.initialDelay < U64 && p.maxDelay < U64
    ensures DelayFor(p, 0) == 0
    ensures DelayFor(p, 1) == if p.initialDelay <= p.maxDelay then p.initialDelay else p.maxDelay
  {
    assert Pow(p.backoffFactor, 0) == 1;
  }

  /** Smaller factors give a smaller product, unless the larger one is zero. */
  lemma SmallerProduct(x: nat, y: nat, x': nat, y': nat)
    requires x' <= x && y' <= y
    ensures x' * y' <= x * y
    ensures x' * y' == x * y <==> (x' == x && y' == y) || x == 0 || y == 0
  {
    Arith.MulMono(y', y, x');
    Arith.MulMono(x', x, y);
    if x' < x {
      Arith.MulMono(x' + 1, x, y);
    } else if y' < y {
      Arith.MulMono(y' + 1, y, x);
    }
  }

  /** What cutting a cap to 64 bits does to a capped number. */
  lemma CutCap(n: nat, n': nat, cap: nat, cap': nat)
    requires n' <= n && cap' < U64 && (if cap < U64 then cap' == cap else cap' < cap)
    ensures Min(n', cap') == Min(n, cap) <==> (n' == n && (cap < U64 || n <= cap')) || (cap < U64 && n' >= cap)
  {
  }

  lemma CutToWidth(n: nat, width: nat)
    requires width == U32 || width == U64
    ensures n % width < width && n % width <= n && (n % width == n <==> n < width)
  {
  }

  /** Saturation at 64 bits never shows, because the cap is smaller. */
  lemma DelayIsCapped(p: RetryPolicy, attempt: nat, delay: nat, factor: nat, cap: nat)
    requires attempt >= 1 && delay == p.initialDelay % U64 && cap == p.maxDelay % U64
    requires factor == Pow(p.backoffFactor, attempt - 1) % U32
    ensures DelayFor(p, attempt) == Min(delay * factor, cap)
  {
  }

  /** The power and the initial delay survive being cut to their widths, or nothing is multiplied. */
  predicate ProductKept(delay: nat, power: nat) {
    (delay < U64 && power < U32) || delay == 0 || power == 0
  }

  /** For every policy: the delay is the intended one exactly if the product is
      kept and below a cap that was cut, or the cap was not cut and even the cut
      product reaches it. */
  lemma DelayIdealIff(p: RetryPolicy, attempt: nat)
    requires attempt >= 1
    ensures
      var delay, power, cap := p.initialDelay, Pow(p.backoffFactor, attempt - 1), p.maxDelay;
      DelayFor(p, attempt) == IdealDelay(p, attempt) <==>
        || (ProductKept(delay, power) && (cap < U64 || delay * power <= cap % U64))
        || (cap < U64 && (delay % U64) * (power % U32) >= cap)
  {
    var delay, power, cap := p.initialDelay, Pow(p.backoffFactor, attempt - 1), p.maxDelay;
    var delay', power', cap' := delay % U64, power % U32, cap % U64;
    CutToWidth(delay, U64);
    CutToWidth(power, U32);
    CutToWidth(cap, U64);
    DelayIsCapped(p, attempt, delay', power', cap');
    SmallerProduct(delay, power, delay', power');
    CutCap(delay * power, delay' * power', cap, cap');
  }

  lemma {:induction false} PowMono(b: nat, e: nat, e': nat)
    requires b >= 1 && e <= e'
    ensures 1 <= Pow(b, e) <= Pow(b, e')
    decreases e'
  {
    if e < e' {
      PowMono(b, e, e' - 1);
      Arith.MulMono(1, b, Pow(b, e' - 1));
    } else if e > 0 {
      PowMono(b, e - 1, e' - 1);
      Arith.MulMono(1, b, Pow(b, e - 1));
    }
  }

  /** Delays never decrease while the power fits 32 bits and the factor is at least one. */
  lemma DelaysGrow(p: RetryPolicy, a: nat, a': nat)
    requires p.backoffFactor >= 1 && 1 <= a <= a' && Pow(p.backoffFactor, a' - 1) < U32
    ensures DelayFor(p, a) <= DelayFor(p, a') <= p.maxDelay
  {
    var power, power' := Pow(p.backoffFactor, a - 1), Pow(p.backoffFactor, a' - 1);
    var delay, cap := p.initialDelay % U64, p.maxDelay % U64;
    PowMono(p.backoffFactor, a - 1, a' - 1);
    CutToWidth(power, U32);
    CutToWidth(power', U32);
    CutToWidth(p.maxDelay, U64);
    DelayIsCapped(p, a, delay, power, cap);
    DelayIsCapped(p, a', delay, power', cap);
    SmallerProduct(delay, power', delay, power);
  }

  lemma {:induction false} PowAdd(b: nat, e: nat, f: nat)
    ensures Pow(b, e + f) == Pow(b, e) * Pow(b, f)
  {
    if e == 0 {
    } else {
      PowAdd(b, e - 1, f);
      Arith.MulAssoc(b, Pow(b, e - 1), Pow(b, f));
    }
  }

  lemma PowersOfTwo()
    ensures Pow(2, 8) == 256 && Pow(2, 32) == U32 && Pow(2, 31) == 0x8000_0000
  {
    assert Pow(2, 4) == 16;
    PowAdd(2, 4, 4);
    PowAdd(2, 8, 8);
    PowAdd(2, 16, 16);
    assert Pow(2, 32) == 2 * Pow(2, 31);
  }

  /** With the factor two that every built-in policy uses, the delay is the
      intended one exactly for the first 32 attempts; from the 33rd on the power
      wraps to zero and the pool retries without any delay. */
  lemma DoublingDelayIff(p: RetryPolicy, attempt: nat)
    requires p.initialDelay < U64 && p.maxDelay < U64
    requires p.backoffFactor == 2 && p.initialDelay > 0 && p.maxDelay > 0 && attempt >= 1
    ensures DelayFor(p, attempt) == IdealDelay(p, attempt) <==> attempt <= 32
    ensures attempt > 32 ==> DelayFor(p, attempt) == 0
  {
    PowersOfTwo();
    var e := attempt - 1;
    DelayIdealIff(p, attempt);
    if attempt <= 32 {
      PowMono(2, e, 31);
    } else {
      PowAdd(2, e - 32, 32);
      PowMono(2, 0, e - 32);
      Arith.DivModUnique(Pow(2, e), U32, Pow(2, e - 32), 0);
    }
  }

  // -------------------------------------------------------------- one submit

  /** What a 64-bit counter shows after `n` increments from zero. */
  function Wrapped(n: nat): nat {
    n % U64
  }

  function Bump(n: nat): nat {
    Wrapped(n + 1)
  }

  lemma BumpWrapped(n: nat)
    ensures Bump(Wrapped(n)) == Wrapped(n + 1)
  {
    SchedulerSpec.NextWraps(n);
  }

  /** What the executor answers to one attempt. */
  datatype Attempt = Succeeded | Unsuccessful | Errored(retriable: bool)

  /** What a caller gets: an execution result, successful or not, or an error. */
  datatype Reply = NotRunning | Executed(success: bool) | Raised

  predicate MayRetry(a: Attempt) {
    a == Unsuccessful || a == Errored(true)
  }

  /** The sleeps before retries 1..n. */
  function Delays(p: RetryPolicy, n: nat): (r: seq<nat>)
    ensures |r| == n && forall j :: 0 <= j < n ==> r[j] == DelayFor(p, j + 1)
  {
    if n == 0 then [] else Delays(p, n - 1) + [DelayFor(p, n)]
  }

  /** Attempt `n` ends the submission: all before it were retried, and it cannot or need not be. */
  ghost predicate EndsAt(p: RetryPolicy, oracle: nat -> Attempt, n: nat) {
    && n <= p.maxRetries
    && (forall j :: 0 <= j < n ==> MayRetry(oracle(j)))
    && (n == p.maxRetries || !MayRetry(oracle(n)))
  }

  /** There is exactly one attempt at which a submission ends. */
  lemma EndsOnce(p: RetryPolicy, oracle: nat -> Attempt, n: nat, n': nat)
    requires EndsAt(p, oracle, n) && EndsAt(p, oracle, n')
    ensures n == n'
  {
  }

  class Pool<T> {
    const policy: RetryPolicy
    const scheduler: Scheduler<T>
    var submitted: nat
    var completed: nat
    var failed: nat
    var retries: nat
    var running: bool

    ghost predicate Valid()
      reads this, scheduler, scheduler.Repr
    {
      && scheduler.Valid() && this !in scheduler.Repr
      && submitted < U64 && completed < U64 && failed < U64 && retries < U64
    }

    constructor (policy: RetryPolicy, scheduler: Scheduler<T>)
      requires scheduler.Valid()
      ensures Valid() && this.policy == policy && this.scheduler == scheduler
      ensures running && submitted == completed == failed == retries == 0
    {
      this.policy, this.scheduler := policy, scheduler;
      submitted, completed, failed, retries, running := 0, 0, 0, 0, true;
    }

    /** The retry loop of submit: executes until an answer need not or cannot be retried. */
    method Attempts(oracle: nat -> Attempt) returns (answer: Attempt, executions: nat, sleeps: seq<nat>)
      requires retries < U64
      modifies this`retries
      ensures executions >= 1 && EndsAt(policy, oracle, executions - 1) && answer == oracle(executions - 1)
      ensures sleeps == Delays(policy, executions - 1)
      ensures retries == Wrapped(old(retries) + (executions - 1)) < U64
    {
      var attempts := 0;
      executions, sleeps := 0, [];
      while true
        invariant executions == attempts <= policy.maxRetries
        invariant forall j :: 0 <= j < attempts ==> MayRetry(oracle(j))
        invariant sleeps == Delays(policy, attempts)
        invariant retries == Wrapped(old(retries) + attempts) < U64
        decreases policy.maxRetries - attempts
      {
        answer := oracle(executions);
        executions := executions + 1;
        if answer.Succeeded? {
          return;
        }
        if (answer.Unsuccessful? || answer.retriable) && attempts < policy.maxRetries {
          BumpWrapped(old(retries) + attempts);
          attempts := attempts + 1;
          retries := Bump(retries);
          sleeps := sleeps + [DelayFor(policy, attempts)];
        } else {
          return;
        }
      }
    }

    /** The end of submit: the last answer is counted and becomes the reply. */
    method Settle(last: Attempt) returns (r: Reply)
      requires completed < U64 && failed < U64
      modifies this`completed, this`failed
      ensures completed < U64 && failed < U64
      ensures r == Executed(true) <==> last == Succeeded
      ensures r == Executed(false) <==> last == Unsuccessful
      ensures r == Raised <==> last.Errored?
      ensures completed == if last == Succeeded then Bump(old(completed)) else old(completed)
      ensures failed == if last == Succeeded then old(failed) else Bump(old(failed))
    {
      match last
      case Succeeded =>
        completed := Bump(completed);
        r := Executed(true);
      case Unsuccessful =>
        failed := Bump(failed);
        r := Executed(false);
      case Errored(_) =>
        failed := Bump(failed);
        r := Raised;
    }

    /** submit: for every executor, the loop ends after at most maxRetries + 1
        executions; the reply is the last answer and each counter moves accordingly. */
    method Submit(oracle: nat -> Attempt) returns (r: Reply, executions: nat, sleeps: seq<nat>)
      requires Valid()
      modifies this
      ensures Valid() && running == old(running)
      ensures !running ==>
        && r == NotRunning && executions == 0 && sleeps == []
        && submitted == old(submitted) && completed == old(completed)
        && failed == old(failed) && retries == old(retries)
      ensures running ==>
        && executions >= 1 && EndsAt(policy, oracle, executions - 1)
        && (forall j :: 0 <= j < executions - 1 ==> oracle(j) == Unsuccessful || oracle(j) == Errored(true))
        && var last := oracle(executions - 1);
           && (executions == policy.maxRetries + 1
               || (executions <= policy.maxRetries && (last == Succeeded || last == Errored(false))))
           && (r == Executed(true) <==> last == Succeeded)
           && (r == Executed(false) <==> last == Unsuccessful)
           && (r == Raised <==> last.Errored?)
           && (if last == Succeeded
               then completed == (old(completed) + 1) % 0x1_0000_0000_0000_0000 && failed == old(failed)
               else failed == (old(failed) + 1) % 0x1_0000_0000_0000_0000 && completed == old(completed))
      ensures running ==>
        && |sleeps| == executions - 1
        && (forall j :: 0 <= j < executions - 1 ==> sleeps[j] == DelayFor(policy, j + 1))
        && submitted == (old(submitted) + 1) % 0x1_0000_0000_0000_0000
        && retries == (old(retries) + (executions - 1)) % 0x1_0000_0000_0000_0000
    {
      if !running {
        return NotRunning, 0, [];
      }
      submitted := Bump(submitted);
      var answer;
      answer, executions, sleeps := Attempts(oracle);
      r := Settle(answer);
    }

    /** submit_async: counts the submission and hands the task to the scheduler. */
    method SubmitAsync(task: T) returns (r: Result<nat>)
      requires Valid()
      modifies this, scheduler.Repr
      ensures Valid() && running == old(running)
      ensures completed == old(completed) && failed == old(failed) && retries == old(retries)
      ensures !running ==>
        r == Err(DeviceNotReady) && submitted == old(submitted) && scheduler.state == old(scheduler.state)
      ensures running ==>
        var o := SchedulerSpec.SubmitStep(old(scheduler.state), task);
        && submitted == (old(submitted) + 1) % 0x1_0000_0000_0000_0000 && scheduler.state == o.state
        && r == if o.id.Some? then Ok(o.id.value) else Err(UblkQueueFull)
    {
      if !running {
        return Err(DeviceNotReady);
      }
      submitted := Bump(submitted);
      var id := scheduler.Submit(task);
      return if id.Some? then Ok(id.value) else Err(UblkQueueFull);
    }
  }

  // ----------------------------------------------------- many threads at once

  datatype Phase = Running | Finished | Rejected

  /** One call of submit in flight or over, and how often it has retried. */
  datatype Submission = Submission(phase: Phase, attempts: nat)

  datatype State = State(
    calls: seq<Submission>,
    asyncCalls: nat,
    submitted: nat,
    completed: nat,
    failed: nat,
    retries: nat)

  /** Some thread enters submit or submit_async, or the executor answers the call numbered `i`. */
  datatype Move = Enter | EnterAsync | Answer(i: nat, attempt: Attempt)

  const IDLE := State([], 0, 0, 0, 0, 0)

  function Step(p: RetryPolicy, s: State, m: Move): State {
    match m
    case Enter => s.(calls := s.calls + [Submission(Running, 0)], submitted := Bump(s.submitted))
    case EnterAsync => s.(asyncCalls := s.asyncCalls + 1, submitted := Bump(s.submitted))
    case Answer(i, a) =>
      if i >= |s.calls| || s.calls[i].phase != Running then s
      else if a.Succeeded? then
        s.(calls := s.calls[i := s.calls[i].(phase := Finished)], completed := Bump(s.completed))
      else if MayRetry(a) && s.calls[i].attempts < p.maxRetries then
        s.(calls := s.calls[i := s.calls[i].(attempts := s.calls[i].attempts + 1)], retries := Bump(s.retries))
      else
        s.(calls := s.calls[i := s.calls[i].(phase := Rejected)], failed := Bump(s.failed))
  }

  function Run(p: RetryPolicy, moves: seq<Move>): State {
    if moves == [] then IDLE else Step(p, Run(p, moves[..|moves| - 1]), moves[|moves| - 1])
  }

  function CountPhase(calls: seq<Submission>, phase: Phase): nat {
    if calls == [] then 0
    else CountPhase(calls[..|calls| - 1], phase) + (if calls[|calls| - 1].phase == phase then 1 else 0)
  }

  function SumAttempts(calls: seq<Submission>): nat {
    if calls == [] then 0 else SumAttempts(calls[..|calls| - 1]) + calls[|calls| - 1].attempts
  }

  lemma {:induction false} CallUpdate(calls: seq<Submission>, i: nat, c: Submission, phase: Phase)
    requires i < |calls|
    ensures CountPhase(calls[i := c], phase) - (if c.phase == phase then 1 else 0)
            == CountPhase(calls, phase) - (if calls[i].phase == phase then 1 else 0)
    ensures SumAttempts(calls[i := c]) - c.attempts == SumAttempts(calls) - calls[i].attempts
  {
    var n := |calls| - 1;
    if i < n {
      CallUpdate(calls[..n], i, c, phase);
      assert calls[i := c][..n] == calls[..n][i := c];
    } else {
      assert calls[i := c][..n] == calls[..n];
    }
  }

  lemma {:induction false} PhasesPartition(calls: seq<Submission>)
    ensures |calls| == CountPhase(calls, Running) + CountPhase(calls, Finished) + CountPhase(calls, Rejected)
  {
    if calls == [] {
    } else {
      PhasesPartition(calls[..|calls| - 1]);
    }
  }

  lemma {:induction false} AttemptsBounded(calls: seq<Submission>, max: nat)
    requires forall i :: 0 <= i < |calls| ==> calls[i].attempts <= max
    ensures SumAttempts(calls) <= |calls| * max
  {
    if calls == [] {
    } else {
      var n := |calls| - 1;
      AttemptsBounded(calls[..n], max);
      assert (n + 1) * max == n * max + max;
    }
  }

  ghost predicate Accounted(p: RetryPolicy, s: State) {
    && s.submitted == Wrapped(|s.calls| + s.asyncCalls)
    && s.completed == Wrapped(CountPhase(s.calls, Finished))
    && s.failed == Wrapped(CountPhase(s.calls, Rejected))
    && s.retries == Wrapped(SumAttempts(s.calls))
    && forall i :: 0 <= i < |s.calls| ==> s.calls[i].attempts <= p.maxRetries
  }

  lemma FinishAccounted(p: RetryPolicy, s: State, i: nat)
    requires Accounted(p, s) && i < |s.calls| && s.calls[i].phase == Running
    ensures Accounted(p, s.(calls := s.calls[i := s.calls[i].(phase := Finished)], completed := Bump(s.completed)))
  {
    CallUpdate(s.calls, i, s.calls[i].(phase := Finished), Finished);
    CallUpdate(s.calls, i, s.calls[i].(phase := Finished), Rejected);
    BumpWrapped(CountPhase(s.calls, Finished));
  }

  lemma RejectAccounted(p: RetryPolicy, s: State, i: nat)
    requires Accounted(p, s) && i < |s.calls| && s.calls[i].phase == Running
    ensures Accounted(p, s.(calls := s.calls[i := s.calls[i].(phase := Rejected)], failed := Bump(s.failed)))
  {
    CallUpdate(s.calls, i, s.calls[i].(phase := Rejected), Finished);
    CallUpdate(s.calls, i, s.calls[i].(phase := Rejected), Rejected);
    BumpWrapped(CountPhase(s.calls, Rejected));
  }

  lemma RetryAccounted(p: RetryPolicy, s: State, i: nat)
    requires Accounted(p, s) && i < |s.calls| && s.calls[i].attempts < p.maxRetries
    ensures
      var again := s.calls[i].(attempts := s.calls[i].attempts + 1);
      Accounted(p, s.(calls := s.calls[i := again], retries := Bump(s.retries)))
  {
    var again := s.calls[i].(attempts := s.calls[i].attempts + 1);
    CallUpdate(s.calls, i, again, Finished);
    CallUpdate(s.calls, i, again, Rejected);
    BumpWrapped(SumAttempts(s.calls));
  }

  lemma AnswerAccounted(p: RetryPolicy, s: State, i: nat, a: Attempt)
    requires Accounted(p, s) && i < |s.calls| && s.calls[i].phase == Running
    ensures Accounted(p, Step(p, s, Answer(i, a)))
  {
    if a.Succeeded? {
      FinishAccounted(p, s, i);
    } else if MayRetry(a) && s.calls[i].attempts < p.maxRetries {
      RetryAccounted(p, s, i);
    } else {
      RejectAccounted(p, s, i);
    }
  }

  lemma StepAccounted(p: RetryPolicy, s: State, m: Move)
    requires Accounted(p, s)
    ensures Accounted(p, Step(p, s, m))
  {
    match m
    case Enter =>
      assert Step(p, s, m).calls[..|s.calls|] == s.calls;
      BumpWrapped(|s.calls| + s.asyncCalls);
    case EnterAsync => BumpWrapped(|s.calls| + s.asyncCalls);
    case Answer(i, a) =>
      if i < |s.calls| && s.calls[i].phase == Running {
        AnswerAccounted(p, s, i, a);
      }
  }

  lemma {:induction false} RunAccounted(p: RetryPolicy, moves: seq<Move>)
    ensures Accounted(p, Run(p, moves))
  {
    if moves == [] {
    } else {
      RunAccounted(p, moves[..|moves| - 1]);
      StepAccounted(p, Run(p, moves[..|moves| - 1]), moves[|moves| - 1]);
    }
  }

  /** Wrapped counters may be added before or after wrapping. */
  lemma WrappedSum(a: nat, b: nat, c: nat)
    ensures Wrapped(Wrapped(a) + Wrapped(b) + c) == Wrapped(a + b + c)
    ensures a + b + c < U64 ==> Wrapped(a + b + c) == Wrapped(a) + Wrapped(b) + c
  {
    var sum := a % U64 + b % U64 + c;
    Arith.DivModUnique(a + b + c, U64, a / U64 + b / U64 + sum / U64, sum % U64);
  }

  lemma BooksBalance(p: RetryPolicy, s: State)
    requires Accounted(p, s)
    ensures s.submitted == Wrapped(s.completed + s.failed + (s.asyncCalls + CountPhase(s.calls, Running)))
    ensures |s.calls| + s.asyncCalls < U64 ==>
      s.submitted == s.completed + s.failed + (s.asyncCalls + CountPhase(s.calls, Running))
  {
    var finished, rejected := CountPhase(s.calls, Finished), CountPhase(s.calls, Rejected);
    var rest := s.asyncCalls + CountPhase(s.calls, Running);
    PhasesPartition(s.calls);
    assert |s.calls| + s.asyncCalls == finished + rejected + rest;
    WrappedSum(finished, rejected, rest);
  }

  lemma WrappedBelow(n: nat, bound: nat)
    requires n <= bound
    ensures Wrapped(n) <= bound
  {
  }

  lemma RetriesBounded(p: RetryPolicy, s: State)
    requires Accounted(p, s)
    ensures s.retries <= |s.calls| * p.maxRetries
  {
    AttemptsBounded(s.calls, p.maxRetries);
    WrappedBelow(SumAttempts(s.calls), |s.calls| * p.maxRetries);
  }

  /** Submissions are completed, failed, asynchronous or still in flight, modulo
      2^64 where a counter has gone round, and retries stay within maxRetries
      per submission. */
  ghost predicate Balanced(p: RetryPolicy, s: State) {
    var rest := s.asyncCalls + CountPhase(s.calls, Running);
    && s.submitted == Wrapped(s.completed + s.failed + rest)
    && (|s.calls| + s.asyncCalls < U64 ==> s.submitted == s.completed + s.failed + rest)
    && s.retries <= |s.calls| * p.maxRetries
  }

  lemma AccountedBalanced(p: RetryPolicy, s: State)
    requires Accounted(p, s)
    ensures Balanced(p, s)
  {
    BooksBalance(p, s);
    RetriesBounded(p, s);
  }

  /** Over every interleaving the books balance, and each counter shows what it counts. */
  lemma CountersBalance(p: RetryPolicy, moves: seq<Move>)
    ensures Balanced(p, Run(p, moves))
    ensures
      var s := Run(p, moves);
      && s.submitted == (|s.calls| + s.asyncCalls) % 0x1_0000_0000_0000_0000
      && s.completed == CountPhase(s.calls, Finished) % 0x1_0000_0000_0000_0000
      && s.failed == CountPhase(s.calls, Rejected) % 0x1_0000_0000_0000_0000
      && s.retries == SumAttempts(s.calls) % 0x1_0000_0000_0000_0000
  {
    RunAccounted(p, moves);
    AccountedBalanced(p, Run(p, moves));
  }

  // ------------------------------------------------ what becomes of one call

  /** The answers that reached the call numbered `i` while it was running. */
  function Heard(p: RetryPolicy, moves: seq<Move>, i: nat): seq<Attempt> {
    if moves == [] then [] else
    var before, m := moves[..|moves| - 1], moves[|moves| - 1];
    var s := Run(p, before);
    Heard(p, before, i)
    + if m.Answer? && m.i == i && i < |s.calls| && s.calls[i].phase == Running then [m.attempt] else []
  }

  /** Every answer was an unsuccessful result or an error that may be retried. */
  predicate AllRetried(answers: seq<Attempt>) {
    forall j :: 0 <= j < |answers| ==> answers[j] == Unsuccessful || answers[j] == Errored(true)
  }

  /** A call with these answers is where it should be. */
  predicate Deserved(p: RetryPolicy, c: Submission, answers: seq<Attempt>) {
    match c.phase
    case Running => AllRetried(answers) && c.attempts == |answers| <= p.maxRetries
    case _ =>
      && answers != [] && c.attempts == |answers| - 1 <= p.maxRetries
      && var last := answers[|answers| - 1];
         && AllRetried(answers[..|answers| - 1])
         && (c.phase == Finished <==> last == Succeeded)
         && (c.phase == Rejected <==> last == Errored(false) || (last != Succeeded && |answers| == p.maxRetries + 1))
  }

  lemma AnswerDeserved(p: RetryPolicy, s: State, i: nat, a: Attempt, answers: seq<Attempt>)
    requires i < |s.calls| && s.calls[i].phase == Running && Deserved(p, s.calls[i], answers)
    ensures Deserved(p, Step(p, s, Answer(i, a)).calls[i], answers + [a])
  {
    assert (answers + [a])[..|answers|] == answers;
  }

  /** Over every interleaving a call runs on while it is answered with what may
      be retried and attempts are left, is finished by a success, and is
      rejected by the first other answer. */
  lemma {:induction false} CallsDeserve(p: RetryPolicy, moves: seq<Move>, i: nat)
    ensures
      var s := Run(p, moves);
      if i < |s.calls| then Deserved(p, s.calls[i], Heard(p, moves, i)) else Heard(p, moves, i) == []
  {
    if moves == [] {
    } else {
      var before, m := moves[..|moves| - 1], moves[|moves| - 1];
      var s, answers := Run(p, before), Heard(p, before, i);
      CallsDeserve(p, before, i);
      if m.Answer? && m.i == i && i < |s.calls| && s.calls[i].phase == Running {
        AnswerDeserved(p, s, i, m.attempt, answers);
      } else {
        assert answers + [] == answers;
      }
    }
  }
}
