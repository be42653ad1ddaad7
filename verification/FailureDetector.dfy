/** The heartbeat failure detector of src/fault.rs and what its verdicts mean
    in terms of the history of heartbeats, results and updates. */
module FailureDetector {
  import opened Prelude
  import Seqs

  datatype Status = Healthy | Suspected | Failed | Unknown

  datatype Health = Health(
    status: Status,
    lastHeartbeat: Option<nat>,
    consecutiveFailures: nat,
    tasksCompleted: nat,
    tasksFailed: nat)

  datatype Config = Config(timeout: nat, failureThreshold: nat)

  const NEW_HEALTH := Health(Unknown, None, 0, 0, 0)

  predicate Available(s: Status) {
    s == Healthy || s == Unknown
  }

  // ------------------------------------------------------------ one worker

  function Beat(h: Health, now: nat): Health {
    h.(lastHeartbeat := Some(now), status := Healthy, consecutiveFailures := 0)
  }

  /** Counters wrap at their widths: 32 bits for the failure streak, 64 for the totals. */
  function Complete(h: Health, success: bool): Health {
    if success then h.(tasksCompleted := (h.tasksCompleted + 1) % U64, consecutiveFailures := 0)
    else h.(tasksFailed := (h.tasksFailed + 1) % U64, consecutiveFailures := (h.consecutiveFailures + 1) % U32)
  }

  predicate Late(c: Config, h: Health, now: nat) {
    h.lastHeartbeat.Some? && Elapsed(h.lastHeartbeat.value, now) > c.timeout
  }

  predicate VeryLate(c: Config, h: Health, now: nat) {
    h.lastHeartbeat.Some? && Elapsed(h.lastHeartbeat.value, now) > c.timeout * 3
  }

  predicate Failing(c: Config, h: Health) {
    h.consecutiveFailures >= c.failureThreshold
  }

  function Judge(c: Config, h: Health, now: nat): Health {
    var byTime := if VeryLate(c, h, now) then Failed else if Late(c, h, now) then Suspected else h.status;
    h.(status := if Failing(c, h) then Failed else byTime)
  }

  /** An update makes a worker unavailable exactly if it sees a missed timeout
      or a full streak of failures; otherwise the verdict stands. */
  lemma JudgeVerdict(c: Config, h: Health, now: nat)
    ensures !Available(Judge(c, h, now).status) <==> !Available(h.status) || Late(c, h, now) || Failing(c, h)
    ensures VeryLate(c, h, now) || Failing(c, h) ==> Judge(c, h, now).status == Failed
  {
  }

  /** The verdict of one update, written out: failed on a full streak or after
      three timeouts, suspected after one, and else as before; nothing else changes. */
  lemma JudgeExactly(c: Config, h: Health, now: nat)
    ensures Judge(c, h, now) == h.(status := Judge(c, h, now).status)
    ensures
      var beat, s := h.lastHeartbeat, Judge(c, h, now).status;
      if h.consecutiveFailures >= c.failureThreshold || (beat.Some? && now > beat.value + 3 * c.timeout)
      then s == Failed
      else if beat.Some? && now > beat.value + c.timeout then s == Suspected
      else s == h.status
  {
  }

  // ----------------------------------------------------------- the detector

  type Workers = map<nat, Health>

  datatype Event =
    | Register(w: nat)
    | Deregister(w: nat)
    | Heartbeat(w: nat, now: nat)
    | Result(w: nat, success: bool)
    | Update(now: nat)

  function Next(c: Config, ws: Workers, e: Event): Workers {
    match e
    case Register(w) => ws[w := NEW_HEALTH]
    case Deregister(w) => ws - {w}
    case Heartbeat(w, now) => ws[w := Beat(if w in ws then ws[w] else NEW_HEALTH, now)]
    case Result(w, success) => if w in ws then ws[w := Complete(ws[w], success)] else ws
    case Update(now) => map w | w in ws :: Judge(c, ws[w], now)
  }

  function After(c: Config, h: seq<Event>): Workers {
    if h == [] then map[] else Next(c, After(c, h[..|h| - 1]), h[|h| - 1])
  }

  class FailureDetector {
    const config: Config
    var workers: Workers

    constructor (config: Config)
      ensures workers == map[] && this.config == config
    {
      this.config := config;
      workers := map[];
    }

    method RegisterWorker(w: nat)
      modifies this
      ensures workers == Next(config, old(workers), Register(w))
    {
      workers := workers[w := NEW_HEALTH];
    }

    method DeregisterWorker(w: nat)
      modifies this
      ensures workers == Next(config, old(workers), Deregister(w))
    {
      workers := workers - {w};
    }

    method RecordHeartbeat(w: nat, now: nat)
      modifies this
      ensures workers == Next(config, old(workers), Heartbeat(w, now))
    {
      if w in workers {
        workers := workers[w := Beat(workers[w], now)];
      } else {
        workers := workers[w := Beat(NEW_HEALTH, now)];
      }
    }

    method RecordTaskResult(w: nat, success: bool)
      modifies this
      ensures workers == Next(config, old(workers), Result(w, success))
    {
      if w in workers {
        workers := workers[w := Complete(workers[w], success)];
      }
    }

    /** Visits the records in no particular order. */
    method UpdateAllStatuses(now: nat)
      modifies this
      ensures workers == Next(config, old(workers), Update(now))
    {
      var todo := workers.Keys;
      while todo != {}
        invariant todo <= workers.Keys == old(workers).Keys
        invariant forall w :: w in workers ==>
          workers[w] == if w in todo then old(workers)[w] else Judge(config, old(workers)[w], now)
        decreases todo
      {
        var w :| w in todo;
        workers := workers[w := Judge(config, workers[w], now)];
        todo := todo - {w};
      }
    }

    /** A run of calls leaves the object as the history says. */
    method Replay(h: seq<Event>)
      requires workers == map[]
      modifies this
      ensures workers == After(config, h)
    {
      for k := 0 to |h|
        invariant workers == After(config, h[..k])
      {
        Seqs.TakeLast(h, k + 1);
        assert h[..k + 1][..k] == h[..k];
        match h[k]
        case Register(w) => RegisterWorker(w);
        case Deregister(w) => DeregisterWorker(w);
        case Heartbeat(w, now) => RecordHeartbeat(w, now);
        case Result(w, success) => RecordTaskResult(w, success);
        case Update(now) => UpdateAllStatuses(now);
      }
      assert h[..|h|] == h;
    }

    method IsAvailable(w: nat) returns (r: bool)
      ensures r == (w in workers ==> Available(workers[w].status))
    {
      var status := if w in workers then workers[w].status else Unknown;
      r := Available(status);
    }
  }

  // -------------------------------------------------------------- whole runs

  /** An unavailable verdict on a registered worker. */
  predicate Condemned(ws: Workers, w: nat) {
    w in ws && !Available(ws[w].status)
  }

  /** The events that give a worker a clean record. */
  predicate Pardons(e: Event, w: nat) {
    match e
    case Register(v) => v == w
    case Deregister(v) => v == w
    case Heartbeat(v, _) => v == w
    case _ => false
  }

  ghost predicate NoPardon(h: seq<Event>, w: nat) {
    forall j :: 0 <= j < |h| ==> !Pardons(h[j], w)
  }

  lemma StepWithoutPardon(c: Config, ws: Workers, e: Event, w: nat)
    requires !Pardons(e, w)
    ensures w in Next(c, ws, e) <==> w in ws
    ensures w in ws ==> Next(c, ws, e)[w].lastHeartbeat == ws[w].lastHeartbeat
    ensures Condemned(ws, w) ==> Condemned(Next(c, ws, e), w)
    ensures !Condemned(ws, w) && Condemned(Next(c, ws, e), w) ==>
      e.Update? && w in ws && (Late(c, ws[w], e.now) || Failing(c, ws[w]))
  {
  }

  /** Once unavailable, a worker stays unavailable until it beats, re-registers or deregisters. */
  lemma {:induction false} CondemnedUntilPardon(c: Config, h: seq<Event>, later: seq<Event>, w: nat)
    requires Condemned(After(c, h), w) && NoPardon(later, w)
    ensures Condemned(After(c, h + later), w)
  {
    if later == [] {
      assert h + later == h;
    } else {
      var n := |later| - 1;
      CondemnedUntilPardon(c, h, later[..n], w);
      assert (h + later)[..|h| + n] == h + later[..n];
      StepWithoutPardon(c, After(c, h + later[..n]), later[n], w);
    }
  }

  /** Every unavailable verdict is justified: some update since the last pardon
      saw the worker miss the timeout or fail as often as the threshold. */
  lemma {:induction false} VerdictJustified(c: Config, h: seq<Event>, w: nat) returns (i: nat)
    requires Condemned(After(c, h), w)
    ensures i < |h| && h[i].Update? && NoPardon(h[i..], w)
    ensures w in After(c, h[..i])
    ensures Late(c, After(c, h[..i])[w], h[i].now) || Failing(c, After(c, h[..i])[w])
  {
    var n := |h| - 1;
    var before := After(c, h[..n]);
    assert !Pardons(h[n], w);
    StepWithoutPardon(c, before, h[n], w);
    if Condemned(before, w) {
      i := VerdictJustified(c, h[..n], w);
      assert h[..n][..i] == h[..i];
      assert h[i..] == h[..n][i..] + [h[n]];
    } else {
      i := n;
      assert h[n..] == [h[n]];
    }
  }

  // ---------------------------------------------- the record and the history

  /** The worker has registered or beaten since it last deregistered. */
  predicate Known(h: seq<Event>, w: nat) {
    h != [] &&
    var e := h[|h| - 1];
    if Pardons(e, w) then !e.Deregister? else Known(h[..|h| - 1], w)
  }

  /** The time of the last heartbeat since the worker registered, if any. */
  function LastBeat(h: seq<Event>, w: nat): Option<nat> {
    if h == [] then None else
    var e := h[|h| - 1];
    if Pardons(e, w) then (if e.Heartbeat? then Some(e.now) else None) else LastBeat(h[..|h| - 1], w)
  }

  /** Failures of a known worker since its last success or pardon. */
  function FailureStreak(h: seq<Event>, w: nat): nat {
    if h == [] then 0 else
    var e := h[|h| - 1];
    if Pardons(e, w) || e == Result(w, true) then 0
    else FailureStreak(h[..|h| - 1], w) + (if e == Result(w, false) && Known(h[..|h| - 1], w) then 1 else 0)
  }

  /** Results of one kind from a known worker since it last registered or deregistered. */
  function Tally(h: seq<Event>, w: nat, success: bool): nat {
    if h == [] then 0 else
    var e := h[|h| - 1];
    if e == Register(w) || e == Deregister(w) then 0
    else Tally(h[..|h| - 1], w, success) + (if e == Result(w, success) && Known(h[..|h| - 1], w) then 1 else 0)
  }

  lemma StreakWraps(n: nat)
    ensures (n % U32 + 1) % U32 == (n + 1) % U32
  {
  }

  lemma TallyWraps(n: nat)
    ensures (n % U64 + 1) % U64 == (n + 1) % U64
  {
  }

  /** The record holds what the history says; only the streak wraps. */
  lemma {:induction false} RecordIsHistory(c: Config, h: seq<Event>, w: nat)
    ensures w in After(c, h) <==> Known(h, w)
    ensures w in After(c, h) ==>
      && After(c, h)[w].lastHeartbeat == LastBeat(h, w)
      && After(c, h)[w].consecutiveFailures == FailureStreak(h, w) % U32
  {
    if h == [] {
    } else {
      var n := |h| - 1;
      RecordIsHistory(c, h[..n], w);
      StreakWraps(FailureStreak(h[..n], w));
    }
  }

  /** A total of a record. */
  function Total(h: Health, success: bool): nat {
    if success then h.tasksCompleted else h.tasksFailed
  }

  lemma TallyStep(c: Config, ws: Workers, e: Event, w: nat, success: bool, n: nat)
    requires if w in ws then Total(ws[w], success) == n % U64 else n == 0
    ensures
      var ws' := Next(c, ws, e);
      var n' := if e == Register(w) || e == Deregister(w) then 0
                else n + if e == Result(w, success) && w in ws then 1 else 0;
      if w in ws' then Total(ws'[w], success) == n' % U64 else n' == 0
  {
    TallyWraps(n);
  }

  /** The totals of the record are the results of each kind, at 64 bits. */
  lemma {:induction false} TotalsAreHistory(c: Config, h: seq<Event>, w: nat, success: bool)
    ensures
      var ws, n := After(c, h), Tally(h, w, success);
      if w in ws then (if success then ws[w].tasksCompleted else ws[w].tasksFailed) == n % 0x1_0000_0000_0000_0000
      else n == 0
  {
    if h == [] {
    } else {
      var n := |h| - 1;
      TotalsAreHistory(c, h[..n], w, success);
      RecordIsHistory(c, h[..n], w);
      TallyStep(c, After(c, h[..n]), h[n], w, success, Tally(h[..n], w, success));
    }
  }

  /** Event `i` is an update, not pardoned since, that saw a known worker late
      or on a full streak of failures; a fact about the history alone. */
  ghost predicate SeenFaulty(c: Config, h: seq<Event>, w: nat, i: nat) {
    && i < |h| && h[i].Update? && NoPardon(h[i..], w) && Known(h[..i], w)
    && var beat := LastBeat(h[..i], w);
       || (beat.Some? && Elapsed(beat.value, h[i].now) > c.timeout)
       || FailureStreak(h[..i], w) % U32 >= c.failureThreshold
  }

  lemma FaultyCondemned(c: Config, h: seq<Event>, w: nat, i: nat)
    requires SeenFaulty(c, h, w, i)
    ensures Condemned(After(c, h), w)
  {
    RecordIsHistory(c, h[..i], w);
    Seqs.TakeLast(h, i + 1);
    assert h[..i + 1][..i] == h[..i];
    assert Condemned(After(c, h[..i + 1]), w);
    Seqs.TakeDrop(h, i + 1);
    assert h[i + 1..] == h[i..][1..];
    CondemnedUntilPardon(c, h[..i + 1], h[i + 1..], w);
  }

  /** A worker is unavailable exactly if some update since its last pardon saw it faulty. */
  lemma CondemnedIff(c: Config, h: seq<Event>, w: nat)
    ensures Condemned(After(c, h), w) <==> exists i :: SeenFaulty(c, h, w, i)
  {
    if Condemned(After(c, h), w) {
      var i := VerdictJustified(c, h, w);
      RecordIsHistory(c, h[..i], w);
      assert SeenFaulty(c, h, w, i);
    }
    if i :| SeenFaulty(c, h, w, i) {
      FaultyCondemned(c, h, w, i);
    }
  }

  lemma NoPardonSplit(front: seq<Event>, e: Event, w: nat)
    ensures NoPardon(front + [e], w) <==> NoPardon(front, w) && !Pardons(e, w)
  {
    assert forall j :: 0 <= j < |front| ==> (front + [e])[j] == front[j];
    assert (front + [e])[|front|] == e;
  }

  lemma FaultySplit(c: Config, h: seq<Event>, w: nat, i: nat)
    requires h != []
    ensures
      var n := |h| - 1;
      SeenFaulty(c, h, w, i) <==>
        if i == n then
          && h[n].Update? && Known(h[..n], w)
          && var beat := LastBeat(h[..n], w);
             || (beat.Some? && Elapsed(beat.value, h[n].now) > c.timeout)
             || FailureStreak(h[..n], w) % U32 >= c.failureThreshold
        else SeenFaulty(c, h[..n], w, i) && !Pardons(h[n], w)
  {
    var n := |h| - 1;
    if i == n {
      NoPardonSplit([], h[n], w);
      assert h[n..] == [] + [h[n]];
    } else if i < n {
      NoPardonSplit(h[..n][i..], h[n], w);
      assert h[..n][..i] == h[..i];
      assert h[i..] == h[..n][i..] + [h[n]];
    }
  }

  /** The last update that saw the worker faulty since its last pardon decides
      whether it is failed or only suspected. */
  lemma {:induction false} LastFaultDecides(c: Config, h: seq<Event>, w: nat, i: nat)
    requires SeenFaulty(c, h, w, i) && forall j :: i < j < |h| ==> !SeenFaulty(c, h, w, j)
    ensures w in After(c, h)
    ensures
      var beat, streak := LastBeat(h[..i], w), FailureStreak(h[..i], w) % 0x1_0000_0000;
      After(c, h)[w].status ==
        if streak >= c.failureThreshold || (beat.Some? && h[i].now > beat.value + 3 * c.timeout) then Failed
        else Suspected
  {
    var n := |h| - 1;
    RecordIsHistory(c, h[..n], w);
    FaultySplit(c, h, w, i);
    if i == n {
    } else {
      forall j | i < j < n
        ensures !SeenFaulty(c, h[..n], w, j)
      {
        FaultySplit(c, h, w, j);
      }
      LastFaultDecides(c, h[..n], w, i);
      assert h[..n][..i] == h[..i];
      FaultySplit(c, h, w, n);
    }
  }

  /** A known worker that no update has seen faulty since its last pardon is
      healthy if it has beaten since it registered, and else unknown. */
  lemma {:induction false} UnfaultedStatus(c: Config, h: seq<Event>, w: nat)
    requires Known(h, w) && forall j :: 0 <= j < |h| ==> !SeenFaulty(c, h, w, j)
    ensures w in After(c, h) && After(c, h)[w].status == if LastBeat(h, w).Some? then Healthy else Unknown
  {
    var n := |h| - 1;
    if Pardons(h[n], w) {
      assert After(c, h) == Next(c, After(c, h[..n]), h[n]);
      assert h[n].Register? || h[n].Heartbeat?;
    } else {
      forall j | 0 <= j < n
        ensures !SeenFaulty(c, h[..n], w, j)
      {
        FaultySplit(c, h, w, j);
      }
      UnfaultedStatus(c, h[..n], w);
      RecordIsHistory(c, h[..n], w);
      FaultySplit(c, h, w, n);
    }
  }

  lemma {:induction false} LastBeatRemembered(c: Config, h: seq<Event>, i: nat, w: nat)
    requires i < |h| && h[i].Heartbeat? && h[i].w == w && NoPardon(h[i + 1..], w)
    ensures w in After(c, h) && After(c, h)[w].lastHeartbeat == Some(h[i].now)
    decreases |h|
  {
    var n := |h| - 1;
    if i == n {
    } else {
      assert h[i + 1..][..n - i - 1] == h[..n][i + 1..];
      assert h[i + 1..][n - i - 1] == h[n];
      LastBeatRemembered(c, h[..n], i, w);
      StepWithoutPardon(c, After(c, h[..n]), h[n], w);
    }
  }

  /** Completeness: after a last heartbeat at time t, every update later than
      t + timeout finds the worker unavailable and every one later than three
      timeouts finds it failed. */
  lemma SilenceDetected(c: Config, h: seq<Event>, i: nat, w: nat, now: nat)
    requires i < |h| && h[i].Heartbeat? && h[i].w == w && NoPardon(h[i + 1..], w)
    ensures now > h[i].now + c.timeout ==> Condemned(After(c, h + [Update(now)]), w)
    ensures now > h[i].now + 3 * c.timeout ==> After(c, h + [Update(now)])[w].status == Failed
  {
    LastBeatRemembered(c, h, i, w);
    assert (h + [Update(now)])[..|h|] == h;
  }
}
