/** What waiting guarantees over every trace of polls. */
module TaskTheorems {
  import opened Wrappers
  import opened TaskWait

  // ----- when a wait returns -----

  /** The poll proves completion: a completed Task resource, a vanished monitor whose Task resource is completed,
      or another success. */
  predicate Proves(cfg: Config, st: State, poll: Poll, missing: bool) {
    && poll.get.Answered?
    && var answer := poll.get.answer;
    if answer.code == 404 || answer.code == 410 then
      && missing && st.taskUri.Some?
      && poll.verify.Answered? && poll.verify.answer.code == 200
      && poll.verify.answer.body.HasTask? && poll.verify.answer.body.task.state == "Completed"
    else if cfg.isTaskResource && answer.code == 200 then
      !missing && answer.body.HasTask? && answer.body.task.state == "Completed"
    else
      !missing && 200 <= answer.code < 300 && answer.code != 202
  }

  lemma StepCompletesExactly(cfg: Config, st: State, poll: Poll, missing: bool)
    ensures (Step(cfg, st, poll).Done? && Step(cfg, st, poll).result.Completed? &&
        Step(cfg, st, poll).result.monitorMissing == missing)
            <==> Proves(cfg, st, poll, missing)
  {
  }

  /** The wait is still going on after the first `k` polls of the trace, in state `st`. */
  ghost predicate Reaches(cfg: Config, st0: State, trace: seq<Poll>, k: nat, st: State) {
    k <= |trace| && Run(cfg, st0, trace[..k]) == Continue(st)
  }

  lemma {:induction false} RunSplit(cfg: Config, st: State, trace: seq<Poll>, k: nat)
    requires k <= |trace|
    ensures Run(cfg, st, trace) ==
            match Run(cfg, st, trace[..k]) case Done(r, s) => Done(r, s) case Continue(s) => Run(cfg, s, trace[k..])
    decreases k
  {
    if k == 0 || !(st.now < cfg.deadline) {
      assert k == 0 ==> trace[..0] == [] && trace[0..] == trace;
    } else {
      assert trace[..k][0] == trace[0] && trace[..k][1..] == trace[1..][..k - 1] && trace[1..][k - 1..] == trace[k..];
      var next := Step(cfg, st, trace[0]);
      if next.Continue? { RunSplit(cfg, next.st, trace[1..], k - 1); }
    }
  }

  /** A wait that ends otherwise than by the deadline check ends in the step of some poll. */
  lemma {:induction false} EndsInStep(cfg: Config, st0: State, trace: seq<Poll>) returns (k: nat, st: State)
    requires Run(cfg, st0, trace).Done? && Run(cfg, st0, trace).result != Failed(TimedOut)
    ensures k < |trace| && Reaches(cfg, st0, trace, k, st) && Step(cfg, st, trace[k]) == Run(cfg, st0, trace)
    decreases |trace|
  {
    var next := Step(cfg, st0, trace[0]);
    if next.Done? {
      k, st := 0, st0;
      assert trace[..0] == [];
    } else {
      k, st := EndsInStep(cfg, next.st, trace[1..]);
      k := k + 1;
      assert trace[..k][0] == trace[0] && trace[..k][1..] == trace[1..][..k - 1];
    }
  }

  /** The first poll that proves completion is the one that ends the wait, and nothing else makes it return. */
  lemma ReturnsExactlyWhenProved(cfg: Config, st0: State, trace: seq<Poll>, missing: bool)
    ensures (Run(cfg, st0, trace).Done? && Run(cfg, st0, trace).result.Completed? &&
        Run(cfg, st0, trace).result.monitorMissing == missing)
            <==> (exists k: nat, st: State ::
                    k < |trace| && Reaches(cfg, st0, trace, k, st) && Proves(cfg, st, trace[k], missing))
  {
    if Run(cfg, st0, trace).Done? && Run(cfg, st0, trace).result.Completed? &&
        Run(cfg, st0, trace).result.monitorMissing == missing {
      var k, st := EndsInStep(cfg, st0, trace);
      StepCompletesExactly(cfg, st, trace[k], missing);
    }
    if exists k: nat, st: State :: k < |trace| && Reaches(cfg, st0, trace, k, st) &&
        Proves(cfg, st, trace[k], missing) {
      var k: nat, st: State :| k < |trace| && Reaches(cfg, st0, trace, k, st) && Proves(cfg, st, trace[k], missing);
      RunSplit(cfg, st0, trace, k);
      assert trace[k..][0] == trace[k];
      GoesOn(cfg, st0, trace[..k], st);
      StepCompletesExactly(cfg, st, trace[k], missing);
    }
  }

  lemma {:induction false} GoesOn(cfg: Config, st0: State, trace: seq<Poll>, st: State)
    requires Run(cfg, st0, trace) == Continue(st)
    ensures st.now < cfg.deadline
    decreases |trace|
  {
    if trace != [] { GoesOn(cfg, Step(cfg, st0, trace[0]).st, trace[1..], st); }
  }

  // ----- what the wait knows, from the history alone -----

  /** The task a poll reports while the wait goes on, if any. */
  function Reported(cfg: Config, poll: Poll): Option<Task> {
    if poll.get.Answered? && poll.get.answer.body.HasTask?
       && (poll.get.answer.code == 202 || (poll.get.answer.code == 200 && cfg.isTaskResource))
    then Some(poll.get.answer.body.task) else None
  }

  /** The latest task reported. */
  function LatestTask(cfg: Config, trace: seq<Poll>): Option<Task> {
    if trace == [] then None
    else
      var last := Reported(cfg, trace[|trace| - 1]);
      if last.Some? then last else LatestTask(cfg, trace[..|trace| - 1])
  }

  /** The first Task resource URI known: the one at the start, or that of the first 202 that names one. */
  function FirstUri(cfg: Config, known: Option<string>, trace: seq<Poll>): Option<string> {
    if trace == [] then known
    else
      var before, last := FirstUri(cfg, known, trace[..|trace| - 1]), trace[|trace| - 1];
      if before.Some? then before
      else if Reported(cfg, last).Some? && last.get.answer.code == 202 then NonEmpty(Reported(cfg, last).value.odataId)
      else None
  }

  /** The pause a poll asks for when the wait goes on: none after a reauthentication. */
  function Pause(cfg: Config, poll: Poll): real {
    match poll.get
    case NoConnection => cfg.recoveryInterval
    case Answered(answer) => if answer.code == 401 || answer.code == 403 then 0.0 else Delay(cfg, answer)
    case _ => 0.0
  }

  function Pauses(cfg: Config, trace: seq<Poll>): real {
    if trace == [] then 0.0 else Pauses(cfg, trace[..|trace| - 1]) + Pause(cfg, trace[|trace| - 1])
  }

  lemma StepKeepsHistory(cfg: Config, st: State, poll: Poll)
    requires Step(cfg, st, poll).Continue?
    ensures var next := Step(cfg, st, poll).st;
            && next.lastTask == OrElse(Reported(cfg, poll), st.lastTask)
            && (st.taskUri.Some? ==> next.taskUri == st.taskUri)
            && (st.taskUri.None? ==> next.taskUri == FirstUri(cfg, None, [poll]))
            && next.slept == st.slept + Pause(cfg, poll)
  {
    hide Delay;
    assert [poll][..0] == [];
  }

  lemma LastStep(cfg: Config, st0: State, trace: seq<Poll>, k: nat, st: State) returns (before: State)
    requires k > 0 && Reaches(cfg, st0, trace, k, st)
    ensures Reaches(cfg, st0, trace, k - 1, before) && Step(cfg, before, trace[k - 1]) == Continue(st)
  {
    RunSplit(cfg, st0, trace[..k], k - 1);
    assert trace[..k][..k - 1] == trace[..k - 1] && trace[..k][k - 1..] == [trace[k - 1]];
    before := Run(cfg, st0, trace[..k - 1]).st;
    assert Run(cfg, before, [trace[k - 1]]) == Continue(st);
    assert [trace[k - 1]][1..] == [];
  }

  /** While the wait goes on it knows the latest task reported and the first Task URI named, and has slept what
      the polls asked for, no more and no less. */
  lemma {:induction false} KnowsHistory(cfg: Config, st0: State, trace: seq<Poll>, k: nat, st: State)
    requires Reaches(cfg, st0, trace, k, st) && st0.lastTask.None?
    ensures st.lastTask == LatestTask(cfg, trace[..k])
    ensures st.taskUri == FirstUri(cfg, st0.taskUri, trace[..k])
    ensures st.slept == st0.slept + Pauses(cfg, trace[..k])
    decreases k
  {
    hide Step, Reported, Pause;
    if k > 0 {
      var before := LastStep(cfg, st0, trace, k, st);
      KnowsHistory(cfg, st0, trace, k - 1, before);
      StepKeepsHistory(cfg, before, trace[k - 1]);
      assert trace[..k][..k - 1] == trace[..k - 1] && trace[..k][k - 1] == trace[k - 1];
      assert [trace[k - 1]][..0] == [];
    }
  }

  function TaskOf(get: Get): Option<Task> {
    if get.Answered? && get.answer.body.HasTask? then Some(get.answer.body.task) else None
  }

  /** What a completed wait hands out: the task that proved completion, or the latest one reported if the
      monitor itself answered; and the first Task URI named. */
  lemma CompletedCarries(cfg: Config, st0: State, trace: seq<Poll>)
    requires Run(cfg, st0, trace).Done? && Run(cfg, st0, trace).result.Completed? && st0.lastTask.None?
    ensures var result := Run(cfg, st0, trace).result;
            exists k: nat :: k < |trace| && trace[k].get.Answered?
              && result.taskUri == FirstUri(cfg, st0.taskUri, trace[..k])
              && result.task == if result.monitorMissing then TaskOf(trace[k].verify)
                                else if Reported(cfg, trace[k]).Some? then Reported(cfg, trace[k])
                                else LatestTask(cfg, trace[..k])
  {
    var k, st := EndsInStep(cfg, st0, trace);
    StepCompletesExactly(cfg, st, trace[k], Run(cfg, st0, trace).result.monitorMissing);
    KnowsHistory(cfg, st0, trace, k, st);
  }

  // ----- budgets -----

  /** The clock never runs backwards. */
  ghost predicate Forward(trace: seq<Poll>) {
    forall k :: 0 <= k < |trace| ==> trace[k].took >= 0.0 && trace[k].overslept >= 0.0
  }

  ghost predicate WithinBudgets(cfg: Config, st: State) {
    && st.slept >= 0.0
    && cfg.start + st.slept <= st.now
    && cfg.start + st.slept <= cfg.deadline
    && st.auth <= cfg.maxAuth
    && st.connection <= cfg.maxConnection
  }

  lemma StepWithinBudgets(cfg: Config, st: State, poll: Poll)
    requires WithinBudgets(cfg, st) && poll.took >= 0.0 && poll.overslept >= 0.0
    requires cfg.pollInterval >= 0.0 && cfg.recoveryInterval >= 0.0
    ensures WithinBudgets(cfg, Step(cfg, st, poll).st)
  {
  }

  lemma {:induction false} RunWithinBudgets(cfg: Config, st: State, trace: seq<Poll>)
    requires WithinBudgets(cfg, st) && Forward(trace) && cfg.pollInterval >= 0.0 && cfg.recoveryInterval >= 0.0
    ensures WithinBudgets(cfg, Run(cfg, st, trace).st)
    decreases |trace|
  {
    if st.now < cfg.deadline && trace != [] {
      StepWithinBudgets(cfg, st, trace[0]);
      var next := Step(cfg, st, trace[0]);
      assert forall k :: 0 <= k < |trace| - 1 ==> trace[1..][k] == trace[k + 1];
      if next.Continue? { RunWithinBudgets(cfg, next.st, trace[1..]); }
    }
  }

  /** Over every trace: the requested sleeps, the initial one included, never total more than the timeout, and
      there are never more Basic reauthentications than allowed. */
  lemma BudgetsKept(op: Operation, limits: Limits, start: real, overslept: real, trace: seq<Poll>)
    requires limits.timeout >= 0.0 && limits.pollInterval >= 0.0 && limits.recoveryInterval >= 0.0
    requires overslept >= 0.0 && Forward(trace)
    ensures var st := Wait(op, limits, start, overslept, trace).st;
            0.0 <= st.slept <= limits.timeout && st.auth <= limits.maxAuth
  {
    if IsAsynchronous(op) {
      var cfg := ConfigOf(op, limits, start);
      var st := FirstState(op, cfg);
      assert WithinBudgets(cfg, st);
      if op.retryAfter.None? {
        RunWithinBudgets(cfg, st, trace);
      } else {
        var first := Sleep(cfg, st, Clip(op.retryAfter.value), overslept);
        assert WithinBudgets(cfg, first.st);
        if first.Continue? { RunWithinBudgets(cfg, first.st, trace); }
      }
    }
  }

  /** Connection failures since the last response other than 401 or 403. */
  function FailuresSince(trace: seq<Poll>): nat {
    if trace == [] then 0
    else
      var front, last := trace[..|trace| - 1], trace[|trace| - 1];
      match last.get
      case NoConnection => FailuresSince(front) + 1
      case Answered(answer) => if answer.code == 401 || answer.code == 403 then FailuresSince(front) else 0
      case _ => 0
  }

  lemma {:induction false} ConnectionCounts(cfg: Config, st0: State, trace: seq<Poll>, k: nat, st: State)
    requires st0.connection == 0 && Reaches(cfg, st0, trace, k, st)
    ensures st.connection == FailuresSince(trace[..k])
    decreases k
  {
    if k > 0 {
      var before := LastStep(cfg, st0, trace, k, st);
      ConnectionCounts(cfg, st0, trace, k - 1, before);
      assert trace[..k][..k - 1] == trace[..k - 1] && trace[..k][|trace[..k]| - 1] == trace[k - 1];
    }
  }

  /** The reconnection error is raised exactly at a connection failure that follows `maxConnection` others with
      no response other than 401 or 403 in between. */
  lemma ReconnectExactly(cfg: Config, st0: State, trace: seq<Poll>)
    requires st0.connection == 0
    ensures (exists n :: Run(cfg, st0, trace).Done? && Run(cfg, st0, trace).result == Failed(CannotReconnect(n)))
            <==> (exists k: nat, st: State ::
                    k < |trace| && Reaches(cfg, st0, trace, k, st) && trace[k].get.NoConnection?
                    && FailuresSince(trace[..k]) >= cfg.maxConnection)
  {
    if exists n :: Run(cfg, st0, trace).Done? && Run(cfg, st0, trace).result == Failed(CannotReconnect(n)) {
      var k, st := EndsInStep(cfg, st0, trace);
      ConnectionCounts(cfg, st0, trace, k, st);
      assert trace[k].get.NoConnection?;
    }
    if exists k: nat, st: State :: k < |trace| && Reaches(cfg, st0, trace, k, st) && trace[k].get.NoConnection?
         && FailuresSince(trace[..k]) >= cfg.maxConnection {
      var k: nat, st: State :| k < |trace| && Reaches(cfg, st0, trace, k, st) && trace[k].get.NoConnection?
        && FailuresSince(trace[..k]) >= cfg.maxConnection;
      ConnectionCounts(cfg, st0, trace, k, st);
      RunSplit(cfg, st0, trace, k);
      GoesOn(cfg, st0, trace[..k], st);
      assert trace[k..][0] == trace[k];
      assert Run(cfg, st0, trace).result == Failed(CannotReconnect(st.connection));
    }
  }

  // ----- how often the monitor is asked -----

  /** The wait asks for a pause after this poll, unless it runs out of time. */
  predicate Sleeps(cfg: Config, poll: Poll) {
    match poll.get
    case NoConnection => true
    case Answered(answer) =>
      if cfg.isTaskResource && answer.code == 200 then
        answer.body.HasTask? && answer.body.task.state != "Completed" && answer.body.task.state !in FAILED_STATES
      else answer.code == 202 && !answer.body.BadTask?
    case _ => false
  }

  /** Every pause that is asked for is at least `d`. */
  ghost predicate DelaysAtLeast(cfg: Config, trace: seq<Poll>, d: real) {
    forall k :: 0 <= k < |trace| && Sleeps(cfg, trace[k]) ==> Pause(cfg, trace[k]) >= d
  }

  /** Every monitor GET but reauthentications, and but one if the wait is over, has been paid for by a pause. */
  ghost predicate Paid(out: Outcome, d: real) {
    (out.st.gets as real - out.st.auth as real) * d <= out.st.slept + (if out.Done? then d else 0.0)
  }

  lemma StepEffect(cfg: Config, st: State, poll: Poll, d: real)
    requires Sleeps(cfg, poll) ==> Pause(cfg, poll) >= d
    ensures var next := Step(cfg, st, poll);
            && next.st.gets == st.gets + 1
            && if next.Done? then next.st.auth == st.auth && next.st.slept == st.slept
               else (next.st.auth == st.auth + 1 && next.st.slept == st.slept)
                    || (next.st.auth == st.auth && next.st.slept >= st.slept + d)
  {
  }

  lemma OnePoll(cfg: Config, st: State, poll: Poll, d: real)
    requires Sleeps(cfg, poll) ==> Pause(cfg, poll) >= d
    requires Paid(Continue(st), d)
    ensures Paid(Step(cfg, st, poll), d)
  {
    hide Step;
    StepEffect(cfg, st, poll, d);
    var next := Step(cfg, st, poll);
    var x, y := st.gets as real - st.auth as real, next.st.gets as real - next.st.auth as real;
    assert y == x || y == x + 1.0;
    assert (x + 1.0) * d == x * d + d;
  }

  lemma PaidAtDeadline(st: State, d: real)
    requires Paid(Continue(st), d) && d > 0.0
    ensures Paid(Done(Failed(TimedOut), st), d)
  {
  }

  lemma {:induction false} GetsBounded(cfg: Config, st: State, trace: seq<Poll>, d: real)
    requires d > 0.0 && DelaysAtLeast(cfg, trace, d) && Paid(Continue(st), d)
    ensures Paid(Run(cfg, st, trace), d)
    decreases |trace|
  {
    hide Paid, Step;
    if !(st.now < cfg.deadline) {
      PaidAtDeadline(st, d);
    } else if trace != [] {
      OnePoll(cfg, st, trace[0], d);
      var next := Step(cfg, st, trace[0]);
      assert forall k :: 0 <= k < |trace| - 1 ==> trace[1..][k] == trace[k + 1];
      if next.Continue? { GetsBounded(cfg, next.st, trace[1..], d); }
    }
  }

  lemma PaidBound(out: Outcome, d: real, maxAuth: nat, timeout: real)
    requires d > 0.0 && Paid(out, d) && out.st.auth <= maxAuth && out.st.slept <= timeout
    ensures (out.st.gets as real) * d <= (1.0 + maxAuth as real) * d + timeout
  {
    var st := out.st;
    assert (st.gets as real - st.auth as real) * d == st.gets as real * d - st.auth as real * d;
    assert st.auth as real * d <= maxAuth as real * d;
    assert (1.0 + maxAuth as real) * d == d + maxAuth as real * d;
  }

  lemma NothingAskedYet(out: Outcome, d: real)
    requires out.st.gets == 0 && out.st.auth == 0 && out.st.slept >= 0.0 && d > 0.0
    ensures Paid(out, d)
  {
  }

  /** With every pause that is asked for at least d > 0 there are at most 1 + maxAuth + timeout / d monitor GETs. */
  lemma MonitorGets(op: Operation, limits: Limits, start: real, overslept: real, trace: seq<Poll>, d: real)
    requires IsAsynchronous(op) && limits.timeout >= 0.0 && limits.pollInterval >= 0.0 && limits.recoveryInterval >= 0.0
    requires overslept >= 0.0 && Forward(trace) && d > 0.0
    requires DelaysAtLeast(ConfigOf(op, limits, start), trace, d)
    ensures (Wait(op, limits, start, overslept, trace).st.gets as real) * d <= (1.0 + limits.maxAuth as real) * d +
        limits.timeout
  {
    hide Run, Paid, DelaysAtLeast;
    BudgetsKept(op, limits, start, overslept, trace);
    var cfg := ConfigOf(op, limits, start);
    var st0 := FirstState(op, cfg);
    var first := if op.retryAfter.None? then Continue(st0) else Sleep(cfg, st0, Clip(op.retryAfter.value), overslept);
    NothingAskedYet(first, d);
    if first.Continue? { GetsBounded(cfg, first.st, trace, d); }
    PaidBound(Wait(op, limits, start, overslept, trace), d, limits.maxAuth, limits.timeout);
  }

  /** Without such a lower bound the deadline limits nothing: a service that answers 202 with Retry-After 0, as
      fast as the clock can tell, is asked any number of times. */
  const BUSY: Poll := Poll(Answered(Answer(202, Some(0.0), NoTask)), false, OtherError, 0.0, 0.0)

  function Busy(n: nat): seq<Poll> {
    if n == 0 then [] else [BUSY] + Busy(n - 1)
  }

  lemma {:induction false} BusyServicePolledForEver(cfg: Config, st: State, n: nat)
    requires st.now < cfg.deadline && st.connection == 0
    ensures Run(cfg, st, Busy(n)) == Continue(st.(gets := st.gets + n))
    decreases n
  {
    if n > 0 {
      assert Step(cfg, st, BUSY) == Continue(st.(gets := st.gets + 1));
      assert Busy(n)[1..] == Busy(n - 1);
      BusyServicePolledForEver(cfg, st.(gets := st.gets + 1), n - 1);
    }
  }

  /** The time left for polling after the initial delay. */
  function TimeLeft(op: Operation, limits: Limits): real {
    limits.timeout - (if op.retryAfter.Some? then Clip(op.retryAfter.value) else 0.0)
  }

  /** However the service answers and the clock runs, with pauses of at least `d` there are at most `n` GETs. */
  ghost predicate GetsAtMost(op: Operation, limits: Limits, start: real, d: real, n: nat)
    requires IsAsynchronous(op)
  {
    forall overslept: real, trace ::
      overslept >= 0.0 && Forward(trace) && DelaysAtLeast(ConfigOf(op, limits, start), trace, d) ==>
        Wait(op, limits, start, overslept, trace).st.gets <= n
  }

  /** The number of monitor GETs is bounded exactly if the pauses have a positive lower bound, or no time is left
      to begin with. */
  lemma PollsBoundedExactly(op: Operation, limits: Limits, start: real, d: real)
    requires IsAsynchronous(op) && limits.timeout >= 0.0 && limits.pollInterval >= 0.0 &&
        limits.recoveryInterval >= 0.0 && d >= 0.0
    ensures (exists n: nat :: GetsAtMost(op, limits, start, d, n)) <==> d > 0.0 || TimeLeft(op, limits) <= 0.0
  {
    if d > 0.0 {
      var x := ((1.0 + limits.maxAuth as real) * d + limits.timeout) / d;
      var n: nat := x.Floor;
      forall overslept: real, trace | overslept >= 0.0 && Forward(trace) &&
          DelaysAtLeast(ConfigOf(op, limits, start), trace, d)
        ensures Wait(op, limits, start, overslept, trace).st.gets <= n
      {
        MonitorGets(op, limits, start, overslept, trace, d);
        BelowFloor(Wait(op, limits, start, overslept, trace).st.gets,
            (1.0 + limits.maxAuth as real) * d + limits.timeout, d);
      }
      assert GetsAtMost(op, limits, start, d, n);
    } else if TimeLeft(op, limits) <= 0.0 {
      forall overslept: real, trace | overslept >= 0.0 ensures Wait(op, limits, start, overslept, trace).st.gets <= 0 {
        NoTimeLeft(op, limits, start, overslept, trace);
      }
      assert GetsAtMost(op, limits, start, d, 0);
    } else {
      forall n: nat ensures !GetsAtMost(op, limits, start, d, n) {
        BusyIsUnbounded(op, limits, start, n + 1);
      }
    }
  }

  lemma BelowFloor(gets: nat, total: real, d: real)
    requires d > 0.0 && gets as real * d <= total
    ensures gets <= (total / d).Floor
  {
    assert total / d * d == total;
    Scaled(gets as real, total / d, d);
  }

  lemma Scaled(x: real, y: real, d: real)
    requires d > 0.0
    ensures x > y ==> x * d > y * d
  {
  }

  lemma NoTimeLeft(op: Operation, limits: Limits, start: real, overslept: real, trace: seq<Poll>)
    requires IsAsynchronous(op) && TimeLeft(op, limits) <= 0.0 && overslept >= 0.0
    ensures Wait(op, limits, start, overslept, trace).st.gets == 0
  {
  }

  lemma {:induction false} BusyTrace(cfg: Config, n: nat)
    ensures |Busy(n)| == n && Forward(Busy(n)) && DelaysAtLeast(cfg, Busy(n), 0.0)
  {
    if n > 0 {
      BusyTrace(cfg, n - 1);
      assert forall k :: 1 <= k < n ==> Busy(n)[k] == Busy(n - 1)[k - 1];
      assert Pause(cfg, BUSY) == 0.0;
    }
  }

  lemma BusyIsUnbounded(op: Operation, limits: Limits, start: real, n: nat)
    requires IsAsynchronous(op) && TimeLeft(op, limits) > 0.0
    ensures Forward(Busy(n)) && DelaysAtLeast(ConfigOf(op, limits, start), Busy(n), 0.0)
    ensures Wait(op, limits, start, 0.0, Busy(n)).st.gets == n
  {
    var cfg := ConfigOf(op, limits, start);
    BusyTrace(cfg, n);
    var st := FirstState(op, cfg);
    var first := if op.retryAfter.None? then st else Sleep(cfg, st, Clip(op.retryAfter.value), 0.0).st;
    BusyServicePolledForEver(cfg, first, n);
  }

  // ----- the announced offline time -----

  lemma {:induction false} FirstNumberExactly(args: seq<Option<real>>)
    ensures FirstNumber(args).None? <==> forall i :: 0 <= i < |args| ==> args[i].None?
    ensures FirstNumber(args).Some? ==> exists i :: FirstAt(args, i) && FirstNumber(args) == Some(Clip(args[i].value))
  {
    if args != [] {
      var tail := args[1..];
      FirstNumberExactly(tail);
      assert forall i :: 1 <= i < |args| ==> args[i] == tail[i - 1];
      if args[0].Some? {
        assert FirstAt(args, 0);
      } else if FirstNumber(tail).Some? {
        var i :| FirstAt(tail, i) && FirstNumber(tail) == Some(Clip(tail[i].value));
        assert FirstAt(args, i + 1);
      }
    }
  }

  /** The argument at `i` is the first number. */
  ghost predicate FirstAt(args: seq<Option<real>>, i: int) {
    0 <= i < |args| && args[i].Some? && forall j :: 0 <= j < i ==> args[j].None?
  }

  /** The argument at `i` may hold the offline time: the first one does only if it is the only one. */
  predicate MayHoldTime(m: Message, i: int) {
    m.goingOffline && (if |m.args| > 1 then 1 else 0) <= i < |m.args|
  }

  ghost predicate Announces(m: Message) {
    exists i :: MayHoldTime(m, i) && m.args[i].Some?
  }

  /** The message at `k` is the first that announces a time, and its argument at `i` is the first that does. */
  ghost predicate Decides(messages: seq<Message>, k: int, i: int) {
    && 0 <= k < |messages| && MayHoldTime(messages[k], i) && messages[k].args[i].Some?
    && (forall j :: MayHoldTime(messages[k], j) && j < i ==> messages[k].args[j].None?)
    && forall j :: 0 <= j < k ==> !Announces(messages[j])
  }

  /** What one message announces, and where. */
  lemma MessageExactly(m: Message)
    ensures FirstNumber(TimeArgs(m)).None? <==> !Announces(m)
    ensures FirstNumber(TimeArgs(m)).Some? ==>
              exists i :: Decides([m], 0, i) && FirstNumber(TimeArgs(m)) == Some(Clip(m.args[i].value))
  {
    var args := TimeArgs(m);
    var first := if |m.args| > 1 then 1 else 0;
    FirstNumberExactly(args);
    assert m.goingOffline ==> forall i :: 0 <= i < |args| ==> args[i] == m.args[i + first];
    if Announces(m) {
      var i :| MayHoldTime(m, i) && m.args[i].Some?;
      assert args[i - first] == m.args[i];
    }
    if FirstNumber(args).Some? {
      var i :| FirstAt(args, i) && FirstNumber(args) == Some(Clip(args[i].value));
      forall j | MayHoldTime(m, j) && j < i + first ensures m.args[j].None? { assert args[j - first] == m.args[j]; }
      assert Decides([m], 0, i + first);
    }
  }

  lemma DecidesLater(messages: seq<Message>, k: int, i: int)
    requires messages != [] && !Announces(messages[0]) && Decides(messages[1..], k, i)
    ensures Decides(messages, k + 1, i)
  {
    forall j | 0 <= j < k + 1 ensures !Announces(messages[j]) {
      if j > 0 { assert messages[j] == messages[1..][j - 1]; }
    }
  }

  /** No time is announced exactly if no message announces one; otherwise the first number of the first message
      that does decides, and a negative one counts as zero. */
  lemma {:induction false} OfflineDelayExactly(messages: seq<Message>)
    ensures OfflineDelay(messages).None? <==> forall k :: 0 <= k < |messages| ==> !Announces(messages[k])
    ensures OfflineDelay(messages).Some? ==>
              exists k, i :: Decides(messages, k, i) && OfflineDelay(messages) ==
                Some(if messages[k].args[i].value < 0.0 then 0.0 else messages[k].args[i].value)
  {
    if messages != [] {
      hide Announces, TimeArgs, FirstNumber;
      var tail := messages[1..];
      OfflineDelayExactly(tail);
      MessageExactly(messages[0]);
      assert forall k :: 1 <= k < |messages| ==> messages[k] == tail[k - 1];
      if FirstNumber(TimeArgs(messages[0])).Some? {
        var i :| Decides([messages[0]], 0, i)
          && FirstNumber(TimeArgs(messages[0])) == Some(Clip(messages[0].args[i].value));
        assert Decides(messages, 0, i);
      } else if OfflineDelay(tail).Some? {
        var k, i :| Decides(tail, k, i) && OfflineDelay(tail) ==
          Some(if tail[k].args[i].value < 0.0 then 0.0 else tail[k].args[i].value);
        DecidesLater(messages, k, i);
      }
    }
  }

  // ----- one poll in plain words -----

  /** What the pause after an answer is taken from: Retry-After, a negative one counting as zero, else the offline
      time announced, else the poll interval. */
  ghost predicate PausesFor(cfg: Config, answer: Answer, x: real) {
    if answer.retryAfter.Some? then
      x == if answer.retryAfter.value < 0.0 then 0.0 else answer.retryAfter.value
    else if answer.body.HasTask? && OfflineDelay(answer.body.task.messages).Some? then
      x == OfflineDelay(answer.body.task.messages).value
    else x == cfg.pollInterval
  }

  ghost predicate Ended(state: string) {
    state == "Completed" || state == "Exception" || state == "Killed" || state == "Cancelled"
  }

  /** After this poll the wait asks for a pause of `x`: a lost connection within the budget, a 202, or a Task resource
      that is still running. */
  ghost predicate AsksFor(cfg: Config, st: State, poll: Poll, x: real) {
    match poll.get
    case NoConnection => st.connection < cfg.maxConnection && x == cfg.recoveryInterval
    case Answered(answer) =>
      && PausesFor(cfg, answer, x)
      && if answer.code == 200 then
           cfg.isTaskResource && answer.body.HasTask? && !Ended(answer.body.task.state)
         else answer.code == 202 && !answer.body.BadTask?
    case _ => false
  }

  /** The pause is slept if it fits into the time left, and otherwise the wait times out. */
  lemma PauseExactly(cfg: Config, st: State, poll: Poll, x: real)
    requires AsksFor(cfg, st, poll, x)
    ensures var left := cfg.deadline - (st.now + poll.took);
            if left <= 0.0 || x > left then
              Step(cfg, st, poll).Done? && Step(cfg, st, poll).result == Failed(TimedOut)
            else
              && Step(cfg, st, poll).Continue?
              && Step(cfg, st, poll).st.slept == st.slept + x
              && Step(cfg, st, poll).st.now == st.now + poll.took + x + poll.overslept
  {
    hide OfflineDelay;
  }

  /** The wait goes on only after such a pause or after a reauthentication, which takes no pause. */
  lemma GoesOnExactly(cfg: Config, st: State, poll: Poll)
    requires Step(cfg, st, poll).Continue?
    ensures (exists x :: AsksFor(cfg, st, poll, x))
            || (&& poll.get.Answered? && (poll.get.answer.code == 401 || poll.get.answer.code == 403)
                && !poll.session && st.auth < cfg.maxAuth
                && Step(cfg, st, poll).st.slept == st.slept && Step(cfg, st, poll).st.auth == st.auth + 1)
  {
    hide OfflineDelay;
    match poll.get
    case NoConnection => assert AsksFor(cfg, st, poll, cfg.recoveryInterval);
    case Answered(answer) =>
      if answer.code == 200 || answer.code == 202 {
        assert PausesFor(cfg, answer, Delay(cfg, answer));
        assert AsksFor(cfg, st, poll, Delay(cfg, answer));
      }
    case _ =>
  }

  /** How a wait fails, by what the poll met. */
  lemma FailsAs(cfg: Config, st: State, poll: Poll)
    ensures var step := Step(cfg, st, poll);
            && (poll.get.NoConnection? && st.connection >= cfg.maxConnection ==>
                  step.Done? && step.result == Failed(CannotReconnect(st.connection)))
            && (poll.get.RefreshFailed? ==> step.Done? && step.result == Failed(SessionRefreshFailed))
            && (poll.get.OtherError? ==> step.Done? && step.result == Failed(Propagated))
            && (poll.get.Answered? ==>
                  var answer := poll.get.answer;
                  && (answer.code == 401 || answer.code == 403 ==>
                        && (poll.session ==> step.Done? && step.result == Failed(StillUnauthorized(answer.code)))
                        && (!poll.session && st.auth >= cfg.maxAuth ==>
                              step.Done? && step.result == Failed(ReauthenticationExhausted(st.auth))))
                  && (cfg.isTaskResource && answer.code == 200 && answer.body.HasTask?
                      && answer.body.task.state in {"Exception", "Killed", "Cancelled"} ==>
                        step.Done? && step.result == Failed(TaskFailed(answer.body.task.state)))
                  && ((cfg.isTaskResource && answer.code == 200 && !answer.body.HasTask?)
                      || (answer.code == 202 && answer.body.BadTask?) ==>
                        step.Done? && step.result == Failed(BodyInvalid))
                  && ((answer.code < 200 || answer.code >= 300) && answer.code !in {401, 403, 404, 410} ==>
                        step.Done? && step.result == Failed(HttpFailure(answer.code))))
  {
  }

  /** A vanished monitor: without a Task URI, or if the Task is not in a final state, the wait fails as gone; an error
      status of the Task resource, and a final state other than Completed, are reported. */
  lemma VanishedFailsAs(cfg: Config, st: State, poll: Poll)
    requires poll.get.Answered? && (poll.get.answer.code == 404 || poll.get.answer.code == 410)
    ensures var step := Step(cfg, st, poll);
            && step.Done?
            && (st.taskUri.None? ==> step.result == Failed(MonitorGone))
            && (st.taskUri.Some? && !poll.verify.Answered? ==> step.result == Failed(Propagated))
            && (st.taskUri.Some? && poll.verify.Answered? ==>
                  var answer := poll.verify.answer;
                  && (answer.code != 200 ==> step.result == Failed(VerificationFailed(answer.code)))
                  && (answer.code == 200 && !answer.body.HasTask? ==> step.result == Failed(BodyInvalid))
                  && (answer.code == 200 && answer.body.HasTask? ==>
                        var state := answer.body.task.state;
                        step.result ==
                        if state == "Completed" then Completed(Some(answer.body.task), st.taskUri, true)
                        else if state in {"Exception", "Killed", "Cancelled"} then Failed(TaskFailed(state))
                        else Failed(MonitorGone)))
  {
  }

  /** How often the service has answered 401 or 403. */
  function Refusals(trace: seq<Poll>): nat {
    if trace == [] then 0
    else Refusals(trace[..|trace| - 1]) + (if Refused(trace[|trace| - 1]) then 1 else 0)
  }

  predicate Refused(poll: Poll) {
    poll.get.Answered? && (poll.get.answer.code == 401 || poll.get.answer.code == 403)
  }

  lemma RefusalCounted(cfg: Config, st: State, poll: Poll)
    requires Step(cfg, st, poll).Continue?
    ensures Step(cfg, st, poll).st.auth == st.auth + (if Refused(poll) then 1 else 0)
  {
  }

  lemma {:induction false} RefusalsCounted(cfg: Config, st0: State, trace: seq<Poll>, k: nat, st: State)
    requires st0.auth == 0 && Reaches(cfg, st0, trace, k, st)
    ensures st.auth == Refusals(trace[..k])
    decreases k
  {
    hide Step;
    if k > 0 {
      var before := LastStep(cfg, st0, trace, k, st);
      RefusalsCounted(cfg, st0, trace, k - 1, before);
      RefusalCounted(cfg, before, trace[k - 1]);
      assert trace[..k][..k - 1] == trace[..k - 1] && trace[..k][|trace[..k]| - 1] == trace[k - 1];
    }
  }

  /** Reauthentication is given up exactly at a 401 or 403 in Basic mode that follows `maxAuth` others, however many
      other answers came between. */
  lemma ReauthenticationExactly(cfg: Config, st0: State, trace: seq<Poll>)
    requires st0.auth == 0
    ensures (exists n ::
               Run(cfg, st0, trace).Done? && Run(cfg, st0, trace).result == Failed(ReauthenticationExhausted(n)))
            <==> (exists k: nat, st: State ::
                    k < |trace| && Reaches(cfg, st0, trace, k, st) && Refused(trace[k]) && !trace[k].session
                    && Refusals(trace[..k]) >= cfg.maxAuth)
  {
    if exists n :: Run(cfg, st0, trace).Done? && Run(cfg, st0, trace).result == Failed(ReauthenticationExhausted(n)) {
      var k, st := EndsInStep(cfg, st0, trace);
      RefusalsCounted(cfg, st0, trace, k, st);
      ExhaustedOnly(cfg, st, trace[k]);
    }
    if exists k: nat, st: State :: k < |trace| && Reaches(cfg, st0, trace, k, st) && Refused(trace[k])
                                   && !trace[k].session && Refusals(trace[..k]) >= cfg.maxAuth {
      var k: nat, st: State :| k < |trace| && Reaches(cfg, st0, trace, k, st) && Refused(trace[k])
        && !trace[k].session && Refusals(trace[..k]) >= cfg.maxAuth;
      RefusalsCounted(cfg, st0, trace, k, st);
      RunSplit(cfg, st0, trace, k);
      GoesOn(cfg, st0, trace[..k], st);
      assert trace[k..][0] == trace[k];
      FailsAs(cfg, st, trace[k]);
      assert Run(cfg, st0, trace).result == Failed(ReauthenticationExhausted(st.auth));
    }
  }

  lemma ExhaustedOnly(cfg: Config, st: State, poll: Poll)
    requires Step(cfg, st, poll).Done? && Step(cfg, st, poll).result.Failed?
    requires Step(cfg, st, poll).result.error.ReauthenticationExhausted?
    ensures Refused(poll) && !poll.session && st.auth >= cfg.maxAuth
  {
  }

  // ----- how a wait starts -----

  /** Only a 202 with a monitor can be waited for; the deadline is the timeout from the start; and the Task URI is the
      operation's, else its resource's, else a monitor that is itself a Task resource. */
  lemma StartsExactly(op: Operation, limits: Limits, start: real, overslept: real, trace: seq<Poll>)
    ensures IsAsynchronous(op) <==> op.httpStatus == 202 && op.monitor.Some? && op.monitor.value != ""
    ensures !IsAsynchronous(op) ==>
              && Wait(op, limits, start, overslept, trace).Done?
              && Wait(op, limits, start, overslept, trace).result == Failed(NotAsynchronous)
    ensures IsAsynchronous(op) ==>
              var cfg := ConfigOf(op, limits, start);
              && cfg.start == start && cfg.deadline == start + limits.timeout && cfg.pollInterval == limits.pollInterval
              && cfg.maxConnection == limits.maxConnection && cfg.maxAuth == limits.maxAuth
              && cfg.recoveryInterval == limits.recoveryInterval
              && FirstState(op, cfg).taskUri ==
                 if op.taskUri.Some? && op.taskUri.value != "" then op.taskUri
                 else if op.odataId.Some? && op.odataId.value != "" then op.odataId
                 else if cfg.isTaskResource then op.monitor else None
  {
  }

  /** The initial Retry-After is slept before the first poll, or is too long for the timeout. */
  lemma InitialDelayExactly(op: Operation, limits: Limits, start: real, overslept: real, trace: seq<Poll>)
    requires IsAsynchronous(op) && op.retryAfter.Some?
    ensures var x := if op.retryAfter.value < 0.0 then 0.0 else op.retryAfter.value;
            var cfg := ConfigOf(op, limits, start);
            var out := Wait(op, limits, start, overslept, trace);
            if limits.timeout <= 0.0 || x > limits.timeout then
              out.Done? && out.result == Failed(TimedOut) && out.st.gets == 0
            else out == Run(cfg, FirstState(op, cfg).(now := start + x + overslept, slept := x), trace)
  {
  }

  ghost predicate Within(s: string, part: string) {
    exists a: string, b: string :: s == a + part + b
  }

  lemma {:induction false} ContainsExactly(s: string, part: string)
    ensures Contains(s, part) <==> Within(s, part)
  {
    if part <= s {
      assert s == "" + part + s[|part|..];
    } else {
      if s != "" {
        ContainsExactly(s[1..], part);
        if Within(s[1..], part) {
          var a, b :| s[1..] == a + part + b;
          assert s == ([s[0]] + a) + part + b;
        }
      }
      if Within(s, part) {
        var a, b :| s == a + part + b;
        if a == "" { StartsWith(part, b); } else { assert s[1..] == a[1..] + part + b; }
      }
    }
  }

  lemma StartsWith(part: string, b: string)
    ensures part <= "" + part + b
  {
  }

  /** A monitor is a Task resource exactly if it is the Task URI up to trailing slashes, or its path, without query
      and trailing slashes, lies under /TaskService/Tasks/ and not under /TaskMonitors/. */
  lemma TaskResourceExactly(location: string, taskUri: Option<string>)
    ensures IsTaskResourceUri(location, taskUri) <==>
            || (taskUri.Some? && taskUri.value != "" && StripSlashes(location) == StripSlashes(taskUri.value))
            || (&& Within(StripSlashes(BeforeQuery(location)), "/TaskService/Tasks/")
                && !Within(StripSlashes(BeforeQuery(location)), "/TaskMonitors/"))
  {
    ContainsExactly(StripSlashes(BeforeQuery(location)), "/TaskService/Tasks/");
    ContainsExactly(StripSlashes(BeforeQuery(location)), "/TaskMonitors/");
  }
}
