/** Waiting for a ZTE diagnostic dump on a progress endpoint that may still show the previous run. */
module ZteProgress {
  import opened Wrappers

  datatype Progress = Progress(state: string, percentage: Option<string>, tarPath: Option<string>,
      kind: Option<string>, message: Option<string>)

  /** `newTrigger`: this wait follows a new trigger; `previousTar` is the valid TarPath seen just before it, if any. */
  datatype DumpTask = DumpTask(newTrigger: bool, previousTar: Option<string>)

  datatype Outcome =
    | Completed(tarPath: Option<string>, kind: string)
    | CollectFailed(state: string)
    | TimedOut(lastState: Option<string>)
    | FetchFailed

  const DONE_STATES: set<string> := {"STATE_COMPLETED", "STATE_SUCCESS", "STATE_SUCCESSED", "STATE_FINISH"}
  const FAIL_STATES: set<string> := {"STATE_FAILED", "STATE_ERROR"}

  predicate IsDone(p: Progress) {
    p.state in DONE_STATES || p.percentage == Some("100")
  }

  predicate IsFailure(p: Progress) {
    p.state in FAIL_STATES
  }

  /** Neither done nor failed: the new run has been seen. */
  predicate InProgress(p: Progress) {
    !IsDone(p) && !IsFailure(p)
  }

  /** The latest non-empty TarPath of the readings 0..n-1. */
  function LatestTar(readings: nat -> Progress, n: nat): (tar: Option<string>)
    ensures tar != Some("")
  {
    if n == 0 then None
    else if NonEmpty(readings(n - 1).tarPath).Some? then readings(n - 1).tarPath
    else LatestTar(readings, n - 1)
  }

  /** A terminal reading `i` after a trigger is not the old run's: without a captured path it is not the first
      reading, and with one the path has changed or the new run was seen before. */
  ghost predicate Evidence(task: DumpTask, readings: nat -> Progress, i: nat) {
    if task.previousTar.None? then i > 0
    else LatestTar(readings, i + 1) != task.previousTar || exists j: nat :: j < i && InProgress(readings(j))
  }

  /** Reading `i` ends the wait successfully. */
  ghost predicate Accepted(task: DumpTask, readings: nat -> Progress, i: nat) {
    IsDone(readings(i)) && (task.newTrigger ==> Evidence(task, readings, i))
  }

  ghost predicate Rejected(task: DumpTask, readings: nat -> Progress, i: nat) {
    !Accepted(task, readings, i) && IsFailure(readings(i)) && i > 0
  }

  ghost predicate Undecided(task: DumpTask, readings: nat -> Progress, fails: nat -> bool, i: nat) {
    !fails(i) && !Accepted(task, readings, i) && !Rejected(task, readings, i)
  }

  function KindOf(p: Progress): string {
    if NonEmpty(p.kind).Some? then p.kind.value else "AllLogs"
  }

  function Max(a: int, b: int): int {
    if a > b then a else b
  }

  function CeilDiv(a: int, b: int): int
    requires b > 0
  {
    if a <= 0 then 0 else (a - 1) / b + 1
  }

  /** `polls` readings were made: every one but the last decided nothing, and the outcome says what the last one
      was; the time ran out only after as many readings as fit into it. */
  ghost predicate Ends(
    task: DumpTask, pollInterval: int, timeout: int, readings: nat -> Progress, fails: nat -> bool, polls: nat,
    outcome: Outcome)
  {
    && polls <= CeilDiv(timeout, Max(pollInterval, 1))
    && (outcome.TimedOut? ==> polls == CeilDiv(timeout, Max(pollInterval, 1)))
    && (forall i :: 0 <= i < polls - 1 ==> Undecided(task, readings, fails, i))
    && if polls == 0 then outcome == TimedOut(None)
       else match outcome
            case Completed(tarPath, _) =>
              !fails(polls - 1) && Accepted(task, readings, polls - 1) && tarPath == LatestTar(readings, polls)
            case CollectFailed(state) =>
              !fails(polls - 1) && Rejected(task, readings, polls - 1) && state == readings(polls - 1).state
            case FetchFailed => fails(polls - 1)
            case TimedOut(last) =>
              Undecided(task, readings, fails, polls - 1) && last == Some(readings(polls - 1).state)
  }

  /** The number of readings made, the outcome and the recorded history. `readings(i)` is the i-th answer, and
      `fails(i)` says that the i-th request raises instead. */
  method WaitUntilReady(task: DumpTask, pollInterval: int, timeout: int, readings: nat -> Progress, fails: nat -> bool)
    returns (outcome: Outcome, polls: nat, history: seq<Progress>)
    ensures Ends(task, pollInterval, timeout, readings, fails, polls, outcome)
    ensures outcome.Completed? && polls > 0 ==> outcome.kind == KindOf(readings(polls - 1))
    ensures |history| == if outcome.FetchFailed? then polls - 1 else polls
    ensures forall i :: 0 <= i < |history| ==> history[i] == readings(i)
  {
    var step := Max(pollInterval, 1);
    var elapsed, iteration: nat, observedNewRun := 0, 0, false;
    var tarPath: Option<string> := None;
    polls, history := 0, [];
    while elapsed < timeout
      invariant elapsed == iteration * step && polls == iteration == |history|
      invariant iteration == 0 || (iteration - 1) * step < timeout
      invariant tarPath == LatestTar(readings, iteration)
      invariant observedNewRun <==> exists j: nat :: j < iteration && InProgress(readings(j))
      invariant forall i :: 0 <= i < |history| ==> history[i] == readings(i)
      invariant forall i :: 0 <= i < iteration ==> Undecided(task, readings, fails, i)
      decreases timeout - elapsed
    {
      polls := polls + 1;
      PollsSoFar(iteration, step, timeout);
      if fails(iteration) { return FetchFailed, polls, history; }
      var prog := readings(iteration);
      if prog.tarPath.Some? && prog.tarPath.value != "" { tarPath := prog.tarPath; }
      history := history + [prog];
      if InProgress(prog) { observedNewRun := true; }
      if IsDone(prog) {
        var stale := task.newTrigger && !observedNewRun && NonEmpty(task.previousTar).Some? &&
            tarPath == task.previousTar;
        if !(stale || (task.newTrigger && task.previousTar.None? && iteration == 0)) {
          return Completed(tarPath, KindOf(prog)), polls, history;
        }
      }
      if IsFailure(prog) && iteration > 0 {
        return CollectFailed(prog.state), polls, history;
      }
      elapsed, iteration := elapsed + step, iteration + 1;
    }
    PollsAtEnd(iteration, step, timeout);
    return TimedOut(if history == [] then None else Some(history[|history| - 1].state)), polls, history;
  }

  lemma DivisionBounds(a: int, step: int)
    requires step > 0
    ensures forall n: int {:trigger n * step} :: n * step <= a <==> n <= a / step
  {
    var q := a / step;
    forall n: int ensures n * step <= a <==> n <= q {
      if n <= q { assert n * step <= q * step; } else { assert n * step >= (q + 1) * step; }
    }
  }

  lemma PollsSoFar(n: nat, step: int, timeout: int)
    requires step > 0 && n * step < timeout
    ensures n + 1 <= CeilDiv(timeout, step)
  {
    DivisionBounds(timeout - 1, step);
  }

  lemma PollsAtEnd(n: nat, step: int, timeout: int)
    requires step > 0 && n * step >= timeout && (n == 0 || (n - 1) * step < timeout)
    ensures n == CeilDiv(timeout, step)
  {
    if n > 0 && timeout > 0 {
      PollsSoFar(n - 1, step, timeout);
      DivisionBounds(timeout - 1, step);
    }
  }

  /** The readings alone decide how many are made and how the wait ends. */
  lemma EndsOnce(
    task: DumpTask, pollInterval: int, timeout: int, readings: nat -> Progress, fails: nat -> bool,
    m: nat, x: Outcome, n: nat, y: Outcome)
    requires Ends(task, pollInterval, timeout, readings, fails, m, x)
    requires Ends(task, pollInterval, timeout, readings, fails, n, y)
    ensures m == n
    ensures x == y || (x.Completed? && y.Completed? && x.tarPath == y.tarPath)
  {
    LastDecides(task, pollInterval, timeout, readings, fails, m, x, n, y);
    LastDecides(task, pollInterval, timeout, readings, fails, n, y, m, x);
  }

  lemma LastDecides(
    task: DumpTask, pollInterval: int, timeout: int, readings: nat -> Progress, fails: nat -> bool,
    m: nat, x: Outcome, n: nat, y: Outcome)
    requires Ends(task, pollInterval, timeout, readings, fails, m, x)
    requires Ends(task, pollInterval, timeout, readings, fails, n, y)
    ensures m >= n
  {
    if 0 < m < CeilDiv(timeout, Max(pollInterval, 1)) {
      LastIsDecided(task, pollInterval, timeout, readings, fails, m, x);
    }
  }

  lemma LastIsDecided(
    task: DumpTask, pollInterval: int, timeout: int, readings: nat -> Progress, fails: nat -> bool,
    polls: nat, outcome: Outcome)
    requires Ends(task, pollInterval, timeout, readings, fails, polls, outcome)
    requires 0 < polls < CeilDiv(timeout, Max(pollInterval, 1))
    ensures !Undecided(task, readings, fails, polls - 1)
  {
  }

  /** The wait succeeds exactly if, within the time, some reading is accepted before anything else is decided. */
  lemma CompletesExactly(
    task: DumpTask, pollInterval: int, timeout: int, readings: nat -> Progress, fails: nat -> bool,
    polls: nat, outcome: Outcome)
    requires Ends(task, pollInterval, timeout, readings, fails, polls, outcome)
    ensures outcome.Completed? <==>
            exists i: nat :: i < CeilDiv(timeout, Max(pollInterval, 1)) && FirstAccepted(task, readings, fails, i)
  {
    if outcome.Completed? {
      assert FirstAccepted(task, readings, fails, polls - 1);
    }
    if exists i: nat :: i < CeilDiv(timeout, Max(pollInterval, 1)) && FirstAccepted(task, readings, fails, i) {
      var i: nat :| i < CeilDiv(timeout, Max(pollInterval, 1)) && FirstAccepted(task, readings, fails, i);
      if 0 < polls <= i { LastIsDecided(task, pollInterval, timeout, readings, fails, polls, outcome); }
      assert !Undecided(task, readings, fails, i);
    }
  }

  ghost predicate FirstAccepted(task: DumpTask, readings: nat -> Progress, fails: nat -> bool, i: nat) {
    !fails(i) && Accepted(task, readings, i) && forall j: nat :: j < i ==> Undecided(task, readings, fails, j)
  }

  // ----- the reading taken just before the trigger -----

  /** White space as strip() sees it. */
  predicate IsBlank(c: char) {
    var n := c as int;
    || 0x09 <= n <= 0x0D || 0x1C <= n <= 0x20 || n == 0x85 || n == 0xA0 || n == 0x1680
    || 0x2000 <= n <= 0x200A || n == 0x2028 || n == 0x2029 || n == 0x202F || n == 0x205F || n == 0x3000
  }

  /** Tab to carriage return, the four separators, and the blanks of Unicode. */
  lemma BlankExactly(c: char)
    ensures IsBlank(c) <==>
            c as int in {9, 10, 11, 12, 13, 28, 29, 30, 31, 32, 133, 160, 5760, 8192, 8193, 8194, 8195, 8196, 8197,
                         8198, 8199, 8200, 8201, 8202, 8232, 8233, 8239, 8287, 12288}
  {
  }

  predicate AllBlank(s: string) {
    forall c :: c in s ==> IsBlank(c)
  }

  function Strip(s: string): string {
    if s != "" && IsBlank(s[0]) then Strip(s[1..])
    else if s != "" && IsBlank(s[|s| - 1]) then Strip(s[..|s| - 1])
    else s
  }

  /** The path a trigger remembers; `before` is None if the request for it failed. */
  function Captured(before: Option<Progress>): (tar: Option<string>)
    ensures tar != Some("")
    ensures tar.Some? ==> before.Some? && tar == before.value.tarPath
  {
    if before.Some? && before.value.tarPath.Some?
       && Strip(before.value.tarPath.value) != "" && Strip(before.value.tarPath.value) != IDLE_TAR
    then before.value.tarPath else None
  }

  const IDLE_TAR := ".tar.gz"

  /** `s` is `core` with white space around it. */
  ghost predicate Surrounds(s: string, core: string) {
    exists a, b :: AllBlank(a) && AllBlank(b) && s == a + core + b
  }

  lemma {:induction false} StripSurrounds(s: string)
    ensures Surrounds(s, Strip(s))
    decreases |s|
  {
    if s != "" && IsBlank(s[0]) {
      StripSurrounds(s[1..]);
      var a, b :| AllBlank(a) && AllBlank(b) && s[1..] == a + Strip(s) + b;
      assert AllBlank([s[0]] + a) && s == ([s[0]] + a) + Strip(s) + b;
    } else if s != "" && IsBlank(s[|s| - 1]) {
      StripSurrounds(s[..|s| - 1]);
      var a, b :| AllBlank(a) && AllBlank(b) && s[..|s| - 1] == a + Strip(s) + b;
      assert AllBlank(b + [s[|s| - 1]]) && s == a + Strip(s) + (b + [s[|s| - 1]]);
    } else {
      assert AllBlank("") && s == "" + s + "";
    }
  }

  lemma {:induction false} StripFinds(a: string, core: string, b: string)
    requires AllBlank(a) && AllBlank(b)
    requires core == "" || (!IsBlank(core[0]) && !IsBlank(core[|core| - 1]))
    ensures Strip(a + core + b) == core
    decreases |a| + |b|
  {
    var s := a + core + b;
    if a != "" {
      assert s[0] == a[0] && a[0] in a && s[1..] == a[1..] + core + b;
      StripFinds(a[1..], core, b);
    } else if b != "" {
      var last := b[|b| - 1];
      assert last in b && s[|s| - 1] == last;
      if core == "" {
        assert s == b && b[0] in b && s[1..] == "" + "" + b[1..];
        StripFinds("", "", b[1..]);
      } else {
        assert s[0] == core[0] && s[..|s| - 1] == a + core + b[..|b| - 1];
        StripFinds(a, core, b[..|b| - 1]);
      }
    } else {
      assert s == core;
    }
  }

  /** A path is remembered exactly if the request worked and the path is neither blank nor, up to white space,
      the idle placeholder. */
  lemma CapturedExactly(before: Option<Progress>)
    ensures Captured(before).Some? <==>
            && before.Some? && before.value.tarPath.Some?
            && !AllBlank(before.value.tarPath.value) && !Surrounds(before.value.tarPath.value, ".tar.gz")
  {
    if before.Some? && before.value.tarPath.Some? {
      var path := before.value.tarPath.value;
      StripSurrounds(path);
      if AllBlank(path) {
        StripFinds(path, "", "");
        assert path + "" + "" == path;
      }
      if Strip(path) == "" {
        var a, b :| AllBlank(a) && AllBlank(b) && path == a + "" + b;
      }
      if Surrounds(path, IDLE_TAR) {
        var a, b :| AllBlank(a) && AllBlank(b) && path == a + IDLE_TAR + b;
        StripFinds(a, IDLE_TAR, b);
      }
    }
  }

  // ----- what the filter cannot see -----

  /** A service that always answers the same. */
  function Always(stuck: Progress): nat -> Progress {
    _ => stuck
  }

  lemma {:induction false} StuckTar(stuck: Progress, n: nat)
    ensures LatestTar(Always(stuck), n) == if n == 0 then None else NonEmpty(stuck.tarPath)
  {
    if n > 0 { StuckTar(stuck, n - 1); }
  }

  /** A service stuck in the terminal reading it showed before the trigger is believed exactly when no path was
      captured then, because the reading had none worth it or could not be had, and this is not the first poll. */
  lemma StaleReadingBelieved(before: Option<Progress>, stuck: Progress, i: nat)
    requires IsDone(stuck) && (before.None? || before == Some(stuck))
    ensures Accepted(DumpTask(true, Captured(before)), Always(stuck), i) <==> Captured(before).None? && i > 0
  {
    StuckTar(stuck, i + 1);
  }

  /** So a wait with time for two polls ends with the old run's result exactly when no path was captured, and
      otherwise never completes. */
  lemma StuckServiceCompletes(
    before: Option<Progress>, stuck: Progress, pollInterval: int, timeout: int, polls: nat, outcome: Outcome)
    requires IsDone(stuck) && (before.None? || before == Some(stuck))
    requires CeilDiv(timeout, Max(pollInterval, 1)) >= 2
    requires Ends(DumpTask(true, Captured(before)), pollInterval, timeout, Always(stuck), _ => false, polls, outcome)
    ensures outcome.Completed? <==> Captured(before).None?
    ensures outcome.Completed? ==> polls == 2
  {
    var task := DumpTask(true, Captured(before));
    forall i: nat ensures Accepted(task, Always(stuck), i) <==> Captured(before).None? && i > 0 {
      StaleReadingBelieved(before, stuck, i);
    }
    assert polls > 2 ==> Undecided(task, Always(stuck), _ => false, 1);
  }

  /** A failed state is taken for a success exactly when the percentage says 100 and, after a trigger, there is
      evidence that the reading is the new run's. */
  lemma FailedAtHundredCompletes(task: DumpTask, readings: nat -> Progress, i: nat)
    requires IsFailure(readings(i))
    ensures Accepted(task, readings, i) <==>
            readings(i).percentage == Some("100") && (task.newTrigger ==> Evidence(task, readings, i))
  {
    assert readings(i).state !in DONE_STATES;
  }

  /** So when the last reading of a wait says that the collection failed, the wait reports a success exactly under
      that condition, and otherwise the failure, or a timeout if it was the first reading. */
  lemma FailureReportedAsSuccess(
    task: DumpTask, pollInterval: int, timeout: int, readings: nat -> Progress, fails: nat -> bool, polls: nat,
    outcome: Outcome)
    requires Ends(task, pollInterval, timeout, readings, fails, polls, outcome)
    requires polls > 0 && !fails(polls - 1) && IsFailure(readings(polls - 1))
    ensures var taken := readings(polls - 1).percentage == Some("100") &&
        (task.newTrigger ==> Evidence(task, readings, polls - 1));
            && (outcome.Completed? <==> taken)
            && (outcome.CollectFailed? <==> !taken && polls > 1)
            && (outcome.TimedOut? <==> !taken && polls == 1)
  {
    FailedAtHundredCompletes(task, readings, polls - 1);
  }

  /** A wait that runs out of time has polled every `pollInterval` seconds, or every second if that is less than one,
      until the next poll would have come too late. */
  lemma TimeoutPolls(
    task: DumpTask, pollInterval: int, timeout: int, readings: nat -> Progress, fails: nat -> bool, polls: nat,
    outcome: Outcome)
    requires Ends(task, pollInterval, timeout, readings, fails, polls, outcome)
    ensures var step := if pollInterval < 1 then 1 else pollInterval;
            && (timeout <= 0 ==> polls == 0)
            && (polls > 0 ==> (polls - 1) * step < timeout)
            && (outcome.TimedOut? && timeout > 0 ==> timeout <= polls * step)
  {
    var step := Max(pollInterval, 1);
    PollsThatFit(timeout, step);
    if polls > 0 {
      DivisionBounds(timeout - 1, step);
      assert (polls - 1) * step <= timeout - 1;
    }
  }

  // ----- the readings in plain words -----

  /** Which readings are done, failed, or show the new run: a failed one does not. */
  lemma ReadingsExactly(p: Progress)
    ensures IsDone(p) <==>
            || p.state == "STATE_COMPLETED" || p.state == "STATE_SUCCESS" || p.state == "STATE_SUCCESSED"
            || p.state == "STATE_FINISH" || p.percentage == Some("100")
    ensures IsFailure(p) <==> p.state == "STATE_FAILED" || p.state == "STATE_ERROR"
    ensures InProgress(p) <==>
            && p.percentage != Some("100")
            && p.state !in {"STATE_COMPLETED", "STATE_SUCCESS", "STATE_SUCCESSED", "STATE_FINISH",
                            "STATE_FAILED", "STATE_ERROR"}
  {
  }

  /** The latest path is the last one that is not empty. */
  lemma {:induction false} LatestTarExactly(readings: nat -> Progress, n: nat)
    ensures LatestTar(readings, n).None? <==>
            forall j: nat :: j < n ==> readings(j).tarPath.None? || readings(j).tarPath == Some("")
    ensures LatestTar(readings, n).Some? ==>
              exists j: nat :: j < n && readings(j).tarPath == LatestTar(readings, n)
                && forall k: nat :: j < k < n ==> readings(k).tarPath.None? || readings(k).tarPath == Some("")
  {
    if n > 0 { LatestTarExactly(readings, n - 1); }
  }

  /** A terminal reading after a trigger is believed exactly if it is not the first one and no path was captured, or
      the path has changed, or an earlier reading was neither terminal nor failed. */
  lemma EvidenceExactly(task: DumpTask, readings: nat -> Progress, i: nat)
    ensures task.previousTar.None? ==> (Evidence(task, readings, i) <==> i > 0)
    ensures task.previousTar.Some? ==>
              (Evidence(task, readings, i) <==>
                || LatestTar(readings, i + 1) != task.previousTar
                || exists j: nat :: j < i && readings(j).percentage != Some("100")
                     && readings(j).state !in {"STATE_COMPLETED", "STATE_SUCCESS", "STATE_SUCCESSED", "STATE_FINISH",
                                               "STATE_FAILED", "STATE_ERROR"})
  {
    forall j: nat ensures InProgress(readings(j)) <==>
        readings(j).percentage != Some("100")
        && readings(j).state !in {"STATE_COMPLETED", "STATE_SUCCESS", "STATE_SUCCESSED", "STATE_FINISH",
                                  "STATE_FAILED", "STATE_ERROR"}
    {
      ReadingsExactly(readings(j));
    }
  }

  /** The kind reported, "AllLogs" if none is. */
  lemma KindExactly(p: Progress)
    ensures p.kind.Some? && p.kind.value != "" ==> KindOf(p) == p.kind.value
    ensures p.kind.None? || p.kind.value == "" ==> KindOf(p) == "AllLogs"
  {
  }

  /** The number of polls that fit: the last one starts before the timeout, and one more would not. */
  lemma PollsThatFit(timeout: int, step: int)
    requires step > 0
    ensures timeout <= 0 ==> CeilDiv(timeout, step) == 0
    ensures timeout > 0 ==> (CeilDiv(timeout, step) - 1) * step < timeout <= CeilDiv(timeout, step) * step
  {
    if timeout > 0 {
      DivisionBounds(timeout - 1, step);
      var n := CeilDiv(timeout, step);
      assert (n - 1) * step <= timeout - 1;
      assert !(n * step <= timeout - 1);
    }
  }
}
