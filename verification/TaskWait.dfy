/** Waiting for an asynchronous operation: polling a task monitor until a deadline, with bounded recovery. The
    environment is an arbitrary trace of polls; the clock only moves forward. */
module TaskWait {
  import opened Wrappers

  // ----- what a poll can meet -----

  /** One task message: whether it announces that the manager goes offline, and its arguments as numbers. */
  datatype Message = Message(goingOffline: bool, args: seq<Option<real>>)

  datatype Task = Task(state: string, odataId: Option<string>, messages: seq<Message>)

  /** A body without a task, one that looks like a task but is invalid, or a task. */
  datatype Body = NoTask | BadTask | HasTask(task: Task)

  datatype Answer = Answer(code: int, retryAfter: Option<real>, body: Body)

  datatype Get = NoConnection | RefreshFailed | OtherError | Answered(answer: Answer)

  /** One turn of the loop: the monitor GET, whether session authentication is active, the answer of the Task
      resource should it be asked, how long the GET took and by how much a following sleep overshoots. */
  datatype Poll = Poll(get: Get, session: bool, verify: Get, took: real, overslept: real)

  datatype Config = Config(
    monitor: string, isTaskResource: bool, pollInterval: real, start: real, deadline: real,
    maxConnection: nat, maxAuth: nat, recoveryInterval: real)

  datatype State = State(
    now: real, connection: nat, auth: nat, taskUri: Option<string>, lastTask: Option<Task>, slept: real, gets: nat)

  datatype Error =
    | NotAsynchronous
    | CannotReconnect(attempts: nat)
    | SessionRefreshFailed
    | StillUnauthorized(code: int)
    | ReauthenticationExhausted(attempts: nat)
    | TaskFailed(state: string)
    | BodyInvalid
    | MonitorGone
    | VerificationFailed(code: int)
    | HttpFailure(code: int)
    | TimedOut
    | Propagated

  datatype Result = Completed(task: Option<Task>, taskUri: Option<string>, monitorMissing: bool) | Failed(error: Error)

  datatype Outcome = Continue(st: State) | Done(result: Result, st: State)

  const FAILED_STATES: set<string> := {"Exception", "Killed", "Cancelled"}
  const TERMINAL_STATES: set<string> := {"Completed", "Exception", "Killed", "Cancelled"}

  // ----- the small pure helpers -----

  function StripSlashes(s: string): (r: string)
    ensures r <= s && (r == "" || r[|r| - 1] != '/') && forall k :: |r| <= k < |s| ==> s[k] == '/'
  {
    if s != "" && s[|s| - 1] == '/' then StripSlashes(s[..|s| - 1]) else s
  }

  function BeforeQuery(s: string): (r: string)
    ensures r <= s && '?' !in r && (|r| < |s| ==> s[|r|] == '?')
  {
    if s == "" || s[0] == '?' then "" else [s[0]] + BeforeQuery(s[1..])
  }

  predicate Contains(s: string, part: string) {
    part <= s || (s != "" && Contains(s[1..], part))
  }

  predicate IsTaskResourceUri(location: string, taskUri: Option<string>) {
    || (taskUri.Some? && taskUri.value != "" && StripSlashes(location) == StripSlashes(taskUri.value))
    || var path := StripSlashes(BeforeQuery(location));
       Contains(path, "/TaskService/Tasks/") && !Contains(path, "/TaskMonitors/")
  }

  function FirstNumber(args: seq<Option<real>>): (number: Option<real>)
    ensures number.Some? ==> number.value >= 0.0
  {
    if args == [] then None else if args[0].Some? then Some(Clip(args[0].value)) else FirstNumber(args[1..])
  }

  function Clip(x: real): real {
    if x < 0.0 then 0.0 else x
  }

  /** The arguments of a message that may hold the offline time: not the first one, unless it is the only one. */
  function TimeArgs(m: Message): seq<Option<real>> {
    if !m.goingOffline then [] else if |m.args| > 1 then m.args[1..] else m.args
  }

  /** The offline time announced by the first message that announces one. */
  function OfflineDelay(messages: seq<Message>): (delay: Option<real>)
    ensures delay.Some? ==> delay.value >= 0.0
  {
    if messages == [] then None
    else
      var number := FirstNumber(TimeArgs(messages[0]));
      if number.Some? then number else OfflineDelay(messages[1..])
  }

  /** The pause after a poll: Retry-After, else the announced offline time, else the poll interval. */
  function Delay(cfg: Config, answer: Answer): real {
    if answer.retryAfter.Some? then Clip(answer.retryAfter.value)
    else if answer.body.HasTask? && OfflineDelay(answer.body.task.messages).Some? then
      OfflineDelay(answer.body.task.messages).value
    else cfg.pollInterval
  }

  function OrElse<T>(a: Option<T>, b: Option<T>): Option<T> {
    if a.Some? then a else b
  }

  // ----- one poll, as a pure step -----

  function Sleep(cfg: Config, st: State, delay: real, overslept: real): Outcome {
    if cfg.deadline - st.now <= 0.0 || delay > cfg.deadline - st.now then Done(Failed(TimedOut), st)
    else Continue(st.(now := st.now + delay + overslept, slept := st.slept + delay))
  }

  /** The Task resource must confirm that a vanished monitor's task completed. */
  function Verify(taskUri: Option<string>, verify: Get): Wrappers.Result<Task, Error> {
    if taskUri.None? then Err(MonitorGone)
    else if !verify.Answered? then Err(Propagated)
    else if verify.answer.code != 200 then Err(VerificationFailed(verify.answer.code))
    else if !verify.answer.body.HasTask? then Err(BodyInvalid)
    else if verify.answer.body.task.state !in TERMINAL_STATES then Err(MonitorGone)
    else if verify.answer.body.task.state in FAILED_STATES then Err(TaskFailed(verify.answer.body.task.state))
    else Ok(verify.answer.body.task)
  }

  function Step(cfg: Config, st0: State, poll: Poll): Outcome {
    var st := st0.(now := st0.now + poll.took, gets := st0.gets + 1);
    match poll.get
    case NoConnection =>
      if st.connection >= cfg.maxConnection then Done(Failed(CannotReconnect(st.connection)), st)
      else Sleep(cfg, st.(connection := st.connection + 1), cfg.recoveryInterval, poll.overslept)
    case RefreshFailed => Done(Failed(SessionRefreshFailed), st)
    case OtherError => Done(Failed(Propagated), st)
    case Answered(answer) =>
      var code := answer.code;
      if code == 401 || code == 403 then
        if poll.session then Done(Failed(StillUnauthorized(code)), st)
        else if st.auth >= cfg.maxAuth then Done(Failed(ReauthenticationExhausted(st.auth)), st)
        else Continue(st.(auth := st.auth + 1))
      else
        var st := st.(connection := 0);
        if cfg.isTaskResource && code == 200 then
          if !answer.body.HasTask? then Done(Failed(BodyInvalid), st)
          else
            var task := answer.body.task;
            var st := st.(lastTask := Some(task));
            if task.state == "Completed" then Done(Completed(Some(task), st.taskUri, false), st)
            else if task.state in FAILED_STATES then Done(Failed(TaskFailed(task.state)), st)
            else Sleep(cfg, st, Delay(cfg, answer), poll.overslept)
        else if code == 202 then
          if answer.body.BadTask? then Done(Failed(BodyInvalid), st)
          else
            var st := if answer.body.HasTask?
                      then st.(lastTask := Some(answer.body.task),
                          taskUri := OrElse(st.taskUri, NonEmpty(answer.body.task.odataId)))
                      else st;
            Sleep(cfg, st, Delay(cfg, answer), poll.overslept)
        else if code == 404 || code == 410 then
          match Verify(st.taskUri, poll.verify)
          case Err(e) => Done(Failed(e), st)
          case Ok(task) => Done(Completed(Some(task), st.taskUri, true), st)
        else if !(200 <= code < 300) then Done(Failed(HttpFailure(code)), st)
        else Done(Completed(st.lastTask, st.taskUri, false), st)
  }

  /** The whole wait as a fold over the trace; Continue means that the trace ended first. */
  function Run(cfg: Config, st: State, trace: seq<Poll>): Outcome
    decreases |trace|
  {
    if !(st.now < cfg.deadline) then Done(Failed(TimedOut), st)
    else if trace == [] then Continue(st)
    else match Step(cfg, st, trace[0])
         case Done(result, st') => Done(result, st')
         case Continue(st') => Run(cfg, st', trace[1..])
  }

  // ----- starting -----

  datatype Operation = Operation(
    httpStatus: int, monitor: Option<string>, taskUri: Option<string>, odataId: Option<string>,
    retryAfter: Option<real>)

  datatype Limits = Limits(pollInterval: real, timeout: real, maxConnection: nat, maxAuth: nat, recoveryInterval: real)

  predicate IsAsynchronous(op: Operation) {
    op.httpStatus == 202 && NonEmpty(op.monitor).Some?
  }

  function ConfigOf(op: Operation, limits: Limits, start: real): Config
    requires IsAsynchronous(op)
  {
    var taskUri := OrElse(NonEmpty(op.taskUri), op.odataId);
    Config(op.monitor.value, IsTaskResourceUri(op.monitor.value, taskUri), limits.pollInterval, start,
           start + limits.timeout,
           limits.maxConnection, limits.maxAuth, limits.recoveryInterval)
  }

  function FirstState(op: Operation, cfg: Config): State {
    var taskUri := NonEmpty(OrElse(NonEmpty(op.taskUri), op.odataId));
    State(cfg.start, 0, 0, if cfg.isTaskResource then OrElse(taskUri, Some(cfg.monitor)) else taskUri, None, 0.0, 0)
  }

  function Wait(op: Operation, limits: Limits, start: real, overslept: real, trace: seq<Poll>): Outcome {
    if !IsAsynchronous(op) then Done(Failed(NotAsynchronous), State(start, 0, 0, None, None, 0.0, 0))
    else
      var cfg := ConfigOf(op, limits, start);
      if op.retryAfter.None? then Run(cfg, FirstState(op, cfg), trace)
      else match Sleep(cfg, FirstState(op, cfg), Clip(op.retryAfter.value), overslept)
           case Done(result, st) => Done(result, st)
           case Continue(st) => Run(cfg, st, trace)
  }

  /** The polling loop: the clock is read before every poll, and each turn is one step. */
  method WaitForOperation(op: Operation, limits: Limits, start: real, overslept: real, trace: seq<Poll>)
      returns (outcome: Outcome)
    ensures outcome == Wait(op, limits, start, overslept, trace)
  {
    if op.httpStatus != 202 || NonEmpty(op.monitor).None? {
      return Done(Failed(NotAsynchronous), State(start, 0, 0, None, None, 0.0, 0));
    }
    var cfg := ConfigOf(op, limits, start);
    var st := FirstState(op, cfg);
    if op.retryAfter.Some? {
      outcome := Sleep(cfg, st, Clip(op.retryAfter.value), overslept);
      if outcome.Done? { return; }
      st := outcome.st;
    }
    var i := 0;
    while st.now < cfg.deadline && i < |trace|
      invariant 0 <= i <= |trace|
      invariant Wait(op, limits, start, overslept, trace) == Run(cfg, st, trace[i..])
      decreases |trace| - i
    {
      assert trace[i..][0] == trace[i] && trace[i..][1..] == trace[i + 1..];
      outcome := Step(cfg, st, trace[i]);
      if outcome.Done? { return; }
      st, i := outcome.st, i + 1;
    }
    return if st.now < cfg.deadline then Continue(st) else Done(Failed(TimedOut), st);
  }
}
