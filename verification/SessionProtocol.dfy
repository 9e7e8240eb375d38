/** Any number of threads in `_request`, refreshing one shared session under a lock, interleaved with explicit
    changes of the credentials, which take no lock: one step is one access to the shared state or one message of
    the service. */
module SessionProtocol {
  import opened Wrappers
  import opened Session

  type Thread = nat

  datatype Purpose = BeforeSending | BeforeReplay

  /** The next write of a change of credentials, in the order the writes are made. */
  datatype Stage = WriteMode | WriteKey | WriteMemo | DropHeader | SetHeader

  /** A refresh holds the lock from Holding to Installing; a change (None is a reset) holds no lock. */
  datatype Pc =
    | Idle
    | Entered
    | ModeSeen
    | Reading
    | Waiting(observed: Option<Token>)
    | Unauthorized(observed: Option<Token>)
    | Blocked(observed: Option<Token>, purpose: Purpose)
    | Holding(observed: Option<Token>, purpose: Purpose)
    | Judging(observed: Option<Token>, purpose: Purpose)
    | Posting(observed: Option<Token>, purpose: Purpose)
    | Installing(observed: Option<Token>, purpose: Purpose, token: Token, stage: Stage)
    | Replaying(observed: Option<Token>)
    | Raised(failure: Failure)
    | Changing(change: Option<Token>, stage: Stage)

  /** `posts` and `installed` are history: the observations posted so far and every token that ever was the key. */
  datatype State = State(
    client: Client, lock: Option<Thread>, pcs: map<Thread, Pc>, posts: seq<Option<Token>>, installed: set<Token>)

  datatype Action =
    | Call(t: Thread)
    | SeeMode(t: Thread)
    | SeeKey(t: Thread)
    | ReadKey(t: Thread)
    | Respond(t: Thread, unauthorized: bool)
    | SeeModeAgain(t: Thread)
    | Acquire(t: Thread)
    | CheckKey(t: Thread)
    | CheckMemo(t: Thread)
    | Receive(t: Thread, reply: Reply)
    | Replay(t: Thread)
    | Change(t: Thread, change: Option<Token>)
    | Write(t: Thread)

  function PcOf(s: State, t: Thread): Pc {
    if t in s.pcs then s.pcs[t] else Idle
  }

  function Go(s: State, t: Thread, pc: Pc): State {
    s.(pcs := s.pcs[t := pc])
  }

  predicate Enabled(s: State, a: Action) {
    match a
    case Call(t) => PcOf(s, t).Idle? || PcOf(s, t).Raised?
    case SeeMode(t) => PcOf(s, t).Entered?
    case SeeKey(t) => PcOf(s, t).ModeSeen?
    case ReadKey(t) => PcOf(s, t).Reading?
    case Respond(t, _) => PcOf(s, t).Waiting?
    case SeeModeAgain(t) => PcOf(s, t).Unauthorized?
    case Acquire(t) => PcOf(s, t).Blocked? && s.lock.None?
    case CheckKey(t) => PcOf(s, t).Holding?
    case CheckMemo(t) => PcOf(s, t).Judging?
    case Receive(t, _) => PcOf(s, t).Posting?
    case Replay(t) => PcOf(s, t).Replaying?
    case Change(t, change) => (PcOf(s, t).Idle? || PcOf(s, t).Raised?) && change != Some("")
    case Write(t) => PcOf(s, t).Changing? || PcOf(s, t).Installing?
  }

  /** Where a thread goes on after a refresh that did not raise. */
  function Resume(observed: Option<Token>, purpose: Purpose): Pc {
    if purpose == BeforeSending then Reading else Replaying(observed)
  }

  /** One write of a change to a token, or to Basic mode. */
  function Written(c: Client, change: Option<Token>, stage: Stage): Client {
    match stage
    case WriteMode => c.(mode := if change.Some? then Session else Basic)
    case WriteKey => c.(key := change)
    case WriteMemo => c.(memo := None)
    case DropHeader => if change.Some? then c.(authorization := false) else c.(tokenHeader := None)
    case SetHeader => if change.Some? then c.(tokenHeader := change) else c.(authorization := true)
  }

  function NextStage(stage: Stage): Stage {
    match stage
    case WriteMode => WriteKey
    case WriteKey => WriteMemo
    case WriteMemo => DropHeader
    case _ => SetHeader
  }

  function WriteTo(s: State, change: Option<Token>, stage: Stage): State {
    s.(client := Written(s.client, change, stage),
       installed := s.installed + (if stage.WriteKey? && change.Some? then {change.value} else {}))
  }

  function Next(s: State, a: Action): State
    requires Enabled(s, a)
  {
    var pc := PcOf(s, a.t);
    match a
    case Call(t) => Go(s, t, Entered)
    case SeeMode(t) => Go(s, t, if s.client.mode == Mode.Session then ModeSeen else Reading)
    case SeeKey(t) => Go(s, t, if s.client.key.None? then Blocked(None, BeforeSending) else Reading)
    case ReadKey(t) => Go(s, t, Waiting(s.client.key))
    case Respond(t, unauthorized) => Go(s, t, if unauthorized then Unauthorized(pc.observed) else Idle)
    case SeeModeAgain(t) =>
      Go(s, t, if s.client.mode == Mode.Session then Blocked(pc.observed, BeforeReplay) else Idle)
    case Acquire(t) => Go(s, t, Holding(pc.observed, pc.purpose)).(lock := Some(t))
    case CheckKey(t) =>
      if pc.observed.Some? && s.client.key != pc.observed then
        Go(s, t, Resume(pc.observed, pc.purpose)).(lock := None)
      else Go(s, t, Judging(pc.observed, pc.purpose))
    case CheckMemo(t) =>
      if s.client.memo.Some? && s.client.memo.value.observed == pc.observed then
        Go(s, t, Raised(s.client.memo.value.failure)).(lock := None)
      else Go(s, t, Posting(pc.observed, pc.purpose)).(posts := s.posts + [pc.observed])
    case Receive(t, reply) =>
      (match Judge(reply)
       case Ok(token) => Go(s, t, Installing(pc.observed, pc.purpose, token, WriteMode))
       case Err(failure) =>
         Go(s, t, Raised(failure)).(client := s.client.(memo := Some(Memo(pc.observed, failure))), lock := None))
    case Replay(t) => Go(s, t, Idle)
    case Change(t, change) => Go(s, t, Changing(change, WriteMode))
    case Write(t) =>
      (match pc
       case Changing(change, stage) =>
         Go(WriteTo(s, change, stage), t, if stage.SetHeader? then Idle else Changing(change, NextStage(stage)))
       case Installing(observed, purpose, token, stage) =>
         var s' := WriteTo(s, Some(token), stage);
         if stage.SetHeader? then Go(s', t, Resume(observed, purpose)).(lock := None)
         else Go(s', t, Installing(observed, purpose, token, NextStage(stage))))
  }

  // ----- the steps put together, with nothing in between, are the operations of the session -----

  /** The writes make up setting a token, or resetting. */
  lemma WritesMakeChange(c: Client, change: Option<Token>)
    ensures var c' := Written(Written(Written(c, change, WriteMode), change, WriteKey), change, WriteMemo);
            Written(Written(c', change, DropHeader), change, SetHeader)
            == if change.Some? then WithToken(c, change.value) else WithBasic(c)
  {
  }

  /** The two checks take the decision of the refresh. */
  lemma ChecksDecide(s: State, t: Thread)
    requires PcOf(s, t).Holding?
    ensures var s' := Next(s, CheckKey(t));
            match Decide(s.client, PcOf(s, t).observed)
            case Superseded => PcOf(s', t) == Resume(PcOf(s, t).observed, PcOf(s, t).purpose) && s'.lock.None?
            case Remembered(failure) => PcOf(s', t).Judging? && PcOf(Next(s', CheckMemo(t)), t) == Raised(failure)
            case MustPost => PcOf(s', t).Judging? && PcOf(Next(s', CheckMemo(t)), t).Posting?
  {
  }

  /** After a refresh that did not raise, because the token had changed or because a new one is installed, a call that
      has not been sent reads the token and is sent, and a rejected one is replayed. */
  lemma RefreshGoesOn(s: State, t: Thread)
    ensures PcOf(s, t).Holding? && PcOf(s, t).observed.Some? && s.client.key != PcOf(s, t).observed ==>
              PcOf(Next(s, CheckKey(t)), t) ==
              if PcOf(s, t).purpose.BeforeSending? then Reading else Replaying(PcOf(s, t).observed)
    ensures PcOf(s, t).Installing? && PcOf(s, t).stage.SetHeader? ==>
              PcOf(Next(s, Write(t)), t) ==
              if PcOf(s, t).purpose.BeforeSending? then Reading else Replaying(PcOf(s, t).observed)
  {
  }

  // ----- runs -----

  /** The credentials a thread is writing. */
  function ChangeOf(pc: Pc): Option<Token>
    requires pc.Changing? || pc.Installing?
  {
    if pc.Changing? then pc.change else Some(pc.token)
  }

  /** The token that this step makes the key. */
  function NewKey(s: State, a: Action): Option<Token>
    requires Enabled(s, a)
  {
    var pc := PcOf(s, a.t);
    if a.Write? && pc.stage.WriteKey? then ChangeOf(pc) else None
  }

  /** A token that becomes the key never was the key before. */
  predicate Fresh(s: State, a: Action)
    requires Enabled(s, a)
  {
    NewKey(s, a).Some? ==> NewKey(s, a).value !in s.installed
  }

  function Start(mode: Mode, key: Option<Token>): State {
    State(Client(mode, key, None, mode == Basic, key), None, map[], [], if key.Some? then {key.value} else {})
  }

  predicate Runs(s: State, run: seq<Action>)
    decreases |run|
  {
    run == [] || (Enabled(s, run[0]) && Runs(Next(s, run[0]), run[1..]))
  }

  function After(s: State, run: seq<Action>): State
    requires Runs(s, run)
    decreases |run|
  {
    if run == [] then s else After(Next(s, run[0]), run[1..])
  }

  predicate AllFresh(s: State, run: seq<Action>)
    requires Runs(s, run)
    decreases |run|
  {
    run == [] || (Fresh(s, run[0]) && AllFresh(Next(s, run[0]), run[1..]))
  }

  /** No refresh call is under way that observed no token. */
  ghost predicate NoBlindRefresh(s: State) {
    forall t :: t in s.pcs && (s.pcs[t].Blocked? || s.pcs[t].Holding? || s.pcs[t].Judging? || s.pcs[t].Posting?) ==>
      s.pcs[t].observed.Some?
  }

  ghost predicate NeverBlind(s: State, run: seq<Action>)
    requires Runs(s, run)
    decreases |run|
  {
    NoBlindRefresh(s) && (run == [] || NeverBlind(Next(s, run[0]), run[1..]))
  }

  /** What the thread that holds the lock is doing. */
  function Holder(s: State): Pc {
    if s.lock.Some? then PcOf(s, s.lock.value) else Idle
  }

  /** The remembered failure is that of the current token, or of the token being checked right now. */
  predicate MemoNeeded(s: State) {
    && s.client.memo.Some? && s.client.memo.value.observed.Some?
    && (s.client.memo.value.observed == s.client.key
        || (Holder(s).Judging? && s.client.memo.value.observed == Holder(s).observed))
  }

  /** An explicit change does not clear a remembered failure that is still needed. */
  predicate Keeps(s: State, a: Action) {
    a.Write? && PcOf(s, a.t).Changing? && PcOf(s, a.t).stage.WriteMemo? ==> !MemoNeeded(s)
  }

  predicate AlwaysKeeps(s: State, run: seq<Action>)
    requires Runs(s, run)
    decreases |run|
  {
    run == [] || (Keeps(s, run[0]) && AlwaysKeeps(Next(s, run[0]), run[1..]))
  }

  // ----- the invariant -----

  predicate HoldsLock(pc: Pc) {
    pc.Holding? || pc.Judging? || pc.Posting? || pc.Installing?
  }

  ghost predicate LockHeld(s: State) {
    forall t: Thread :: HoldsLock(PcOf(s, t)) <==> s.lock == Some(t)
  }

  function Seen(pc: Pc): Option<Token> {
    match pc
    case Waiting(o) => o
    case Unauthorized(o) => o
    case Blocked(o, _) => o
    case Holding(o, _) => o
    case Judging(o, _) => o
    case Posting(o, _) => o
    case Installing(o, _, _, _) => o
    case Replaying(o) => o
    case _ => None
  }

  /** Every token observed, posted or current was the key at some point. */
  ghost predicate TokensKnown(s: State) {
    && (s.client.key.Some? ==> s.client.key.value in s.installed)
    && (forall t :: t in s.pcs && Seen(s.pcs[t]).Some? ==> Seen(s.pcs[t]).value in s.installed)
    && forall o :: o in s.posts && o.Some? ==> o.value in s.installed
  }

  predicate Posted(s: State, o: Option<Token>) {
    o.Some? && o in s.posts
  }

  predicate Remembers(s: State, o: Option<Token>) {
    s.client.memo.Some? && s.client.memo.value.observed == o
  }

  /** A posted token that is still current is being posted right now, or its failure is remembered. */
  predicate PostedIsSettled(s: State) {
    var key, holder := s.client.key, Holder(s);
    match holder
    case Judging(o, _) => (Posted(s, key) ==> key == o) && (Posted(s, o) ==> Remembers(s, o))
    case Posting(o, _) => Posted(s, key) ==> key == o
    case Installing(o, _, _, stage) =>
      if stage.WriteMode? || stage.WriteKey? then Posted(s, key) ==> key == o else !Posted(s, key)
    case _ => Posted(s, key) ==> Remembers(s, key)
  }

  ghost predicate PostedOnce(s: State) {
    forall token :: multiset(s.posts)[Some(token)] <= 1
  }

  predicate MovedOn(pc: Pc) {
    pc.Replaying? || (pc.Installing? && !pc.stage.WriteMode? && !pc.stage.WriteKey?)
  }

  /** A replay is never sent with the token that was rejected. */
  ghost predicate ReplaysMovedOn(s: State) {
    forall t :: t in s.pcs && MovedOn(s.pcs[t]) && s.pcs[t].observed.Some? ==> s.client.key != s.pcs[t].observed
  }

  ghost predicate Inv(s: State) {
    LockHeld(s) && TokensKnown(s) && PostedIsSettled(s) && PostedOnce(s) && ReplaysMovedOn(s)
  }

  lemma LockHeldStep(s: State, a: Action)
    requires LockHeld(s) && Enabled(s, a)
    ensures LockHeld(Next(s, a))
  {
  }

  lemma TokensKnownStep(s: State, a: Action)
    requires TokensKnown(s) && Enabled(s, a)
    ensures TokensKnown(Next(s, a))
  {
  }

  lemma ReplaysMovedOnStep(s: State, a: Action)
    requires TokensKnown(s) && ReplaysMovedOn(s) && Enabled(s, a) && Fresh(s, a)
    ensures ReplaysMovedOn(Next(s, a))
  {
  }

  /** A write touches nobody else's place in the protocol. */
  lemma WriteSettled(s: State, t: Thread)
    requires LockHeld(s) && TokensKnown(s) && PostedIsSettled(s)
    requires Enabled(s, Write(t)) && Fresh(s, Write(t)) && Keeps(s, Write(t))
    ensures PostedIsSettled(Next(s, Write(t)))
  {
    if PcOf(s, t).Changing? {
      assert s.lock != Some(t);
    } else {
      assert s.lock == Some(t);
    }
  }

  lemma CheckSettled(s: State, a: Action)
    requires LockHeld(s) && PostedIsSettled(s) && NoBlindRefresh(s) && Enabled(s, a)
    requires a.CheckKey? || a.CheckMemo? || a.Receive?
    ensures PostedIsSettled(Next(s, a))
  {
    assert s.lock == Some(a.t);
  }

  lemma OtherSettled(s: State, a: Action)
    requires LockHeld(s) && PostedIsSettled(s) && Enabled(s, a)
    requires !a.CheckKey? && !a.CheckMemo? && !a.Receive? && !a.Write?
    ensures PostedIsSettled(Next(s, a))
  {
    assert s.lock != Some(a.t);
  }

  lemma PostedIsSettledStep(s: State, a: Action)
    requires LockHeld(s) && TokensKnown(s) && PostedIsSettled(s) && NoBlindRefresh(s)
    requires Enabled(s, a) && Fresh(s, a) && Keeps(s, a)
    ensures PostedIsSettled(Next(s, a))
  {
    hide Next, PostedIsSettled, LockHeld, TokensKnown, NoBlindRefresh;
    if a.Write? {
      WriteSettled(s, a.t);
    } else if a.CheckKey? || a.CheckMemo? || a.Receive? {
      CheckSettled(s, a);
    } else {
      OtherSettled(s, a);
    }
  }

  lemma PostedOnceStep(s: State, a: Action)
    requires LockHeld(s) && PostedIsSettled(s) && PostedOnce(s) && NoBlindRefresh(s) && Enabled(s, a)
    ensures PostedOnce(Next(s, a))
  {
  }

  lemma {:induction false} InvAlways(s: State, run: seq<Action>)
    requires Inv(s) && Runs(s, run) && AllFresh(s, run) && NeverBlind(s, run) && AlwaysKeeps(s, run)
    ensures Inv(After(s, run))
    decreases |run|
  {
    if run != [] {
      var a := run[0];
      LockHeldStep(s, a);
      TokensKnownStep(s, a);
      ReplaysMovedOnStep(s, a);
      PostedIsSettledStep(s, a);
      PostedOnceStep(s, a);
      InvAlways(Next(s, a), run[1..]);
    }
  }

  // ----- main results -----

  /** At most one refresh POST is ever sent for an observed token, and no request is replayed with the token
      it was rejected with: over every interleaving, explicit changes included, in which tokens are fresh, no
      refresh call observed None and no change clears a failure that is still needed. */
  lemma SingleFlight(mode: Mode, key: Option<Token>, run: seq<Action>, token: Token)
    requires var s := Start(mode, key);
             Runs(s, run) && AllFresh(s, run) && NeverBlind(s, run) && AlwaysKeeps(s, run)
    ensures var s := After(Start(mode, key), run);
            && multiset(s.posts)[Some(token)] <= 1
            && forall t :: t in s.pcs && s.pcs[t] == Replaying(Some(token)) ==> s.client.key != Some(token)
  {
    InvAlways(Start(mode, key), run);
  }

  /** Which explicit changes a run may contain. */
  predicate Allowed(a: Action, sets: bool, resets: bool) {
    a.Change? ==> if a.change.Some? then sets else resets
  }

  predicate AllAllowed(run: seq<Action>, sets: bool, resets: bool) {
    forall k :: 0 <= k < |run| ==> Allowed(run[k], sets, resets)
  }

  lemma AllowedTail(run: seq<Action>, sets: bool, resets: bool)
    requires AllAllowed(run, sets, resets) && run != []
    ensures Allowed(run[0], sets, resets) && AllAllowed(run[1..], sets, resets)
  {
  }

  predicate Observes(pc: Pc) {
    HoldsLock(pc) || pc.Blocked? || pc.Waiting? || pc.Unauthorized?
  }

  /** There is a token, everybody has observed one, and no reset is under way. */
  ghost predicate Keyed(s: State) {
    && s.client.key.Some?
    && forall t :: t in s.pcs ==>
         (Observes(s.pcs[t]) ==> s.pcs[t].observed.Some?) && (s.pcs[t].Changing? ==> s.pcs[t].change.Some?)
  }

  /** No explicit change is under way. */
  ghost predicate Quiet(s: State) {
    forall t :: t in s.pcs ==> !s.pcs[t].Changing?
  }

  lemma KeyedStep(s: State, a: Action)
    requires Keyed(s) && Enabled(s, a) && Allowed(a, true, false)
    ensures Keyed(Next(s, a)) && NoBlindRefresh(s)
  {
  }

  lemma QuietStep(s: State, a: Action)
    requires Quiet(s) && Enabled(s, a) && Allowed(a, false, false)
    ensures Quiet(Next(s, a)) && Keeps(s, a)
  {
  }

  lemma {:induction false} KeyedNeverBlind(s: State, run: seq<Action>, sets: bool)
    requires Keyed(s) && Runs(s, run) && AllAllowed(run, sets, false)
    ensures NeverBlind(s, run) && Keyed(After(s, run))
    decreases |run|
  {
    if run != [] {
      AllowedTail(run, sets, false);
      KeyedStep(s, run[0]);
      KeyedNeverBlind(Next(s, run[0]), run[1..], sets);
    }
  }

  lemma {:induction false} QuietKeeps(s: State, run: seq<Action>)
    requires Quiet(s) && Runs(s, run) && AllAllowed(run, false, false)
    ensures AlwaysKeeps(s, run) && Quiet(After(s, run))
    decreases |run|
  {
    if run != [] {
      AllowedTail(run, false, false);
      QuietStep(s, run[0]);
      QuietKeeps(Next(s, run[0]), run[1..]);
    }
  }

  /** Starting from a token, and with no explicit change, both conditions hold by themselves. */
  lemma SingleFlightFromToken(mode: Mode, key: Token, run: seq<Action>, token: Token)
    requires Runs(Start(mode, Some(key)), run) && AllFresh(Start(mode, Some(key)), run) && AllAllowed(run, false, false)
    ensures multiset(After(Start(mode, Some(key)), run).posts)[Some(token)] <= 1
  {
    KeyedNeverBlind(Start(mode, Some(key)), run, false);
    QuietKeeps(Start(mode, Some(key)), run);
    SingleFlight(mode, Some(key), run, token);
  }

  // ----- a failed refresh is shared -----

  /** The refresh of the current token `token` has failed with `failure`, and nobody is posting or changing. */
  ghost predicate Failed(s: State, token: Token, failure: Failure) {
    && s.client.key == Some(token)
    && s.client.memo == Some(Memo(Some(token), failure))
    && !Holder(s).Posting? && !Holder(s).Installing?
    && (Holder(s).Judging? ==> Holder(s).observed == Some(token))
    && Quiet(s)
  }

  /** A POST for the current token that fails leaves its failure behind. */
  lemma FailureRemembered(s: State, t: Thread, token: Token, reply: Reply)
    requires Enabled(s, Receive(t, reply)) && PcOf(s, t).observed == Some(token) == s.client.key && Judge(reply).Err?
    requires Quiet(s)
    ensures Failed(Next(s, Receive(t, reply)), token, Judge(reply).error)
    ensures PcOf(Next(s, Receive(t, reply)), t) == Raised(Judge(reply).error)
  {
  }

  lemma FailedStep(s: State, a: Action, token: Token, failure: Failure)
    requires Failed(s, token, failure) && LockHeld(s) && Keyed(s) && Enabled(s, a) && Allowed(a, false, false)
    ensures Failed(Next(s, a), token, failure) && Next(s, a).posts == s.posts
  {
  }

  lemma {:induction false} FailureStays(s: State, run: seq<Action>, token: Token, failure: Failure)
    requires Failed(s, token, failure) && LockHeld(s) && Keyed(s) && Runs(s, run) && AllAllowed(run, false, false)
    ensures Failed(After(s, run), token, failure) && After(s, run).posts == s.posts
    ensures LockHeld(After(s, run)) && Keyed(After(s, run))
    decreases |run|
  {
    if run != [] {
      var a := run[0];
      AllowedTail(run, false, false);
      LockHeldStep(s, a);
      KeyedStep(s, a);
      FailedStep(s, a, token, failure);
      FailureStays(Next(s, a), run[1..], token, failure);
    }
  }

  /** What thread `u` meets in `s` if it holds the lock: with the token `token` the failure, without a POST; with
      another one it goes on. */
  ghost predicate MeetsFailure(s: State, u: Thread, token: Token, failure: Failure) {
    var pc := PcOf(s, u);
    && (pc.Holding? && pc.observed == Some(token) ==>
          PcOf(Next(s, CheckKey(u)), u) == Judging(Some(token), pc.purpose))
    && (pc.Holding? && pc.observed != Some(token) ==>
          PcOf(Next(s, CheckKey(u)), u) == Resume(pc.observed, pc.purpose))
    && (pc.Judging? ==> PcOf(Next(s, CheckMemo(u)), u) == Raised(failure) && Next(s, CheckMemo(u)).posts == s.posts)
  }

  /** However long after, a caller that observed the token gets the stored failure and sends no POST; one that
      observed another token goes on. */
  lemma FailureShared(s: State, run: seq<Action>, token: Token, failure: Failure, u: Thread)
    requires Failed(s, token, failure) && LockHeld(s) && Keyed(s) && Runs(s, run) && AllAllowed(run, false, false)
    ensures After(s, run).posts == s.posts && MeetsFailure(After(s, run), u, token, failure)
  {
    FailureStays(s, run, token, failure);
    MeetsIt(After(s, run), u, token, failure);
  }

  lemma MeetsIt(s: State, u: Thread, token: Token, failure: Failure)
    requires Failed(s, token, failure) && LockHeld(s) && Keyed(s)
    ensures MeetsFailure(s, u, token, failure)
  {
  }

  lemma {:induction false} LockHeldAlways(s: State, run: seq<Action>)
    requires LockHeld(s) && Runs(s, run)
    ensures LockHeld(After(s, run))
    decreases |run|
  {
    if run != [] {
      LockHeldStep(s, run[0]);
      LockHeldAlways(Next(s, run[0]), run[1..]);
    }
  }

  /** From a client that starts with a token and is not reset: once the refresh of the current token has failed
      in thread `t` with no change under way, no POST is sent until an explicit change, and every thread `u` that
      then checks for that token gets the same failure. */
  lemma FailureSharedFromStart(
    mode: Mode, key: Token, run: seq<Action>, t: Thread, reply: Reply, later: seq<Action>, u: Thread, token: Token)
    requires Runs(Start(mode, Some(key)), run) && AllAllowed(run, true, false)
    requires var s := After(Start(mode, Some(key)), run);
             && Quiet(s) && Enabled(s, Receive(t, reply)) && Judge(reply).Err?
             && PcOf(s, t).observed == Some(token) == s.client.key
             && Runs(Next(s, Receive(t, reply)), later) && AllAllowed(later, false, false)
    ensures var failed := Next(After(Start(mode, Some(key)), run), Receive(t, reply));
            After(failed, later).posts == failed.posts &&
                MeetsFailure(After(failed, later), u, token, Judge(reply).error)
  {
    hide Next, Enabled, Keyed, LockHeld, Failed;
    var start := Start(mode, Some(key));
    StartOrderly(mode, key);
    var s := After(start, run);
    KeyedNeverBlind(start, run, true);
    LockHeldAlways(start, run);
    FailureRemembered(s, t, token, reply);
    LockHeldStep(s, Receive(t, reply));
    KeyedStep(s, Receive(t, reply));
    FailureShared(Next(s, Receive(t, reply)), later, token, Judge(reply).error, u);
  }

  lemma StartOrderly(mode: Mode, key: Token)
    ensures Keyed(Start(mode, Some(key))) && LockHeld(Start(mode, Some(key)))
  {
  }

  // ----- when single flight holds, exactly -----

  /** `run` makes fresh tokens the key and only the changes allowed, and posts for `token` twice. */
  ghost predicate Breaks(s: State, run: seq<Action>, token: Token, sets: bool, resets: bool) {
    && Runs(s, run) && AllFresh(s, run) && AllAllowed(run, sets, resets)
    && multiset(After(s, run).posts)[Some(token)] > 1
  }

  ghost predicate CanBreak(s: State, token: Token, sets: bool, resets: bool) {
    exists run :: Breaks(s, run, token, sets, resets)
  }

  lemma Back(s: State, a: Action, token: Token, sets: bool, resets: bool)
    requires Enabled(s, a) && Fresh(s, a) && Allowed(a, sets, resets)
    ensures CanBreak(Next(s, a), token, sets, resets) ==> CanBreak(s, token, sets, resets)
  {
    if CanBreak(Next(s, a), token, sets, resets) {
      var run :| Breaks(Next(s, a), run, token, sets, resets);
      assert ([a] + run)[1..] == run;
      assert Breaks(s, [a] + run, token, sets, resets);
    }
  }

  /** Thread `x` is at `pc` now, and the others are where they were. */
  ghost predicate Moved(s: State, s': State, x: Thread, pc: Pc) {
    PcOf(s', x) == pc && forall y: Thread :: y != x ==> PcOf(s', y) == PcOf(s, y)
  }

  /** Whatever can go wrong from `s'` can go wrong from `s`. */
  ghost predicate Before(s: State, s': State, token: Token, sets: bool, resets: bool) {
    CanBreak(s', token, sets, resets) ==> CanBreak(s, token, sets, resets)
  }

  lemma Rejected(s: State, x: Thread, token: Token, sets: bool, resets: bool) returns (s': State)
    requires PcOf(s, x).Reading? && s.client.mode == Mode.Session
    ensures Before(s, s', token, sets, resets) && Moved(s, s', x, Blocked(s.client.key, BeforeReplay))
    ensures s'.(pcs := s.pcs) == s
  {
    hide CanBreak;
    var s1 := Next(s, ReadKey(x));
    var s2 := Next(s1, Respond(x, true));
    s' := Next(s2, SeeModeAgain(x));
    Back(s2, SeeModeAgain(x), token, sets, resets);
    Back(s1, Respond(x, true), token, sets, resets);
    Back(s, ReadKey(x), token, sets, resets);
  }

  /** Thread `x` calls, sends the current token and is rejected with it. */
  lemma CallRejected(s: State, x: Thread, token: Token, sets: bool, resets: bool) returns (s': State)
    requires (PcOf(s, x).Idle? || PcOf(s, x).Raised?) && s.client.mode == Mode.Session && s.client.key.Some?
    ensures Before(s, s', token, sets, resets) && Moved(s, s', x, Blocked(s.client.key, BeforeReplay))
    ensures s'.(pcs := s.pcs) == s
  {
    hide CanBreak;
    var s1 := Next(s, Call(x));
    var s2 := Next(s1, SeeMode(x));
    var s3 := Next(s2, SeeKey(x));
    s' := Rejected(s3, x, token, sets, resets);
    Back(s2, SeeKey(x), token, sets, resets);
    Back(s1, SeeMode(x), token, sets, resets);
    Back(s, Call(x), token, sets, resets);
  }

  /** Thread `x` gets the lock and posts. */
  lemma PostsNow(s: State, x: Thread, token: Token, sets: bool, resets: bool) returns (s': State)
    requires s.lock.None? && PcOf(s, x).Blocked? && !Remembers(s, PcOf(s, x).observed)
    requires PcOf(s, x).observed.Some? ==> s.client.key == PcOf(s, x).observed
    ensures var pc := PcOf(s, x);
            && Before(s, s', token, sets, resets) && Moved(s, s', x, Posting(pc.observed, pc.purpose))
            && s'.client == s.client && s'.lock == Some(x) && s'.installed == s.installed
            && s'.posts == s.posts + [pc.observed]
  {
    hide CanBreak;
    var s1 := Next(s, Acquire(x));
    var s2 := Next(s1, CheckKey(x));
    s' := Next(s2, CheckMemo(x));
    Back(s2, CheckMemo(x), token, sets, resets);
    Back(s1, CheckKey(x), token, sets, resets);
    Back(s, Acquire(x), token, sets, resets);
  }

  /** Thread `x` refreshes in vain. */
  lemma RefreshFails(s: State, x: Thread, token: Token, sets: bool, resets: bool) returns (s': State)
    requires s.lock.None? && PcOf(s, x).Blocked? && !Remembers(s, PcOf(s, x).observed)
    requires PcOf(s, x).observed.Some? ==> s.client.key == PcOf(s, x).observed
    ensures var o := PcOf(s, x).observed;
            && Before(s, s', token, sets, resets) && Moved(s, s', x, Raised(Timeout))
            && s'.client == s.client.(memo := Some(Memo(o, Timeout))) && s'.lock.None?
            && s'.installed == s.installed && s'.posts == s.posts + [o]
  {
    hide CanBreak;
    var s1 := PostsNow(s, x, token, sets, resets);
    s' := Next(s1, Receive(x, NoReply(Timeout)));
    Back(s1, Receive(x, NoReply(Timeout)), token, sets, resets);
  }

  /** Where a thread that makes a change goes after its write. */
  function Onward(pc: Pc): Pc
    requires pc.Changing? || pc.Installing?
  {
    match pc
    case Changing(change, stage) => if stage.SetHeader? then Idle else Changing(change, NextStage(stage))
    case Installing(o, purpose, token, stage) =>
      if stage.SetHeader? then Resume(o, purpose) else Installing(o, purpose, token, NextStage(stage))
  }

  lemma WritesOnce(s: State, x: Thread, token: Token, sets: bool, resets: bool) returns (s': State)
    requires (PcOf(s, x).Changing? || PcOf(s, x).Installing?) && Fresh(s, Write(x))
    ensures var pc := PcOf(s, x);
            && Before(s, s', token, sets, resets) && Moved(s, s', x, Onward(pc)) && s'.posts == s.posts
            && s'.client == Written(s.client, ChangeOf(pc), pc.stage)
            && s'.lock == (if pc.Installing? && pc.stage.SetHeader? then None else s.lock)
            && s'.installed == s.installed + (if NewKey(s, Write(x)).Some? then {NewKey(s, Write(x)).value} else {})
  {
    hide CanBreak;
    s' := Next(s, Write(x));
    Back(s, Write(x), token, sets, resets);
  }

  /** All writes of a change, or of the installation of a refreshed token. */
  lemma WritesAll(s: State, x: Thread, token: Token, sets: bool, resets: bool) returns (s': State)
    requires (PcOf(s, x).Changing? || PcOf(s, x).Installing?) && PcOf(s, x).stage.WriteMode?
    requires ChangeOf(PcOf(s, x)).Some? ==> ChangeOf(PcOf(s, x)).value !in s.installed
    ensures var pc := PcOf(s, x);
            var change := ChangeOf(pc);
            && Before(s, s', token, sets, resets)
            && Moved(s, s', x, if pc.Changing? then Idle else Resume(pc.observed, pc.purpose))
            && s'.client == (if change.Some? then WithToken(s.client, change.value) else WithBasic(s.client))
            && s'.lock == (if pc.Changing? then s.lock else None) && s'.posts == s.posts
            && s'.installed == s.installed + (if change.Some? then {change.value} else {})
  {
    WritesMakeChange(s.client, ChangeOf(PcOf(s, x)));
    hide CanBreak, Written, WithToken, WithBasic;
    var s1 := WritesOnce(s, x, token, sets, resets);
    var s2 := WritesOnce(s1, x, token, sets, resets);
    var s3 := WritesOnce(s2, x, token, sets, resets);
    var s4 := WritesOnce(s3, x, token, sets, resets);
    s' := WritesOnce(s4, x, token, sets, resets);
  }

  /** Thread `x`, which observed None, refreshes before sending and gets the token `t`. */
  lemma RefreshGets(s: State, x: Thread, t: Token, sets: bool, resets: bool) returns (s': State)
    requires s.lock.None? && PcOf(s, x) == Blocked(None, BeforeSending) && !Remembers(s, None)
    requires t != "" && t !in s.installed
    ensures Before(s, s', t, sets, resets) && Moved(s, s', x, Reading)
    ensures s'.client == WithToken(s.client, t) && s'.lock.None?
    ensures s'.posts == s.posts + [None] && s'.installed == s.installed + {t}
  {
    hide CanBreak;
    var s1 := PostsNow(s, x, t, sets, resets);
    var s2 := Next(s1, Receive(x, Answer(201, Some(t))));
    s' := WritesAll(s2, x, t, sets, resets);
    Back(s1, Receive(x, Answer(201, Some(t))), t, sets, resets);
  }

  /** Thread `x` is about to refresh for the current token, which was posted before, and nothing is remembered
      about it. */
  lemma PostsTwice(s: State, x: Thread, t: Token, sets: bool, resets: bool)
    requires s.lock.None? && PcOf(s, x).Blocked? && PcOf(s, x).observed == Some(t) == s.client.key
    requires !Remembers(s, Some(t)) && Some(t) in s.posts
    ensures CanBreak(s, t, sets, resets)
  {
    var s' := PostsNow(s, x, t, sets, resets);
    assert Breaks(s', [], t, sets, resets);
  }

  /** A change to `t` has written the key but not yet cleared the memory: another thread fails to refresh `t`, its
      failure is cleared, and it posts for `t` again. */
  lemma TornChangeBreaks(s: State, t: Token, resets: bool)
    requires PcOf(s, 0) == Idle && PcOf(s, 1) == Idle && s.lock.None? && s.client.memo.None?
    requires t != "" && t !in s.installed
    ensures CanBreak(s, t, true, resets)
  {
    var s1 := Next(s, Change(0, Some(t)));
    var s2 := Next(s1, Write(0));
    var s3 := Next(s2, Write(0));
    TornChangeHalfway(s3, t, resets);
    hide CanBreak;
    Back(s2, Write(0), t, true, resets);
    Back(s1, Write(0), t, true, resets);
    Back(s, Change(0, Some(t)), t, true, resets);
  }

  lemma TornChangeHalfway(s: State, t: Token, resets: bool)
    requires PcOf(s, 0) == Changing(Some(t), WriteMemo) && PcOf(s, 1) == Idle && s.lock.None?
    requires s.client.memo.None? && s.client.mode == Mode.Session && s.client.key == Some(t)
    ensures CanBreak(s, t, true, resets)
  {
    hide CanBreak;
    var s1 := CallRejected(s, 1, t, true, resets);
    var s2 := RefreshFails(s1, 1, t, true, resets);
    var s3 := Next(s2, Write(0));
    Back(s2, Write(0), t, true, resets);
    var s4 := CallRejected(s3, 1, t, true, resets);
    PostsTwice(s4, 1, t, true, resets);
  }

  /** Two threads have observed None: one gets the token `t` and fails to refresh it, the other overwrites the
      remembered failure, and `t` is posted for again. */
  lemma BlindPairBreaks(s: State, t: Token, sets: bool, resets: bool)
    requires PcOf(s, 0) == PcOf(s, 1) == Blocked(None, BeforeSending) && s.lock.None? && s.client.memo.None?
    requires t != "" && t !in s.installed
    ensures CanBreak(s, t, sets, resets)
  {
    hide CanBreak;
    var s1 := RefreshGets(s, 1, t, sets, resets);
    var s2 := Rejected(s1, 1, t, sets, resets);
    var s3 := RefreshFails(s2, 1, t, sets, resets);
    var s4 := RefreshFails(s3, 0, t, sets, resets);
    var s5 := CallRejected(s4, 1, t, sets, resets);
    PostsTwice(s5, 1, t, sets, resets);
  }

  /** Thread `x` calls and sees Session mode. */
  lemma SeesSession(s: State, x: Thread, t: Token, sets: bool, resets: bool) returns (s': State)
    requires PcOf(s, x).Idle? && s.client.mode == Mode.Session
    ensures Before(s, s', t, sets, resets) && Moved(s, s', x, ModeSeen) && s'.(pcs := s.pcs) == s
  {
    hide CanBreak;
    var s1 := Next(s, Call(x));
    s' := Next(s1, SeeMode(x));
    Back(s1, SeeMode(x), t, sets, resets);
    Back(s, Call(x), t, sets, resets);
  }

  lemma BothSeeNone(s: State, t: Token, sets: bool, resets: bool)
    requires PcOf(s, 0) == PcOf(s, 1) == ModeSeen && s.lock.None? && s.client.memo.None? && s.client.key.None?
    requires t != "" && t !in s.installed
    ensures CanBreak(s, t, sets, resets)
  {
    hide CanBreak;
    var s1 := Next(s, SeeKey(0));
    var s2 := Next(s1, SeeKey(1));
    BlindPairBreaks(s2, t, sets, resets);
    Back(s1, SeeKey(1), t, sets, resets);
    Back(s, SeeKey(0), t, sets, resets);
  }

  /** In Session mode without a token, two callers are enough. */
  lemma BlindRefreshBreaks(t: Token, sets: bool, resets: bool)
    requires t != ""
    ensures CanBreak(Start(Mode.Session, None), t, sets, resets)
  {
    hide CanBreak;
    var s1 := SeesSession(Start(Mode.Session, None), 0, t, sets, resets);
    var s2 := SeesSession(s1, 1, t, sets, resets);
    BothSeeNone(s2, t, sets, resets);
  }

  /** In Session mode with a token, two callers and a reset are. */
  lemma ResetBreaks(key: Option<Token>, t: Token, sets: bool)
    requires t != "" && key != Some(t)
    ensures CanBreak(Start(Mode.Session, key), t, sets, true)
  {
    hide CanBreak;
    var s1 := SeesSession(Start(Mode.Session, key), 0, t, sets, true);
    var s2 := SeesSession(s1, 1, t, sets, true);
    var s3 := Next(s2, Change(2, None));
    Back(s2, Change(2, None), t, sets, true);
    var s4 := WritesAll(s3, 2, t, sets, true);
    BothSeeNone(s4, t, sets, true);
  }

  /** From every start one explicit token is. */
  lemma SetBreaks(mode: Mode, key: Option<Token>, t: Token, resets: bool)
    requires t != "" && key != Some(t)
    ensures CanBreak(Start(mode, key), t, true, resets)
  {
    TornChangeBreaks(Start(mode, key), t, resets);
  }

  /** In Basic mode, and nobody setting a token: nobody refreshes. */
  ghost predicate StaysBasic(s: State) {
    && s.client.mode == Basic && s.posts == []
    && forall t :: t in s.pcs ==>
         !HoldsLock(s.pcs[t]) && !s.pcs[t].ModeSeen? && !s.pcs[t].Blocked?
         && (s.pcs[t].Changing? ==> s.pcs[t].change.None?)
  }

  lemma BasicStep(s: State, a: Action)
    requires StaysBasic(s) && Enabled(s, a) && Allowed(a, false, true)
    ensures StaysBasic(Next(s, a))
  {
  }

  lemma {:induction false} BasicNeverPosts(s: State, run: seq<Action>, resets: bool)
    requires StaysBasic(s) && Runs(s, run) && AllAllowed(run, false, resets)
    ensures After(s, run).posts == []
    decreases |run|
  {
    if run != [] {
      AllowedTail(run, false, resets);
      BasicStep(s, run[0]);
      BasicNeverPosts(Next(s, run[0]), run[1..], resets);
    }
  }

  /** Over all interleavings with fresh tokens, in which tokens are set explicitly only if `sets`, and reset only
      if `resets`: no token is ever posted for twice exactly if none is set explicitly and the client either stays
      in Basic mode or has a token from the start and is not reset. */
  lemma SingleFlightExactly(mode: Mode, key: Option<Token>, sets: bool, resets: bool)
    ensures (forall token :: !CanBreak(Start(mode, key), token, sets, resets))
            <==> !sets && (mode == Basic || (key.Some? && !resets))
  {
    var t := if key == Some("t") then "u" else "t";
    if sets {
      SetBreaks(mode, key, t, resets);
    } else if mode == Mode.Session && key.None? {
      BlindRefreshBreaks(t, sets, resets);
    } else if mode == Mode.Session && resets {
      ResetBreaks(key, t, sets);
    } else {
      forall token, run ensures !Breaks(Start(mode, key), run, token, sets, resets) {
        if Runs(Start(mode, key), run) && AllFresh(Start(mode, key), run) && AllAllowed(run, sets, resets) {
          if mode == Basic {
            BasicNeverPosts(Start(mode, key), run, resets);
          } else {
            SingleFlightFromToken(mode, key.value, run, token);
          }
        }
      }
    }
  }
}
