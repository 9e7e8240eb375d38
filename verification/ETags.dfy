/** The client's ETag cache, and why a conditional PATCH cannot overwrite a version it has not seen. The service
    follows the If-Match rule of section 13.1.1 of RFC 9110. */
module ETags {
  import opened Wrappers

  datatype IfMatch = Any | Tag(tag: string)

  /** The cache after a response; one without an ETag, or with an empty one, changes nothing. */
  function Stored(last: map<string, string>, path: string, header: Option<string>): map<string, string> {
    if NonEmpty(header).Some? then last[path := header.value] else last
  }

  /** What an If-Match header means. */
  function Meaning(header: string): IfMatch {
    if header == "*" then Any else Tag(header)
  }

  /** The If-Match header: the body's own ETag, else the cached one, else the wildcard. */
  function HeaderFor(last: map<string, string>, path: string, bodyTag: Option<string>): string {
    if NonEmpty(bodyTag).Some? then bodyTag.value
    else if path in last then last[path]
    else "*"
  }

  /** The condition it states. */
  function ConditionFor(last: map<string, string>, path: string, bodyTag: Option<string>): (m: IfMatch)
    ensures m == Any <==>
            if NonEmpty(bodyTag).Some? then bodyTag == Some("*") else path !in last || last[path] == "*"
  {
    Meaning(HeaderFor(last, path, bodyTag))
  }

  /** Which ETag is sent: the body's if it has one, else the cached one, else the wildcard. */
  lemma HeaderExactly(last: map<string, string>, path: string, bodyTag: Option<string>)
    ensures bodyTag.Some? && bodyTag.value != "" ==> HeaderFor(last, path, bodyTag) == bodyTag.value
    ensures (bodyTag.None? || bodyTag.value == "") && path in last ==> HeaderFor(last, path, bodyTag) == last[path]
    ensures (bodyTag.None? || bodyTag.value == "") && path !in last ==> HeaderFor(last, path, bodyTag) == "*"
  {
  }

  /** What was received last for a path is what is sent for it, and for no other path. */
  lemma StoredIsSent(last: map<string, string>, path: string, header: Option<string>, other: string)
    ensures HeaderFor(Stored(last, path, header), other, None) ==
            if other == path && header.Some? && header.value != "" then header.value else HeaderFor(last, other, None)
  {
  }

  lemma MeaningExactly(header: string)
    ensures Meaning(header) == Any <==> header == "*"
    ensures header != "*" ==> Meaning(header) == Tag(header)
  {
  }

  class EtagCache {
    var last: map<string, string>

    constructor ()
      ensures last == map[]
    {
      last := map[];
    }

    /** Called for every response, before its status is looked at. */
    method Store(path: string, header: Option<string>)
      modifies this
      ensures last == Stored(old(last), path, header)
      ensures forall p :: p != path ==> (p in last <==> p in old(last)) && (p in last ==> last[p] == old(last)[p])
    {
      if header.Some? && header.value != "" {
        last := last[path := header.value];
      }
    }

    /** The If-Match header a PATCH is sent with. */
    method Header(path: string, bodyTag: Option<string>) returns (header: string)
      ensures header == HeaderFor(last, path, bodyTag)
    {
      if bodyTag.Some? && bodyTag.value != "" { return bodyTag.value; }
      return if path in last then last[path] else "*";
    }

    /** A generic PATCH reads the resource first when no ETag is cached; `header` is the ETag of that answer, if
        any, also when its status was an error. */
    method PrimedHeader(path: string, header: Option<string>) returns (sent: string, read: bool)
      modifies this
      ensures read <==> path !in old(last)
      ensures last == if read then Stored(old(last), path, header) else old(last)
      ensures sent == if path in old(last) then old(last)[path]
                      else if NonEmpty(header).Some? then header.value else "*"
    {
      read := path !in last;
      if read {
        Store(path, header);
      }
      sent := Header(path, None);
    }
  }

  // ----- client, service and foreign writers, step by step -----

  type Path = string

  /** An ETag on its way or in the cache, with the version that was current when the service sent it. */
  datatype Stamp = Stamp(tag: string, version: nat)

  datatype Response = Response(path: Path, stamp: Option<Stamp>)

  datatype Patch = Patch(path: Path, condition: IfMatch, basis: Option<nat>)

  /** One successful PATCH: what its If-Match was based on, and which version it replaced. */
  datatype Applied = Applied(path: Path, condition: IfMatch, basis: Option<nat>, replaced: nat)

  /** `history` lists the ETags of all versions of each resource; the last one is current. */
  datatype World = World(
    history: map<Path, seq<string>>, cache: map<Path, Stamp>,
    responses: multiset<Response>, patches: multiset<Patch>, applied: seq<Applied>)

  datatype Step =
    | ForeignWrite(path: Path, tag: string)
    | Answer(path: Path, withTag: bool)
    | Deliver(response: Response)
    | SendPatch(path: Path)
    | SendOverride(path: Path, condition: IfMatch)
    | Handle(patch: Patch, tag: string, answerTag: bool)

  function VersionsOf(w: World, path: Path): seq<string> {
    if path in w.history then w.history[path] else []
  }

  /** The ETag header of an answer sent now, if the service includes one. */
  function CurrentStamp(w: World, path: Path, withTag: bool): Option<Stamp> {
    var vs := VersionsOf(w, path);
    if withTag && vs != [] then Some(Stamp(vs[|vs| - 1], |vs| - 1)) else None
  }

  /** The If-Match rule: with no current version the condition is false, the wildcard's too. */
  predicate Holds(w: World, path: Path, condition: IfMatch) {
    var vs := VersionsOf(w, path);
    vs != [] && (condition == Any || condition == Tag(vs[|vs| - 1]))
  }

  /** Assumptions about the service: one ETag per version, never empty, never the wildcard. */
  predicate NewTag(w: World, path: Path, tag: string) {
    tag != "" && tag != "*" && tag !in VersionsOf(w, path)
  }

  predicate Enabled(w: World, s: Step) {
    match s
    case ForeignWrite(path, tag) => NewTag(w, path, tag)
    case Answer(_, _) => true
    case Deliver(response) => response in w.responses
    case SendPatch(_) => true
    case SendOverride(_, _) => true
    case Handle(patch, tag, _) => patch in w.patches && NewTag(w, patch.path, tag)
  }

  function Write(w: World, path: Path, tag: string): World {
    w.(history := w.history[path := VersionsOf(w, path) + [tag]])
  }

  function Reply(w: World, path: Path, withTag: bool): World {
    w.(responses := w.responses + multiset{Response(path, CurrentStamp(w, path, withTag))})
  }

  /** The PATCH the client sends without a body ETag, with the version its condition is based on. */
  function PatchFor(w: World, path: Path): Patch {
    if path in w.cache && w.cache[path].tag != "*" then
      Patch(path, Tag(w.cache[path].tag), Some(w.cache[path].version))
    else Patch(path, Any, None)
  }

  function Sent(w: World, patch: Patch): World {
    w.(patches := w.patches + multiset{patch})
  }

  function Next(w: World, s: Step): World
    requires Enabled(w, s)
  {
    match s
    case ForeignWrite(path, tag) => Write(w, path, tag)
    case Answer(path, withTag) => Reply(w, path, withTag)
    case Deliver(response) =>
      var w' := w.(responses := w.responses - multiset{response});
      if response.stamp.Some? && response.stamp.value.tag != "" then
        w'.(cache := w.cache[response.path := response.stamp.value])
      else w'
    case SendPatch(path) => Sent(w, PatchFor(w, path))
    case SendOverride(path, condition) => Sent(w, Patch(path, condition, None))
    case Handle(patch, tag, answerTag) =>
      var w' := w.(patches := w.patches - multiset{patch});
      if Holds(w, patch.path, patch.condition) then
        var entry := Applied(patch.path, patch.condition, patch.basis, |VersionsOf(w, patch.path)| - 1);
        Reply(Write(w', patch.path, tag), patch.path, answerTag).(applied := w.applied + [entry])
      else
        Reply(w', patch.path, answerTag)
  }

  predicate Runs(w: World, run: seq<Step>)
    decreases |run|
  {
    run == [] || (Enabled(w, run[0]) && Runs(Next(w, run[0]), run[1..]))
  }

  function After(w: World, run: seq<Step>): World
    requires Runs(w, run)
    decreases |run|
  {
    if run == [] then w else After(Next(w, run[0]), run[1..])
  }

  const START: World := World(map[], map[], multiset{}, multiset{}, [])

  ghost predicate OneTagPerVersion(w: World) {
    forall p :: p in w.history ==>
      && (forall i, j :: 0 <= i < j < |w.history[p]| ==> w.history[p][i] != w.history[p][j])
      && forall i :: 0 <= i < |w.history[p]| ==> w.history[p][i] != "*" && w.history[p][i] != ""
  }

  /** The version a stamp names carries the stamp's ETag. */
  predicate Genuine(w: World, path: Path, tag: string, version: nat) {
    version < |VersionsOf(w, path)| && VersionsOf(w, path)[version] == tag
  }

  ghost predicate StampsGenuine(w: World) {
    && (forall p :: p in w.cache ==> Genuine(w, p, w.cache[p].tag, w.cache[p].version))
    && (forall r :: r in w.responses && r.stamp.Some? ==> Genuine(w, r.path, r.stamp.value.tag, r.stamp.value.version))
    && forall q :: q in w.patches && q.basis.Some? ==>
        q.condition.Tag? && Genuine(w, q.path, q.condition.tag, q.basis.value)
  }

  ghost predicate NoLostUpdate(w: World) {
    forall k :: 0 <= k < |w.applied| && w.applied[k].basis.Some? ==> w.applied[k].replaced == w.applied[k].basis.value
  }

  ghost predicate Inv(w: World) {
    OneTagPerVersion(w) && StampsGenuine(w) && NoLostUpdate(w)
  }

  /** Versions are only ever added. */
  ghost predicate Extends(w: World, w': World) {
    forall p, tag, v :: Genuine(w, p, tag, v) ==> Genuine(w', p, tag, v)
  }

  lemma WriteKeeps(w: World, path: Path, tag: string)
    requires Inv(w) && NewTag(w, path, tag)
    ensures Inv(Write(w, path, tag)) && Extends(w, Write(w, path, tag))
  {
    var w' := Write(w, path, tag);
    assert Extends(w, w');
  }

  lemma ReplyKeeps(w: World, path: Path, withTag: bool)
    requires Inv(w)
    ensures Inv(Reply(w, path, withTag))
  {
    var w' := Reply(w, path, withTag);
    assert Extends(w, w');
    var r := Response(path, CurrentStamp(w, path, withTag));
    assert forall r' :: r' in w'.responses ==> r' in w.responses || r' == r;
  }

  lemma DeliverKeeps(w: World, response: Response)
    requires Inv(w) && response in w.responses
    ensures Inv(Next(w, Deliver(response)))
  {
    var w' := Next(w, Deliver(response));
    assert Extends(w, w');
    assert forall r :: r in w'.responses ==> r in w.responses;
  }

  lemma SendKeeps(w: World, patch: Patch)
    requires Inv(w)
    requires patch.basis.Some? ==>
               patch.condition.Tag? && Genuine(w, patch.path, patch.condition.tag, patch.basis.value)
    ensures Inv(Sent(w, patch))
  {
    var w' := Sent(w, patch);
    assert Extends(w, w');
    assert forall q :: q in w'.patches ==> q in w.patches || q == patch;
  }

  /** A condition that came from the cache holds only if the version it was seen with is still current. */
  lemma BasisIsCurrent(w: World, patch: Patch)
    requires Inv(w) && patch in w.patches && patch.basis.Some? && Holds(w, patch.path, patch.condition)
    ensures patch.condition.Tag? && patch.basis.value == |VersionsOf(w, patch.path)| - 1
  {
    var vs := VersionsOf(w, patch.path);
    assert vs[patch.basis.value] == vs[|vs| - 1];
  }

  lemma TakeKeeps(w: World, patch: Patch)
    requires Inv(w)
    ensures Inv(w.(patches := w.patches - multiset{patch}))
  {
    var w' := w.(patches := w.patches - multiset{patch});
    assert forall q :: q in w'.patches ==> q in w.patches;
    assert Extends(w, w');
  }

  lemma HandleKeeps(w: World, patch: Patch, tag: string, answerTag: bool)
    requires Inv(w) && patch in w.patches && NewTag(w, patch.path, tag)
    ensures Inv(Next(w, Handle(patch, tag, answerTag)))
  {
    hide Inv;
    var w1 := w.(patches := w.patches - multiset{patch});
    TakeKeeps(w, patch);
    if Holds(w, patch.path, patch.condition) {
      var entry := Applied(patch.path, patch.condition, patch.basis, |VersionsOf(w, patch.path)| - 1);
      if patch.basis.Some? { BasisIsCurrent(w, patch); }
      WriteKeeps(w1, patch.path, tag);
      ReplyKeeps(Write(w1, patch.path, tag), patch.path, answerTag);
      AppliedKeeps(Reply(Write(w1, patch.path, tag), patch.path, answerTag), entry);
    } else {
      ReplyKeeps(w1, patch.path, answerTag);
    }
  }

  lemma AppliedKeeps(w: World, entry: Applied)
    requires Inv(w) && (entry.basis.Some? ==> entry.replaced == entry.basis.value)
    ensures Inv(w.(applied := w.applied + [entry]))
  {
    assert Extends(w, w.(applied := w.applied + [entry]));
  }

  lemma InvStep(w: World, s: Step)
    requires Inv(w) && Enabled(w, s)
    ensures Inv(Next(w, s))
  {
    hide Inv;
    match s
    case ForeignWrite(path, tag) => WriteKeeps(w, path, tag);
    case Answer(path, withTag) => ReplyKeeps(w, path, withTag);
    case Deliver(response) => DeliverKeeps(w, response);
    case SendPatch(path) =>
      CacheGenuine(w);
      SendKeeps(w, PatchFor(w, path));
    case SendOverride(path, condition) => SendKeeps(w, Patch(path, condition, None));
    case Handle(patch, tag, answerTag) => HandleKeeps(w, patch, tag, answerTag);
  }

  lemma CacheGenuine(w: World)
    requires Inv(w)
    ensures forall p :: p in w.cache ==> Genuine(w, p, w.cache[p].tag, w.cache[p].version)
  {
  }

  lemma {:induction false} InvAlways(w: World, run: seq<Step>)
    requires Inv(w) && Runs(w, run)
    ensures Inv(After(w, run))
    decreases |run|
  {
    if run != [] {
      InvStep(w, run[0]);
      InvAlways(Next(w, run[0]), run[1..]);
    }
  }

  /** In every run, whatever foreign writers do and however answers are delayed or reordered: a successful
      PATCH whose If-Match came from the cache replaced exactly the version that was current when the service
      sent that ETag, so no version in between was overwritten unseen. */
  lemma CachedPatchReplacesWhatWasSeen(run: seq<Step>, k: nat)
    requires Runs(START, run) && k < |After(START, run).applied| && After(START, run).applied[k].basis.Some?
    ensures After(START, run).applied[k].replaced == After(START, run).applied[k].basis.value
  {
    InvAlways(START, run);
  }

  // ----- the client of the machine is the cache above -----

  /** The ETags of the machine's cache, without the versions they came with. */
  function Tags(cache: map<Path, Stamp>): map<string, string> {
    map p | p in cache :: cache[p].tag
  }

  /** Receiving a response and sending a PATCH do in the machine what `Store` and `Condition` do. */
  lemma ClientIsEtagCache(w: World, response: Response, path: Path)
    requires response in w.responses
    ensures Tags(Next(w, Deliver(response)).cache) ==
            Stored(Tags(w.cache), response.path, if response.stamp.Some? then Some(response.stamp.value.tag) else None)
    ensures PatchFor(w, path).condition == ConditionFor(Tags(w.cache), path, None)
  {
  }

  // ----- when a PATCH is protected, exactly -----

  lemma WriteExtends(w: World, w': World, q: Path, tag: string, path: Path)
    requires w'.history == Write(w, q, tag).history
    ensures VersionsOf(w, path) <= VersionsOf(w', path)
  {
  }

  lemma HandleExtends(w: World, patch: Patch, tag: string, answerTag: bool, path: Path)
    requires Enabled(w, Handle(patch, tag, answerTag))
    ensures VersionsOf(w, path) <= VersionsOf(Next(w, Handle(patch, tag, answerTag)), path)
  {
    hide VersionsOf, Holds, CurrentStamp, NewTag;
    var w' := Next(w, Handle(patch, tag, answerTag));
    if Holds(w, patch.path, patch.condition) {
      SameVersions(w, w.(patches := w.patches - multiset{patch}), patch.path);
      WriteExtends(w, w', patch.path, tag, path);
    } else {
      SameVersions(w, w', path);
    }
  }

  lemma StepExtends(w: World, s: Step, path: Path)
    requires Enabled(w, s)
    ensures VersionsOf(w, path) <= VersionsOf(Next(w, s), path)
  {
    hide VersionsOf, Holds, CurrentStamp, NewTag;
    match s
    case ForeignWrite(q, tag) => WriteExtends(w, Next(w, s), q, tag, path);
    case Handle(patch, tag, answerTag) => HandleExtends(w, patch, tag, answerTag, path);
    case _ => SameVersions(w, Next(w, s), path);
  }

  lemma SameVersions(w: World, w': World, path: Path)
    requires w'.history == w.history
    ensures VersionsOf(w', path) == VersionsOf(w, path)
  {
  }

  lemma {:induction false} VersionsExtend(w: World, run: seq<Step>, path: Path)
    requires Runs(w, run)
    ensures VersionsOf(w, path) <= VersionsOf(After(w, run), path)
    decreases |run|
  {
    if run != [] {
      StepExtends(w, run[0], path);
      VersionsExtend(Next(w, run[0]), run[1..], path);
    }
  }

  /** A PATCH sent now can, whatever happens until it is handled, only be applied to the version that is current
      now: no write in between is overwritten. */
  ghost predicate Protected(w: World, patch: Patch) {
    forall run ::
      Runs(Sent(w, patch), run) && Holds(After(Sent(w, patch), run), patch.path, patch.condition) ==>
        VersionsOf(After(Sent(w, patch), run), patch.path) == VersionsOf(w, patch.path)
  }

  /** The condition names a version that exists, or an ETag that no version can ever have. */
  predicate NamesVersion(w: World, path: Path, condition: IfMatch) {
    condition.Tag? && (condition.tag in VersionsOf(w, path) || condition.tag == "" || condition.tag == "*")
  }

  ghost predicate BasisGenuine(w: World, patch: Patch) {
    patch.basis.Some? ==> patch.condition.Tag? && Genuine(w, patch.path, patch.condition.tag, patch.basis.value)
  }

  lemma NamedIsProtected(w: World, patch: Patch, run: seq<Step>)
    requires Inv(w) && BasisGenuine(w, patch) && NamesVersion(w, patch.path, patch.condition)
    requires Runs(Sent(w, patch), run) && Holds(After(Sent(w, patch), run), patch.path, patch.condition)
    ensures VersionsOf(After(Sent(w, patch), run), patch.path) == VersionsOf(w, patch.path)
    ensures VersionsOf(w, patch.path) != [] &&
        patch.condition == Tag(VersionsOf(w, patch.path)[|VersionsOf(w, patch.path)| - 1])
  {
    SendKeeps(w, patch);
    InvAlways(Sent(w, patch), run);
    VersionsExtend(Sent(w, patch), run, patch.path);
    LatestOnly(w, After(Sent(w, patch), run), patch.path, patch.condition.tag);
  }

  lemma LatestOnly(w: World, w': World, path: Path, tag: string)
    requires Inv(w) && Inv(w') && NamesVersion(w, path, Tag(tag)) && VersionsOf(w, path) <= VersionsOf(w', path)
    requires Holds(w', path, Tag(tag))
    ensures VersionsOf(w, path) != [] && VersionsOf(w', path) == VersionsOf(w, path)
    ensures tag == VersionsOf(w, path)[|VersionsOf(w, path)| - 1]
  {
    var vs := VersionsOf(w', path);
    assert vs[|vs| - 1] == tag;
    var v :| 0 <= v < |VersionsOf(w, path)| && VersionsOf(w, path)[v] == tag;
    assert vs[v] == vs[|vs| - 1];
  }

  /** Without a cached ETag, from any state: another writer stores a version after the PATCH was sent, which no
      answer has carried yet, and the PATCH replaces it. */
  lemma WildcardOverwritesUnseen(w: World, path: Path, t1: string, t2: string)
    requires path !in w.cache && NewTag(w, path, t1) && NewTag(w, path, t2) && t1 != t2
    ensures var run := [SendPatch(path), ForeignWrite(path, t1), Handle(Patch(path, Any, None), t2, false)];
            && Runs(w, run)
            && After(w, run).applied == w.applied + [Applied(path, Any, None, |VersionsOf(w, path)|)]
            && VersionsOf(After(w, run), path) == VersionsOf(w, path) + [t1, t2]
  {
    var run := [SendPatch(path), ForeignWrite(path, t1), Handle(Patch(path, Any, None), t2, false)];
    SentThenWritten(w, path, t1, t2);
    hide Next, Enabled, NewTag, VersionsOf, Runs, After;
    var w1 := Next(w, SendPatch(path));
    var w2 := Next(w1, ForeignWrite(path, t1));
    BlindHandled(w2, path, t2);
    assert VersionsOf(w, path) + [t1] + [t2] == VersionsOf(w, path) + [t1, t2];
    RunOfThree(w, run, w1, w2, Next(w2, run[2]));
  }

  lemma SentThenWritten(w: World, path: Path, t1: string, t2: string)
    requires path !in w.cache && NewTag(w, path, t1) && NewTag(w, path, t2) && t1 != t2
    ensures Enabled(w, SendPatch(path))
    ensures var w1 := Next(w, SendPatch(path));
            && Enabled(w1, ForeignWrite(path, t1))
            && var w2 := Next(w1, ForeignWrite(path, t1));
            && Patch(path, Any, None) in w2.patches && VersionsOf(w2, path) == VersionsOf(w, path) + [t1]
            && w2.applied == w.applied && NewTag(w2, path, t2)
  {
  }

  lemma BlindHandled(w: World, path: Path, tag: string)
    requires Patch(path, Any, None) in w.patches && NewTag(w, path, tag) && VersionsOf(w, path) != []
    ensures var step := Handle(Patch(path, Any, None), tag, false);
            && Enabled(w, step)
            && Next(w, step).applied == w.applied + [Applied(path, Any, None, |VersionsOf(w, path)| - 1)]
            && VersionsOf(Next(w, step), path) == VersionsOf(w, path) + [tag]
  {
  }

  lemma RunOfThree(w: World, run: seq<Step>, w1: World, w2: World, w3: World)
    requires |run| == 3 && Enabled(w, run[0]) && w1 == Next(w, run[0])
    requires Enabled(w1, run[1]) && w2 == Next(w1, run[1]) && Enabled(w2, run[2]) && w3 == Next(w2, run[2])
    ensures Runs(w, run) && After(w, run) == w3
  {
    hide Enabled, Next;
    var last := run[1..][1..];
    assert last[0] == run[2] && last[1..] == [];
    assert Runs(w2, last) && After(w2, last) == w3;
  }

  function Ones(n: nat): (s: string)
    ensures |s| == n
  {
    seq(n, _ => '1')
  }

  lemma {:induction false} LongerThanAll(tags: seq<string>) returns (n: nat)
    ensures n > 1 && forall t :: t in tags ==> |t| < n
  {
    n := 2;
    if tags != [] {
      n := LongerThanAll(tags[1..]);
      if n <= |tags[0]| { n := |tags[0]| + 1; }
    }
  }

  /** There is always another ETag. */
  lemma FreshTag(w: World, path: Path) returns (tag: string)
    ensures NewTag(w, path, tag)
  {
    var n := LongerThanAll(VersionsOf(w, path));
    tag := Ones(n);
  }

  lemma WriteAfterSending(w: World, patch: Patch) returns (run: seq<Step>)
    requires !NamesVersion(w, patch.path, patch.condition)
    ensures Runs(Sent(w, patch), run) && Holds(After(Sent(w, patch), run), patch.path, patch.condition)
    ensures VersionsOf(After(Sent(w, patch), run), patch.path) != VersionsOf(w, patch.path)
  {
    var tag: string;
    if patch.condition.Tag? { tag := patch.condition.tag; } else { tag := FreshTag(w, patch.path); }
    var sent := Sent(w, patch);
    run := [ForeignWrite(patch.path, tag)];
    var w' := Next(sent, ForeignWrite(patch.path, tag));
    assert run[1..] == [];
    assert Runs(w', []) && After(w', []) == w';
    assert Runs(sent, run) && After(sent, run) == w';
    assert VersionsOf(w', patch.path) == VersionsOf(w, patch.path) + [tag];
  }

  lemma SentProtectedExactly(w: World, patch: Patch)
    requires Inv(w) && BasisGenuine(w, patch)
    ensures Protected(w, patch) <==> NamesVersion(w, patch.path, patch.condition)
  {
    hide NamesVersion, BasisGenuine, Inv;
    if NamesVersion(w, patch.path, patch.condition) {
      forall run | Runs(Sent(w, patch), run) && Holds(After(Sent(w, patch), run), patch.path, patch.condition)
        ensures VersionsOf(After(Sent(w, patch), run), patch.path) == VersionsOf(w, patch.path)
      {
        NamedIsProtected(w, patch, run);
      }
    } else {
      var run := WriteAfterSending(w, patch);
    }
  }

  /** In every state a run can reach, a PATCH with a condition of its own, from the body or from the caller, is
      protected exactly if the condition is an ETag the resource has had (or one that no version can have). */
  lemma OverrideProtectedExactly(run: seq<Step>, path: Path, condition: IfMatch)
    requires Runs(START, run)
    ensures var w := After(START, run);
            && Next(w, SendOverride(path, condition)) == Sent(w, Patch(path, condition, None))
            && (Protected(w, Patch(path, condition, None)) <==> NamesVersion(w, path, condition))
  {
    hide NamesVersion, Protected, Runs, After;
    InvAlways(START, run);
    SentProtectedExactly(After(START, run), Patch(path, condition, None));
  }

  /** In every state a run can reach, a PATCH without an ETag of its own is protected exactly if the path has a
      cached ETag. */
  lemma ProtectedExactly(run: seq<Step>, path: Path)
    requires Runs(START, run)
    ensures var w := After(START, run);
            && Next(w, SendPatch(path)) == Sent(w, PatchFor(w, path))
            && (Protected(w, PatchFor(w, path)) <==> path in w.cache)
  {
    InvAlways(START, run);
    var w := After(START, run);
    CachedIsNamed(w, path);
    SentProtectedExactly(w, PatchFor(w, path));
  }

  lemma CachedIsNamed(w: World, path: Path)
    requires Inv(w)
    ensures BasisGenuine(w, PatchFor(w, path))
    ensures NamesVersion(w, path, PatchFor(w, path).condition) <==> path in w.cache
  {
    if path in w.cache { assert Genuine(w, path, w.cache[path].tag, w.cache[path].version); }
  }

  /** A PATCH with a cached ETag that is applied meets no write in between, and its ETag came with the version that
      was current when it was sent. */
  lemma CachedIsProtected(w: World, path: Path, run: seq<Step>)
    requires Inv(w) && path in w.cache && Runs(Next(w, SendPatch(path)), run)
    requires Holds(After(Next(w, SendPatch(path)), run), path, PatchFor(w, path).condition)
    ensures VersionsOf(After(Next(w, SendPatch(path)), run), path) == VersionsOf(w, path)
    ensures w.cache[path].version == |VersionsOf(w, path)| - 1
  {
    CachedIsNamed(w, path);
    CachedPatchIs(w, path);
    NamedIsProtected(w, PatchFor(w, path), run);
    hide *;
    CurrentVersion(w, path);
  }

  lemma CachedPatchIs(w: World, path: Path)
    requires Inv(w) && path in w.cache
    ensures Next(w, SendPatch(path)) == Sent(w, PatchFor(w, path))
    ensures PatchFor(w, path).path == path && PatchFor(w, path).condition == Tag(w.cache[path].tag)
  {
    assert Genuine(w, path, w.cache[path].tag, w.cache[path].version);
  }

  lemma CurrentVersion(w: World, path: Path)
    requires Inv(w) && path in w.cache && VersionsOf(w, path) != []
    requires w.cache[path].tag == VersionsOf(w, path)[|VersionsOf(w, path)| - 1]
    ensures w.cache[path].version == |VersionsOf(w, path)| - 1
  {
    var vs, v := VersionsOf(w, path), w.cache[path].version;
    assert Genuine(w, path, w.cache[path].tag, v);
    assert vs[v] == vs[|vs| - 1];
  }
}
