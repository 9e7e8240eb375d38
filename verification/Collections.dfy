/** Expanding a paged collection: pages chained by next links, members fetched once each, and two error modes. */
module Collections {
  import opened Wrappers
  import opened Sequences

  datatype Error =
    | Fetch(path: string)
    | NoIdentity(path: string)
    | OffOrigin(link: string)
    | PagingLoop(path: string)
    | MalformedPage(path: string)

  /** Member links (an empty one is skipped) and the next link, "" if there is none. */
  datatype Page = Page(members: seq<string>, next: string) | Malformed

  /** A deterministic service: the pages that can be fetched, the outcome of fetching and identifying a member,
      and the path a link leads to from the page it is met on. */
  datatype Service<!T> = Service(
    pages: map<string, Page>,
    member: string -> Result<T, Error>,
    resolve: (string, string) -> Result<string, Error>)

  datatype Stage = AtPage | AtMember

  datatype Failure = Failure(stage: Stage, resource: string, error: Error)

  /** A returned list with its recorded failures, or the error that was raised. */
  datatype Expansion<T> = Returned(members: seq<T>, failures: seq<Failure>) | Raised(error: Error)

  // ----- what happens, in order, when nothing stops at a failure -----

  datatype Event<T> =
    | PageAsked(page: string)
    | Member(path: string, value: T)
    | MemberFailed(path: string, error: Error)
    | LinkRefused(link: string, error: Error)
    | PageFailed(resource: string, error: Error)
    | Fatal(error: Error)

  function MemberEvent<T>(svc: Service<T>, path: string): Event<T> {
    match svc.member(path)
    case Ok(value) => Member(path, value)
    case Err(e) => MemberFailed(path, e)
  }

  /** Why a page cannot be read, if it cannot: a fetch error on the first page is raised in both modes, and so is
      a malformed body. */
  function PageError<T>(svc: Service<T>, page: string, first: bool): Option<Event<T>> {
    if page !in svc.pages then Some(if first then Fatal(Fetch(page)) else PageFailed(page, Fetch(page)))
    else if svc.pages[page].Malformed? then Some(Fatal(MalformedPage(page)))
    else None
  }

  function PageEvents<T>(svc: Service<T>, page: string, visited: set<string>, seen: set<string>): seq<Event<T>>
    decreases |svc.pages.Keys - visited|, 0, 0
  {
    if page == "" then []
    else if page in visited then [PageFailed(page, PagingLoop(page))]
    else if PageError(svc, page, visited == {}).Some? then [PageAsked(page), PageError(svc, page, visited == {}).value]
    else
      VisitShrinks(svc.pages.Keys, visited, page);
      [PageAsked(page)] + LinkEvents(svc, page, svc.pages[page].members, svc.pages[page].next, visited + {page}, seen)
  }

  function LinkEvents<T>(svc: Service<T>, page: string, links: seq<string>, next: string, visited: set<string>,
      seen: set<string>)
    : seq<Event<T>>
    decreases |svc.pages.Keys - visited|, 1, |links|
  {
    if links == [] then
      if next == "" then []
      else match svc.resolve(next, page)
           case Err(e) => [PageFailed(next, e)]
           case Ok(path) => PageEvents(svc, path, visited, seen)
    else if links[0] == "" then LinkEvents(svc, page, links[1..], next, visited, seen)
    else match svc.resolve(links[0], page)
         case Err(e) => [LinkRefused(links[0], e)] + LinkEvents(svc, page, links[1..], next, visited, seen)
         case Ok(path) =>
           if path in seen then LinkEvents(svc, page, links[1..], next, visited, seen)
           else [MemberEvent(svc, path)] + LinkEvents(svc, page, links[1..], next, visited, seen + {path})
  }

  function Events<T>(svc: Service<T>, start: string): seq<Event<T>> {
    match svc.resolve(start, "/")
    case Err(e) => [Fatal(e)]
    case Ok(page) => PageEvents(svc, page, {}, {})
  }

  lemma VisitShrinks(all: set<string>, visited: set<string>, page: string)
    requires page in all && page !in visited
    ensures |all - (visited + {page})| < |all - visited|
  {
    assert all - (visited + {page}) == (all - visited) - {page};
    assert page in all - visited;
  }

  // ----- what each mode makes of the events -----

  predicate IsFailure<T>(e: Event<T>) {
    e.MemberFailed? || e.LinkRefused? || e.PageFailed?
  }

  function Recorded<T>(e: Event<T>): Failure
    requires IsFailure(e)
  {
    match e
    case MemberFailed(path, error) => Failure(AtMember, path, error)
    case LinkRefused(link, error) => Failure(AtMember, link, error)
    case PageFailed(resource, error) => Failure(AtPage, resource, error)
  }

  function FailureOf<T>(e: Event<T>): seq<Failure> {
    if IsFailure(e) then [Recorded(e)] else []
  }

  function MemberOf<T>(e: Event<T>): seq<T> {
    if e.Member? then [e.value] else []
  }

  function MembersOf<T>(es: seq<Event<T>>): seq<T> {
    if es == [] then [] else MemberOf(es[0]) + MembersOf(es[1..])
  }

  function FailuresOf<T>(es: seq<Event<T>>): seq<Failure> {
    if es == [] then [] else FailureOf(es[0]) + FailuresOf(es[1..])
  }

  predicate Stops<T>(e: Event<T>, strict: bool) {
    e.Fatal? || (strict && IsFailure(e))
  }

  /** The first event that raises, or the number of events. */
  function FirstStop<T>(es: seq<Event<T>>, strict: bool): (k: nat)
    ensures k <= |es| && (k < |es| ==> Stops(es[k], strict))
    ensures forall j :: 0 <= j < k ==> !Stops(es[j], strict)
  {
    if es == [] || Stops(es[0], strict) then 0 else 1 + FirstStop(es[1..], strict)
  }

  function Outcome<T>(es: seq<Event<T>>, strict: bool): Expansion<T> {
    var k := FirstStop(es, strict);
    if k < |es| then Raised(es[k].error) else Returned(MembersOf(es), FailuresOf(es))
  }

  /** The events that take place: up to the one that raises. */
  function Performed<T>(es: seq<Event<T>>, strict: bool): seq<Event<T>> {
    var k := FirstStop(es, strict);
    if k < |es| then es[..k + 1] else es
  }

  function PageOf<T>(e: Event<T>): seq<string> {
    if e.PageAsked? then [e.page] else []
  }

  /** The pages fetched, in order. */
  function PagesOf<T>(es: seq<Event<T>>): seq<string> {
    if es == [] then [] else PageOf(es[0]) + PagesOf(es[1..])
  }

  function PathOf<T>(e: Event<T>): seq<string> {
    if e.Member? || e.MemberFailed? then [e.path] else []
  }

  /** The member paths fetched, in order. */
  function PathsOf<T>(es: seq<Event<T>>): seq<string> {
    if es == [] then [] else PathOf(es[0]) + PathsOf(es[1..])
  }

  lemma {:induction false} MembersOfSnoc<T>(es: seq<Event<T>>, e: Event<T>)
    ensures MembersOf(es + [e]) == MembersOf(es) + MemberOf(e)
  {
    hide MemberOf;
    if es == [] {
      assert es + [e] == [e] && [e][1..] == [];
    } else {
      assert (es + [e])[1..] == es[1..] + [e];
      MembersOfSnoc(es[1..], e);
    }
  }

  lemma {:induction false} FailuresOfSnoc<T>(es: seq<Event<T>>, e: Event<T>)
    ensures FailuresOf(es + [e]) == FailuresOf(es) + FailureOf(e)
  {
    hide FailureOf;
    if es == [] {
      assert es + [e] == [e] && [e][1..] == [];
    } else {
      assert (es + [e])[1..] == es[1..] + [e];
      FailuresOfSnoc(es[1..], e);
    }
  }

  lemma {:induction false} PagesOfSnoc<T>(es: seq<Event<T>>, e: Event<T>)
    ensures PagesOf(es + [e]) == PagesOf(es) + PageOf(e)
  {
    hide PageOf;
    if es == [] {
      assert es + [e] == [e] && [e][1..] == [];
    } else {
      assert (es + [e])[1..] == es[1..] + [e];
      PagesOfSnoc(es[1..], e);
    }
  }

  lemma {:induction false} PathsOfSnoc<T>(es: seq<Event<T>>, e: Event<T>)
    ensures PathsOf(es + [e]) == PathsOf(es) + PathOf(e)
  {
    hide PathOf;
    if es == [] {
      assert es + [e] == [e] && [e][1..] == [];
    } else {
      assert (es + [e])[1..] == es[1..] + [e];
      PathsOfSnoc(es[1..], e);
    }
  }

  // ----- the loop and the events dealt with so far -----

  /** What the loop has built: the members, the failures, and the fetches it has made. */
  datatype Built<T> = Built(members: seq<T>, failures: seq<Failure>, pages: seq<string>, paths: seq<string>)

  /** What the events `done` build. */
  function BuiltBy<T>(done: seq<Event<T>>): Built<T> {
    Built(MembersOf(done), FailuresOf(done), PagesOf(done), PathsOf(done))
  }

  /** The events of `done` have been dealt with: nothing was raised, and `b` is what they build. */
  ghost predicate Progress<T>(done: seq<Event<T>>, strict: bool, b: Built<T>) {
    (forall k :: 0 <= k < |done| ==> !Stops(done[k], strict)) && b == BuiltBy(done)
  }

  /** The expansion ended with `result`, and `b` holds the fetches that took place. */
  ghost predicate Settles<T>(es: seq<Event<T>>, strict: bool, result: Expansion<T>, b: Built<T>) {
    result == Outcome(es, strict) && b.pages == PagesOf(Performed(es, strict)) &&
        b.paths == PathsOf(Performed(es, strict))
  }

  lemma Snoc<T>(done: seq<Event<T>>, e: Event<T>)
    ensures BuiltBy(done + [e]) ==
            Built(MembersOf(done) + MemberOf(e), FailuresOf(done) + FailureOf(e), PagesOf(done) + PageOf(e),
                  PathsOf(done) + PathOf(e))
  {
    MembersOfSnoc(done, e);
    FailuresOfSnoc(done, e);
    PagesOfSnoc(done, e);
    PathsOfSnoc(done, e);
  }

  /** `e` raises: the fetch it stands for, if any, is the last one made. */
  lemma Stop<T>(done: seq<Event<T>>, e: Event<T>, rest: seq<Event<T>>, strict: bool, b: Built<T>)
    requires Progress(done, strict, b) && Stops(e, strict)
    ensures Settles(done + ([e] + rest), strict, Raised(e.error), b.(paths := b.paths + PathOf(e)))
  {
    var es := done + ([e] + rest);
    assert es[|done|] == e;
    assert forall j :: 0 <= j < |done| ==> es[j] == done[j];
    assert FirstStop(es, strict) == |done|;
    assert es[..|done| + 1] == done + [e];
    PagesOfSnoc(done, e);
    PathsOfSnoc(done, e);
    assert PagesOf(done) + PageOf(e) == PagesOf(done);
  }

  lemma RecordPage<T>(done: seq<Event<T>>, page: string, strict: bool, b: Built<T>)
    requires Progress(done, strict, b)
    ensures Progress(done + [PageAsked(page)], strict, b.(pages := b.pages + [page]))
  {
    var e: Event<T> := PageAsked(page);
    Snoc(done, e);
    assert b.members + MemberOf(e) == b.members && b.failures + FailureOf(e) == b.failures &&
        b.paths + PathOf(e) == b.paths;
  }

  lemma RecordMember<T>(done: seq<Event<T>>, path: string, value: T, strict: bool, b: Built<T>)
    requires Progress(done, strict, b)
    ensures Progress(done + [Member(path, value)], strict,
        b.(members := b.members + [value], paths := b.paths + [path]))
  {
    var e: Event<T> := Member(path, value);
    Snoc(done, e);
    assert b.failures + FailureOf(e) == b.failures && b.pages + PageOf(e) == b.pages;
  }

  lemma RecordFailure<T>(done: seq<Event<T>>, e: Event<T>, b: Built<T>)
    requires Progress(done, false, b) && IsFailure(e)
    ensures Progress(done + [e], false, b.(failures := b.failures + [Recorded(e)], paths := b.paths + PathOf(e)))
  {
    Snoc(done, e);
    assert b.members + MemberOf(e) == b.members && b.pages + PageOf(e) == b.pages;
  }

  lemma Finished<T>(done: seq<Event<T>>, strict: bool, b: Built<T>)
    requires Progress(done, strict, b)
    ensures Settles(done, strict, Returned(b.members, b.failures), b)
  {
  }

  lemma NothingYet<T>(strict: bool)
    ensures Progress<T>([], strict, Built([], [], [], []))
  {
  }

  lemma PageCases<T>(svc: Service<T>, page: string, visited: set<string>, seen: set<string>, done: seq<Event<T>>)
    requires page != ""
    ensures page in visited ==> PageEvents(svc, page, visited, seen) == [PageFailed(page, PagingLoop(page))]
    ensures page !in visited && PageError(svc, page, visited == {}).Some? ==>
              done + PageEvents(svc, page, visited, seen) ==
                  done + [PageAsked(page)] + [PageError(svc, page, visited == {}).value]
    ensures page !in visited && PageError(svc, page, visited == {}).None? ==>
              done + PageEvents(svc, page, visited, seen) ==
              (done + [PageAsked(page)]) + LinkEvents(svc, page, svc.pages[page].members, svc.pages[page].next,
                  visited + {page}, seen)
  {
    hide LinkEvents;
  }

  lemma LinksDone<T>(svc: Service<T>, page: string, next: string, visited: set<string>, seen: set<string>,
      done: seq<Event<T>>)
    ensures next == "" ==> done + LinkEvents(svc, page, [], next, visited, seen) == done
    ensures next != "" ==> LinkEvents(svc, page, [], next, visited, seen) ==
                           match svc.resolve(next, page)
                           case Err(e) => [PageFailed(next, e)]
                           case Ok(path) => PageEvents(svc, path, visited, seen)
  {
    hide PageEvents;
  }

  lemma NoPage<T>(svc: Service<T>, visited: set<string>, seen: set<string>, done: seq<Event<T>>)
    ensures done + PageEvents(svc, "", visited, seen) == done
  {
  }

  /** One page: its member links in order. Returns the error to raise, if any. */
  method ExpandPage<T>(
    svc: Service<T>, page: string, links: seq<string>, ghost next: string, ghost visited: set<string>, strict: bool,
    seen0: set<string>, b0: Built<T>, ghost done0: seq<Event<T>>)
    returns (raised: Option<Error>, seen: set<string>, b: Built<T>, ghost done: seq<Event<T>>)
    requires Progress(done0, strict, b0)
    ensures raised.Some? ==> Settles(done0 + LinkEvents(svc, page, links, next, visited, seen0), strict,
        Raised(raised.value), b)
    ensures raised.None? ==> Progress(done, strict, b)
    ensures raised.None? ==>
              done0 + LinkEvents(svc, page, links, next, visited, seen0)
              == done + LinkEvents(svc, page, [], next, visited, seen)
  {
    hide Progress, Settles;
    seen, b, done := seen0, b0, done0;
    for i := 0 to |links|
      invariant Progress(done, strict, b)
      invariant done0 + LinkEvents(svc, page, links, next, visited, seen0) ==
          done + LinkEvents(svc, page, links[i..], next, visited, seen)
    {
      var link := links[i];
      assert links[i..][0] == link && links[i..][1..] == links[i + 1..];
      if link == "" { continue; }
      var resolved := svc.resolve(link, page);
      if resolved.Err? {
        ghost var e, rest := LinkRefused(link, resolved.error),
            LinkEvents(svc, page, links[i + 1..], next, visited, seen);
        if strict {
          Stop(done, e, rest, strict, b);
          assert b.paths + PathOf(e) == b.paths;
          return Some(resolved.error), seen, b, done;
        }
        RecordFailure(done, e, b);
        assert b.paths + PathOf(e) == b.paths;
        b := b.(failures := b.failures + [Failure(AtMember, link, resolved.error)]);
        assert done + ([e] + rest) == done + [e] + rest;
        done := done + [e];
        continue;
      }
      var path := resolved.value;
      if path in seen { continue; }
      seen := seen + {path};
      ghost var e, rest := MemberEvent(svc, path), LinkEvents(svc, page, links[i + 1..], next, visited, seen);
      match svc.member(path) {
        case Ok(value) =>
          RecordMember(done, path, value, strict, b);
          b := b.(members := b.members + [value], paths := b.paths + [path]);
        case Err(error) =>
          if strict {
            Stop(done, e, rest, strict, b);
            b := b.(paths := b.paths + [path]);
            return Some(error), seen, b, done;
          }
          RecordFailure(done, e, b);
          b := b.(failures := b.failures + [Failure(AtMember, path, error)], paths := b.paths + [path]);
      }
      assert done + ([e] + rest) == done + [e] + rest;
      done := done + [e];
    }
    raised := None;
  }

  /** The source's nested loops. The result is what the mode makes of the events, and the fetches made are
      exactly those of the events up to the one that raises. */
  method GetCollection<T>(svc: Service<T>, start: string, strict: bool) returns (result: Expansion<T>, b: Built<T>)
    ensures Settles(Events(svc, start), strict, result, b)
  {
    hide Progress, Settles, PageEvents, LinkEvents;
    b := Built([], [], [], []);
    var visited: set<string>, seen: set<string> := {}, {};
    ghost var all, done := Events(svc, start), [];
    NothingYet<T>(strict);
    var first := svc.resolve(start, "/");
    if first.Err? {
      StopNow([], Fatal(first.error), strict, b);
      assert [] + all == all;
      return Raised(first.error), b;
    }
    var page, firstPage := first.value, true;
    NoPage(svc, visited, seen, done);
    assert all == done + PageEvents(svc, page, visited, seen);
    while page != ""
      invariant all == done + PageEvents(svc, page, visited, seen)
      invariant Progress(done, strict, b)
      invariant firstPage <==> visited == {}
      invariant page == "" ==> all == done
      decreases |svc.pages.Keys - visited|
    {
      PageCases(svc, page, visited, seen, done);
      if page in visited {
        ghost var e: Event<T> := PageFailed(page, PagingLoop(page));
        if strict {
          StopNow(done, e, strict, b);
          return Raised(PagingLoop(page)), b;
        }
        FailNow(done, e, b);
        b := b.(failures := b.failures + [Failure(AtPage, page, PagingLoop(page))]);
        done := done + [e];
        break;
      }
      ghost var asked: Event<T> := PageAsked(page);
      RecordPage(done, page, strict, b);
      b := b.(pages := b.pages + [page]);
      if page !in svc.pages {
        ghost var e: Event<T> := if firstPage then Fatal(Fetch(page)) else PageFailed(page, Fetch(page));
        done := done + [asked];
        if firstPage || strict {
          StopNow(done, e, strict, b);
          return Raised(Fetch(page)), b;
        }
        FailNow(done, e, b);
        b := b.(failures := b.failures + [Failure(AtPage, page, Fetch(page))]);
        done := done + [e];
        break;
      }
      var body := svc.pages[page];
      if body.Malformed? {
        ghost var e: Event<T> := Fatal(MalformedPage(page));
        StopNow(done + [asked], e, strict, b);
        return Raised(MalformedPage(page)), b;
      }
      VisitShrinks(svc.pages.Keys, visited, page);
      visited, firstPage := visited + {page}, false;
      var raised;
      raised, seen, b, done := ExpandPage(svc, page, body.members, body.next, visited, strict, seen, b, done + [asked]);
      if raised.Some? { return Raised(raised.value), b; }
      LinksDone(svc, page, body.next, visited, seen, done);
      if body.next == "" { break; }
      var resolved := svc.resolve(body.next, page);
      if resolved.Err? {
        ghost var e: Event<T> := PageFailed(body.next, resolved.error);
        if strict {
          StopNow(done, e, strict, b);
          return Raised(resolved.error), b;
        }
        FailNow(done, e, b);
        b := b.(failures := b.failures + [Failure(AtPage, body.next, resolved.error)]);
        done := done + [e];
        break;
      }
      page := resolved.value;
      NoPage(svc, visited, seen, done);
    }
    assert all == done;
    Finished(done, strict, b);
    return Returned(b.members, b.failures), b;
  }

  /** `e`, which is no member, raises, and nothing follows it. */
  lemma StopNow<T>(done: seq<Event<T>>, e: Event<T>, strict: bool, b: Built<T>)
    requires Progress(done, strict, b) && Stops(e, strict) && (e.Fatal? || e.PageFailed?)
    ensures Settles(done + [e], strict, Raised(e.error), b)
  {
    assert [e] + [] == [e];
    Stop(done, e, [], strict, b);
    assert b.paths + PathOf(e) == b.paths;
  }

  lemma FailNow<T>(done: seq<Event<T>>, e: Event<T>, b: Built<T>)
    requires Progress(done, false, b) && e.PageFailed?
    ensures Progress(done + [e], false, b.(failures := b.failures + [Failure(AtPage, e.resource, e.error)]))
  {
    RecordFailure(done, e, b);
    assert b.paths + PathOf(e) == b.paths;
  }
}
