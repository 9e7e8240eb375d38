/** What the expansion of a collection guarantees against every deterministic service. */
module CollectionTheorems {
  import opened Wrappers
  import opened Sequences
  import opened Collections

  // ----- the two error modes agree -----

  lemma {:induction false} FirstFailureFirst<T>(es: seq<Event<T>>)
    ensures var s, b := FirstStop(es, true), FirstStop(es, false);
            && s <= b
            && (s == b <==> forall k :: 0 <= k < b ==> !IsFailure(es[k]))
            && (s == |es| ==> FailuresOf(es) == [])
            && (b == |es| && s < |es| ==> FailuresOf(es) != [] && FailuresOf(es)[0] == Recorded(es[s]))
            && (s < b ==> IsFailure(es[s]) && Recorded(es[s]).error == es[s].error)
  {
    if es != [] {
      FirstFailureFirst(es[1..]);
      assert forall k :: 1 <= k < |es| ==> es[k] == es[1..][k - 1];
      if !Stops(es[0], true) {
        var b := FirstStop(es, false);
        assert forall k :: 0 <= k < |es| - 1 ==> es[1..][k] == es[k + 1];
      }
    }
  }

  /** Whenever best-effort returns, strict returns the same members if there are no failures and otherwise
      raises the first recorded failure's error; whenever best-effort raises, strict raises. */
  lemma ModesAgree<T>(svc: Service<T>, start: string)
    ensures var strict, lenient := Outcome(Events(svc, start), true), Outcome(Events(svc, start), false);
            match lenient
            case Raised(_) => strict.Raised?
            case Returned(members, failures) =>
              strict == if failures == [] then Returned(members, []) else Raised(failures[0].error)
  {
    FirstFailureFirst(Events(svc, start));
  }

  // ----- page failures end the expansion -----

  predicate Readable<T>(svc: Service<T>, page: string, visited: set<string>): (readable: bool)
    ensures readable ==> page in svc.pages && svc.pages[page].Page? && page !in visited
  {
    page !in visited && page in svc.pages && svc.pages[page].Page?
  }

  ghost predicate EndsOnce<T>(es: seq<Event<T>>) {
    forall k :: 0 <= k < |es| - 1 ==> !es[k].PageFailed? && !es[k].Fatal?
  }

  lemma ReadPage<T>(svc: Service<T>, page: string, visited: set<string>, seen: set<string>)
    requires page != "" && Readable(svc, page, visited)
    ensures PageEvents(svc, page, visited, seen) ==
            [PageAsked(page)]
            + LinkEvents(svc, page, svc.pages[page].members, svc.pages[page].next, visited + {page}, seen)
  {
    hide LinkEvents;
  }

  /** A page that is not read makes at most one event after it is asked for, and that one ends the expansion. */
  lemma UnreadPage<T>(svc: Service<T>, page: string, visited: set<string>, seen: set<string>)
    requires page == "" || !Readable(svc, page, visited)
    ensures var es := PageEvents(svc, page, visited, seen);
            && |es| <= 2 && (|es| == 2 ==> es[0] == PageAsked(page))
            && (forall k :: 0 <= k < |es| ==> es[k].PageAsked? || es[k].PageFailed? || es[k].Fatal?)
            && (|es| == 1 ==> es[0].PageFailed? && page in visited)
            && (|es| == 2 ==> !es[1].PageAsked? && page !in visited)
            && (es == [] <==> page == "")
  {
  }

  lemma EndsOnceCons<T>(e: Event<T>, es: seq<Event<T>>)
    requires EndsOnce(es) && !e.PageFailed? && !e.Fatal?
    ensures EndsOnce([e] + es)
  {
    var all := [e] + es;
    forall k | 0 <= k < |all| - 1 ensures !all[k].PageFailed? && !all[k].Fatal? {
      assert k > 0 ==> all[k] == es[k - 1];
    }
  }

  lemma {:induction false} LinksEndOnce<T>(svc: Service<T>, page: string, links: seq<string>, next: string,
      visited: set<string>, seen: set<string>)
    ensures EndsOnce(LinkEvents(svc, page, links, next, visited, seen))
    decreases |svc.pages.Keys - visited|, 1, |links|
  {
    if links == [] {
      if next != "" && svc.resolve(next, page).Ok? { PagesEndOnce(svc, svc.resolve(next, page).value, visited, seen); }
    } else if links[0] == "" {
      LinksEndOnce(svc, page, links[1..], next, visited, seen);
    } else {
      var path := svc.resolve(links[0], page);
      var seen' := if path.Ok? && path.value !in seen then seen + {path.value} else seen;
      LinksEndOnce(svc, page, links[1..], next, visited, seen');
      var rest := LinkEvents(svc, page, links[1..], next, visited, seen');
      if path.Err? {
        EndsOnceCons(LinkRefused(links[0], path.error), rest);
      } else if path.value !in seen {
        EndsOnceCons(MemberEvent(svc, path.value), rest);
      }
    }
  }

  lemma {:induction false} PagesEndOnce<T>(svc: Service<T>, page: string, visited: set<string>, seen: set<string>)
    ensures EndsOnce(PageEvents(svc, page, visited, seen))
    decreases |svc.pages.Keys - visited|, 0, 0
  {
    hide PageEvents, LinkEvents, Readable, PageError, EndsOnce;
    if page != "" && Readable(svc, page, visited) {
      VisitShrinks(svc.pages.Keys, visited, page);
      var body := svc.pages[page];
      LinksEndOnce(svc, page, body.members, body.next, visited + {page}, seen);
      EndsOnceCons(PageAsked(page), LinkEvents(svc, page, body.members, body.next, visited + {page}, seen));
      ReadPage(svc, page, visited, seen);
    } else {
      UnreadEndsOnce(svc, page, visited, seen);
    }
  }

  lemma UnreadEndsOnce<T>(svc: Service<T>, page: string, visited: set<string>, seen: set<string>)
    requires page == "" || !Readable(svc, page, visited)
    ensures EndsOnce(PageEvents(svc, page, visited, seen))
  {
    hide PageEvents;
    UnreadPage(svc, page, visited, seen);
  }

  lemma EarlyFailure<T>(e: Event<T>)
    requires !e.PageFailed? && !e.Fatal?
    ensures FailureOf(e) == [] || (|FailureOf(e)| == 1 && FailureOf(e)[0].stage == AtMember)
  {
  }

  lemma EndsOnceTail<T>(es: seq<Event<T>>)
    requires EndsOnce(es) && |es| > 1
    ensures EndsOnce(es[1..]) && !es[0].PageFailed? && !es[0].Fatal?
  {
    forall k | 0 <= k < |es[1..]| - 1 ensures !es[1..][k].PageFailed? && !es[1..][k].Fatal? {
      assert es[1..][k] == es[k + 1];
    }
  }

  lemma {:induction false} FailureStage<T>(es: seq<Event<T>>)
    requires EndsOnce(es)
    ensures forall k :: 0 <= k < |FailuresOf(es)| - 1 ==> FailuresOf(es)[k].stage == AtMember
  {
    if |es| > 1 {
      hide EndsOnce, FailureOf;
      EndsOnceTail(es);
      FailureStage(es[1..]);
      EarlyFailure(es[0]);
      assert FailuresOf(es) == FailureOf(es[0]) + FailuresOf(es[1..]);
    } else if |es| == 1 {
      assert es[1..] == [];
    }
  }

  /** At most one page failure is recorded, and it is the last failure. */
  lemma PageFailureIsLast<T>(svc: Service<T>, start: string, k: nat)
    requires var lenient := Outcome(Events(svc, start), false);
             lenient.Returned? && k < |lenient.failures| - 1
    ensures Outcome(Events(svc, start), false).failures[k].stage == AtMember
  {
    if svc.resolve(start, "/").Ok? { PagesEndOnce(svc, svc.resolve(start, "/").value, {}, {}); }
    FailureStage(Events(svc, start));
  }

  // ----- which members are fetched, from the pages alone -----

  function PagesAfter<T>(svc: Service<T>, page: string, next: string, visited: set<string>): (pages: seq<string>)
    ensures NoDuplicates(pages) && forall p :: p in pages ==> p in svc.pages && svc.pages[p].Page? && p !in visited
    decreases |svc.pages.Keys - visited|, 1
  {
    if next == "" || svc.resolve(next, page).Err? then [] else PagesRead(svc, svc.resolve(next, page).value, visited)
  }

  /** The pages read along the chain: each once. */
  function PagesRead<T>(svc: Service<T>, page: string, visited: set<string>): (pages: seq<string>)
    ensures NoDuplicates(pages) && forall p :: p in pages ==> p in svc.pages && svc.pages[p].Page? && p !in visited
    decreases |svc.pages.Keys - visited|, 0
  {
    if page == "" || !Readable(svc, page, visited) then []
    else
      VisitShrinks(svc.pages.Keys, visited, page);
      [page] + PagesAfter(svc, page, svc.pages[page].next, visited + {page})
  }

  /** The member paths a page's links lead to, repetitions included; empty and refused links lead nowhere. */
  function Resolved<T>(svc: Service<T>, page: string, links: seq<string>): seq<string> {
    if links == [] then []
    else (if links[0] != "" && svc.resolve(links[0], page).Ok? then [svc.resolve(links[0], page).value] else [])
         + Resolved(svc, page, links[1..])
  }

  function AllPaths<T>(svc: Service<T>, pages: seq<string>): seq<string>
    requires forall p :: p in pages ==> p in svc.pages && svc.pages[p].Page?
  {
    if pages == [] then [] else Resolved(svc, pages[0], svc.pages[pages[0]].members) + AllPaths(svc, pages[1..])
  }

  lemma PathsOfCons<T>(e: Event<T>, es: seq<Event<T>>)
    ensures PathsOf([e] + es) == PathOf(e) + PathsOf(es)
  {
    assert ([e] + es)[1..] == es;
  }

  lemma PathsOfMember<T>(svc: Service<T>, p: string, es: seq<Event<T>>)
    ensures PathsOf([MemberEvent(svc, p)] + es) == [p] + PathsOf(es)
  {
    PathsOfCons(MemberEvent(svc, p), es);
  }

  /** Taking one more path from the list, seen before or not. */
  lemma TakePath(before: seq<string>, p: string, tail: seq<string>, rest: seq<string>, paths: seq<string>)
    requires Dedup((before + [p]) + (tail + rest)) == Dedup(before + [p]) + paths
    ensures Dedup(before + (([p] + tail) + rest)) == Dedup(before) + (if p in before then paths else [p] + paths)
  {
    assert (before + [p]) + (tail + rest) == before + (([p] + tail) + rest);
    DedupLast(before, p);
  }

  lemma {:induction false} LinkPaths<T>(
    svc: Service<T>, page: string, links: seq<string>, next: string, visited: set<string>, seen: set<string>,
    before: seq<string>)
    requires forall p :: p in seen <==> p in before
    ensures Dedup(before + (Resolved(svc, page, links) + AllPaths(svc, PagesAfter(svc, page, next, visited))))
            == Dedup(before) + PathsOf(LinkEvents(svc, page, links, next, visited, seen))
    decreases |svc.pages.Keys - visited|, 1, |links|
  {
    hide AllPaths, PathsOf, PagesAfter, Dedup;
    if links == [] {
      NoLinksLeft(svc, page, next, visited, seen, before);
    } else {
      var path := svc.resolve(links[0], page);
      var rest, tail := AllPaths(svc, PagesAfter(svc, page, next, visited)), Resolved(svc, page, links[1..]);
      if links[0] == "" || path.Err? {
        LinkPaths(svc, page, links[1..], next, visited, seen, before);
        assert Resolved(svc, page, links) == tail;
        if links[0] != "" {
          PathsOfCons(LinkRefused(links[0], path.error), LinkEvents(svc, page, links[1..], next, visited, seen));
        }
      } else {
        var p := path.value;
        var seen' := if p in seen then seen else seen + {p};
        var es := LinkEvents(svc, page, links[1..], next, visited, seen');
        LinkPaths(svc, page, links[1..], next, visited, seen', before + [p]);
        TakePath(before, p, tail, rest, PathsOf(es));
        PathsOfMember(svc, p, es);
      }
    }
  }

  lemma {:induction false} NoLinksLeft<T>(
    svc: Service<T>, page: string, next: string, visited: set<string>, seen: set<string>, before: seq<string>)
    requires forall p :: p in seen <==> p in before
    ensures Dedup(before + (Resolved(svc, page, []) + AllPaths(svc, PagesAfter(svc, page, next, visited))))
            == Dedup(before) + PathsOf(LinkEvents(svc, page, [], next, visited, seen))
    decreases |svc.pages.Keys - visited|, 0, 1
  {
    var rest := AllPaths(svc, PagesAfter(svc, page, next, visited));
    assert [] + rest == rest;
    if next != "" && svc.resolve(next, page).Ok? {
      PagePaths(svc, svc.resolve(next, page).value, visited, seen, before);
    } else {
      assert before + rest == before;
    }
  }

  lemma {:induction false} UnreadPaths<T>(es: seq<Event<T>>)
    requires forall k :: 0 <= k < |es| ==> es[k].PageAsked? || es[k].PageFailed? || es[k].Fatal?
    ensures PathsOf(es) == []
  {
    if es != [] {
      assert forall k :: 0 <= k < |es| - 1 ==> es[1..][k] == es[k + 1];
      UnreadPaths(es[1..]);
    }
  }

  lemma UnreadPagePaths<T>(svc: Service<T>, page: string, visited: set<string>, seen: set<string>)
    requires page == "" || !Readable(svc, page, visited)
    ensures PagesRead(svc, page, visited) == [] && PathsOf(PageEvents(svc, page, visited, seen)) == []
  {
    hide PageEvents;
    UnreadPage(svc, page, visited, seen);
    UnreadPaths(PageEvents(svc, page, visited, seen));
  }

  lemma ReadPagePaths<T>(svc: Service<T>, page: string, visited: set<string>, seen: set<string>)
    requires page != "" && Readable(svc, page, visited)
    ensures var body := svc.pages[page];
            && AllPaths(svc, PagesRead(svc, page, visited)) ==
               Resolved(svc, page, body.members) + AllPaths(svc, PagesAfter(svc, page, body.next, visited + {page}))
            && PathsOf(PageEvents(svc, page, visited, seen)) ==
               PathsOf(LinkEvents(svc, page, body.members, body.next, visited + {page}, seen))
  {
    hide LinkEvents, PageEvents, Resolved, PagesAfter, PageError, PathsOf;
    var body := svc.pages[page];
    ReadPage(svc, page, visited, seen);
    PathsOfCons(PageAsked(page), LinkEvents(svc, page, body.members, body.next, visited + {page}, seen));
    var rest := PagesAfter(svc, page, body.next, visited + {page});
    assert ([page] + rest)[0] == page && ([page] + rest)[1..] == rest;
  }

  lemma {:induction false} PagePaths<T>(svc: Service<T>, page: string, visited: set<string>, seen: set<string>,
      before: seq<string>)
    requires forall p :: p in seen <==> p in before
    ensures Dedup(before + AllPaths(svc, PagesRead(svc, page, visited)))
            == Dedup(before) + PathsOf(PageEvents(svc, page, visited, seen))
    decreases |svc.pages.Keys - visited|, 0, 0
  {
    hide PageEvents, LinkEvents, Readable, PageError, PagesRead, PagesAfter, PathsOf, Dedup;
    if page == "" || !Readable(svc, page, visited) {
      UnreadPagePaths(svc, page, visited, seen);
      assert before + AllPaths(svc, PagesRead(svc, page, visited)) == before;
    } else {
      VisitShrinks(svc.pages.Keys, visited, page);
      var body := svc.pages[page];
      LinkPaths(svc, page, body.members, body.next, visited + {page}, seen, before);
      ReadPagePaths(svc, page, visited, seen);
    }
  }

  function Chain<T>(svc: Service<T>, start: string): (pages: seq<string>)
    ensures NoDuplicates(pages) && forall p :: p in pages ==> p in svc.pages && svc.pages[p].Page?
  {
    match svc.resolve(start, "/") case Err(_) => [] case Ok(page) => PagesRead(svc, page, {})
  }

  /** The members that arrived, of a list of fetched paths. */
  function Arrived<T>(svc: Service<T>, paths: seq<string>): seq<T> {
    if paths == [] then []
    else (if svc.member(paths[0]).Ok? then [svc.member(paths[0]).value] else []) + Arrived(svc, paths[1..])
  }

  ghost predicate Genuine<T>(svc: Service<T>, es: seq<Event<T>>) {
    forall k :: 0 <= k < |es| && (es[k].Member? || es[k].MemberFailed?) ==> es[k] == MemberEvent(svc, es[k].path)
  }

  lemma {:induction false} LinksGenuine<T>(svc: Service<T>, page: string, links: seq<string>, next: string,
      visited: set<string>, seen: set<string>)
    ensures Genuine(svc, LinkEvents(svc, page, links, next, visited, seen))
    decreases |svc.pages.Keys - visited|, 1, |links|
  {
    if links == [] {
      if next != "" && svc.resolve(next, page).Ok? { PagesGenuine(svc, svc.resolve(next, page).value, visited, seen); }
    } else {
      var path := svc.resolve(links[0], page);
      LinksGenuine(svc, page, links[1..], next, visited,
                   if links[0] != "" && path.Ok? && path.value !in seen then seen + {path.value} else seen);
    }
  }

  lemma {:induction false} PagesGenuine<T>(svc: Service<T>, page: string, visited: set<string>, seen: set<string>)
    ensures Genuine(svc, PageEvents(svc, page, visited, seen))
    decreases |svc.pages.Keys - visited|, 0, 0
  {
    hide PageEvents, LinkEvents, Readable, PageError;
    if page != "" && Readable(svc, page, visited) {
      VisitShrinks(svc.pages.Keys, visited, page);
      var body := svc.pages[page];
      LinksGenuine(svc, page, body.members, body.next, visited + {page}, seen);
      ReadPage(svc, page, visited, seen);
    } else {
      UnreadPage(svc, page, visited, seen);
    }
  }

  lemma {:induction false} MembersArrived<T>(svc: Service<T>, es: seq<Event<T>>)
    requires Genuine(svc, es)
    ensures MembersOf(es) == Arrived(svc, PathsOf(es))
  {
    if es != [] {
      forall k | 0 <= k < |es[1..]| && (es[1..][k].Member? || es[1..][k].MemberFailed?)
        ensures es[1..][k] == MemberEvent(svc, es[1..][k].path)
      {
        assert es[1..][k] == es[k + 1];
      }
      MembersArrived(svc, es[1..]);
      if es[0].Member? || es[0].MemberFailed? {
        assert es[0] == MemberEvent(svc, es[0].path);
        assert PathsOf(es) == [es[0].path] + PathsOf(es[1..]);
        assert PathsOf(es)[1..] == PathsOf(es[1..]);
      } else {
        assert PathsOf(es) == PathsOf(es[1..]) && MembersOf(es) == MembersOf(es[1..]);
      }
    }
  }

  /** The paths fetched are the distinct resolvable member paths of the pages read, in first-seen order. Each is
      either a member or a member failure, as its fetch went, and the members keep that order. */
  lemma MembersSplitExactly<T>(svc: Service<T>, start: string)
    ensures var es, paths := Events(svc, start), Dedup(AllPaths(svc, Chain(svc, start)));
            && PathsOf(es) == paths
            && (forall k :: 0 <= k < |es| && (es[k].Member? || es[k].MemberFailed?) ==>
                es[k] == MemberEvent(svc, es[k].path))
            && MembersOf(es) == Arrived(svc, paths)
  {
    var es := Events(svc, start);
    if svc.resolve(start, "/").Ok? {
      var page := svc.resolve(start, "/").value;
      PagePaths(svc, page, {}, {}, []);
      assert [] + AllPaths(svc, PagesRead(svc, page, {})) == AllPaths(svc, PagesRead(svc, page, {}));
      PagesGenuine(svc, page, {}, {});
    }
    MembersArrived(svc, es);
  }

  // ----- every fetch is made once -----

  lemma PagesOfCons<T>(e: Event<T>, es: seq<Event<T>>)
    ensures PagesOf([e] + es) == PageOf(e) + PagesOf(es)
  {
    assert ([e] + es)[1..] == es;
  }

  /** The page whose fetch or body ended the chain, if there is one. */
  function Ending<T>(svc: Service<T>, page: string, visited: set<string>): (last: seq<string>)
    ensures |last| <= 1 && forall p :: p in last ==> p !in visited && (p !in svc.pages || svc.pages[p].Malformed?)
    decreases |svc.pages.Keys - visited|
  {
    if page == "" || page in visited then []
    else if page !in svc.pages || svc.pages[page].Malformed? then [page]
    else
      VisitShrinks(svc.pages.Keys, visited, page);
      var next := svc.pages[page].next;
      if next == "" || svc.resolve(next, page).Err? then []
      else Ending(svc, svc.resolve(next, page).value, visited + {page})
  }

  function EndingAfter<T>(svc: Service<T>, page: string, next: string, visited: set<string>): (last: seq<string>) {
    if next == "" || svc.resolve(next, page).Err? then [] else Ending(svc, svc.resolve(next, page).value, visited)
  }

  lemma {:induction false} LinkPages<T>(svc: Service<T>, page: string, links: seq<string>, next: string,
      visited: set<string>, seen: set<string>)
    ensures PagesOf(LinkEvents(svc, page, links, next, visited, seen)) ==
            PagesAfter(svc, page, next, visited) + EndingAfter(svc, page, next, visited)
    decreases |svc.pages.Keys - visited|, 1, |links|
  {
    hide PagesOf;
    if links == [] {
      NoLinksPages(svc, page, next, visited, seen);
    } else {
      var path := svc.resolve(links[0], page);
      var seen' := if links[0] != "" && path.Ok? && path.value !in seen then seen + {path.value} else seen;
      LinkPages(svc, page, links[1..], next, visited, seen');
      var rest := LinkEvents(svc, page, links[1..], next, visited, seen');
      if links[0] != "" && path.Err? {
        PagesOfCons(LinkRefused(links[0], path.error), rest);
      } else if links[0] != "" && path.value !in seen {
        PagesOfCons(MemberEvent(svc, path.value), rest);
      }
    }
  }

  lemma {:induction false} NoLinksPages<T>(svc: Service<T>, page: string, next: string, visited: set<string>,
      seen: set<string>)
    ensures PagesOf(LinkEvents(svc, page, [], next, visited, seen)) ==
            PagesAfter(svc, page, next, visited) + EndingAfter(svc, page, next, visited)
    decreases |svc.pages.Keys - visited|, 0, 1
  {
    if next != "" && svc.resolve(next, page).Ok? { ChainPages(svc, svc.resolve(next, page).value, visited, seen); }
  }

  lemma ChainNext<T>(svc: Service<T>, page: string, visited: set<string>)
    requires page != "" && Readable(svc, page, visited)
    ensures PagesRead(svc, page, visited) == [page] + PagesAfter(svc, page, svc.pages[page].next, visited + {page})
    ensures Ending(svc, page, visited) == EndingAfter(svc, page, svc.pages[page].next, visited + {page})
  {
    hide PagesAfter, PageError;
  }

  lemma UnreadAsked<T>(svc: Service<T>, page: string, visited: set<string>, seen: set<string>)
    requires page == "" || !Readable(svc, page, visited)
    ensures PagesOf(PageEvents(svc, page, visited, seen)) == Ending(svc, page, visited) &&
        PagesRead(svc, page, visited) == []
  {
    hide PageEvents;
    UnreadPage(svc, page, visited, seen);
    var es := PageEvents(svc, page, visited, seen);
    if |es| == 2 {
      assert es[1..][1..] == [] && es[1..][0] == es[1];
      assert PagesOf(es[1..]) == [];
      assert PagesOf(es) == [page];
    } else if |es| == 1 {
      assert es[1..] == [];
    }
  }

  lemma {:induction false} ChainPages<T>(svc: Service<T>, page: string, visited: set<string>, seen: set<string>)
    ensures PagesOf(PageEvents(svc, page, visited, seen)) == PagesRead(svc, page, visited) + Ending(svc, page, visited)
    decreases |svc.pages.Keys - visited|, 0, 0
  {
    hide PageEvents, LinkEvents, Readable, PageError, PagesRead, PagesAfter, Ending, EndingAfter, PagesOf;
    if page != "" && Readable(svc, page, visited) {
      VisitShrinks(svc.pages.Keys, visited, page);
      var body := svc.pages[page];
      LinkPages(svc, page, body.members, body.next, visited + {page}, seen);
      PagesOfCons(PageAsked(page), LinkEvents(svc, page, body.members, body.next, visited + {page}, seen));
      ReadPage(svc, page, visited, seen);
      ChainNext(svc, page, visited);
    } else {
      UnreadAsked(svc, page, visited, seen);
    }
  }

  function ChainEnd<T>(svc: Service<T>, start: string): (last: seq<string>)
    ensures |last| <= 1 && forall p :: p in last ==> p !in svc.pages || svc.pages[p].Malformed?
  {
    match svc.resolve(start, "/") case Err(_) => [] case Ok(page) => Ending(svc, page, {})
  }

  /** The pages asked for are those read along the chain and, at the end, the one that could not be read. */
  lemma PagesAskedExactly<T>(svc: Service<T>, start: string)
    ensures PagesOf(Events(svc, start)) == Chain(svc, start) + ChainEnd(svc, start)
  {
    if svc.resolve(start, "/").Ok? {
      ChainPages(svc, svc.resolve(start, "/").value, {}, {});
    } else {
      assert Events(svc, start)[1..] == [];
    }
  }

  lemma {:induction false} PathsOfPrefix<T>(es: seq<Event<T>>, k: nat)
    requires k <= |es|
    ensures PathsOf(es[..k]) <= PathsOf(es) && PagesOf(es[..k]) <= PagesOf(es)
  {
    hide PathOf, PageOf;
    if k > 0 {
      PathsOfPrefix(es[1..], k - 1);
      assert es[..k][0] == es[0] && es[..k][1..] == es[1..][..k - 1];
    }
  }

  /** In both modes no page and no member is fetched twice, and the fetches made are the first ones of the chain,
      in order. */
  lemma FetchedOnce<T>(svc: Service<T>, start: string, strict: bool)
    ensures var made := Performed(Events(svc, start), strict);
            && NoDuplicates(PagesOf(made)) && PagesOf(made) <= Chain(svc, start) + ChainEnd(svc, start)
            && NoDuplicates(PathsOf(made)) && PathsOf(made) <= Dedup(AllPaths(svc, Chain(svc, start)))
  {
    var es := Events(svc, start);
    PagesAskedExactly(svc, start);
    MembersSplitExactly(svc, start);
    var k := FirstStop(es, strict);
    if k < |es| { PathsOfPrefix(es, k + 1); }
    ChainDistinct(Chain(svc, start), ChainEnd(svc, start));
    PrefixDistinct(PagesOf(Performed(es, strict)), Chain(svc, start) + ChainEnd(svc, start));
    PrefixDistinct(PathsOf(Performed(es, strict)), Dedup(AllPaths(svc, Chain(svc, start))));
  }

  lemma ChainDistinct(chain: seq<string>, last: seq<string>)
    requires NoDuplicates(chain) && |last| <= 1 && forall p :: p in last ==> p !in chain
    ensures NoDuplicates(chain + last)
  {
    var all := chain + last;
    forall i, j | 0 <= i < j < |all| ensures all[i] != all[j] {
      if j == |chain| { assert all[j] in last && all[i] in chain; }
    }
  }

  lemma PrefixDistinct(a: seq<string>, b: seq<string>)
    requires a <= b && NoDuplicates(b)
    ensures NoDuplicates(a)
  {
  }

  // ----- what is raised in both modes -----

  /** The error best-effort raises, if any. */
  function LenientError<T>(es: seq<Event<T>>): Option<Error> {
    var k := FirstStop(es, false);
    if k < |es| then Some(es[k].error) else None
  }

  lemma LenientErrorCons<T>(e: Event<T>, es: seq<Event<T>>)
    ensures LenientError([e] + es) == if e.Fatal? then Some(e.error) else LenientError(es)
  {
    assert ([e] + es)[1..] == es;
  }

  /** A malformed page at the end is raised; a page that could not be fetched is not. */
  function EndError<T>(svc: Service<T>, last: seq<string>): Option<Error> {
    if last != [] && last[0] in svc.pages then Some(MalformedPage(last[0])) else None
  }

  lemma {:induction false} LinkErrors<T>(svc: Service<T>, page: string, links: seq<string>, next: string,
      visited: set<string>, seen: set<string>)
    requires visited != {}
    ensures LenientError(LinkEvents(svc, page, links, next, visited, seen)) ==
            EndError(svc, EndingAfter(svc, page, next, visited))
    decreases |svc.pages.Keys - visited|, 1, |links|
  {
    hide LenientError, EndError;
    if links == [] {
      NoLinksErrors(svc, page, next, visited, seen);
    } else {
      var path := svc.resolve(links[0], page);
      var seen' := if links[0] != "" && path.Ok? && path.value !in seen then seen + {path.value} else seen;
      LinkErrors(svc, page, links[1..], next, visited, seen');
      var rest := LinkEvents(svc, page, links[1..], next, visited, seen');
      if links[0] != "" && path.Err? {
        LenientErrorCons(LinkRefused(links[0], path.error), rest);
      } else if links[0] != "" && path.value !in seen {
        LenientErrorCons(MemberEvent(svc, path.value), rest);
      }
    }
  }

  lemma {:induction false} NoLinksErrors<T>(svc: Service<T>, page: string, next: string, visited: set<string>,
      seen: set<string>)
    requires visited != {}
    ensures LenientError(LinkEvents(svc, page, [], next, visited, seen)) ==
            EndError(svc, EndingAfter(svc, page, next, visited))
    decreases |svc.pages.Keys - visited|, 0, 1
  {
    if next != "" && svc.resolve(next, page).Ok? { PageErrors(svc, svc.resolve(next, page).value, visited, seen); }
  }

  lemma {:induction false} PageErrors<T>(svc: Service<T>, page: string, visited: set<string>, seen: set<string>)
    requires visited != {} || page == "" || page in svc.pages
    ensures LenientError(PageEvents(svc, page, visited, seen)) == EndError(svc, Ending(svc, page, visited))
    decreases |svc.pages.Keys - visited|, 0, 0
  {
    hide PageEvents, LinkEvents, Ending, EndingAfter, LenientError, EndError, Readable, PageError;
    if page != "" && Readable(svc, page, visited) {
      VisitShrinks(svc.pages.Keys, visited, page);
      var body := svc.pages[page];
      LinkErrors(svc, page, body.members, body.next, visited + {page}, seen);
      LenientErrorCons(PageAsked(page), LinkEvents(svc, page, body.members, body.next, visited + {page}, seen));
      ReadPage(svc, page, visited, seen);
      ChainNext(svc, page, visited);
    } else {
      UnreadErrors(svc, page, visited, seen);
    }
  }

  lemma UnreadErrors<T>(svc: Service<T>, page: string, visited: set<string>, seen: set<string>)
    requires page == "" || !Readable(svc, page, visited)
    requires visited != {} || page == "" || page in svc.pages
    ensures LenientError(PageEvents(svc, page, visited, seen)) == EndError(svc, Ending(svc, page, visited))
  {
    var es := PageEvents(svc, page, visited, seen);
    if page != "" && page !in visited {
      assert es[1..][0] == es[1] && es[1..][1..] == [];
    } else if page != "" {
      assert es[1..] == [];
    }
  }

  /** Which failures raise although failures are only recorded: a refused start link, a first page that cannot be
      fetched, and a malformed page at the end of the chain, each with its own error; nothing else does. The first two
      raise the same in strict mode. */
  lemma RaisesExactly<T>(svc: Service<T>, start: string, strict: bool)
    ensures var es, link := Events(svc, start), svc.resolve(start, "/");
            && (link.Err? ==> Outcome(es, strict) == Raised(link.error))
            && (link.Ok? && link.value != "" && link.value !in svc.pages ==>
                  Outcome(es, strict) == Raised(Fetch(link.value)))
            && (link.Ok? && (link.value == "" || link.value in svc.pages) ==>
                  var last := ChainEnd(svc, start);
                  if last != [] && last[0] in svc.pages then Outcome(es, false) == Raised(MalformedPage(last[0]))
                  else Outcome(es, false).Returned?)
  {
    var es, link := Events(svc, start), svc.resolve(start, "/");
    if link.Ok? {
      if link.value == "" || link.value in svc.pages {
        PageErrors(svc, link.value, {}, {});
      } else {
        assert es == [PageAsked(link.value), Fatal(Fetch(link.value))];
        assert FirstStop(es, strict) == 1 by { assert es[1..][0] == es[1]; }
      }
    } else {
      assert es == [Fatal(link.error)];
    }
  }

  // ----- which failures are recorded -----

  function RefusalOf<T>(e: Event<T>): seq<(string, Error)> {
    if e.LinkRefused? then [(e.link, e.error)] else []
  }

  function RefusalsOf<T>(es: seq<Event<T>>): seq<(string, Error)> {
    if es == [] then [] else RefusalOf(es[0]) + RefusalsOf(es[1..])
  }

  function FaultOf<T>(e: Event<T>): seq<(string, Error)> {
    if e.PageFailed? then [(e.resource, e.error)] else []
  }

  function FaultsOf<T>(es: seq<Event<T>>): seq<(string, Error)> {
    if es == [] then [] else FaultOf(es[0]) + FaultsOf(es[1..])
  }

  lemma RefusalsOfCons<T>(e: Event<T>, es: seq<Event<T>>)
    ensures RefusalsOf([e] + es) == RefusalOf(e) + RefusalsOf(es) && FaultsOf([e] + es) == FaultOf(e) + FaultsOf(es)
  {
    assert ([e] + es)[1..] == es;
  }

  /** The links of a page that are refused, in order, with the reasons. */
  function RefusedLinks<T>(svc: Service<T>, page: string, links: seq<string>): seq<(string, Error)> {
    if links == [] then []
    else (if links[0] != "" && svc.resolve(links[0], page).Err? then [(links[0], svc.resolve(links[0], page).error)]
          else [])
         + RefusedLinks(svc, page, links[1..])
  }

  function AllRefused<T>(svc: Service<T>, pages: seq<string>): seq<(string, Error)>
    requires forall p :: p in pages ==> p in svc.pages && svc.pages[p].Page?
  {
    if pages == [] then [] else RefusedLinks(svc, pages[0], svc.pages[pages[0]].members) + AllRefused(svc, pages[1..])
  }

  /** The page failure a chain ends with, if any: a next link that is refused, a page already visited, or one after
      the first that cannot be fetched. */
  function Fault<T>(svc: Service<T>, page: string, visited: set<string>): seq<(string, Error)>
    decreases |svc.pages.Keys - visited|, 0
  {
    if page == "" then []
    else if page in visited then [(page, PagingLoop(page))]
    else if page !in svc.pages then (if visited == {} then [] else [(page, Fetch(page))])
    else if svc.pages[page].Malformed? then []
    else
      VisitShrinks(svc.pages.Keys, visited, page);
      FaultAfter(svc, page, svc.pages[page].next, visited + {page})
  }

  function FaultAfter<T>(svc: Service<T>, page: string, next: string, visited: set<string>): seq<(string, Error)>
    decreases |svc.pages.Keys - visited|, 1
  {
    if next == "" then []
    else match svc.resolve(next, page) case Err(e) => [(next, e)] case Ok(path) => Fault(svc, path, visited)
  }

  lemma {:induction false} LinkFailures<T>(svc: Service<T>, page: string, links: seq<string>, next: string,
      visited: set<string>, seen: set<string>)
    ensures var es := LinkEvents(svc, page, links, next, visited, seen);
            && RefusalsOf(es) == RefusedLinks(svc, page, links) + AllRefused(svc, PagesAfter(svc, page, next, visited))
            && FaultsOf(es) == FaultAfter(svc, page, next, visited)
    decreases |svc.pages.Keys - visited|, 1, |links|
  {
    hide RefusalsOf, FaultsOf, AllRefused, PagesAfter, FaultAfter;
    if links == [] {
      NoLinksFailures(svc, page, next, visited, seen);
    } else {
      var path := svc.resolve(links[0], page);
      var seen' := if links[0] != "" && path.Ok? && path.value !in seen then seen + {path.value} else seen;
      LinkFailures(svc, page, links[1..], next, visited, seen');
      var rest := LinkEvents(svc, page, links[1..], next, visited, seen');
      if links[0] != "" && path.Err? {
        RefusalsOfCons(LinkRefused(links[0], path.error), rest);
      } else if links[0] != "" && path.value !in seen {
        RefusalsOfCons(MemberEvent(svc, path.value), rest);
      }
    }
  }

  lemma {:induction false} NoLinksFailures<T>(svc: Service<T>, page: string, next: string, visited: set<string>,
      seen: set<string>)
    ensures var es := LinkEvents(svc, page, [], next, visited, seen);
            && RefusalsOf(es) == RefusedLinks(svc, page, []) + AllRefused(svc, PagesAfter(svc, page, next, visited))
            && FaultsOf(es) == FaultAfter(svc, page, next, visited)
    decreases |svc.pages.Keys - visited|, 0, 1
  {
    if next != "" && svc.resolve(next, page).Ok? {
      PageFailures(svc, svc.resolve(next, page).value, visited, seen);
    } else if next != "" {
      assert LinkEvents(svc, page, [], next, visited, seen)[1..] == [];
    }
  }

  lemma {:induction false} PageFailures<T>(svc: Service<T>, page: string, visited: set<string>, seen: set<string>)
    ensures RefusalsOf(PageEvents(svc, page, visited, seen)) == AllRefused(svc, PagesRead(svc, page, visited))
    ensures FaultsOf(PageEvents(svc, page, visited, seen)) == Fault(svc, page, visited)
    decreases |svc.pages.Keys - visited|, 0, 0
  {
    hide PageEvents, LinkEvents, PagesAfter, PagesRead, RefusalsOf, FaultsOf, AllRefused, Fault, FaultAfter, Readable,
         PageError;
    if page != "" && Readable(svc, page, visited) {
      VisitShrinks(svc.pages.Keys, visited, page);
      var body := svc.pages[page];
      LinkFailures(svc, page, body.members, body.next, visited + {page}, seen);
      RefusalsOfCons(PageAsked(page), LinkEvents(svc, page, body.members, body.next, visited + {page}, seen));
      ReadPage(svc, page, visited, seen);
      ReadFailures(svc, page, visited);
    } else {
      UnreadFailures(svc, page, visited, seen);
    }
  }

  lemma ReadFailures<T>(svc: Service<T>, page: string, visited: set<string>)
    requires page != "" && Readable(svc, page, visited)
    ensures AllRefused(svc, PagesRead(svc, page, visited)) ==
            RefusedLinks(svc, page, svc.pages[page].members)
            + AllRefused(svc, PagesAfter(svc, page, svc.pages[page].next, visited + {page}))
    ensures Fault(svc, page, visited) == FaultAfter(svc, page, svc.pages[page].next, visited + {page})
  {
    hide PagesAfter, FaultAfter;
    var rest := PagesAfter(svc, page, svc.pages[page].next, visited + {page});
    assert ([page] + rest)[0] == page && ([page] + rest)[1..] == rest;
  }

  lemma UnreadFailures<T>(svc: Service<T>, page: string, visited: set<string>, seen: set<string>)
    requires page == "" || !Readable(svc, page, visited)
    ensures RefusalsOf(PageEvents(svc, page, visited, seen)) == AllRefused(svc, PagesRead(svc, page, visited))
    ensures FaultsOf(PageEvents(svc, page, visited, seen)) == Fault(svc, page, visited)
  {
    hide LinkEvents, FaultAfter, PagesAfter;
    var es := PageEvents(svc, page, visited, seen);
    if page != "" && page !in visited {
      assert es[1..][0] == es[1] && es[1..][1..] == [];
      assert RefusalsOf(es[1..]) == [] && FaultsOf(es[1..]) == FaultOf(es[1]);
    } else if page != "" {
      assert es[1..] == [];
    }
  }

  lemma {:induction false} FailureFrom<T>(svc: Service<T>, es: seq<Event<T>>, f: Failure)
    requires Genuine(svc, es)
    ensures f in FailuresOf(es) <==>
            || (f.stage == AtMember && f.resource in PathsOf(es) && svc.member(f.resource) == Err(f.error))
            || (f.stage == AtMember && (f.resource, f.error) in RefusalsOf(es))
            || (f.stage == AtPage && (f.resource, f.error) in FaultsOf(es))
  {
    if es != [] {
      var e, tail := es[0], es[1..];
      forall k | 0 <= k < |tail| && (tail[k].Member? || tail[k].MemberFailed?)
        ensures tail[k] == MemberEvent(svc, tail[k].path)
      {
        assert tail[k] == es[k + 1];
      }
      FailureFrom(svc, tail, f);
      OneFailure(svc, e, f);
      hide FailureOf, PathOf, RefusalOf, FaultOf, MemberEvent;
    }
  }

  lemma OneFailure<T>(svc: Service<T>, e: Event<T>, f: Failure)
    requires e.Member? || e.MemberFailed? ==> e == MemberEvent(svc, e.path)
    ensures f in FailureOf(e) <==>
            || (f.stage == AtMember && f.resource in PathOf(e) && svc.member(f.resource) == Err(f.error))
            || (f.stage == AtMember && (f.resource, f.error) in RefusalOf(e))
            || (f.stage == AtPage && (f.resource, f.error) in FaultOf(e))
  {
  }

  /** What best-effort records: every distinct member path whose fetch fails, every refused member link of the pages
      read, and the page failure the chain ends with, each with its resource and error; and nothing else. */
  lemma FailuresExactly<T>(svc: Service<T>, start: string, f: Failure)
    requires Outcome(Events(svc, start), false).Returned?
    ensures f in Outcome(Events(svc, start), false).failures <==>
            || (f.stage == AtMember && f.resource in AllPaths(svc, Chain(svc, start))
                && svc.member(f.resource) == Err(f.error))
            || (f.stage == AtMember && (f.resource, f.error) in AllRefused(svc, Chain(svc, start)))
            || (f.stage == AtPage && svc.resolve(start, "/").Ok?
                && (f.resource, f.error) in Fault(svc, svc.resolve(start, "/").value, {}))
  {
    hide Fault, AllRefused, AllPaths;
    var es := Events(svc, start);
    MembersSplitExactly(svc, start);
    if svc.resolve(start, "/").Ok? {
      PageFailures(svc, svc.resolve(start, "/").value, {}, {});
    }
    FailureFrom(svc, es, f);
  }
}
