/** The document cache of the registries manager: least recently used, and invisible to callers. */
module RegistryCache {
  import opened Wrappers
  import opened Sequences
  import opened Registries

  const MAX_CACHE_ENTRIES := 32

  /** Cached documents, least recently used first. */
  datatype Cached = Cached(source: string, document: Document)

  datatype Event = Used(source: string) | Cleared

  function Keys(entries: seq<Cached>): seq<string> {
    seq(|entries|, k requires 0 <= k < |entries| => entries[k].source)
  }

  // ----- what should be cached, from the history alone -----

  /** `s` without `x`. */
  function Without(s: seq<string>, x: string): (r: seq<string>)
    ensures forall y :: y in r <==> y in s && y != x
    ensures |r| <= |s|
  {
    if s == [] then [] else (if s[0] == x then [] else [s[0]]) + Without(s[1..], x)
  }

  /** The distinct sources used since the last clear, in order of last use. */
  function Recent(events: seq<Event>): seq<string> {
    if events == [] then []
    else
      var front := Recent(events[..|events| - 1]);
      match events[|events| - 1]
      case Cleared => []
      case Used(source) => Without(front, source) + [source]
  }

  function LastN<T>(s: seq<T>, n: nat): seq<T> {
    if |s| <= n then s else s[|s| - n..]
  }

  /** `source` is used at position `k` of the history and neither used again nor cleared afterwards. */
  ghost predicate LastUse(events: seq<Event>, source: string, k: nat) {
    && k < |events| && events[k] == Used(source)
    && forall j :: k < j < |events| ==> events[j] != Used(source) && events[j] != Cleared
  }

  lemma RecentSnoc(events: seq<Event>, e: Event)
    ensures Recent(events + [e]) == match e case Cleared => [] case Used(s) => Without(Recent(events), s) + [s]
  {
    assert (events + [e])[..|events|] == events;
  }

  /** `s` without the element at `i`. */
  function Cut(s: seq<string>, i: nat): seq<string>
    requires i < |s|
  {
    s[..i] + s[i + 1..]
  }

  lemma {:induction false} WithoutAbsent(s: seq<string>, x: string)
    requires x !in s
    ensures Without(s, x) == s
  {
    if s != [] { WithoutAbsent(s[1..], x); }
  }

  lemma {:induction false} WithoutAt(s: seq<string>, i: nat)
    requires NoDuplicates(s) && i < |s|
    ensures Without(s, s[i]) == Cut(s, i)
  {
    if i == 0 {
      assert s[0] !in s[1..];
      WithoutAbsent(s[1..], s[0]);
    } else {
      WithoutAt(s[1..], i - 1);
      assert Cut(s, i) == [s[0]] + Cut(s[1..], i - 1);
    }
  }

  lemma WithoutDistinct(s: seq<string>, x: string)
    requires NoDuplicates(s)
    ensures NoDuplicates(Without(s, x) + [x])
  {
    if x in s {
      var i :| 0 <= i < |s| && s[i] == x;
      WithoutAt(s, i);
    } else {
      WithoutAbsent(s, x);
    }
  }

  lemma {:induction false} RecentDistinct(events: seq<Event>)
    ensures NoDuplicates(Recent(events))
  {
    if events != [] {
      var front, e := events[..|events| - 1], events[|events| - 1];
      RecentDistinct(front);
      if e.Used? { WithoutDistinct(Recent(front), e.source); }
    }
  }

  // ----- the cache after one use -----

  /** Move to the end, or append and then drop the oldest entry. */
  function Touch(keys: seq<string>, source: string): seq<string> {
    LastN(Without(keys, source) + [source], MAX_CACHE_ENTRIES)
  }

  lemma CutInWindow(s: seq<string>, n: nat, i: nat, x: string)
    requires 0 < n < |s| && |s| - n <= i < |s|
    ensures LastN(Cut(s[|s| - n..], i - (|s| - n)) + [x], n) == LastN(Cut(s, i) + [x], n)
  {
    var c := |s| - n;
    assert Cut(s[c..], i - c) == Cut(s, i)[c..];
  }

  lemma CutBeforeWindow(s: seq<string>, n: nat, i: nat, x: string)
    requires 0 < n < |s| && i < |s| - n
    ensures LastN(s[|s| - n..] + [x], n) == LastN(Cut(s, i) + [x], n)
  {
    var c := |s| - n;
    assert (s[c..] + [x])[1..] == s[c + 1..] + [x];
    assert (Cut(s, i) + [x])[c..] == s[c + 1..] + [x];
  }

  lemma Extended(s: seq<string>, n: nat, x: string)
    requires 0 < n < |s|
    ensures LastN(s[|s| - n..] + [x], n) == LastN(s + [x], n)
  {
    var c := |s| - n;
    assert (s[c..] + [x])[1..] == s[c + 1..] + [x] == (s + [x])[c + 1..];
  }

  /** Dropping what falls out of the window can be done before or after the next use. */
  lemma TouchWindow(recent: seq<string>, source: string)
    requires NoDuplicates(recent)
    ensures Touch(LastN(recent, MAX_CACHE_ENTRIES), source) ==
        LastN(Without(recent, source) + [source], MAX_CACHE_ENTRIES)
  {
    hide Without;
    var n := MAX_CACHE_ENTRIES;
    var window := LastN(recent, n);
    var c := |recent| - |window|;
    assert window == recent[c..];
    if source in recent {
      var j :| 0 <= j < |recent| && recent[j] == source;
      WithoutAt(recent, j);
      if j >= c {
        assert window[j - c] == source;
        WithoutAt(window, j - c);
        if |recent| > n { CutInWindow(recent, n, j, source); } else { assert window == recent; }
      } else {
        assert source !in window;
        WithoutAbsent(window, source);
        CutBeforeWindow(recent, n, j, source);
      }
    } else {
      assert source !in window;
      WithoutAbsent(recent, source);
      WithoutAbsent(window, source);
      if |recent| > n { Extended(recent, n, source); }
    }
  }

  // ----- what the history means -----

  lemma LastUseSnoc(events: seq<Event>, e: Event, source: string, k: nat)
    ensures LastUse(events + [e], source, k) <==>
            if k == |events| then e == Used(source)
            else LastUse(events, source, k) && e != Used(source) && e != Cleared
  {
    var all := events + [e];
    if k < |events| {
      assert all[k] == events[k];
      if LastUse(events, source, k) && e != Used(source) && e != Cleared {
        forall j | k < j < |all| ensures all[j] != Used(source) && all[j] != Cleared {
          assert j < |events| ==> all[j] == events[j];
        }
      }
      if LastUse(all, source, k) {
        assert all[|events|] == e;
        forall j | k < j < |events| ensures events[j] != Used(source) && events[j] != Cleared {
          assert all[j] == events[j];
        }
      }
    }
  }

  ghost predicate InUse(events: seq<Event>, source: string) {
    exists k: nat :: LastUse(events, source, k)
  }

  lemma {:induction false} RecentHasLastUse(events: seq<Event>, source: string)
    ensures source in Recent(events) <==> InUse(events, source)
  {
    if events != [] {
      var front, e := events[..|events| - 1], events[|events| - 1];
      assert events == front + [e];
      RecentHasLastUse(front, source);
      if source in Recent(events) {
        if e == Used(source) {
          LastUseSnoc(front, e, source, |front|);
        } else {
          var k: nat :| LastUse(front, source, k);
          LastUseSnoc(front, e, source, k);
        }
      }
      if InUse(events, source) {
        var k: nat :| LastUse(events, source, k);
        LastUseSnoc(front, e, source, k);
        assert k < |front| ==> LastUse(front, source, k);
      }
    }
  }

  lemma LastUseUnique(events: seq<Event>, source: string, j: nat, k: nat)
    requires LastUse(events, source, j) && LastUse(events, source, k)
    ensures j == k
  {
  }

  lemma {:induction false} WithoutKeepsOrder(s: seq<string>, x: string, i: nat, j: nat) returns (i': nat, j': nat)
    requires i < j < |Without(s, x)|
    ensures i' < j' < |s| && s[i'] == Without(s, x)[i] && s[j'] == Without(s, x)[j]
  {
    if s[0] == x {
      i', j' := WithoutKeepsOrder(s[1..], x, i, j);
      i', j' := i' + 1, j' + 1;
    } else if i == 0 {
      var y := Without(s[1..], x)[j - 1];
      assert y in s[1..];
      j' :| 0 <= j' < |s[1..]| && s[1..][j'] == y;
      i', j' := 0, j' + 1;
    } else {
      i', j' := WithoutKeepsOrder(s[1..], x, i - 1, j - 1);
      i', j' := i' + 1, j' + 1;
    }
  }

  /** Recent sources are listed by their last use. */
  lemma {:induction false} RecentOrdered(events: seq<Event>, i: nat, j: nat, a: nat, b: nat)
    requires i < j < |Recent(events)|
    requires LastUse(events, Recent(events)[i], a) && LastUse(events, Recent(events)[j], b)
    ensures a < b
  {
    var front, e := events[..|events| - 1], events[|events| - 1];
    assert events == front + [e] && e.Used?;
    var recent, rest := Recent(events), Without(Recent(front), e.source);
    LastUseSnoc(front, e, recent[i], a);
    LastUseSnoc(front, e, recent[j], b);
    assert recent[i] == rest[i] && rest[i] in rest;
    if j < |rest| {
      assert rest[j] in rest;
      var i', j' := WithoutKeepsOrder(Recent(front), e.source, i, j);
      RecentOrdered(front, i', j', a, b);
    } else {
      LastUseSnoc(front, e, e.source, |front|);
      LastUseUnique(events, e.source, b, |front|);
    }
  }

  /** The cache keys after a history. */
  function KeysAfter(events: seq<Event>): seq<string> {
    LastN(Recent(events), MAX_CACHE_ENTRIES)
  }

  /** Distinct, at most 32, and all used since the last clear. */
  lemma KeysAreInUse(events: seq<Event>)
    ensures |KeysAfter(events)| <= 32 && NoDuplicates(KeysAfter(events))
    ensures forall source :: source in KeysAfter(events) ==> InUse(events, source)
  {
    RecentDistinct(events);
    forall source | source in KeysAfter(events) ensures InUse(events, source) {
      RecentHasLastUse(events, source);
    }
  }

  /** Listed in order of last use. */
  lemma KeysInOrder(events: seq<Event>, i: nat, j: nat, a: nat, b: nat)
    requires i < j < |KeysAfter(events)|
    requires LastUse(events, KeysAfter(events)[i], a) && LastUse(events, KeysAfter(events)[j], b)
    ensures a < b
  {
    hide LastUse, Recent;
    var c := |Recent(events)| - |KeysAfter(events)|;
    assert KeysAfter(events) == Recent(events)[c..];
    RecentOrdered(events, c + i, c + j, a, b);
  }

  /** A source in use that is not cached was last used before every cached one, and all 32 places are taken. */
  lemma OnlyOldestMissing(events: seq<Event>, source: string, a: nat, i: nat, b: nat)
    requires LastUse(events, source, a) && source !in KeysAfter(events)
    requires i < |KeysAfter(events)| && LastUse(events, KeysAfter(events)[i], b)
    ensures |KeysAfter(events)| == 32 && a < b
  {
    hide LastUse, Recent;
    var recent, keys := Recent(events), KeysAfter(events);
    var c := |recent| - |keys|;
    assert keys == recent[c..];
    RecentHasLastUse(events, source);
    assert source in recent;
    var m :| 0 <= m < |recent| && recent[m] == source;
    forall k | c <= k < |recent| ensures recent[k] in keys { assert keys[k - c] == recent[k]; }
    assert m < c;
    RecentOrdered(events, m, c + i, a, b);
  }

  // ----- the manager -----

  /** The first source the service can deliver. */
  function Deliverable(svc: Service, sources: seq<string>): Option<string> {
    if sources == [] then None
    else if svc.fetch(sources[0]).Some? then Some(sources[0])
    else Deliverable(svc, sources[1..])
  }

  lemma {:induction false} FirstFetchedIs(svc: Service, sources: seq<string>, i: nat)
    requires i <= |sources| && forall k :: 0 <= k < i ==> svc.fetch(sources[k]).None?
    ensures i == |sources| ==> FirstFetched(svc, sources).None? && Deliverable(svc, sources).None?
    ensures i < |sources| && svc.fetch(sources[i]).Some? ==>
              FirstFetched(svc, sources) == svc.fetch(sources[i]) && Deliverable(svc, sources) == Some(sources[i])
  {
    if i > 0 { FirstFetchedIs(svc, sources[1..], i - 1); }
  }

  lemma {:induction false} DeliverableSnoc(svc: Service, sources: seq<string>, x: string)
    ensures Deliverable(svc, sources + [x]) ==
            if Deliverable(svc, sources).Some? then Deliverable(svc, sources)
            else if svc.fetch(x).Some? then Some(x) else None
    ensures Deliverable(svc, sources).None? ==> forall y :: y in sources ==> svc.fetch(y).None?
    ensures FirstFetched(svc, sources) == match Deliverable(svc, sources) case Some(s) => svc.fetch(s) case None => None
  {
    if sources == [] {
      assert sources + [x] == [x] && [x][1..] == [];
    } else {
      assert (sources + [x])[1..] == sources[1..] + [x];
      DeliverableSnoc(svc, sources[1..], x);
    }
  }

  /** Asking the same source twice changes nothing. */
  lemma {:induction false} DedupDelivers(svc: Service, sources: seq<string>)
    ensures Deliverable(svc, Dedup(sources)) == Deliverable(svc, sources)
  {
    if sources != [] {
      var front, x := sources[..|sources| - 1], sources[|sources| - 1];
      assert sources == front + [x];
      DedupDelivers(svc, front);
      DeliverableSnoc(svc, front, x);
      DedupLast(front, x);
      if x !in front { DeliverableSnoc(svc, Dedup(front), x); }
    }
  }

  /** A hit moves its key to the end. */
  lemma TouchHit(events: seq<Event>, keys: seq<string>, k: nat)
    requires keys == KeysAfter(events) && k < |keys|
    ensures KeysAfter(events + [Used(keys[k])]) == Cut(keys, k) + [keys[k]]
  {
    RecentSnoc(events, Used(keys[k]));
    RecentDistinct(events);
    TouchWindow(Recent(events), keys[k]);
    WithoutAt(keys, k);
  }

  /** A miss appends its key; the window drops the oldest one if there are too many. */
  lemma TouchMiss(events: seq<Event>, keys: seq<string>, source: string)
    requires keys == KeysAfter(events) && source !in keys
    ensures KeysAfter(events + [Used(source)]) == LastN(keys + [source], MAX_CACHE_ENTRIES)
  {
    RecentSnoc(events, Used(source));
    RecentDistinct(events);
    TouchWindow(Recent(events), source);
    WithoutAbsent(keys, source);
  }

  function Use(svc: Service, sources: seq<string>): seq<Event> {
    match Deliverable(svc, sources) case Some(s) => [Used(s)] case None => []
  }

  /** The sources a resolution uses: one for every registry it visits, until one cannot be loaded. */
  function Uses(svc: Service, r: Registry, key: string, trail: seq<Identity>): seq<Event>
    requires r in svc.advertised
    decreases |IdentitiesOf(svc.advertised) - SetOf(trail)|
  {
    if r.parts.None? || r.parts.value in trail then []
    else
      TrailGrows(svc, r, trail);
      var hop := Follow1(svc, r, key);
      Use(svc, r.sources) + (if hop.Goto? then Uses(svc, hop.next, key, trail + [r.parts.value]) else [])
  }

  lemma UsesHop(svc: Service, r: Registry, key: string, trail: seq<Identity>, before: seq<Event>)
    requires r in svc.advertised && r.parts.Some? && r.parts.value !in trail
    ensures var hop, now := Follow1(svc, r, key), before + Use(svc, r.sources);
            before + Uses(svc, r, key, trail) ==
            if hop.Goto? then now + Uses(svc, hop.next, key, trail + [r.parts.value]) else now
  {
  }

  /** Every call brings the service as its language sees it: the registries advertised at that time and the sources
      of the location chosen for the language. Only the documents are the same for all calls. */
  class RegistriesManager {
    const fetch: string -> Option<Document>
    var cache: seq<Cached>
    ghost var events: seq<Event>

    ghost predicate Valid()
      reads this
    {
      && Keys(cache) == KeysAfter(events)
      && forall k :: 0 <= k < |cache| ==> fetch(cache[k].source) == Some(cache[k].document)
    }

    constructor (fetch: string -> Option<Document>)
      ensures Valid() && events == [] && this.fetch == fetch
    {
      this.fetch, cache, events := fetch, [], [];
    }

    method ClearCache()
      modifies this
      ensures Valid() && cache == [] && events == old(events) + [Cleared]
    {
      cache := [];
      events := events + [Cleared];
      RecentSnoc(old(events), Cleared);
    }

    method IndexOf(source: string) returns (k: nat)
      ensures k <= |cache| && (k < |cache| ==> cache[k].source == source)
      ensures k == |cache| ==> source !in Keys(cache)
    {
      k := 0;
      while k < |cache| && cache[k].source != source
        invariant 0 <= k <= |cache| && forall j :: 0 <= j < k ==> cache[j].source != source
      {
        k := k + 1;
      }
    }

    method MoveToEnd(k: nat)
      requires Valid() && k < |cache|
      modifies this
      ensures Valid() && events == old(events) + [Used(old(cache)[k].source)]
    {
      hide KeysAfter, Touch;
      var entry := cache[k];
      TouchHit(events, Keys(cache), k);
      cache := cache[..k] + cache[k + 1..] + [entry];
      events := events + [Used(entry.source)];
      assert Keys(cache) == Cut(Keys(old(cache)), k) + [entry.source];
    }

    method Insert(source: string, document: Document)
      requires Valid() && source !in Keys(cache) && fetch(source) == Some(document)
      modifies this
      ensures Valid() && events == old(events) + [Used(source)]
    {
      hide KeysAfter, Touch;
      TouchMiss(events, Keys(cache), source);
      cache := cache + [Cached(source, document)];
      ghost var all := cache;
      assert Keys(all) == Keys(old(cache)) + [source];
      while |cache| > MAX_CACHE_ENTRIES
        invariant events == old(events)
        invariant |cache| <= |all| && cache == all[|all| - |cache|..]
        invariant |cache| >= MAX_CACHE_ENTRIES || cache == all
      {
        cache := cache[1..];
      }
      events := events + [Used(source)];
      assert Keys(cache) == LastN(Keys(all), MAX_CACHE_ENTRIES);
    }

    /** Loading through the cache gives what loading without it would give. */
    method LoadDocument(svc: Service, r: Registry) returns (result: Result<Document, Error>)
      requires Valid() && svc.fetch == fetch
      modifies this
      ensures Valid() && result == Load(svc, r)
      ensures events == old(events) + Use(svc, r.sources)
    {
      if r.sources == [] { return Err(NoSource); }
      var sources := Dedup(r.sources);
      DedupDelivers(svc, r.sources);
      DeliverableSnoc(svc, r.sources, "");
      for i := 0 to |sources|
        invariant Valid() && events == old(events)
        invariant forall k :: 0 <= k < i ==> svc.fetch(sources[k]).None?
      {
        FirstFetchedIs(svc, sources, i);
        var k := IndexOf(sources[i]);
        if k < |cache| {
          result := Ok(cache[k].document);
          MoveToEnd(k);
          return;
        }
        var document := svc.fetch(sources[i]);
        if document.Some? {
          Insert(sources[i], document.value);
          return Ok(document.value);
        }
      }
      FirstFetchedIs(svc, sources, |sources|);
      return Err(Unloadable);
    }

    /** What one registry answers: the end of the chain, or the registry it refers to. */
    method NextHop(svc: Service, r: Registry, key: string) returns (hop: Hop)
      requires Valid() && svc.fetch == fetch && r in svc.advertised && r.parts.Some?
      modifies this
      ensures Valid() && hop == Follow1(svc, r, key) && events == old(events) + Use(svc, r.sources)
    {
      var loaded := LoadDocument(svc, r);
      if loaded.Err? { return Stop(Err(loaded.error)); }
      var document := loaded.value;
      if document.referenced.Some? {
        var found := FindReferenced(svc, document.referenced.value);
        return if found.Ok? then Goto(found.value) else Stop(Err(found.error));
      }
      if key !in document.messages { return Stop(Err(MissingKey)); }
      var definition := document.messages[key];
      if definition.referenced.Some? {
        var found := FindReferenced(svc, definition.referenced.value);
        return if found.Ok? then Goto(found.value) else Stop(Err(found.error));
      }
      return Stop(Ok(Source(r, document, definition)));
    }

    /** Resolving through the cache gives what resolving without any cache gives. */
    method ResolveFrom(svc: Service, r: Registry, key: string, trail: seq<Identity>)
      returns (result: Result<Source, Error>)
      requires Valid() && svc.fetch == fetch && r in svc.advertised
      modifies this
      ensures Valid() && result == Resolve(svc, r, key, trail)
      ensures events == old(events) + Uses(svc, r, key, trail)
      decreases |IdentitiesOf(svc.advertised) - SetOf(trail)|
    {
      if r.parts.None? { return Err(Unparseable(r.id)); }
      var id := r.parts.value;
      if id in trail { return Err(Cycle(trail + [id])); }
      hide *;
      TrailGrows(svc, r, trail);
      ResolveHop(svc, r, key, trail);
      UsesHop(svc, r, key, trail, events);
      var hop := NextHop(svc, r, key);
      if hop.Stop? { return hop.result; }
      result := ResolveFrom(svc, hop.next, key, trail + [id]);
    }
  }
}
