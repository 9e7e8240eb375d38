/** Following message-registry references with cycle detection, over a fixed set of advertised registries. */
module Registries {
  import opened Wrappers

  datatype Version = Version(major: nat, minor: nat, errata: nat)

  /** Prefix and version: what identifies a registry in error messages and on the trail. */
  datatype Identity = Identity(prefix: string, version: Version)

  /** An advertised RegistryFile: `parts` is None if prefix and version cannot be parsed; `sources` are the
      usable Uri and PublicationUri of the location chosen for the requested language. */
  datatype Registry = Registry(id: string, parts: Option<Identity>, sources: seq<string>)

  datatype Reference =
    | ById(id: string)
    | ByName(prefix: string, major: nat, minor: nat, errata: Option<nat>)

  datatype Definition = Definition(text: Option<string>, numberOfArgs: Option<int>, referenced: Option<Reference>)

  datatype Document = Document(referenced: Option<Reference>, messages: map<string, Definition>)

  datatype Error =
    | Unparseable(id: string)
    | NoSource
    | Unloadable
    | NotAdvertised(reference: Reference)
    | MissingKey
    | Cycle(trail: seq<Identity>)

  /** A definition together with where it was found. */
  datatype Source = Source(registry: Registry, document: Document, definition: Definition)

  /** The service as one language sees it: what it advertises, how names compare, and its documents. */
  datatype Service = Service(advertised: seq<Registry>, fold: string -> string, fetch: string -> Option<Document>)

  // ----- choosing a referenced registry -----

  predicate Newer(a: Version, b: Version) {
    a.major > b.major
    || (a.major == b.major && (a.minor > b.minor || (a.minor == b.minor && a.errata > b.errata)))
  }

  predicate Fits(svc: Service, r: Registry, reference: Reference) {
    match reference
    case ById(id) => r.id == id
    case ByName(prefix, major, minor, errata) =>
      && r.parts.Some?
      && svc.fold(r.parts.value.prefix) == svc.fold(prefix)
      && r.parts.value.version.major == major && r.parts.value.version.minor == minor
      && (errata.Some? ==> r.parts.value.version.errata == errata.value)
  }

  /** Should `b`, listed later, replace `a`? Only a name picks the newest; an Id picks the first. */
  predicate Better(reference: Reference, a: Registry, b: Registry) {
    reference.ByName? && a.parts.Some? && b.parts.Some? && Newer(b.parts.value.version, a.parts.value.version)
  }

  /** The best of the first `n` advertised registries that fit. */
  function Best(svc: Service, reference: Reference, n: nat): (best: Option<Registry>)
    requires n <= |svc.advertised|
    ensures best.Some? ==> best.value in svc.advertised[..n] && Fits(svc, best.value, reference)
  {
    if n == 0 then None
    else
      var r, before := svc.advertised[n - 1], Best(svc, reference, n - 1);
      assert svc.advertised[..n] == svc.advertised[..n - 1] + [r];
      if Fits(svc, r, reference) && (before.None? || Better(reference, before.value, r)) then Some(r) else before
  }

  function Find(svc: Service, reference: Reference): Result<Registry, Error> {
    match Best(svc, reference, |svc.advertised|)
    case Some(r) => Ok(r)
    case None => Err(NotAdvertised(reference))
  }

  /** The source's loops: collect every candidate, then take the first maximal one; or stop at the first Id. */
  method FindReferenced(svc: Service, reference: Reference) returns (found: Result<Registry, Error>)
    ensures found == Find(svc, reference)
  {
    match reference {
      case ById(id) =>
        for i := 0 to |svc.advertised|
          invariant Best(svc, reference, i).None?
        {
          if svc.advertised[i].id == id {
            FirstIdStays(svc, reference, i + 1, |svc.advertised|);
            return Ok(svc.advertised[i]);
          }
        }
        return Err(NotAdvertised(reference));
      case ByName(prefix, major, minor, errata) =>
        var candidates: seq<Registry> := [];
        for i := 0 to |svc.advertised|
          invariant forall k :: 0 <= k < |candidates| ==> Fits(svc, candidates[k], reference)
          invariant Best(svc, reference, i) == FirstNewest(candidates)
        {
          var r := svc.advertised[i];
          if Fits(svc, r, reference) {
            FirstNewestLast(candidates, r);
            candidates := candidates + [r];
          }
        }
        if candidates == [] { return Err(NotAdvertised(reference)); }
        return Ok(FirstNewest(candidates).value);
    }
  }

  function FirstNewest(rs: seq<Registry>): (best: Option<Registry>)
    ensures best.None? <==> rs == []
    ensures best.Some? ==> best.value in rs
  {
    if rs == [] then None
    else
      var before, r := FirstNewest(rs[..|rs| - 1]), rs[|rs| - 1];
      assert rs == rs[..|rs| - 1] + [r];
      if before.None? || (before.value.parts.Some? && r.parts.Some?
                          && Newer(r.parts.value.version, before.value.parts.value.version)) then Some(r)
      else before
  }

  lemma FirstNewestLast(rs: seq<Registry>, r: Registry)
    ensures FirstNewest(rs + [r]) ==
            var before := FirstNewest(rs);
            if before.None? || (before.value.parts.Some? && r.parts.Some?
                                && Newer(r.parts.value.version, before.value.parts.value.version)) then Some(r)
            else before
  {
    assert (rs + [r])[..|rs|] == rs;
  }

  lemma {:induction false} FirstIdStays(svc: Service, reference: Reference, m: nat, n: nat)
    requires m <= n <= |svc.advertised| && reference.ById? && Best(svc, reference, m).Some?
    ensures Best(svc, reference, n) == Best(svc, reference, m)
    decreases n
  {
    if m < n { FirstIdStays(svc, reference, m, n - 1); }
  }

  /** A reference is refused exactly when nothing advertised fits; a name gets the newest fit, and the earliest
      advertised among equally new ones; an Id gets the earliest. */
  lemma FindMeaning(svc: Service, reference: Reference)
    ensures Find(svc, reference).Err? <==> forall r :: r in svc.advertised ==> !Fits(svc, r, reference)
    ensures Find(svc, reference).Ok? ==>
              exists i :: 0 <= i < |svc.advertised| && svc.advertised[i] == Find(svc, reference).value
                && IsBest(svc, reference, |svc.advertised|, i)
  {
    BestMeaning(svc, reference, |svc.advertised|);
    assert svc.advertised[..|svc.advertised|] == svc.advertised;
  }

  ghost predicate IsBest(svc: Service, reference: Reference, n: nat, i: nat)
    requires n <= |svc.advertised|
  {
    && i < n
    && Fits(svc, svc.advertised[i], reference)
    && (forall k :: 0 <= k < n && Fits(svc, svc.advertised[k], reference) ==>
          !Better(reference, svc.advertised[i], svc.advertised[k]))
    && forall k :: 0 <= k < i && Fits(svc, svc.advertised[k], reference) ==>
         Better(reference, svc.advertised[k], svc.advertised[i])
  }

  lemma {:induction false} BestMeaning(svc: Service, reference: Reference, n: nat)
    requires n <= |svc.advertised|
    ensures var best := Best(svc, reference, n);
            if best.None? then forall k :: 0 <= k < n ==> !Fits(svc, svc.advertised[k], reference)
            else exists i :: 0 <= i < n && svc.advertised[i] == best.value && IsBest(svc, reference, n, i)
  {
    hide Fits, Better;
    if n > 0 {
      BestMeaning(svc, reference, n - 1);
      var r, before := svc.advertised[n - 1], Best(svc, reference, n - 1);
      if before.Some? {
        var i :| 0 <= i < n - 1 && svc.advertised[i] == before.value && IsBest(svc, reference, n - 1, i);
        if Fits(svc, r, reference) && Better(reference, before.value, r) {
          forall k | 0 <= k < n - 1 && Fits(svc, svc.advertised[k], reference)
            ensures Better(reference, svc.advertised[k], r)
          {
            BetterThanWorse(svc, reference, before.value, svc.advertised[k], r);
          }
          NewBest(svc, reference, n);
        } else {
          assert IsBest(svc, reference, n, i);
        }
      } else if Fits(svc, r, reference) {
        NewBest(svc, reference, n);
      }
    }
  }

  lemma BetterThanWorse(svc: Service, reference: Reference, a: Registry, b: Registry, c: Registry)
    requires Fits(svc, b, reference) && Better(reference, a, c) && !Better(reference, a, b)
    ensures Better(reference, b, c)
  {
  }

  lemma BetterAsymmetric(reference: Reference, a: Registry, b: Registry)
    ensures !(Better(reference, a, b) && Better(reference, b, a))
  {
  }

  lemma NewBest(svc: Service, reference: Reference, n: nat)
    requires 0 < n <= |svc.advertised| && Fits(svc, svc.advertised[n - 1], reference)
    requires forall k :: 0 <= k < n - 1 && Fits(svc, svc.advertised[k], reference) ==>
               Better(reference, svc.advertised[k], svc.advertised[n - 1])
    ensures IsBest(svc, reference, n, n - 1)
  {
    hide Fits, Better;
    forall k | 0 <= k < n && Fits(svc, svc.advertised[k], reference)
      ensures !Better(reference, svc.advertised[n - 1], svc.advertised[k])
    {
      BetterAsymmetric(reference, svc.advertised[n - 1], svc.advertised[k]);
    }
  }

  /** `r` carries the name: the prefix up to case, the version's first two numbers, and the third if given. */
  ghost predicate Carries(
    svc: Service, r: Registry, prefix: string, major: nat, minor: nat, errata: Option<nat>)
  {
    && r.parts.Some? && svc.fold(r.parts.value.prefix) == svc.fold(prefix)
    && r.parts.value.version.major == major && r.parts.value.version.minor == minor
    && (errata.Some? ==> r.parts.value.version.errata == errata.value)
  }

  /** A name is refused exactly if nothing advertised carries it; the result carries it, no other advertised registry
      that does has a larger errata, and none listed earlier has the same one. */
  lemma NameGetsNewest(svc: Service, prefix: string, major: nat, minor: nat, errata: Option<nat>)
    ensures var found := Find(svc, ByName(prefix, major, minor, errata));
            && (found.Err? <==> forall r :: r in svc.advertised ==> !Carries(svc, r, prefix, major, minor, errata))
            && (found.Ok? ==>
                  && Carries(svc, found.value, prefix, major, minor, errata)
                  && exists i :: 0 <= i < |svc.advertised| && svc.advertised[i] == found.value
                       && (forall k :: 0 <= k < |svc.advertised| ==>
                             Carries(svc, svc.advertised[k], prefix, major, minor, errata) ==>
                               svc.advertised[k].parts.value.version.errata <= found.value.parts.value.version.errata)
                       && forall k :: 0 <= k < i && Carries(svc, svc.advertised[k], prefix, major, minor, errata) ==>
                            svc.advertised[k].parts.value.version.errata < found.value.parts.value.version.errata)
  {
    var reference := ByName(prefix, major, minor, errata);
    forall r: Registry ensures Fits(svc, r, reference) <==> Carries(svc, r, prefix, major, minor, errata) { }
    FindMeaning(svc, reference);
    if Find(svc, reference).Ok? {
      var i :| 0 <= i < |svc.advertised| && svc.advertised[i] == Find(svc, reference).value
        && IsBest(svc, reference, |svc.advertised|, i);
      forall k | 0 <= k < |svc.advertised| && Carries(svc, svc.advertised[k], prefix, major, minor, errata)
        ensures svc.advertised[k].parts.value.version.errata <= svc.advertised[i].parts.value.version.errata
      {
        assert !Better(reference, svc.advertised[i], svc.advertised[k]);
      }
      forall k | 0 <= k < i && Carries(svc, svc.advertised[k], prefix, major, minor, errata)
        ensures svc.advertised[k].parts.value.version.errata < svc.advertised[i].parts.value.version.errata
      {
        assert Better(reference, svc.advertised[k], svc.advertised[i]);
      }
    }
  }

  /** An Id is refused exactly if no advertised registry has it; otherwise the first one that has it is found. */
  lemma IdGetsFirst(svc: Service, id: string)
    ensures Find(svc, ById(id)).Err? <==> forall r :: r in svc.advertised ==> r.id != id
    ensures Find(svc, ById(id)).Ok? ==>
              exists i :: 0 <= i < |svc.advertised| && svc.advertised[i] == Find(svc, ById(id)).value
                && svc.advertised[i].id == id && forall k :: 0 <= k < i ==> svc.advertised[k].id != id
  {
    var reference := ById(id);
    FindMeaning(svc, reference);
    forall r: Registry ensures Fits(svc, r, reference) <==> r.id == id { }
    if Find(svc, reference).Ok? {
      var i :| 0 <= i < |svc.advertised| && svc.advertised[i] == Find(svc, reference).value
        && IsBest(svc, reference, |svc.advertised|, i);
      forall k | 0 <= k < i ensures svc.advertised[k].id != id {
        assert Fits(svc, svc.advertised[k], reference) ==> Better(reference, svc.advertised[k], svc.advertised[i]);
      }
    }
  }

  // ----- loading a document without any cache -----

  /** The document of the first source that can be fetched. */
  function FirstFetched(svc: Service, sources: seq<string>): Option<Document> {
    if sources == [] then None
    else if svc.fetch(sources[0]).Some? then svc.fetch(sources[0])
    else FirstFetched(svc, sources[1..])
  }

  function Load(svc: Service, r: Registry): Result<Document, Error> {
    if r.sources == [] then Err(NoSource)
    else match FirstFetched(svc, r.sources)
         case Some(document) => Ok(document)
         case None => Err(Unloadable)
  }

  lemma {:induction false} FirstFetchedExactly(svc: Service, sources: seq<string>)
    ensures FirstFetched(svc, sources).None? <==> forall i :: 0 <= i < |sources| ==> svc.fetch(sources[i]).None?
    ensures FirstFetched(svc, sources).Some? ==>
              exists i :: 0 <= i < |sources| && svc.fetch(sources[i]) == FirstFetched(svc, sources)
                && forall k :: 0 <= k < i ==> svc.fetch(sources[k]).None?
  {
    if sources != [] {
      var tail := sources[1..];
      FirstFetchedExactly(svc, tail);
      assert forall k :: 1 <= k < |sources| ==> sources[k] == tail[k - 1];
      if svc.fetch(sources[0]).None? && FirstFetched(svc, tail).Some? {
        var i :| 0 <= i < |tail| && svc.fetch(tail[i]) == FirstFetched(svc, tail)
          && forall k :: 0 <= k < i ==> svc.fetch(tail[k]).None?;
        assert sources[i + 1] == tail[i];
      }
    }
  }

  /** The document comes from the first source that can be fetched; without any source, or if none can be fetched,
      loading fails with the error that says so. */
  lemma LoadExactly(svc: Service, r: Registry)
    ensures Load(svc, r) == Err(NoSource) <==> r.sources == []
    ensures Load(svc, r) == Err(Unloadable) <==>
            r.sources != [] && forall i :: 0 <= i < |r.sources| ==> svc.fetch(r.sources[i]).None?
    ensures Load(svc, r).Ok? ==>
              exists i :: 0 <= i < |r.sources| && svc.fetch(r.sources[i]) == Some(Load(svc, r).value)
                && forall k :: 0 <= k < i ==> svc.fetch(r.sources[k]).None?
  {
    FirstFetchedExactly(svc, r.sources);
  }

  // ----- resolution with a trail -----

  function IdentitiesOf(rs: seq<Registry>): set<Identity> {
    set r | r in rs && r.parts.Some? :: r.parts.value
  }

  function SetOf(trail: seq<Identity>): set<Identity> {
    set i | i in trail
  }

  lemma TrailGrows(svc: Service, r: Registry, trail: seq<Identity>)
    requires r in svc.advertised && r.parts.Some? && r.parts.value !in trail
    ensures |IdentitiesOf(svc.advertised) - SetOf(trail + [r.parts.value])|
            < |IdentitiesOf(svc.advertised) - SetOf(trail)|
  {
    var all, id := IdentitiesOf(svc.advertised), r.parts.value;
    assert all - SetOf(trail + [id]) == (all - SetOf(trail)) - {id};
    assert id in all - SetOf(trail);
  }

  /** References are followed while the identity is new; the measure is the identities not yet on the trail. */
  function Resolve(svc: Service, r: Registry, key: string, trail: seq<Identity>): Result<Source, Error>
    requires r in svc.advertised
    decreases |IdentitiesOf(svc.advertised) - SetOf(trail)|
  {
    if r.parts.None? then Err(Unparseable(r.id))
    else if r.parts.value in trail then Err(Cycle(trail + [r.parts.value]))
    else
      TrailGrows(svc, r, trail);
      var trail' := trail + [r.parts.value];
      match Load(svc, r)
      case Err(e) => Err(e)
      case Ok(document) =>
        if document.referenced.Some? then
          match Find(svc, document.referenced.value)
          case Err(e) => Err(e)
          case Ok(source) => Resolve(svc, source, key, trail')
        else if key !in document.messages then Err(MissingKey)
        else
          var definition := document.messages[key];
          if definition.referenced.Some? then
            match Find(svc, definition.referenced.value)
            case Err(e) => Err(e)
            case Ok(source) => Resolve(svc, source, key, trail')
          else Ok(Source(r, document, definition))
  }

  // ----- the same, without a trail: one hop at a time -----

  datatype Hop = Stop(result: Result<Source, Error>) | Goto(next: Registry)

  function GotoFound(svc: Service, reference: Reference): (hop: Hop)
    ensures hop.Goto? ==> hop.next in svc.advertised
  {
    match Find(svc, reference)
    case Err(e) => Stop(Err(e))
    case Ok(source) => Goto(source)
  }

  function Follow1(svc: Service, r: Registry, key: string): (hop: Hop)
    ensures hop.Goto? ==> hop.next in svc.advertised && r.parts.Some?
    ensures hop.Stop? && hop.result.Err? ==> !hop.result.error.Cycle?
  {
    if r.parts.None? then Stop(Err(Unparseable(r.id)))
    else match Load(svc, r)
         case Err(e) => Stop(Err(e))
         case Ok(document) =>
           if document.referenced.Some? then GotoFound(svc, document.referenced.value)
           else if key !in document.messages then Stop(Err(MissingKey))
           else if document.messages[key].referenced.Some? then GotoFound(svc, document.messages[key].referenced.value)
           else Stop(Ok(Source(r, document, document.messages[key])))
  }

  /** `document` itself, or else its definition of `key`, refers on. */
  ghost predicate Refers(document: Document, key: string, reference: Reference) {
    if document.referenced.Some? then document.referenced.value == reference
    else key in document.messages && document.messages[key].referenced == Some(reference)
  }

  /** `source` is what `r` itself has for `key`: no reference leads on. */
  ghost predicate Owns(svc: Service, r: Registry, key: string, source: Source) {
    && source.registry == r && r.parts.Some? && Load(svc, r) == Ok(source.document)
    && source.document.referenced.None? && key in source.document.messages
    && source.definition == source.document.messages[key] && source.definition.referenced.None?
  }

  /** One hop leads to the registry found for the reference, and the chain ends well where a registry has its own
      definition. */
  lemma HopExactly(svc: Service, r: Registry, key: string, next: Registry, source: Source)
    ensures Follow1(svc, r, key) == Goto(next) <==>
            && r.parts.Some? && Load(svc, r).Ok?
            && exists reference :: Refers(Load(svc, r).value, key, reference) && Find(svc, reference) == Ok(next)
    ensures r.parts.None? ==> Follow1(svc, r, key) == Stop(Err(Unparseable(r.id)))
    ensures r.parts.Some? && Load(svc, r).Err? ==> Follow1(svc, r, key) == Stop(Err(Load(svc, r).error))
    ensures forall reference :: r.parts.Some? && Load(svc, r).Ok? && Find(svc, reference).Err? ==>
              Refers(Load(svc, r).value, key, reference) ==> Follow1(svc, r, key) == Stop(Err(NotAdvertised(reference)))
    ensures Follow1(svc, r, key) == Stop(Ok(source)) <==> Owns(svc, r, key, source)
    ensures Follow1(svc, r, key) == Stop(Err(MissingKey)) <==>
            && r.parts.Some? && Load(svc, r).Ok? && Load(svc, r).value.referenced.None?
            && key !in Load(svc, r).value.messages
  {
    hide Find, Load;
    LoadErrors(svc, r);
    forall reference: Reference
      ensures Find(svc, reference).Err? ==> Find(svc, reference) == Err(NotAdvertised(reference))
    {
      FindErrors(svc, reference);
    }
    if r.parts.Some? && Load(svc, r).Ok? {
      var document := Load(svc, r).value;
      if document.referenced.Some? {
        assert Refers(document, key, document.referenced.value);
      } else if key in document.messages && document.messages[key].referenced.Some? {
        assert Refers(document, key, document.messages[key].referenced.value);
      }
    }
  }

  lemma LoadErrors(svc: Service, r: Registry)
    ensures Load(svc, r).Err? ==> Load(svc, r).error in {NoSource, Unloadable}
  {
  }

  lemma FindErrors(svc: Service, reference: Reference)
    ensures Find(svc, reference).Err? ==> Find(svc, reference) == Err(NotAdvertised(reference))
  {
  }

  /** The registry reached after `n` hops, if the references lead that far. */
  function Visit(svc: Service, r: Registry, key: string, n: nat): Option<Registry>
    decreases n
  {
    if n == 0 then Some(r)
    else match Follow1(svc, r, key)
         case Stop(_) => None
         case Goto(next) => Visit(svc, next, key, n - 1)
  }

  /** The result of following at most `n` hops, if they end by then. */
  function Follow(svc: Service, r: Registry, key: string, n: nat): Option<Result<Source, Error>>
    decreases n
  {
    match Follow1(svc, r, key)
    case Stop(result) => Some(result)
    case Goto(next) => if n == 0 then None else Follow(svc, next, key, n - 1)
  }

  predicate IsCycle(result: Result<Source, Error>) {
    result.Err? && result.error.Cycle?
  }

  lemma ResolveHop(svc: Service, r: Registry, key: string, trail: seq<Identity>)
    requires r in svc.advertised && (r.parts.Some? ==> r.parts.value !in trail)
    ensures Resolve(svc, r, key, trail) ==
            match Follow1(svc, r, key)
            case Stop(result) => result
            case Goto(next) => Resolve(svc, next, key, trail + [r.parts.value])
  {
  }

  /** The chain of `n` hops from `r` meets an identity of the trail or one it has met before. */
  ghost predicate Returns(svc: Service, r: Registry, key: string, trail: seq<Identity>, n: nat) {
    var last := Visit(svc, r, key, n);
    && last.Some? && last.value.parts.Some?
    && (last.value.parts.value in trail
        || exists i :: 0 <= i < n && Visit(svc, r, key, i).Some? &&
            Visit(svc, r, key, i).value.parts == last.value.parts)
  }

  lemma VisitShift(svc: Service, r: Registry, key: string, next: Registry)
    requires Follow1(svc, r, key) == Goto(next)
    ensures forall k: nat {:trigger Visit(svc, next, key, k)} :: Visit(svc, r, key, k + 1) == Visit(svc, next, key, k)
  {
  }

  lemma ReturnsShift(svc: Service, r: Registry, key: string, next: Registry, trail: seq<Identity>, n: nat)
    requires Follow1(svc, r, key) == Goto(next) && Returns(svc, next, key, trail + [r.parts.value], n)
    ensures Returns(svc, r, key, trail, n + 1)
  {
    VisitShift(svc, r, key, next);
    var last := Visit(svc, next, key, n);
    if last.value.parts.value !in trail {
      if last.value.parts == r.parts {
        assert Visit(svc, r, key, 0) == Some(r);
      } else {
        var i :| 0 <= i < n && Visit(svc, next, key, i).Some? &&
            Visit(svc, next, key, i).value.parts == last.value.parts;
        assert Visit(svc, r, key, i + 1) == Visit(svc, next, key, i);
      }
    }
  }

  lemma ResolveStops(svc: Service, r: Registry, key: string, trail: seq<Identity>)
    requires r in svc.advertised && r.parts.Some? && r.parts.value in trail
    ensures IsCycle(Resolve(svc, r, key, trail))
  {
  }

  /** If the trail is hit, the chain returns; otherwise following without a trail ends with the same result. */
  lemma {:induction false} ResolveIsFollow(svc: Service, r: Registry, key: string, trail: seq<Identity>)
      returns (n: nat)
    requires r in svc.advertised
    ensures var result := Resolve(svc, r, key, trail);
            if IsCycle(result) then Returns(svc, r, key, trail, n)
            else Follow(svc, r, key, n) == Some(result) && forall m :: 0 <= m <= n ==> !Returns(svc, r, key, trail, m)
    decreases |IdentitiesOf(svc.advertised) - SetOf(trail)|
  {
    hide Resolve, Follow1;
    n := 0;
    if r.parts.Some? && r.parts.value in trail {
      ResolveStops(svc, r, key, trail);
      assert Visit(svc, r, key, 0) == Some(r);
    } else {
      ResolveHop(svc, r, key, trail);
      var hop := Follow1(svc, r, key);
      if hop.Goto? {
        TrailGrows(svc, r, trail);
        n := ResolveIsFollow(svc, hop.next, key, trail + [r.parts.value]);
        if IsCycle(Resolve(svc, r, key, trail)) {
          ReturnsShift(svc, r, key, hop.next, trail, n);
        } else {
          forall m | 0 <= m <= n + 1 ensures !Returns(svc, r, key, trail, m) {
            if m > 0 && Returns(svc, r, key, trail, m) {
              ReturnsUnshift(svc, r, key, hop.next, trail, m - 1);
            }
          }
        }
        n := n + 1;
      }
    }
  }

  lemma ReturnsUnshift(svc: Service, r: Registry, key: string, next: Registry, trail: seq<Identity>, n: nat)
    requires Follow1(svc, r, key) == Goto(next) && Returns(svc, r, key, trail, n + 1)
    ensures Returns(svc, next, key, trail + [r.parts.value], n)
  {
    VisitShift(svc, r, key, next);
    var last := Visit(svc, next, key, n);
    if last.value.parts.value !in trail && last.value.parts != r.parts {
      var i :| 0 <= i < n + 1 && Visit(svc, r, key, i).Some? && Visit(svc, r, key, i).value.parts == last.value.parts;
      assert i > 0 && Visit(svc, next, key, i - 1) == Visit(svc, r, key, i);
    }
  }

  // ----- main results -----

  lemma {:induction false} FollowMeansVisit(svc: Service, r: Registry, key: string, n: nat)
    ensures Follow(svc, r, key, n).None? <==> Visit(svc, r, key, n + 1).Some?
    decreases n
  {
    var hop := Follow1(svc, r, key);
    if hop.Goto? && n > 0 { FollowMeansVisit(svc, hop.next, key, n - 1); }
  }

  lemma {:induction false} VisitAdd(svc: Service, r: Registry, key: string, i: nat, k: nat)
    ensures Visit(svc, r, key, i + k) ==
            match Visit(svc, r, key, i) case Some(x) => Visit(svc, x, key, k) case None => None
    decreases i
  {
    var hop := Follow1(svc, r, key);
    if i > 0 && hop.Goto? { VisitAdd(svc, hop.next, key, i - 1, k); }
  }

  /** The cycle error is raised exactly when the chain returns to an identity it has visited. */
  lemma CycleExactly(svc: Service, r: Registry, key: string)
    requires r in svc.advertised
    ensures IsCycle(Resolve(svc, r, key, [])) <==> exists n :: Returns(svc, r, key, [], n)
  {
    var n := ResolveIsFollow(svc, r, key, []);
    if exists m :: Returns(svc, r, key, [], m) {
      var m :| Returns(svc, r, key, [], m);
      if !IsCycle(Resolve(svc, r, key, [])) && n < m {
        FollowMeansVisit(svc, r, key, n);
        VisitAdd(svc, r, key, n + 1, m - n - 1);
      }
    }
  }

  /** Without a cycle error, the trail changes nothing: plain following ends, with the same result. */
  lemma TrailIsInvisible(svc: Service, r: Registry, key: string) returns (n: nat)
    requires r in svc.advertised && !IsCycle(Resolve(svc, r, key, []))
    ensures Follow(svc, r, key, n) == Some(Resolve(svc, r, key, []))
  {
    n := ResolveIsFollow(svc, r, key, []);
  }

  lemma {:induction false} VisitAdvertised(svc: Service, r: Registry, key: string, n: nat)
    requires r in svc.advertised && Visit(svc, r, key, n).Some?
    ensures Visit(svc, r, key, n).value in svc.advertised
    decreases n
  {
    if n > 0 { VisitAdvertised(svc, Follow1(svc, r, key).next, key, n - 1); }
  }

  /** A chain that comes back to its start after `d` hops goes on for ever. */
  lemma {:induction false} LoopGoesOn(svc: Service, x: Registry, key: string, d: nat, k: nat)
    requires d > 0 && Visit(svc, x, key, d) == Some(x)
    ensures Visit(svc, x, key, k).Some?
    decreases k
  {
    if k >= d {
      LoopGoesOn(svc, x, key, d, k - d);
      VisitAdd(svc, x, key, d, k - d);
    } else {
      VisitAdd(svc, x, key, k, d - k);
    }
  }

  /** Following the references never ends. */
  ghost predicate Endless(svc: Service, r: Registry, key: string) {
    forall n: nat :: Follow(svc, r, key, n).None?
  }

  /** The chain meets two different registries with one identity. */
  ghost predicate SharedIdentity(svc: Service, r: Registry, key: string) {
    exists i: nat, j: nat :: SharedAt(svc, r, key, i, j)
  }

  ghost predicate SharedAt(svc: Service, r: Registry, key: string, i: nat, j: nat) {
    var x, y := Visit(svc, r, key, i), Visit(svc, r, key, j);
    i < j && x.Some? && y.Some? && x.value.parts.Some? && x.value.parts == y.value.parts && x != y
  }

  /** A chain that comes to one registry twice never ends. */
  lemma TwiceIsEndless(svc: Service, r: Registry, key: string, i: nat, j: nat)
    requires i < j && Visit(svc, r, key, i).Some? && Visit(svc, r, key, i) == Visit(svc, r, key, j)
    ensures Endless(svc, r, key)
  {
    hide Follow1, Follow, Visit;
    var x := Visit(svc, r, key, i).value;
    VisitAdd(svc, r, key, i, j - i);
    forall m: nat ensures Follow(svc, r, key, m).None? {
      FollowMeansVisit(svc, r, key, m);
      if m + 1 >= i {
        LoopGoesOn(svc, x, key, j - i, m + 1 - i);
        VisitAdd(svc, r, key, i, m + 1 - i);
      } else {
        VisitAdd(svc, r, key, m + 1, i - m - 1);
      }
    }
  }

  /** The cycle error is raised exactly when following would never end or two different registries on the chain
      have the same identity. */
  lemma CycleErrorMeans(svc: Service, r: Registry, key: string)
    requires r in svc.advertised
    ensures IsCycle(Resolve(svc, r, key, [])) <==> Endless(svc, r, key) || SharedIdentity(svc, r, key)
  {
    hide Resolve, Follow1, Follow, Visit;
    CycleExactly(svc, r, key);
    if SharedIdentity(svc, r, key) {
      var i: nat, j: nat :| SharedAt(svc, r, key, i, j);
      assert Returns(svc, r, key, [], j);
    }
    if IsCycle(Resolve(svc, r, key, [])) {
      var n: nat :| Returns(svc, r, key, [], n);
      var last := Visit(svc, r, key, n);
      var i :| 0 <= i < n && Visit(svc, r, key, i).Some? && Visit(svc, r, key, i).value.parts == last.value.parts;
      if Visit(svc, r, key, i) == last {
        TwiceIsEndless(svc, r, key, i, n);
      } else {
        assert SharedAt(svc, r, key, i, n);
      }
    } else {
      var n := TrailIsInvisible(svc, r, key);
    }
  }

  /** On a chain that ends, the error is raised exactly when two different registries share an identity. */
  lemma FalseCycleExactly(svc: Service, r: Registry, key: string, n: nat)
    requires r in svc.advertised && Follow(svc, r, key, n).Some?
    ensures IsCycle(Resolve(svc, r, key, [])) <==> SharedIdentity(svc, r, key)
  {
    CycleErrorMeans(svc, r, key);
  }

  /** What is resolved is the own definition of a registry on the chain, and a missing key is one that a registry on
      the chain, which does not refer on as a whole, does not have. */
  lemma ResolvedExactly(svc: Service, r: Registry, key: string)
    requires r in svc.advertised
    ensures var result := Resolve(svc, r, key, []);
            && (result.Ok? ==> exists n: nat ::
                  Visit(svc, r, key, n).Some? && Owns(svc, Visit(svc, r, key, n).value, key, result.value))
            && (result == Err(MissingKey) ==> exists n: nat ::
                  && Visit(svc, r, key, n).Some?
                  && Follow1(svc, Visit(svc, r, key, n).value, key) == Stop(Err(MissingKey)))
  {
    var result := Resolve(svc, r, key, []);
    if result.Ok? || result == Err(MissingKey) {
      hide Resolve, Follow1, Follow, Visit, Owns;
      var n := TrailIsInvisible(svc, r, key);
      var k := FollowEnds(svc, r, key, n);
      if result.Ok? { HopExactly(svc, Visit(svc, r, key, k).value, key, r, result.value); }
    }
  }

  lemma {:induction false} FollowEnds(svc: Service, r: Registry, key: string, n: nat) returns (k: nat)
    requires Follow(svc, r, key, n).Some?
    ensures Visit(svc, r, key, k).Some?
    ensures Follow1(svc, Visit(svc, r, key, k).value, key) == Stop(Follow(svc, r, key, n).value)
    decreases n
  {
    var hop := Follow1(svc, r, key);
    k := 0;
    if hop.Goto? {
      k := FollowEnds(svc, hop.next, key, n - 1);
      k := k + 1;
    }
  }

  /** The cycle error names the identities of the chain in order, up to the one that comes back. */
  lemma {:induction false} CycleNames(svc: Service, r: Registry, key: string, trail: seq<Identity>)
    returns (ids: seq<Identity>)
    requires r in svc.advertised && IsCycle(Resolve(svc, r, key, trail))
    ensures ids != [] && Resolve(svc, r, key, trail).error == Cycle(trail + ids)
    ensures ids[|ids| - 1] in trail + ids[..|ids| - 1]
    ensures forall k: nat :: k < |ids| ==>
              Visit(svc, r, key, k).Some? && Visit(svc, r, key, k).value.parts == Some(ids[k])
    decreases |IdentitiesOf(svc.advertised) - SetOf(trail)|
  {
    if r.parts.value in trail {
      ids := [r.parts.value];
    } else {
      ResolveHop(svc, r, key, trail);
      TrailGrows(svc, r, trail);
      var next, id := Follow1(svc, r, key).next, r.parts.value;
      var rest := CycleNames(svc, next, key, trail + [id]);
      ids := [id] + rest;
      assert trail + ids == trail + [id] + rest;
      assert ids[..|ids| - 1] == [id] + rest[..|rest| - 1];
      VisitShift(svc, r, key, next);
      forall k: nat | k < |ids|
        ensures Visit(svc, r, key, k).Some? && Visit(svc, r, key, k).value.parts == Some(ids[k])
      {
        if k > 0 { assert Visit(svc, r, key, (k - 1) + 1) == Visit(svc, next, key, k - 1); }
      }
    }
  }

  ghost predicate UniqueIdentities(svc: Service) {
    forall a, b :: a in svc.advertised && b in svc.advertised && a.parts.Some? && a.parts == b.parts ==> a == b
  }

  /** If no two advertised registries share an identity, the error is raised exactly when following the
      references would never end. */
  lemma CycleMeansEndless(svc: Service, r: Registry, key: string)
    requires r in svc.advertised && UniqueIdentities(svc)
    ensures IsCycle(Resolve(svc, r, key, [])) <==> Endless(svc, r, key)
  {
    hide Resolve, Follow1, Follow, Visit;
    CycleErrorMeans(svc, r, key);
    if SharedIdentity(svc, r, key) {
      var i: nat, j: nat :| SharedAt(svc, r, key, i, j);
      VisitAdvertised(svc, r, key, i);
      VisitAdvertised(svc, r, key, j);
      assert false;
    }
  }

  /** With a shared identity the error is raised although following would end: the service below advertises
      "Base 1.0.0" twice, and the first copy refers to the second, which has the message. */
  function TwinService(): Service {
    var twin := Identity("Base", Version(1, 0, 0));
    Service([Registry("a", Some(twin), ["/a"]), Registry("b", Some(twin), ["/b"])], s => s,
            s => if s == "/a" then Some(Document(Some(ById("b")), map[]))
                 else if s == "/b" then Some(Document(None, map["Key" := Definition(Some("text"), None, None)]))
                 else None)
  }

  lemma SharedIdentityFalseCycle()
    ensures var svc := TwinService();
            && IsCycle(Resolve(svc, svc.advertised[0], "Key", []))
            && Follow(svc, svc.advertised[0], "Key", 1).Some? && Follow(svc, svc.advertised[0], "Key", 1).value.Ok?
  {
    var svc := TwinService();
    assert Find(svc, ById("b")) == Ok(svc.advertised[1]) by {
      assert Best(svc, ById("b"), 0) == None;
      assert Best(svc, ById("b"), 1) == None;
    }
  }
}
