/** The inventory object: GPU resources merged in place as they are added. */
module GpuInventory {
  import opened Wrappers
  import opened Sequences
  import opened GpuClusters
  import opened GpuTheorems

  const TEXT_FIELDS: seq<Field> := [Name, Manufacturer, Model, Version, PowerWatts]

  function PublicIds(ids: set<string>): seq<string> {
    Sorted(set s | s in ids && !(SERIAL_PREFIX <= s))
  }

  /** `normalise` stands for strip() and casefold(). */
  function SerialIds(fields: map<Field, Value>, normalise: string -> string): set<string> {
    if Oem in fields && fields[Oem].OemBlock? && fields[Oem].serialNumber.Some?
       && fields[Oem].serialNumber.value != ""
       && normalise(fields[Oem].serialNumber.value) !in {"n/a", "not available"}
    then {SERIAL_PREFIX + normalise(fields[Oem].serialNumber.value)}
    else {}
  }

  function RecordOf(
    odataId: Option<string>, fields: map<Field, Value>, sourceType: string,
    links: set<string>, normalise: string -> string): (r: Record)
    ensures UriIsIdentity(r)
  {
    var uri := NonEmpty(odataId);
    Record(links + (if uri.Some? then {uri.value} else {}) + SerialIds(fields, normalise), fields, sourceType, uri)
  }

  // ----- which identities a resource has -----

  /** The OEM block holds a serial number, and its normal form is `form`. */
  ghost predicate HasSerial(fields: map<Field, Value>, normalise: string -> string, form: string) {
    && Oem in fields && fields[Oem].OemBlock? && fields[Oem].serialNumber.Some?
    && fields[Oem].serialNumber.value != "" && normalise(fields[Oem].serialNumber.value) == form
  }

  ghost predicate IsPlaceholder(form: string) {
    form == "n/a" || form == "not available"
  }

  /** The identities are the links, a non-empty URI of its own and, marked as such, a serial number that is no
      placeholder. */
  lemma IdentitiesExactly(
    odataId: Option<string>, fields: map<Field, Value>, sourceType: string, links: set<string>,
    normalise: string -> string, id: string)
    ensures id in RecordOf(odataId, fields, sourceType, links, normalise).ids <==>
            || id in links
            || (odataId == Some(id) && id != "")
            || exists form :: HasSerial(fields, normalise, form) && !IsPlaceholder(form) && id == "serial:" + form
  {
    if SerialIds(fields, normalise) != {} {
      assert HasSerial(fields, normalise, normalise(fields[Oem].serialNumber.value));
    }
    if exists form :: HasSerial(fields, normalise, form) && !IsPlaceholder(form) && id == "serial:" + form {
      var form :| HasSerial(fields, normalise, form) && !IsPlaceholder(form) && id == "serial:" + form;
      assert form !in {"n/a", "not available"};
    }
  }

  lemma SameSuffix(prefix: string, a: string, b: string)
    requires prefix + a == prefix + b
    ensures a == b
  {
    assert (prefix + a)[|prefix|..] == a && (prefix + b)[|prefix|..] == b;
  }

  /** Serial numbers alone link two resources exactly if their normal forms agree and are no placeholder. */
  lemma SerialsLinkExactly(
    f: map<Field, Value>, g: map<Field, Value>, s: string, t: string, normalise: string -> string)
    ensures Share(RecordOf(None, f, s, {}, normalise), RecordOf(None, g, t, {}, normalise)) <==>
            exists form :: HasSerial(f, normalise, form) && HasSerial(g, normalise, form) && !IsPlaceholder(form)
  {
    var a, b := RecordOf(None, f, s, {}, normalise), RecordOf(None, g, t, {}, normalise);
    if Share(a, b) {
      var id :| id in a.ids * b.ids;
      IdentitiesExactly(None, f, s, {}, normalise, id);
      IdentitiesExactly(None, g, t, {}, normalise, id);
      var x :| HasSerial(f, normalise, x) && !IsPlaceholder(x) && id == "serial:" + x;
      var y :| HasSerial(g, normalise, y) && !IsPlaceholder(y) && id == "serial:" + y;
      SameSuffix("serial:", x, y);
    }
    if exists form :: HasSerial(f, normalise, form) && HasSerial(g, normalise, form) && !IsPlaceholder(form) {
      var form :| HasSerial(f, normalise, form) && HasSerial(g, normalise, form) && !IsPlaceholder(form);
      IdentitiesExactly(None, f, s, {}, normalise, "serial:" + form);
      IdentitiesExactly(None, g, t, {}, normalise, "serial:" + form);
      assert "serial:" + form in a.ids * b.ids;
    }
  }

  /** Whatever was added before and after: a resource without links whose serial number is a placeholder stays alone
      unless another record names its URI. */
  lemma PlaceholderNeverLinks(
    rs: seq<Record>, i: nat, j: nat, odataId: Option<string>, fields: map<Field, Value>, sourceType: string,
    normalise: string -> string, form: string)
    requires i < |rs| && j < |rs| && rs[i] == RecordOf(odataId, fields, sourceType, {}, normalise)
    requires HasSerial(fields, normalise, form) && IsPlaceholder(form)
    requires forall k: nat :: k < |rs| && k != i && odataId.Some? ==> odataId.value !in rs[k].ids
    ensures SameGroup(Run(rs), i, j) <==> i == j
  {
    hide Run;
    forall k: nat | k < |rs| && k != i ensures !Share(rs[i], rs[k]) {
      if Share(rs[i], rs[k]) {
        var id :| id in rs[i].ids * rs[k].ids;
        IdentitiesExactly(odataId, fields, sourceType, {}, normalise, id);
      }
    }
    IsolatedStaysAlone(rs, i, j);
  }

  /** The public identities are those not marked as serial numbers. */
  lemma PublicIdsExactly(ids: set<string>, id: string)
    ensures id in PublicIds(ids) <==> id in ids && !("serial:" <= id)
    ensures StrictlySorted(PublicIds(ids))
  {
  }

  class Gpu {
    const odataId: Option<string>
    var fields: map<Field, Value>
    var sourceTypes: seq<string>
    var sourceOdataIds: seq<string>
    var relatedIds: seq<string>

    constructor (odataId: Option<string>, fields: map<Field, Value>)
      ensures this.odataId == odataId && this.fields == fields
    {
      this.odataId, this.fields := odataId, fields;
      sourceTypes, sourceOdataIds, relatedIds := [], [], [];
    }

    /** `this` keeps every value it has and takes the others from `other`. */
    method Absorb(other: Gpu)
      requires other != this
      modifies this
      ensures fields == other.fields + old(fields)
      ensures sourceTypes == Dedup(old(sourceTypes) + other.sourceTypes)
      ensures sourceOdataIds == Dedup(old(sourceOdataIds) + other.sourceOdataIds)
      ensures relatedIds == old(relatedIds)
    {
      for i := 0 to |TEXT_FIELDS|
        invariant forall f :: f in fields <==> f in old(fields) || (f in TEXT_FIELDS[..i] && f in other.fields)
        invariant forall f :: f in fields ==> fields[f] == (if f in old(fields) then old(fields) else other.fields)[f]
        invariant sourceTypes == old(sourceTypes) && sourceOdataIds == old(sourceOdataIds) &&
            relatedIds == old(relatedIds)
      {
        var f := TEXT_FIELDS[i];
        if f !in fields && f in other.fields {
          fields := fields[f := other.fields[f]];
        }
      }
      if Oem !in fields && Oem in other.fields {
        fields := fields[Oem := other.fields[Oem]];
      }
      forall f ensures f in TEXT_FIELDS || f == Oem {
        assert f in [Name, Manufacturer, Model, Version, PowerWatts] || f == Oem;
      }
      assert TEXT_FIELDS[..|TEXT_FIELDS|] == TEXT_FIELDS;
      assert fields == other.fields + old(fields);
      sourceTypes := Dedup(sourceTypes + other.sourceTypes);
      sourceOdataIds := Dedup(sourceOdataIds + other.sourceOdataIds);
    }
  }

  datatype Entry = Entry(gpu: Gpu, ids: set<string>)

  /** What the GPU object of an entry shows is what the candidate holds. */
  ghost predicate Shows(e: Entry, c: Candidate)
    reads e.gpu
  {
    && e.ids == c.ids
    && e.gpu.fields == c.fields
    && e.gpu.sourceTypes == c.sourceTypes
    && e.gpu.sourceOdataIds == c.sourceIds
  }

  /** Equality of two list entries: by contents, as the removal from the list compares them. */
  predicate SameContents(a: Entry, b: Entry)
    reads a.gpu, b.gpu
  {
    && a.ids == b.ids
    && a.gpu.odataId == b.gpu.odataId
    && a.gpu.fields == b.gpu.fields
    && a.gpu.sourceTypes == b.gpu.sourceTypes
    && a.gpu.sourceOdataIds == b.gpu.sourceOdataIds
    && a.gpu.relatedIds == b.gpu.relatedIds
  }

  function MatchingEntries(es: seq<Entry>, ids: set<string>): seq<Entry> {
    if es == [] then []
    else (if es[0].ids * ids != {} then [es[0]] else []) + MatchingEntries(es[1..], ids)
  }

  ghost predicate DistinctGpus(es: seq<Entry>) {
    forall j, k :: 0 <= j < k < |es| ==> es[j].gpu != es[k].gpu
  }

  function GpusOf(es: seq<Entry>): set<Gpu> {
    set k | 0 <= k < |es| :: es[k].gpu
  }

  lemma {:induction false} MatchingEntriesLast(es: seq<Entry>, e: Entry, ids: set<string>)
    ensures MatchingEntries(es + [e], ids) == MatchingEntries(es, ids) + (if e.ids * ids != {} then [e] else [])
  {
    if es == [] {
      assert es + [e] == [e] && [e][1..] == [];
    } else {
      assert (es + [e])[1..] == es[1..] + [e];
      MatchingEntriesLast(es[1..], e, ids);
    }
  }

  /** Entries that do not match can be skipped. */
  lemma {:induction false} SkipUnmatched(es: seq<Entry>, ids: set<string>, m: nat)
    requires m <= |es| && forall k :: 0 <= k < m ==> es[k].ids * ids == {}
    ensures MatchingEntries(es, ids) == MatchingEntries(es[m..], ids)
  {
    if m > 0 {
      SkipUnmatched(es[1..], ids, m - 1);
      assert es[1..][m - 1..] == es[m..];
    }
  }

  ghost predicate ShowAll(es: seq<Entry>, cs: seq<Candidate>)
    reads GpusOf(es)
  {
    |es| == |cs| && forall k :: 0 <= k < |es| ==> Shows(es[k], cs[k])
  }

  ghost predicate IdsAgree(es: seq<Entry>, cs: seq<Candidate>) {
    |es| == |cs| && forall k :: 0 <= k < |es| ==> es[k].ids == cs[k].ids
  }

  /** The next match among the candidates is the next matching entry; removing it leaves the later ones. */
  lemma NextEntry(es: seq<Entry>, now: seq<Candidate>, p: nat, ids: set<string>, q: nat)
    requires p < |now| && IdsAgree(es, now) && q == NextMatch(now, p + 1, ids)
    ensures if q == |es| then MatchingEntries(es[p + 1..], ids) == []
            else MatchingEntries(es[p + 1..], ids) == [es[q]] + MatchingEntries(es[q + 1..], ids)
    ensures q < |es| ==> MatchingEntries(es[p + 1..q] + es[q + 1..], ids) == MatchingEntries(es[q + 1..], ids)
  {
    SkipUnmatched(es[p + 1..], ids, q - p - 1);
    assert es[p + 1..][q - p - 1..] == es[q..];
    if q < |es| {
      assert es[q..][1..] == es[q + 1..];
      SkipUnmatched(es[p + 1..q] + es[q + 1..], ids, q - p - 1);
      assert (es[p + 1..q] + es[q + 1..])[q - p - 1..] == es[q + 1..];
    }
  }

  /** Folding into `p` is under way: nothing earlier matches, and identity `u` is the primary's alone. */
  ghost predicate Foldable(now: seq<Candidate>, p: nat, ids: set<string>, u: string) {
    && p < |now|
    && (forall k :: 0 <= k < p ==> !Matches(now[k], ids))
    && forall k :: 0 <= k < |now| ==> (u in now[k].ids <==> k == p)
  }

  /** Removal by equal contents takes the right entry: nothing before the next match has its identities, not
      even the primary, which by then has absorbed them. */
  lemma RemovalFinds(now: seq<Candidate>, p: nat, q: nat, ids: set<string>, u: string)
    requires Foldable(now, p, ids, u) && q == NextMatch(now, p + 1, ids) < |now|
    ensures forall k :: 0 <= k < q && k != p ==> now[k].ids != now[q].ids
    ensures now[p].ids + now[q].ids != now[q].ids
  {
    assert u in now[p].ids + now[q].ids;
    forall k | 0 <= k < q && k != p ensures now[k].ids != now[q].ids {
      assert !Matches(now[k], ids) && Matches(now[q], ids);
    }
  }

  lemma FoldableStep(now: seq<Candidate>, p: nat, q: nat, ids: set<string>, u: string)
    requires Foldable(now, p, ids, u) && q == NextMatch(now, p + 1, ids) < |now|
    ensures Foldable(FoldIn(now, p, q), p, ids, u)
    ensures FoldAll(FoldIn(now, p, q), p, ids) == FoldAll(now, p, ids)
  {
    hide FoldIn;
    FoldInAt(now, p, q, p);
    forall k | 0 <= k < |now| - 1
      ensures FoldIn(now, p, q)[k] == if k == p then Merge(now[p], now[q]) else now[Origin(q, k)]
    {
      FoldInAt(now, p, q, k);
    }
  }

  lemma FoldableAt(now: seq<Candidate>, p: nat, ids: set<string>, u: string)
    requires Foldable(now, p, ids, u)
    ensures p < |now|
  {
  }

  lemma ShownIds(es: seq<Entry>, cs: seq<Candidate>)
    requires ShowAll(es, cs)
    ensures IdsAgree(es, cs) && |es| == |cs|
  {
  }

  /** Every GPU, except the one at `except`, lists the public identities of its entry. */
  ghost predicate RelatedListed(es: seq<Entry>, except: nat)
    reads GpusOf(es)
  {
    forall k :: 0 <= k < |es| && k != except ==> es[k].gpu.relatedIds == PublicIds(es[k].ids)
  }

  function Without<T>(s: seq<T>, q: nat): seq<T>
    requires q < |s|
  {
    s[..q] + s[q + 1..]
  }

  lemma WithoutKeeps(es: seq<Entry>, cs: seq<Candidate>, p: nat, q: nat)
    requires DistinctGpus(es) && ShowAll(es, cs) && RelatedListed(es, p) && p < q < |es|
    ensures DistinctGpus(Without(es, q)) && RelatedListed(Without(es, q), p)
    ensures ShowAll(Without(es, q), Without(cs, q))
    ensures GpusOf(Without(es, q)) <= GpusOf(es)
    ensures Without(es, q)[p + 1..] == es[p + 1..q] + es[q + 1..]
  {
    hide Shows;
    var left := Without(es, q);
    assert forall k :: 0 <= k < |left| ==> left[k] == es[Origin(q, k)] && Without(cs, q)[k] == cs[Origin(q, k)];
  }

  lemma RunAdd(rs: seq<Record>, r: Record)
    ensures Run(rs + [r]) == AddTo(Run(rs), Single(|rs|, r))
  {
    assert (rs + [r])[..|rs|] == rs;
  }

  lemma AppendsOnly(cs: seq<Candidate>, c: Candidate)
    requires NextMatch(cs, 0, c.ids) == |cs|
    ensures AddTo(cs, c) == cs + [c]
  {
  }

  /** The first matching entry stands for the first matching candidate. */
  lemma FirstIsNext(es: seq<Entry>, cs: seq<Candidate>, ids: set<string>, p: nat)
    requires ShowAll(es, cs) && p <= |es| && forall k :: 0 <= k < p ==> es[k].ids * ids == {}
    requires p < |es| ==> es[p].ids * ids != {}
    ensures p == NextMatch(cs, 0, ids) && |es| == |cs|
    ensures MatchingEntries(es, ids) == if p == |es| then [] else [es[p]] + MatchingEntries(es[p + 1..], ids)
  {
    ShownIds(es, cs);
    SkipUnmatched(es, ids, p);
    if p < |es| { assert es[p..][1..] == es[p + 1..]; }
    assert p < |cs| ==> Matches(cs[p], ids);
    assert forall k :: 0 <= k < p ==> !Matches(cs[k], ids);
  }

  /** Once the first match has absorbed the new record, an identity they share is its own. */
  lemma FoldingStarts(cs: seq<Candidate>, p: nat, c: Candidate) returns (u: string)
    requires p == NextMatch(cs, 0, c.ids) < |cs|
    requires forall j, k :: 0 <= j < |cs| && 0 <= k < |cs| && j != k ==> cs[j].ids !! cs[k].ids
    ensures Foldable(cs[p := Merge(cs[p], c)], p, c.ids, u)
  {
    u :| u in cs[p].ids * c.ids;
  }

  class Inventory {
    const normalise: string -> string
    var candidates: seq<Entry>
    ghost var added: seq<Record>

    /** The list shows the clustering of everything added so far. */
    ghost predicate Valid()
      reads this, GpusOf(candidates)
    {
      && DistinctGpus(candidates)
      && ShowAll(candidates, Run(added))
      && RelatedListed(candidates, |candidates|)
      && forall r :: r in added ==> UriIsIdentity(r)
    }

    constructor (normalise: string -> string)
      ensures Valid() && added == [] && candidates == [] && this.normalise == normalise
    {
      this.normalise, candidates, added := normalise, [], [];
    }

    method FindMatches(identities: set<string>) returns (matches: seq<Entry>, first: nat)
      ensures matches == MatchingEntries(candidates, identities)
      ensures first <= |candidates| && forall k :: 0 <= k < first ==> candidates[k].ids * identities == {}
      ensures if matches == [] then first == |candidates|
              else first < |candidates| && candidates[first].ids * identities != {} && matches[0] == candidates[first]
    {
      matches, first := [], |candidates|;
      for i := 0 to |candidates|
        invariant matches == MatchingEntries(candidates[..i], identities)
        invariant matches == [] ==> first == |candidates|
        invariant matches == [] ==> forall k :: 0 <= k < i ==> candidates[k].ids * identities == {}
        invariant matches != [] ==> first < i && candidates[first].ids * identities != {}
        invariant matches != [] ==> matches[0] == candidates[first]
        invariant matches != [] ==> forall k :: 0 <= k < first ==> candidates[k].ids * identities == {}
      {
        assert candidates[..i + 1] == candidates[..i] + [candidates[i]];
        MatchingEntriesLast(candidates[..i], candidates[i], identities);
        if candidates[i].ids * identities != {} {
          if matches == [] { first := i; }
          matches := matches + [candidates[i]];
        }
      }
      assert candidates[..|candidates|] == candidates;
    }

    /** Removes the first entry equal by contents to `duplicate`; here that is the entry at `q`. */
    method RemoveEntry(duplicate: Entry, ghost q: nat)
      requires q < |candidates| && candidates[q] == duplicate
      requires forall k :: 0 <= k < q ==> candidates[k].ids != duplicate.ids
      modifies this`candidates
      ensures candidates == old(candidates)[..q] + old(candidates)[q + 1..]
    {
      var i := 0;
      while !SameContents(candidates[i], duplicate)
        invariant 0 <= i <= q
        decreases q - i
      {
        i := i + 1;
      }
      candidates := candidates[..i] + candidates[i + 1..];
    }

    /** The entry at `p` keeps what it has and takes the rest, and all identities, from `other`. */
    method AbsorbAt(p: nat, other: Entry, ghost now: seq<Candidate>, ghost c: Candidate)
      requires DistinctGpus(candidates) && ShowAll(candidates, now) && RelatedListed(candidates, p)
      requires p < |candidates| && Shows(other, c) && other.gpu != candidates[p].gpu
      modifies this`candidates, candidates[p].gpu
      ensures candidates == old(candidates)[p := Entry(old(candidates)[p].gpu, old(candidates)[p].ids + other.ids)]
      ensures DistinctGpus(candidates) && ShowAll(candidates, now[p := Merge(now[p], c)]) &&
          RelatedListed(candidates, p)
      ensures GpusOf(candidates) == GpusOf(old(candidates))
    {
      var primary := candidates[p].gpu;
      primary.Absorb(other.gpu);
      candidates := candidates[p := Entry(primary, candidates[p].ids + other.ids)];
      assert forall k :: 0 <= k < |candidates| ==> candidates[k].gpu == old(candidates)[k].gpu;
    }

    /** Folds the duplicate at `q` into the primary at `p`: fields, identities, then removal from the list. */
    method FoldDuplicate(p: nat, duplicate: Entry, ghost q: nat, ghost now: seq<Candidate>)
      requires DistinctGpus(candidates) && ShowAll(candidates, now) && RelatedListed(candidates, p)
      requires p < q < |candidates| && candidates[q] == duplicate
      requires forall k :: 0 <= k < q && k != p ==> now[k].ids != now[q].ids
      requires now[p].ids + now[q].ids != now[q].ids
      modifies this`candidates, candidates[p].gpu
      ensures DistinctGpus(candidates) && ShowAll(candidates, FoldIn(now, p, q)) && RelatedListed(candidates, p)
      ensures p < |candidates| && candidates[p].gpu == old(candidates[p].gpu)
      ensures candidates[p + 1..] == old(candidates)[p + 1..q] + old(candidates)[q + 1..]
      ensures GpusOf(candidates) <= GpusOf(old(candidates))
    {
      AbsorbAt(p, duplicate, now, now[q]);
      ghost var es, merged := candidates, now[p := Merge(now[p], now[q])];
      RemoveEntry(duplicate, q);
      WithoutKeeps(es, merged, p, q);
      assert es[p + 1..q] == old(candidates)[p + 1..q] && es[q + 1..] == old(candidates)[q + 1..];
    }

    /** Folds every later match, in list order, into the first match at `p`. */
    method FoldDuplicates(p: nat, duplicates: seq<Entry>, ids: set<string>, ghost cs: seq<Candidate>, ghost u: string)
      requires DistinctGpus(candidates) && ShowAll(candidates, cs) && RelatedListed(candidates, p)
      requires Foldable(cs, p, ids, u) && duplicates == MatchingEntries(candidates[p + 1..], ids)
      modifies this`candidates, candidates[p].gpu
      ensures DistinctGpus(candidates) && ShowAll(candidates, FoldAll(cs, p, ids)) && RelatedListed(candidates, p)
      ensures p < |candidates| && candidates[p].gpu == old(candidates[p].gpu)
      ensures GpusOf(candidates) <= GpusOf(old(candidates))
    {
      hide FoldIn, FoldAll, ShowAll, Foldable, DistinctGpus, RelatedListed, IdsAgree;
      ghost var now := cs;
      ShownIds(candidates, now);
      FoldableAt(now, p, ids, u);
      for i := 0 to |duplicates|
        invariant DistinctGpus(candidates) && ShowAll(candidates, now) && RelatedListed(candidates, p)
        invariant p < |now| && IdsAgree(candidates, now) && |candidates| == |now|
        invariant Foldable(now, p, ids, u) && FoldAll(now, p, ids) == FoldAll(cs, p, ids)
        invariant candidates[p].gpu == old(candidates[p].gpu)
        invariant duplicates[i..] == MatchingEntries(candidates[p + 1..], ids)
        invariant GpusOf(candidates) <= GpusOf(old(candidates))
      {
        ghost var q := NextMatch(now, p + 1, ids);
        NextEntry(candidates, now, p, ids, q);
        RemovalFinds(now, p, q, ids, u);
        FoldDuplicate(p, duplicates[i], q, now);
        FoldableStep(now, p, q, ids, u);
        now := FoldIn(now, p, q);
        ShownIds(candidates, now);
        FoldableAt(now, p, ids, u);
      }
      NextEntry(candidates, now, p, ids, NextMatch(now, p + 1, ids));
      FoldAllDone(now, p, ids);
    }

    /** The new record goes into the first match at `p`, then the later matches follow. */
    method MergeInto(p: nat, gpu: Gpu, ids: set<string>, matches: seq<Entry>, ghost cs: seq<Candidate>,
        ghost c: Candidate)
      requires DistinctGpus(candidates) && ShowAll(candidates, cs) && RelatedListed(candidates, |candidates|)
      requires p == NextMatch(cs, 0, c.ids) < |cs| && Shows(Entry(gpu, ids), c) && gpu !in GpusOf(candidates)
      requires forall j, k :: 0 <= j < |cs| && 0 <= k < |cs| && j != k ==> cs[j].ids !! cs[k].ids
      requires matches == [candidates[p]] + MatchingEntries(candidates[p + 1..], ids)
      modifies this`candidates, candidates[p].gpu
      ensures DistinctGpus(candidates) && ShowAll(candidates, AddTo(cs, c)) && RelatedListed(candidates, |candidates|)
      ensures GpusOf(candidates) <= GpusOf(old(candidates))
    {
      hide FoldAll, Foldable;
      ghost var u := FoldingStarts(cs, p, c);
      AbsorbAt(p, Entry(gpu, ids), cs, c);
      FoldDuplicates(p, matches[1..], ids, cs[p := Merge(cs[p], c)], u);
      matches[0].gpu.relatedIds := PublicIds(candidates[p].ids);
    }

    method Prepare(gpu: Gpu, sourceType: string, links: set<string>) returns (identities: set<string>)
      modifies gpu
      ensures gpu.fields == old(gpu.fields)
      ensures var r := RecordOf(gpu.odataId, gpu.fields, sourceType, links, normalise);
              identities == r.ids && forall n :: Shows(Entry(gpu, identities), Single(n, r))
      ensures gpu.relatedIds == PublicIds(identities)
    {
      identities := links;
      if gpu.odataId.Some? && gpu.odataId.value != "" {
        identities := identities + {gpu.odataId.value};
      }
      identities := identities + SerialIds(gpu.fields, normalise);
      gpu.sourceTypes := [sourceType];
      gpu.sourceOdataIds := UriList(NonEmpty(gpu.odataId));
      gpu.relatedIds := PublicIds(identities);
    }

    method Append(gpu: Gpu, ids: set<string>, ghost cs: seq<Candidate>, ghost c: Candidate)
      requires DistinctGpus(candidates) && ShowAll(candidates, cs) && RelatedListed(candidates, |candidates|)
      requires Shows(Entry(gpu, ids), c) && gpu !in GpusOf(candidates) && gpu.relatedIds == PublicIds(ids)
      modifies this`candidates
      ensures DistinctGpus(candidates) && ShowAll(candidates, cs + [c]) && RelatedListed(candidates, |candidates|)
      ensures GpusOf(candidates) <= GpusOf(old(candidates)) + {gpu}
    {
      candidates := candidates + [Entry(gpu, ids)];
    }

    /** Adds one resource: alone if nothing matches, otherwise merged into the first match with all others. */
    method Add(gpu: Gpu, sourceType: string, links: set<string>)
      requires Valid() && gpu !in GpusOf(candidates)
      modifies this, gpu, GpusOf(candidates)
      ensures Valid()
      ensures added == old(added) + [RecordOf(gpu.odataId, old(gpu.fields), sourceType, links, normalise)]
      ensures GpusOf(candidates) <= GpusOf(old(candidates)) + {gpu}
    {
      hide Run, Sound, FoldAll, ShowAll, Shows, DistinctGpus, RelatedListed, AddTo, MatchingEntries;
      ghost var record := RecordOf(gpu.odataId, gpu.fields, sourceType, links, normalise);
      ghost var cs, c := Run(added), Single(|added|, record);
      var identities := Prepare(gpu, sourceType, links);
      var matches, p := FindMatches(identities);
      FirstIsNext(candidates, cs, identities, p);
      RunAdd(added, record);
      RunPartitions(added);
      added := added + [record];
      if matches == [] {
        AppendsOnly(cs, c);
        Append(gpu, identities, cs, c);
      } else {
        MergeInto(p, gpu, identities, matches, cs, c);
      }
    }
  }

  lemma FoldAllDone(now: seq<Candidate>, p: nat, ids: set<string>)
    requires p < |now| && NextMatch(now, p + 1, ids) == |now|
    ensures FoldAll(now, p, ids) == now
  {
  }
}
