/** What GPU clustering guarantees for every sequence of added records. */
module GpuTheorems {
  import opened Wrappers
  import opened Sequences
  import opened GpuClusters

  /** Some candidate of `cs` holds both records. */
  ghost predicate SameGroup(cs: seq<Candidate>, i: nat, j: nat) {
    exists k :: 0 <= k < |cs| && i in cs[k].records && j in cs[k].records
  }

  lemma OwnIds(rs: seq<Record>, x: Candidate, i: nat)
    requires Holds(rs, x) && i in x.records
    ensures i < |rs| && rs[i].ids <= x.ids
  {
    var xs := Pick(rs, x.records);
    var k :| 0 <= k < |x.records| && x.records[k] == i;
    assert xs[k] == rs[i] && xs[k] in xs;
  }

  lemma ApartDisjoint(x: Candidate, y: Candidate)
    requires Apart(x, y, {})
    ensures x.ids !! y.ids && y.ids !! x.ids && NoCommonRecord(x, y) && NoCommonRecord(y, x)
  {
    assert forall s :: s in x.ids && s in y.ids ==> s in x.ids * y.ids;
  }

  lemma SoundInRange(rs: seq<Record>, x: Candidate)
    requires Sound(rs, x)
    ensures x.records != [] && forall i :: i in x.records ==> i < |rs|
  {
  }

  /** Every record is in exactly one candidate, and no identity is in two. */
  lemma RunPartitions(rs: seq<Record>)
    ensures var cs := Run(rs);
            && (forall k :: 0 <= k < |cs| ==> Sound(rs, cs[k]))
            && (forall i :: 0 <= i < |rs| ==> HasRecord(cs, i))
            && (forall k :: 0 <= k < |cs| ==> forall i :: i in cs[k].records ==> i < |rs|)
            && forall j, k :: 0 <= j < |cs| && 0 <= k < |cs| && j != k ==>
                 cs[j].ids !! cs[k].ids && NoCommonRecord(cs[j], cs[k])
  {
    hide Run;
    hide Sound;
    var cs := Run(rs);
    RunClustered(rs);
    forall j, k | 0 <= j < |cs| && 0 <= k < |cs| && j != k
      ensures cs[j].ids !! cs[k].ids && NoCommonRecord(cs[j], cs[k])
    {
      if j < k { ApartDisjoint(cs[j], cs[k]); } else { ApartDisjoint(cs[k], cs[j]); }
    }
    forall k | 0 <= k < |cs| ensures forall i :: i in cs[k].records ==> i < |rs| {
      SoundInRange(rs, cs[k]);
    }
  }

  lemma SharedIdMeansSame(rs: seq<Record>, k: nat, i: nat, j: nat)
    requires k < |Run(rs)| && i < |rs| && j < |rs| && Share(rs[i], rs[j]) && i in Run(rs)[k].records
    ensures j in Run(rs)[k].records
  {
    hide Run;
    var cs := Run(rs);
    RunPartitions(rs);
    assert HasRecord(cs, j);
    var m :| 0 <= m < |cs| && j in cs[m].records;
    OwnIds(rs, cs[k], i);
    OwnIds(rs, cs[m], j);
    var s :| s in rs[i].ids * rs[j].ids;
    assert s in cs[k].ids && s in cs[m].ids;
  }

  lemma {:induction false} PathStaysInside(rs: seq<Record>, p: seq<nat>, i: nat, j: nat, k: nat)
    requires Path(rs, p, i, j) && k < |Run(rs)| && i in Run(rs)[k].records
    ensures j in Run(rs)[k].records
    decreases |p|
  {
    if |p| > 1 {
      var q := p[1..];
      assert Share(rs[p[0]], rs[p[1]]);
      SharedIdMeansSame(rs, k, i, p[1]);
      forall m | 0 < m < |q| ensures Share(rs[q[m - 1]], rs[q[m]]) {
        assert Share(rs[p[m]], rs[p[m + 1]]);
      }
      PathStaysInside(rs, q, p[1], j, k);
    }
  }

  /** Two records end in the same candidate exactly when a chain of shared identities links them. */
  lemma GroupsAreComponents(rs: seq<Record>, i: nat, j: nat)
    requires i < |rs| && j < |rs|
    ensures SameGroup(Run(rs), i, j) <==> Connected(rs, i, j)
  {
    hide Run;
    var cs := Run(rs);
    RunPartitions(rs);
    if SameGroup(cs, i, j) {
      var k :| 0 <= k < |cs| && i in cs[k].records && j in cs[k].records;
      assert Sound(rs, cs[k]);
    }
    if Connected(rs, i, j) {
      var p :| Path(rs, p, i, j);
      assert HasRecord(cs, i);
      var k :| 0 <= k < |cs| && i in cs[k].records;
      PathStaysInside(rs, p, i, j, k);
    }
  }

  /** A path to another record leaves the first one somewhere. */
  lemma {:induction false} PathLeaves(rs: seq<Record>, p: seq<nat>, i: nat, j: nat) returns (k: nat)
    requires Path(rs, p, i, j) && i != j
    ensures k < |rs| && k != i && Share(rs[i], rs[k])
    decreases |p|
  {
    assert Share(rs[p[0]], rs[p[1]]);
    if p[1] != i {
      k := p[1];
    } else {
      var q := p[1..];
      forall m | 0 < m < |q| ensures Share(rs[q[m - 1]], rs[q[m]]) { assert Share(rs[p[m]], rs[p[m + 1]]); }
      k := PathLeaves(rs, q, i, j);
    }
  }

  /** A record that shares no identity with another one stays alone. */
  lemma IsolatedStaysAlone(rs: seq<Record>, i: nat, j: nat)
    requires i < |rs| && j < |rs|
    requires forall k: nat :: k < |rs| && k != i ==> !Share(rs[i], rs[k])
    ensures SameGroup(Run(rs), i, j) <==> i == j
  {
    hide Run;
    GroupsAreComponents(rs, i, j);
    if i == j {
      ConnectedRefl(rs, i);
    } else if Connected(rs, i, j) {
      var p :| Path(rs, p, i, j);
      var k := PathLeaves(rs, p, i, j);
    }
  }

  /** A record without identities is never merged with anything. */
  lemma UnidentifiedStaysAlone(rs: seq<Record>, i: nat, j: nat)
    requires i < |rs| && j < |rs| && rs[i].ids == {}
    ensures SameGroup(Run(rs), i, j) <==> i == j
  {
    hide Run;
    IsolatedStaysAlone(rs, i, j);
  }

  /** The result lists the groups by their earliest-added record, which also comes first in each merge. */
  lemma ResultOrder(rs: seq<Record>)
    ensures var cs := Run(rs);
            && (forall k :: 0 <= k < |cs| ==>
                  cs[k].records != [] && forall i :: i in cs[k].records ==> cs[k].records[0] <= i)
            && forall j, k :: 0 <= j < k < |cs| ==> cs[j].records[0] < cs[k].records[0]
  {
    hide Run;
    var cs := Run(rs);
    RunClustered(rs);
    assert forall k :: 0 <= k < |cs| ==> Sound(rs, cs[k]);
    assert forall j, k :: 0 <= j < k < |cs| ==> Apart(cs[j], cs[k], {});
  }

  /** A merged field is missing exactly when all its records miss it; otherwise the first record, in merge
      order, that has it decides. */
  lemma FieldsConserved(rs: seq<Record>, k: nat, f: Field)
    requires k < |Run(rs)|
    ensures var c := Run(rs)[k];
            && InRange(rs, c.records)
            && (f !in c.fields <==> forall m :: 0 <= m < |c.records| ==> f !in rs[c.records[m]].fields)
            && forall m :: 0 <= m < |c.records| && f in rs[c.records[m]].fields
                 && (forall n :: 0 <= n < m ==> f !in rs[c.records[n]].fields)
                 ==> f in c.fields && c.fields[f] == rs[c.records[m]].fields[f]
  {
    hide Run;
    RunPartitions(rs);
    var c := Run(rs)[k];
    assert Sound(rs, c);
    var ms := FieldsOf(Pick(rs, c.records));
    assert forall m :: 0 <= m < |ms| ==> ms[m] == rs[c.records[m]].fields;
    CoalesceFirst(ms, f);
    forall m | 0 <= m < |ms| && f in rs[c.records[m]].fields
               && (forall n :: 0 <= n < m ==> f !in rs[c.records[n]].fields)
      ensures f in c.fields && c.fields[f] == rs[c.records[m]].fields[f]
    {
      assert forall n :: 0 <= n < m ==> f !in ms[n];
      assert f in ms[m];
    }
  }

  // A record's own resource URI is one of its identities; `add` puts it there.
  ghost predicate UriIsIdentity(r: Record) {
    r.uri.Some? ==> r.uri.value in r.ids
  }

  lemma SourceIdsMembers(rs: seq<Record>, c: Candidate, u: string)
    requires Holds(rs, c)
    ensures u in c.sourceIds <==> exists i :: i in c.records && i < |rs| && rs[i].uri == Some(u)
  {
    var xs := Pick(rs, c.records);
    if u in c.sourceIds {
      var k :| 0 <= k < |xs| && xs[k].uri == Some(u);
      assert c.records[k] in c.records;
    }
    if exists i :: i in c.records && i < |rs| && rs[i].uri == Some(u) {
      var i :| i in c.records && i < |rs| && rs[i].uri == Some(u);
      var k :| 0 <= k < |c.records| && c.records[k] == i;
      assert xs[k].uri == Some(u);
    }
  }

  ghost predicate Listed(cs: seq<Candidate>, u: string) {
    exists k :: 0 <= k < |cs| && u in cs[k].sourceIds
  }

  ghost predicate Advertised(rs: seq<Record>, u: string) {
    exists i :: 0 <= i < |rs| && rs[i].uri == Some(u)
  }

  /** Every added resource URI is listed exactly once over all candidates, and nothing else is listed. */
  lemma UrisListedOnce(rs: seq<Record>)
    requires forall r :: r in rs ==> UriIsIdentity(r)
    ensures var cs := Run(rs);
            && (forall u :: Listed(cs, u) <==> Advertised(rs, u))
            && forall j, k, m, n ::
                 (0 <= j < |cs| && 0 <= k < |cs| && 0 <= m < |cs[j].sourceIds| && 0 <= n < |cs[k].sourceIds|
                  && cs[j].sourceIds[m] == cs[k].sourceIds[n]) ==> j == k && m == n
  {
    hide Run;
    hide Sound;
    var cs := Run(rs);
    RunPartitions(rs);
    forall u ensures Listed(cs, u) <==> Advertised(rs, u) {
      UriListed(rs, u);
    }
    forall j, k, m, n | 0 <= j < |cs| && 0 <= k < |cs| && 0 <= m < |cs[j].sourceIds| && 0 <= n < |cs[k].sourceIds|
                        && cs[j].sourceIds[m] == cs[k].sourceIds[n]
      ensures j == k && m == n
    {
      var u := cs[j].sourceIds[m];
      SourceIdOwned(rs, j, u);
      SourceIdOwned(rs, k, u);
      SourceIdsDistinct(rs, cs[j]);
    }
  }

  lemma SourceIdsDistinct(rs: seq<Record>, c: Candidate)
    requires Sound(rs, c)
    ensures NoDuplicates(c.sourceIds)
  {
  }

  lemma SourceIdOwned(rs: seq<Record>, k: nat, u: string)
    requires forall r :: r in rs ==> UriIsIdentity(r)
    requires k < |Run(rs)| && u in Run(rs)[k].sourceIds
    ensures u in Run(rs)[k].ids
  {
    hide Run;
    var c := Run(rs)[k];
    RunPartitions(rs);
    assert Sound(rs, c);
    SourceIdsMembers(rs, c, u);
    var i :| i in c.records && i < |rs| && rs[i].uri == Some(u);
    assert UriIsIdentity(rs[i]);
    OwnIds(rs, c, i);
  }

  lemma UriListed(rs: seq<Record>, u: string)
    ensures Listed(Run(rs), u) <==> Advertised(rs, u)
  {
    hide Run;
    var cs := Run(rs);
    RunPartitions(rs);
    if Listed(cs, u) {
      var k :| 0 <= k < |cs| && u in cs[k].sourceIds;
      assert Sound(rs, cs[k]);
      SourceIdsMembers(rs, cs[k], u);
    }
    if Advertised(rs, u) {
      var i :| 0 <= i < |rs| && rs[i].uri == Some(u);
      assert HasRecord(cs, i);
      var k :| 0 <= k < |cs| && i in cs[k].records;
      assert Sound(rs, cs[k]);
      SourceIdsMembers(rs, cs[k], u);
    }
  }

  // ----- merge order -----

  /** The candidates that match `ids`, or those that do not. */
  function Select(cs: seq<Candidate>, ids: set<string>, matching: bool): seq<Candidate> {
    if cs == [] then []
    else (if Matches(cs[0], ids) == matching then [cs[0]] else []) + Select(cs[1..], ids, matching)
  }

  function MergeAll(primary: Candidate, others: seq<Candidate>): Candidate
    decreases |others|
  {
    if others == [] then primary else MergeAll(Merge(primary, others[0]), others[1..])
  }

  lemma {:induction false} SelectConcat(a: seq<Candidate>, b: seq<Candidate>, ids: set<string>, matching: bool)
    ensures Select(a + b, ids, matching) == Select(a, ids, matching) + Select(b, ids, matching)
  {
    hide Matches;
    if a == [] {
      assert a + b == b;
    } else {
      assert (a + b)[1..] == a[1..] + b;
      SelectConcat(a[1..], b, ids, matching);
    }
  }

  lemma {:induction false} SelectUnmatched(cs: seq<Candidate>, ids: set<string>)
    requires forall k :: 0 <= k < |cs| ==> !Matches(cs[k], ids)
    ensures Select(cs, ids, true) == [] && Select(cs, ids, false) == cs
  {
    hide Matches;
    if cs != [] { SelectUnmatched(cs[1..], ids); }
  }

  lemma SelectHead(cs: seq<Candidate>, ids: set<string>, matching: bool)
    requires cs != []
    ensures Select(cs, ids, matching) == (if Matches(cs[0], ids) == matching then [cs[0]] else []) +
        Select(cs[1..], ids, matching)
  {
    hide Matches;
  }

  /** `q` is the first match of `cs` after `p`. */
  lemma SelectNext(cs: seq<Candidate>, p: nat, q: nat, ids: set<string>, matching: bool)
    requires p < q < |cs| && q == NextMatch(cs, p + 1, ids)
    ensures Select(cs[p + 1..], ids, matching) ==
            (if matching then [cs[q]] else cs[p + 1..q]) + Select(cs[q + 1..], ids, matching)
    ensures Select(cs[p + 1..q] + cs[q + 1..], ids, matching) ==
            (if matching then [] else cs[p + 1..q]) + Select(cs[q + 1..], ids, matching)
  {
    hide Matches, Select, NextMatch;
    var gap, tail := cs[p + 1..q], cs[q + 1..];
    forall k | 0 <= k < |gap| ensures !Matches(gap[k], ids) { assert gap[k] == cs[p + 1 + k]; }
    SelectUnmatched(gap, ids);
    SelectConcat(gap, tail, ids, matching);
    assert cs[p + 1..] == gap + cs[q..];
    SelectConcat(gap, cs[q..], ids, matching);
    SelectHead(cs[q..], ids, matching);
    assert cs[q..][1..] == tail && cs[q..][0] == cs[q];
    assert gap + ([] + Select(tail, ids, matching)) == gap + Select(tail, ids, matching);
  }

  lemma FoldInParts(cs: seq<Candidate>, p: nat, q: nat)
    requires p < q < |cs|
    ensures var now := FoldIn(cs, p, q);
            && |now| == |cs| - 1
            && now[..p] == cs[..p] && now[p] == Merge(cs[p], cs[q]) && now[p + 1..] == cs[p + 1..q] + cs[q + 1..]
  {
    hide Merge;
  }

  lemma FoldAllStep(cs: seq<Candidate>, p: nat, ids: set<string>)
    requires p < |cs|
    ensures var q := NextMatch(cs, p + 1, ids);
            FoldAll(cs, p, ids) == if q == |cs| then cs else FoldAll(FoldIn(cs, p, q), p, ids)
  {
    hide FoldIn;
  }

  lemma NoMatchLeft(cs: seq<Candidate>, p: nat, ids: set<string>)
    requires p < |cs| == NextMatch(cs, p + 1, ids)
    ensures Select(cs[p + 1..], ids, true) == [] && Select(cs[p + 1..], ids, false) == cs[p + 1..]
  {
    hide Matches;
    var later := cs[p + 1..];
    forall k | 0 <= k < |later| ensures !Matches(later[k], ids) { assert later[k] == cs[p + 1 + k]; }
    SelectUnmatched(later, ids);
  }

  lemma {:induction false} FoldAllOnePass(cs: seq<Candidate>, p: nat, ids: set<string>)
    requires p < |cs|
    ensures FoldAll(cs, p, ids) ==
            cs[..p] + [MergeAll(cs[p], Select(cs[p + 1..], ids, true))] + Select(cs[p + 1..], ids, false)
    decreases |cs|
  {
    hide Matches, Merge, FoldIn, FoldAll, Select;
    var q := NextMatch(cs, p + 1, ids);
    FoldAllStep(cs, p, ids);
    if q == |cs| {
      NoMatchLeft(cs, p, ids);
      assert cs == cs[..p] + [cs[p]] + cs[p + 1..];
    } else {
      FoldInParts(cs, p, q);
      var now := FoldIn(cs, p, q);
      FoldAllOnePass(now, p, ids);
      SelectNext(cs, p, q, ids, true);
      SelectNext(cs, p, q, ids, false);
      var others := Select(cs[q + 1..], ids, true);
      assert [] + others == others;
      MergeNext(cs[p], cs[q], others);
    }
  }

  lemma MergeNext(primary: Candidate, next: Candidate, others: seq<Candidate>)
    ensures MergeAll(primary, [next] + others) == MergeAll(Merge(primary, next), others)
  {
    hide Merge;
    assert ([next] + others)[1..] == others;
  }

  lemma FoldUpdated(cs: seq<Candidate>, p: nat, merged: Candidate, ids: set<string>)
    requires p < |cs|
    ensures FoldAll(cs[p := merged], p, ids) ==
            cs[..p] + [MergeAll(merged, Select(cs[p + 1..], ids, true))] + Select(cs[p + 1..], ids, false)
  {
    hide *;
    UpdateParts(cs, p, merged);
    FoldAllOnePass(cs[p := merged], p, ids);
  }

  lemma AddToIs(cs: seq<Candidate>, c: Candidate)
    ensures var p := NextMatch(cs, 0, c.ids);
            && (p == |cs| ==> AddTo(cs, c) == cs + [c])
            && (p < |cs| ==> AddTo(cs, c) == FoldAll(cs[p := Merge(cs[p], c)], p, c.ids))
  {
    hide Merge, FoldAll, Matches, NextMatch;
  }

  /** Adding is one pass: the first match takes the new record, then every later match in list order, so the
      new record's fields come before those of matches added earlier; all others keep their places. */
  lemma AddMergesInListOrder(cs: seq<Candidate>, c: Candidate)
    ensures var p := NextMatch(cs, 0, c.ids);
            && (p == |cs| ==> AddTo(cs, c) == cs + [c])
            && (p < |cs| ==>
                  AddTo(cs, c) ==
                  cs[..p] + [MergeAll(Merge(cs[p], c), Select(cs[p + 1..], c.ids, true))]
                  + Select(cs[p + 1..], c.ids, false))
  {
    hide *;
    var p := NextMatch(cs, 0, c.ids);
    AddToIs(cs, c);
    if p < |cs| { FoldUpdated(cs, p, Merge(cs[p], c), c.ids); }
  }

  lemma UpdateParts(cs: seq<Candidate>, p: nat, c: Candidate)
    requires p < |cs|
    ensures cs[p := c][..p] == cs[..p] && cs[p := c][p] == c && cs[p := c][p + 1..] == cs[p + 1..]
  {
  }

  // ----- arrival order -----

  /** `rs'` lists the records of `rs` in another order: its k-th record is record `pi[k]` of `rs`. */
  ghost predicate Reordering(rs: seq<Record>, rs': seq<Record>, pi: seq<nat>) {
    && |pi| == |rs'| == |rs|
    && (forall k :: 0 <= k < |pi| ==> pi[k] < |rs| && rs'[k] == rs[pi[k]])
    && (forall j, k :: 0 <= j < k < |pi| ==> pi[j] != pi[k])
    && forall i :: 0 <= i < |rs| ==> i in pi
  }

  lemma PathMapped(rs: seq<Record>, rs': seq<Record>, pi: seq<nat>, i: nat, j: nat)
    requires Reordering(rs, rs', pi) && Connected(rs', i, j)
    ensures i < |pi| && j < |pi| && Connected(rs, pi[i], pi[j])
  {
    var p :| Path(rs', p, i, j);
    var q := seq(|p|, k requires 0 <= k < |p| => pi[p[k]]);
    forall k | 0 < k < |q| ensures Share(rs[q[k - 1]], rs[q[k]]) {
      assert Share(rs'[p[k - 1]], rs'[p[k]]);
    }
    assert Path(rs, q, pi[i], pi[j]);
  }

  ghost function Position(pi: seq<nat>, i: nat): (k: nat)
    requires i in pi
    ensures k < |pi| && pi[k] == i
  {
    var k :| 0 <= k < |pi| && pi[k] == i; k
  }

  lemma Inverse(rs: seq<Record>, rs': seq<Record>, pi: seq<nat>) returns (sigma: seq<nat>)
    requires Reordering(rs, rs', pi)
    ensures Reordering(rs', rs, sigma)
    ensures forall k :: 0 <= k < |pi| ==> sigma[pi[k]] == k
  {
    sigma := seq(|rs|, i requires 0 <= i < |rs| => Position(pi, i));
    forall k | 0 <= k < |pi| ensures sigma[pi[k]] == k {
      assert pi[sigma[pi[k]]] == pi[k];
    }
    forall k | 0 <= k < |rs'| ensures k in sigma {
      assert sigma[pi[k]] == k;
    }
  }

  lemma ConnectedReordered(rs: seq<Record>, rs': seq<Record>, pi: seq<nat>, i: nat, j: nat)
    requires Reordering(rs, rs', pi) && i < |pi| && j < |pi|
    ensures Connected(rs', i, j) <==> Connected(rs, pi[i], pi[j])
  {
    if Connected(rs', i, j) { PathMapped(rs, rs', pi, i, j); }
    if Connected(rs, pi[i], pi[j]) {
      var sigma := Inverse(rs, rs', pi);
      PathMapped(rs', rs, sigma, pi[i], pi[j]);
    }
  }

  lemma GroupOf(rs: seq<Record>, i: nat) returns (k: nat)
    requires i < |rs|
    ensures k < |Run(rs)| && i in Run(rs)[k].records && Sound(rs, Run(rs)[k])
  {
    hide Run;
    RunPartitions(rs);
    assert HasRecord(Run(rs), i);
    k :| 0 <= k < |Run(rs)| && i in Run(rs)[k].records;
  }

  /** Whatever order the records arrive in, each group of one run is a group of the other: the same records
      and the same identities. */
  lemma GroupingIgnoresOrder(rs: seq<Record>, rs': seq<Record>, pi: seq<nat>, k: nat) returns (m: nat)
    requires Reordering(rs, rs', pi) && k < |Run(rs')|
    ensures m < |Run(rs)|
    ensures forall i :: 0 <= i < |pi| ==> (i in Run(rs')[k].records <==> pi[i] in Run(rs)[m].records)
    ensures Run(rs')[k].ids == Run(rs)[m].ids
  {
    hide Run;
    var cs, y := Run(rs), Run(rs')[k];
    RunPartitions(rs');
    SoundInRange(rs', y);
    var h := y.records[0];
    assert h in y.records;
    m := GroupOf(rs, pi[h]);
    forall i | 0 <= i < |pi| ensures i in y.records <==> pi[i] in cs[m].records {
      MembersByLink(rs', k, h, i);
      MembersByLink(rs, m, pi[h], pi[i]);
      ConnectedReordered(rs, rs', pi, h, i);
    }
    SameIds(rs, rs', pi, cs[m], y);
  }

  lemma MembersByLink(rs: seq<Record>, k: nat, h: nat, i: nat)
    requires k < |Run(rs)| && h in Run(rs)[k].records && i < |rs|
    ensures h < |rs| && (i in Run(rs)[k].records <==> Connected(rs, h, i))
  {
    hide Run;
    var cs := Run(rs);
    RunPartitions(rs);
    GroupsAreComponents(rs, h, i);
    if SameGroup(cs, h, i) {
      var j :| 0 <= j < |cs| && h in cs[j].records && i in cs[j].records;
      assert !NoCommonRecord(cs[j], cs[k]);
    }
  }

  lemma SameIds(rs: seq<Record>, rs': seq<Record>, pi: seq<nat>, x: Candidate, y: Candidate)
    requires Reordering(rs, rs', pi) && Holds(rs, x) && Holds(rs', y)
    requires forall i :: 0 <= i < |pi| ==> (i in y.records <==> pi[i] in x.records)
    ensures x.ids == y.ids
  {
    forall s | s in y.ids ensures s in x.ids {
      var xs := Pick(rs', y.records);
      var r :| r in xs && s in r.ids;
      var k :| 0 <= k < |xs| && xs[k] == r;
      var i := y.records[k];
      assert i in y.records;
      OwnIds(rs, x, pi[i]);
    }
    forall s | s in x.ids ensures s in y.ids {
      var xs := Pick(rs, x.records);
      var r :| r in xs && s in r.ids;
      var k :| 0 <= k < |xs| && xs[k] == r;
      assert x.records[k] in pi && x.records[k] in x.records;
      var i :| 0 <= i < |pi| && pi[i] == x.records[k];
      OwnIds(rs', y, i);
    }
  }
}
