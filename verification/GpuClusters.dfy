/** The specification of GPU clustering: what a sequence of added records is merged into, and why it is
    the connected components of "shares an identity". */
module GpuClusters {
  import opened Wrappers
  import opened Sequences

  datatype Field = Name | Manufacturer | Model | Version | PowerWatts | Oem

  datatype Value = Text(text: string) | OemBlock(serialNumber: Option<string>)

  /** One record as handed to `add`; a field that is None is absent from `fields`. */
  datatype Record = Record(ids: set<string>, fields: map<Field, Value>, sourceType: string, uri: Option<string>)

  /** A merged GPU; `records` lists the indices of its records in the order their fields were merged. */
  datatype Candidate = Candidate(
    records: seq<nat>, ids: set<string>, fields: map<Field, Value>,
    sourceTypes: seq<string>, sourceIds: seq<string>)

  const SERIAL_PREFIX := "serial:"

  function UriList(uri: Option<string>): seq<string> {
    if uri.Some? then [uri.value] else []
  }

  function Single(n: nat, r: Record): Candidate {
    Candidate([n], r.ids, r.fields, [r.sourceType], UriList(r.uri))
  }

  function Merge(primary: Candidate, other: Candidate): Candidate {
    Candidate(
      primary.records + other.records, primary.ids + other.ids, other.fields + primary.fields,
      Dedup(primary.sourceTypes + other.sourceTypes), Dedup(primary.sourceIds + other.sourceIds))
  }

  predicate Matches(c: Candidate, ids: set<string>) {
    c.ids * ids != {}
  }

  /** The first matching position from `i` on, or the length of the list. */
  function NextMatch(cs: seq<Candidate>, i: nat, ids: set<string>): (q: nat)
    requires i <= |cs|
    ensures i <= q <= |cs| && (q < |cs| ==> Matches(cs[q], ids))
    ensures forall k :: i <= k < q ==> !Matches(cs[k], ids)
    decreases |cs| - i
  {
    if i == |cs| || Matches(cs[i], ids) then i else NextMatch(cs, i + 1, ids)
  }

  /** The candidate at `q` is merged into the one at `p` and leaves the list. */
  function FoldIn(cs: seq<Candidate>, p: nat, q: nat): seq<Candidate>
    requires p < q < |cs|
  {
    var merged := cs[p := Merge(cs[p], cs[q])];
    merged[..q] + merged[q + 1..]
  }

  /** Every match after `p` is folded into `p`, in list order. */
  function FoldAll(cs: seq<Candidate>, p: nat, ids: set<string>): seq<Candidate>
    requires p < |cs|
    decreases |cs|
  {
    var q := NextMatch(cs, p + 1, ids);
    if q == |cs| then cs else FoldAll(FoldIn(cs, p, q), p, ids)
  }

  /** The first match absorbs the new record, then every later match. */
  function AddTo(cs: seq<Candidate>, c: Candidate): seq<Candidate> {
    var p := NextMatch(cs, 0, c.ids);
    if p == |cs| then cs + [c] else FoldAll(cs[p := Merge(cs[p], c)], p, c.ids)
  }

  function Run(rs: seq<Record>): seq<Candidate> {
    if rs == [] then []
    else AddTo(Run(rs[..|rs| - 1]), Single(|rs| - 1, rs[|rs| - 1]))
  }

  // ----- connected components, defined without reference to the algorithm -----

  predicate Share(a: Record, b: Record) {
    a.ids * b.ids != {}
  }

  ghost predicate Path(rs: seq<Record>, p: seq<nat>, i: nat, j: nat) {
    && |p| > 0 && p[0] == i && p[|p| - 1] == j
    && (forall k :: 0 <= k < |p| ==> p[k] < |rs|)
    && forall k :: 0 < k < |p| ==> Share(rs[p[k - 1]], rs[p[k]])
  }

  ghost predicate Connected(rs: seq<Record>, i: nat, j: nat) {
    exists p :: Path(rs, p, i, j)
  }

  lemma ConnectedRefl(rs: seq<Record>, i: nat)
    requires i < |rs|
    ensures Connected(rs, i, i)
  {
    assert Path(rs, [i], i, i);
  }

  lemma ConnectedEdge(rs: seq<Record>, i: nat, j: nat)
    requires i < |rs| && j < |rs| && Share(rs[i], rs[j])
    ensures Connected(rs, i, j)
  {
    assert Path(rs, [i, j], i, j);
  }

  lemma ConnectedSym(rs: seq<Record>, i: nat, j: nat)
    requires Connected(rs, i, j)
    ensures Connected(rs, j, i)
  {
    var p :| Path(rs, p, i, j);
    var q := seq(|p|, k requires 0 <= k < |p| => p[|p| - 1 - k]);
    forall k | 0 < k < |q| ensures Share(rs[q[k - 1]], rs[q[k]]) {
      var m := |p| - k;
      assert Share(rs[p[m - 1]], rs[p[m]]);
      assert rs[p[m - 1]].ids * rs[p[m]].ids == rs[p[m]].ids * rs[p[m - 1]].ids;
    }
    assert Path(rs, q, j, i);
  }

  lemma ConnectedTrans(rs: seq<Record>, i: nat, j: nat, k: nat)
    requires Connected(rs, i, j) && Connected(rs, j, k)
    ensures Connected(rs, i, k)
  {
    var p :| Path(rs, p, i, j);
    var q :| Path(rs, q, j, k);
    var r := p + q[1..];
    forall m | 0 < m < |r| ensures Share(rs[r[m - 1]], rs[r[m]]) {
      if m >= |p| {
        var n := m - |p| + 1;
        assert r[m] == q[n] && r[m - 1] == q[n - 1];
        assert Share(rs[q[n - 1]], rs[q[n]]);
      }
    }
    assert Path(rs, r, i, k);
  }

  lemma ConnectedExtend(rs: seq<Record>, r: Record, i: nat, j: nat)
    requires Connected(rs, i, j)
    ensures Connected(rs + [r], i, j)
  {
    var p :| Path(rs, p, i, j);
    assert Path(rs + [r], p, i, j);
  }

  // ----- what one candidate holds, as a function of its records -----

  ghost predicate InRange(rs: seq<Record>, idx: seq<nat>) {
    forall k :: 0 <= k < |idx| ==> idx[k] < |rs|
  }

  function Pick(rs: seq<Record>, idx: seq<nat>): seq<Record>
    requires InRange(rs, idx)
  {
    seq(|idx|, k requires 0 <= k < |idx| => rs[idx[k]])
  }

  function IdsOf(xs: seq<Record>): set<string> {
    set x, s | x in xs && s in x.ids :: s
  }

  function FieldsOf(xs: seq<Record>): seq<map<Field, Value>> {
    seq(|xs|, k requires 0 <= k < |xs| => xs[k].fields)
  }

  function TypesOf(xs: seq<Record>): seq<string> {
    seq(|xs|, k requires 0 <= k < |xs| => xs[k].sourceType)
  }

  function UrisOf(xs: seq<Record>): (us: seq<string>)
    ensures forall u :: u in us <==> exists k :: 0 <= k < |xs| && xs[k].uri == Some(u)
  {
    if xs == [] then []
    else
      var tail := UrisOf(xs[1..]);
      assert forall k :: 1 <= k < |xs| ==> xs[k] == xs[1..][k - 1];
      UriList(xs[0].uri) + tail
  }

  /** The candidate is exactly what its records, in merge order, say. */
  ghost predicate Holds(rs: seq<Record>, c: Candidate) {
    && c.records != []
    && InRange(rs, c.records)
    && var xs := Pick(rs, c.records);
    && c.ids == IdsOf(xs)
    && c.fields == Coalesce(FieldsOf(xs))
    && c.sourceTypes == Dedup(TypesOf(xs))
    && c.sourceIds == Dedup(UrisOf(xs))
  }

  lemma {:induction false} UrisOfConcat(a: seq<Record>, b: seq<Record>)
    ensures UrisOf(a + b) == UrisOf(a) + UrisOf(b)
  {
    if a == [] {
      assert a + b == b;
    } else {
      assert (a + b)[1..] == a[1..] + b;
      UrisOfConcat(a[1..], b);
    }
  }

  lemma IdsOfConcat(a: seq<Record>, b: seq<Record>)
    ensures IdsOf(a + b) == IdsOf(a) + IdsOf(b)
  {
    assert forall x :: x in a + b <==> x in a || x in b;
  }

  lemma UrisMerge(a: seq<Record>, b: seq<Record>)
    ensures Dedup(UrisOf(a + b)) == Dedup(Dedup(UrisOf(a)) + Dedup(UrisOf(b)))
  {
    UrisOfConcat(a, b);
    DedupConcat(UrisOf(a), UrisOf(b));
  }

  lemma TypesMerge(a: seq<Record>, b: seq<Record>)
    ensures Dedup(TypesOf(a + b)) == Dedup(Dedup(TypesOf(a)) + Dedup(TypesOf(b)))
  {
    assert TypesOf(a + b) == TypesOf(a) + TypesOf(b);
    DedupConcat(TypesOf(a), TypesOf(b));
  }

  lemma FieldsMerge(a: seq<Record>, b: seq<Record>)
    ensures Coalesce(FieldsOf(a + b)) == Coalesce(FieldsOf(b)) + Coalesce(FieldsOf(a))
  {
    assert FieldsOf(a + b) == FieldsOf(a) + FieldsOf(b);
    CoalesceConcat(FieldsOf(a), FieldsOf(b));
  }

  lemma PickConcat(rs: seq<Record>, a: seq<nat>, b: seq<nat>)
    requires InRange(rs, a) && InRange(rs, b)
    ensures InRange(rs, a + b) && Pick(rs, a + b) == Pick(rs, a) + Pick(rs, b)
  {
  }

  /** Merging two candidates gives the candidate of both record lists. */
  lemma MergeHolds(rs: seq<Record>, a: Candidate, b: Candidate)
    requires Holds(rs, a) && Holds(rs, b)
    ensures Holds(rs, Merge(a, b))
  {
    var xs, ys := Pick(rs, a.records), Pick(rs, b.records);
    PickConcat(rs, a.records, b.records);
    IdsOfConcat(xs, ys);
    UrisMerge(xs, ys);
    TypesMerge(xs, ys);
    FieldsMerge(xs, ys);
  }

  lemma OneRecord(r: Record)
    ensures IdsOf([r]) == r.ids && FieldsOf([r]) == [r.fields] && TypesOf([r]) == [r.sourceType] &&
        UrisOf([r]) == UriList(r.uri)
  {
    assert [r][1..] == [];
  }

  lemma SingleHolds(rs: seq<Record>, n: nat)
    requires n < |rs|
    ensures Holds(rs, Single(n, rs[n]))
  {
    hide IdsOf, FieldsOf, TypesOf, UrisOf, Dedup;
    var r := rs[n];
    assert Pick(rs, [n]) == [r];
    OneRecord(r);
    CoalesceOne(r.fields);
    DedupIdentity([r.sourceType]);
    DedupIdentity(UriList(r.uri));
  }

  // ----- the clustering invariant, between calls and while duplicates are folded -----

  ghost predicate AllLinked(rs: seq<Record>, c: Candidate) {
    forall i, j :: i in c.records && j in c.records ==> Connected(rs, i, j)
  }

  ghost predicate OldestFirst(c: Candidate) {
    c.records != [] && forall i :: i in c.records ==> c.records[0] <= i
  }

  ghost predicate Sound(rs: seq<Record>, c: Candidate) {
    Holds(rs, c) && AllLinked(rs, c) && OldestFirst(c)
  }

  ghost predicate HasRecord(cs: seq<Candidate>, i: nat) {
    exists k :: 0 <= k < |cs| && i in cs[k].records
  }

  ghost predicate NoCommonRecord(x: Candidate, y: Candidate) {
    forall i :: i in x.records ==> i !in y.records
  }

  /** `x` is listed before `y`: the older group first, no record in common, no identity outside `open`. */
  ghost predicate Apart(x: Candidate, y: Candidate, open: set<string>) {
    && x.records != [] && y.records != [] && x.records[0] < y.records[0]
    && NoCommonRecord(x, y)
    && x.ids * y.ids <= open
  }

  /** While duplicates are folded into `p`, only the candidate at `p` may meet the identities in `open` again. */
  ghost predicate Layout(cs: seq<Candidate>, p: nat, open: set<string>) {
    forall j, k :: 0 <= j < k < |cs| ==> Apart(cs[j], cs[k], if j == p || k == p then open else {})
  }

  ghost predicate Complete(rs: seq<Record>, cs: seq<Candidate>) {
    && (forall k :: 0 <= k < |cs| ==> Sound(rs, cs[k]))
    && forall i :: 0 <= i < |rs| ==> HasRecord(cs, i)
  }

  ghost predicate Clustered(rs: seq<Record>, cs: seq<Candidate>) {
    Complete(rs, cs) && Layout(cs, |cs|, {})
  }

  lemma MatchLinked(rs: seq<Record>, x: Candidate, n: nat)
    requires n < |rs| && Sound(rs, x) && Matches(x, rs[n].ids)
    ensures forall i :: i in x.records ==> Connected(rs, i, n)
  {
    var s :| s in x.ids && s in rs[n].ids;
    var xs := Pick(rs, x.records);
    var r :| r in xs && s in r.ids;
    var k :| 0 <= k < |xs| && xs[k] == r;
    var j := x.records[k];
    assert s in rs[j].ids * rs[n].ids;
    ConnectedEdge(rs, j, n);
    forall i | i in x.records ensures Connected(rs, i, n) {
      assert j in x.records;
      ConnectedTrans(rs, i, j, n);
    }
  }

  /** Two sound candidates that are both linked to record `n` merge into a sound one. */
  lemma MergeSound(rs: seq<Record>, a: Candidate, b: Candidate, n: nat)
    requires n < |rs| && Sound(rs, a) && Sound(rs, b) && a.records[0] < b.records[0]
    requires forall i :: i in a.records + b.records ==> Connected(rs, i, n)
    ensures Sound(rs, Merge(a, b))
  {
    MergeHolds(rs, a, b);
    var m := Merge(a, b);
    forall i, j | i in m.records && j in m.records ensures Connected(rs, i, j) {
      ConnectedSym(rs, j, n);
      ConnectedTrans(rs, i, n, j);
    }
  }

  lemma FoldInSound(rs: seq<Record>, cs: seq<Candidate>, p: nat, q: nat, n: nat)
    requires n < |rs| && p < q < |cs| && Sound(rs, cs[p]) && Sound(rs, cs[q]) && cs[p].records[0] < cs[q].records[0]
    requires n in cs[p].records && Matches(cs[q], rs[n].ids)
    ensures Sound(rs, Merge(cs[p], cs[q]))
  {
    MatchLinked(rs, cs[q], n);
    MergeSound(rs, cs[p], cs[q], n);
  }

  lemma FoldInCovers(cs: seq<Candidate>, p: nat, q: nat, i: nat)
    requires p < q < |cs| && HasRecord(cs, i)
    ensures HasRecord(FoldIn(cs, p, q), i)
  {
    var now := FoldIn(cs, p, q);
    var k :| 0 <= k < |cs| && i in cs[k].records;
    if k == p || k == q {
      assert i in now[p].records;
    } else {
      assert now[if k < q then k else k - 1] == cs[k];
    }
  }

  /** Position in `cs` of the k-th candidate left after folding `q` away. */
  function Origin(q: nat, k: nat): nat {
    if k < q then k else k + 1
  }

  lemma FoldInAt(cs: seq<Candidate>, p: nat, q: nat, k: nat)
    requires p < q < |cs| && k < |cs| - 1
    ensures |FoldIn(cs, p, q)| == |cs| - 1
    ensures FoldIn(cs, p, q)[k] == if k == p then Merge(cs[p], cs[q]) else cs[Origin(q, k)]
  {
  }

  lemma MergeApart(x: Candidate, y: Candidate, z: Candidate, open: set<string>)
    requires x.ids * z.ids <= open && y.ids * z.ids == {} && NoCommonRecord(x, z) && NoCommonRecord(y, z)
    ensures Merge(x, y).ids * z.ids <= open && NoCommonRecord(Merge(x, y), z) && NoCommonRecord(z, Merge(x, y))
    ensures z.ids * Merge(x, y).ids <= open
  {
    assert Merge(x, y).ids * z.ids == x.ids * z.ids + y.ids * z.ids;
  }

  lemma FoldInApart(cs: seq<Candidate>, p: nat, q: nat, open: set<string>, j: nat, k: nat)
    requires p < q < |cs| && Layout(cs, p, open) && j < k < |cs| - 1
    ensures var now := FoldIn(cs, p, q);
            |now| == |cs| - 1 && Apart(now[j], now[k], if j == p || k == p then open else {})
  {
    FoldInAt(cs, p, q, j);
    FoldInAt(cs, p, q, k);
    var a, b := Origin(q, j), Origin(q, k);
    assert Apart(cs[a], cs[b], if a == p || b == p then open else {});
    if j == p {
      assert if q < b then Apart(cs[q], cs[b], {}) else Apart(cs[b], cs[q], {});
      MergeApart(cs[p], cs[q], cs[b], open);
    } else if k == p {
      assert Apart(cs[a], cs[q], {});
      MergeApart(cs[p], cs[q], cs[a], open);
    }
  }

  lemma FoldInStep(rs: seq<Record>, cs: seq<Candidate>, p: nat, q: nat, n: nat)
    requires n < |rs| && p < q < |cs| && Complete(rs, cs) && Layout(cs, p, rs[n].ids)
    requires n in cs[p].records && Matches(cs[q], rs[n].ids)
    ensures Complete(rs, FoldIn(cs, p, q)) && Layout(FoldIn(cs, p, q), p, rs[n].ids)
  {
    hide Sound, HasRecord, FoldIn;
    var now := FoldIn(cs, p, q);
    FoldInAt(cs, p, q, p);
    assert Apart(cs[p], cs[q], rs[n].ids);
    FoldInSound(rs, cs, p, q, n);
    forall k | 0 <= k < |now| ensures Sound(rs, now[k]) { FoldInAt(cs, p, q, k); }
    forall i | 0 <= i < |rs| ensures HasRecord(now, i) { FoldInCovers(cs, p, q, i); }
    forall j, k | 0 <= j < k < |now|
      ensures Apart(now[j], now[k], if j == p || k == p then rs[n].ids else {})
    {
      FoldInApart(cs, p, q, rs[n].ids, j, k);
    }
  }

  /** With no match left but `p`, the layout is closed. */
  lemma LayoutClosed(cs: seq<Candidate>, p: nat, open: set<string>)
    requires Layout(cs, p, open) && forall k :: 0 <= k < |cs| && k != p ==> !Matches(cs[k], open)
    ensures Layout(cs, |cs|, {})
  {
    forall j, k | 0 <= j < k < |cs| ensures Apart(cs[j], cs[k], {}) {
      assert Apart(cs[j], cs[k], if j == p || k == p then open else {});
      assert j == p ==> cs[j].ids * cs[k].ids <= cs[k].ids * open;
      assert k == p ==> cs[j].ids * cs[k].ids <= cs[j].ids * open;
    }
  }

  lemma {:induction false} FoldAllClusters(rs: seq<Record>, cs: seq<Candidate>, p: nat, n: nat)
    requires n < |rs| && p < |cs| && Complete(rs, cs) && Layout(cs, p, rs[n].ids) && n in cs[p].records
    requires forall k :: 0 <= k < p ==> !Matches(cs[k], rs[n].ids)
    ensures Clustered(rs, FoldAll(cs, p, rs[n].ids))
    decreases |cs|
  {
    var q := NextMatch(cs, p + 1, rs[n].ids);
    if q < |cs| {
      FoldInStep(rs, cs, p, q, n);
      FoldInAt(cs, p, q, p);
      FoldAllClusters(rs, FoldIn(cs, p, q), p, n);
    } else {
      LayoutClosed(cs, p, rs[n].ids);
    }
  }

  lemma SoundExtend(rs: seq<Record>, r: Record, x: Candidate)
    requires Sound(rs, x)
    ensures Sound(rs + [r], x)
    ensures forall i :: i in x.records ==> i < |rs|
  {
    assert Pick(rs + [r], x.records) == Pick(rs, x.records);
    forall i, j | i in x.records && j in x.records ensures Connected(rs + [r], i, j) {
      ConnectedExtend(rs, r, i, j);
    }
  }

  lemma SingleSound(rs: seq<Record>, n: nat)
    requires n < |rs|
    ensures Sound(rs, Single(n, rs[n]))
  {
    SingleHolds(rs, n);
    ConnectedRefl(rs, n);
  }

  lemma ExtendComplete(rs: seq<Record>, r: Record, cs: seq<Candidate>)
    requires Complete(rs, cs)
    ensures forall k :: 0 <= k < |cs| ==> Sound(rs + [r], cs[k]) && forall i :: i in cs[k].records ==> i < |rs|
    ensures Sound(rs + [r], Single(|rs|, r))
  {
    forall k | 0 <= k < |cs| ensures Sound(rs + [r], cs[k]) && forall i :: i in cs[k].records ==> i < |rs| {
      SoundExtend(rs, r, cs[k]);
    }
    assert (rs + [r])[|rs|] == r;
    SingleSound(rs + [r], |rs|);
  }

  lemma FirstMergeCovers(cs: seq<Candidate>, p: nat, c: Candidate, n: nat, i: nat)
    requires p < |cs| && c.records == [n] && (i == n || HasRecord(cs, i))
    ensures HasRecord(cs[p := Merge(cs[p], c)], i)
  {
    var now := cs[p := Merge(cs[p], c)];
    if i == n {
      assert i in now[p].records;
    } else {
      var k :| 0 <= k < |cs| && i in cs[k].records;
      assert i in now[k].records;
    }
  }

  lemma AppendCovers(cs: seq<Candidate>, c: Candidate, n: nat, i: nat)
    requires c.records == [n] && (i == n || HasRecord(cs, i))
    ensures HasRecord(cs + [c], i)
  {
    if i == n {
      assert i in (cs + [c])[|cs|].records;
    } else {
      var k :| 0 <= k < |cs| && i in cs[k].records;
      assert i in (cs + [c])[k].records;
    }
  }

  lemma FirstMergeApart(cs: seq<Candidate>, p: nat, c: Candidate, n: nat, j: nat, k: nat)
    requires Layout(cs, |cs|, {}) && p < |cs| && j < k < |cs| && c.records == [n]
    requires forall m :: 0 <= m < |cs| ==> forall i :: i in cs[m].records ==> i < n
    ensures var now := cs[p := Merge(cs[p], c)];
            Apart(now[j], now[k], if j == p || k == p then c.ids else {})
  {
    assert Apart(cs[j], cs[k], {});
    if j == p {
      assert Merge(cs[p], c).ids * cs[k].ids == cs[p].ids * cs[k].ids + c.ids * cs[k].ids;
    } else if k == p {
      assert cs[j].ids * Merge(cs[p], c).ids == cs[j].ids * cs[p].ids + cs[j].ids * c.ids;
    }
  }

  lemma FirstMergeSound(rs: seq<Record>, x: Candidate, n: nat)
    requires n < |rs| && Sound(rs, x) && Matches(x, rs[n].ids) && forall i :: i in x.records ==> i < n
    ensures Sound(rs, Merge(x, Single(n, rs[n])))
  {
    MatchLinked(rs, x, n);
    ConnectedRefl(rs, n);
    SingleSound(rs, n);
    assert x.records[0] in x.records;
    MergeSound(rs, x, Single(n, rs[n]), n);
  }

  lemma FirstMergeComplete(rs: seq<Record>, r: Record, cs: seq<Candidate>, p: nat)
    requires Complete(rs, cs) && p < |cs| && Matches(cs[p], r.ids)
    ensures Complete(rs + [r], cs[p := Merge(cs[p], Single(|rs|, r))])
  {
    hide Sound;
    var n, all, c := |rs|, rs + [r], Single(|rs|, r);
    var now := cs[p := Merge(cs[p], c)];
    ExtendComplete(rs, r, cs);
    assert all[n] == r;
    FirstMergeSound(all, cs[p], n);
    forall i | 0 <= i < |all| ensures HasRecord(now, i) {
      FirstMergeCovers(cs, p, c, n, i);
    }
  }

  /** Just after the first match absorbed the new record: folding can start. */
  lemma FirstMerge(rs: seq<Record>, r: Record, cs: seq<Candidate>, p: nat)
    requires Clustered(rs, cs) && p < |cs| && Matches(cs[p], r.ids)
    ensures var now := cs[p := Merge(cs[p], Single(|rs|, r))];
            Complete(rs + [r], now) && Layout(now, p, r.ids)
  {
    var c := Single(|rs|, r);
    var now := cs[p := Merge(cs[p], c)];
    FirstMergeComplete(rs, r, cs, p);
    ExtendComplete(rs, r, cs);
    forall j, k | 0 <= j < k < |now| ensures Apart(now[j], now[k], if j == p || k == p then r.ids else {}) {
      FirstMergeApart(cs, p, c, |rs|, j, k);
    }
  }

  lemma Append(rs: seq<Record>, r: Record, cs: seq<Candidate>)
    requires Clustered(rs, cs) && forall k :: 0 <= k < |cs| ==> !Matches(cs[k], r.ids)
    ensures Clustered(rs + [r], cs + [Single(|rs|, r)])
  {
    var n, all, c := |rs|, rs + [r], Single(|rs|, r);
    var now := cs + [c];
    ExtendComplete(rs, r, cs);
    forall i | 0 <= i < |all| ensures HasRecord(now, i) {
      AppendCovers(cs, c, n, i);
    }
    forall j, k | 0 <= j < k < |now| ensures Apart(now[j], now[k], {}) {
      assert k < |cs| ==> Apart(cs[j], cs[k], {});
      assert Sound(all, cs[j]) && cs[j].records[0] in cs[j].records;
    }
  }

  lemma StepClustered(rs: seq<Record>, r: Record, cs: seq<Candidate>)
    requires Clustered(rs, cs)
    ensures Clustered(rs + [r], AddTo(cs, Single(|rs|, r)))
  {
    var p := NextMatch(cs, 0, r.ids);
    if p < |cs| {
      FirstMerge(rs, r, cs, p);
      assert (rs + [r])[|rs|] == r;
      FoldAllClusters(rs + [r], cs[p := Merge(cs[p], Single(|rs|, r))], p, |rs|);
    } else {
      Append(rs, r, cs);
    }
  }

  lemma {:induction false} RunClustered(rs: seq<Record>)
    ensures Clustered(rs, Run(rs))
  {
    if rs != [] {
      var front, r := rs[..|rs| - 1], rs[|rs| - 1];
      RunClustered(front);
      StepClustered(front, r, Run(front));
      assert rs == front + [r];
    }
  }
}
