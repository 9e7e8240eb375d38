/** Searching a task-monitor body for the URI of a produced artifact. */
module ArtifactSearch {
  import opened Wrappers

  datatype Json =
    | Null
    | Bool(b: bool)
    | Number(n: real)
    | Str(s: string)
    | Arr(items: seq<Json>)
    | Obj(members: seq<Field>)

  datatype Field = Field(key: string, value: Json)

  const ARTIFACT_KEYS: set<string> := {"additionaldatauri", "downloaduri", "diagnosticdatauri"}

  predicate IsUri(v: Json) {
    v.Str? && ("/" <= v.s || "http://" <= v.s || "https://" <= v.s)
  }

  /** lower() and isalnum(), as the interpreter's Unicode tables define them. */
  datatype Unicode = Unicode(lower: string -> string, alnum: char -> bool)

  function Alphanumeric(u: Unicode, s: string): string {
    if s == "" then "" else (if u.alnum(s[0]) then [s[0]] else []) + Alphanumeric(u, s[1..])
  }

  /** Lower case, letters and digits only. */
  function Normalise(u: Unicode, key: string): string {
    Alphanumeric(u, u.lower(key))
  }

  predicate Names(u: Unicode, f: Field) {
    Normalise(u, f.key) in ARTIFACT_KEYS && IsUri(f.value)
  }

  /** An object's own members come before anything nested in it. */
  function Find(u: Unicode, v: Json): Option<string> {
    match v
    case Obj(members) =>
      (match FindDirect(u, members) case Some(uri) => Some(uri) case None => FindInFields(u, members))
    case Arr(items) => FindInItems(u, items)
    case _ => None
  }

  function FindDirect(u: Unicode, members: seq<Field>): Option<string> {
    if members == [] then None
    else if Names(u, members[0]) then Some(members[0].value.s)
    else FindDirect(u, members[1..])
  }

  function FindInFields(u: Unicode, members: seq<Field>): Option<string> {
    if members == [] then None
    else match Find(u, members[0].value) case Some(uri) => Some(uri) case None => FindInFields(u, members[1..])
  }

  function FindInItems(u: Unicode, items: seq<Json>): Option<string> {
    if items == [] then None
    else match Find(u, items[0]) case Some(uri) => Some(uri) case None => FindInItems(u, items[1..])
  }

  // ----- what there is to find, by position in the tree -----

  function Child(v: Json, i: nat): Option<Json> {
    match v
    case Obj(members) => if i < |members| then Some(members[i].value) else None
    case Arr(items) => if i < |items| then Some(items[i]) else None
    case _ => None
  }

  /** The value at a position: a list of child indices. */
  function At(v: Json, path: seq<nat>): Option<Json>
    decreases |path|
  {
    if path == [] then Some(v)
    else match Child(v, path[0]) case None => None case Some(c) => At(c, path[1..])
  }

  /** The object at `path` has a member with an artifact key and the URI `uri`. */
  ghost predicate Offers(u: Unicode, v: Json, path: seq<nat>, uri: string) {
    && At(v, path).Some? && At(v, path).value.Obj?
    && exists k :: 0 <= k < |At(v, path).value.members| && Names(u, At(v, path).value.members[k])
                   && At(v, path).value.members[k].value == Str(uri)
  }

  lemma {:induction false} DirectExactly(u: Unicode, members: seq<Field>)
    ensures FindDirect(u, members).None? <==> forall k :: 0 <= k < |members| ==> !Names(u, members[k])
    ensures FindDirect(u, members).Some? ==>
              exists k :: 0 <= k < |members| && Names(u, members[k]) &&
                  members[k].value == Str(FindDirect(u, members).value)
                && forall j :: 0 <= j < k ==> !Names(u, members[j])
  {
    if members != [] && !Names(u, members[0]) {
      DirectExactly(u, members[1..]);
      assert forall k :: 1 <= k < |members| ==> members[k] == members[1..][k - 1];
      if FindDirect(u, members).Some? {
        var k :| 0 <= k < |members[1..]| && Names(u, members[1..][k]) &&
            members[1..][k].value == Str(FindDirect(u, members).value)
          && forall j :: 0 <= j < k ==> !Names(u, members[1..][j]);
        assert members[k + 1] == members[1..][k];
        assert forall j :: 1 <= j < k + 1 ==> members[j] == members[1..][j - 1];
      }
    }
  }

  lemma {:induction false} FieldsExactly(u: Unicode, members: seq<Field>)
    ensures FindInFields(u, members).None? <==> forall k :: 0 <= k < |members| ==> Find(u, members[k].value).None?
    ensures FindInFields(u, members).Some? ==>
              exists k :: 0 <= k < |members| && Find(u, members[k].value) == FindInFields(u, members)
                && forall j :: 0 <= j < k ==> Find(u, members[j].value).None?
  {
    if members != [] {
      var tail := members[1..];
      FieldsExactly(u, tail);
      assert forall k :: 1 <= k < |members| ==> members[k] == tail[k - 1];
      if Find(u, members[0].value).None? && FindInFields(u, tail).Some? {
        var k :| 0 <= k < |tail| && Find(u, tail[k].value) == FindInFields(u, tail) && forall j :: 0 <= j < k ==>
            Find(u, tail[j].value).None?;
        assert members[k + 1] == tail[k];
      }
    }
  }

  lemma {:induction false} ItemsExactly(u: Unicode, items: seq<Json>)
    ensures FindInItems(u, items).None? <==> forall k :: 0 <= k < |items| ==> Find(u, items[k]).None?
    ensures FindInItems(u, items).Some? ==>
              exists k :: 0 <= k < |items| && Find(u, items[k]) == FindInItems(u, items) && forall j :: 0 <= j < k ==>
                  Find(u, items[j]).None?
  {
    if items != [] {
      var tail := items[1..];
      ItemsExactly(u, tail);
      assert forall k :: 1 <= k < |items| ==> items[k] == tail[k - 1];
      if Find(u, items[0]).None? && FindInItems(u, tail).Some? {
        var k :| 0 <= k < |tail| && Find(u, tail[k]) == FindInItems(u, tail) && forall j :: 0 <= j < k ==>
            Find(u, tail[j]).None?;
        assert items[k + 1] == tail[k];
      }
    }
  }

  /** The first child whose search succeeds is `i`, with the result of the whole search. */
  ghost predicate FirstFinder(u: Unicode, v: Json, i: nat) {
    && Child(v, i).Some? && Find(u, Child(v, i).value) == Find(u, v)
    && forall j: nat :: j < i && Child(v, j).Some? ==> Find(u, Child(v, j).value).None?
  }

  ghost predicate OwnMember(u: Unicode, v: Json) {
    v.Obj? && FindDirect(u, v.members).Some?
  }

  /** A value's search fails exactly when its own members and all its children's searches fail; its own members
      come first, then its children in order. */
  lemma FindByChildren(u: Unicode, v: Json)
    ensures Find(u, v).None? <==> (!OwnMember(u, v) && forall i: nat :: Child(v, i).Some? ==>
        Find(u, Child(v, i).value).None?)
    ensures OwnMember(u, v) ==> FindDirect(u, v.members) == Find(u, v)
    ensures Find(u, v).Some? && !OwnMember(u, v) ==> exists i: nat :: FirstFinder(u, v, i)
  {
    match v
    case Obj(members) =>
      FieldsExactly(u, members);
      assert forall k :: 0 <= k < |members| ==> Child(v, k) == Some(members[k].value);
      if Find(u, v).Some? && !OwnMember(u, v) {
        var k :| 0 <= k < |members| && Find(u, members[k].value) == Find(u, v) && forall j :: 0 <= j < k ==>
            Find(u, members[j].value).None?;
        assert FirstFinder(u, v, k);
      }
    case Arr(items) =>
      ItemsExactly(u, items);
      assert forall k :: 0 <= k < |items| ==> Child(v, k) == Some(items[k]);
      if Find(u, v).Some? {
        var k :| 0 <= k < |items| && Find(u, items[k]) == Find(u, v) && forall j :: 0 <= j < k ==>
            Find(u, items[j]).None?;
        assert FirstFinder(u, v, k);
      }
    case _ =>
  }

  lemma {:induction false} OfferedIsFound(u: Unicode, v: Json, path: seq<nat>, uri: string)
    requires Offers(u, v, path, uri)
    ensures Find(u, v).Some? && (path == [] ==> OwnMember(u, v))
    decreases |path|
  {
    FindByChildren(u, v);
    if path == [] {
      DirectExactly(u, v.members);
    } else {
      OfferedIsFound(u, Child(v, path[0]).value, path[1..], uri);
    }
  }

  // ----- which of several artifacts is found -----

  /** Document order: an object comes before everything inside it, and siblings are in order. */
  predicate Before(p: seq<nat>, q: seq<nat>)
    decreases |p|
  {
    q != [] && (p == [] || p[0] < q[0] || (p[0] == q[0] && Before(p[1..], q[1..])))
  }

  /** `path` leads to the object whose own member gave the result, and nothing is offered before it. */
  ghost predicate FoundAt(u: Unicode, v: Json, path: seq<nat>) {
    && At(v, path).Some? && OwnMember(u, At(v, path).value) && FindDirect(u, At(v, path).value.members) == Find(u, v)
    && forall q: seq<nat>, uri :: Offers(u, v, q, uri) ==> q == path || Before(path, q)
  }

  lemma {:induction false} FindsFirst(u: Unicode, v: Json) returns (path: seq<nat>)
    requires Find(u, v).Some?
    ensures FoundAt(u, v, path)
    decreases v
  {
    FindByChildren(u, v);
    if OwnMember(u, v) {
      path := [];
    } else {
      var i: nat :| FirstFinder(u, v, i);
      var rest := FindsFirst(u, Child(v, i).value);
      path := [i] + rest;
      assert path[1..] == rest;
      forall q: seq<nat>, uri | Offers(u, v, q, uri) ensures q == path || Before(path, q) {
        OfferedIsFound(u, v, q, uri);
        assert Offers(u, Child(v, q[0]).value, q[1..], uri);
        OfferedIsFound(u, Child(v, q[0]).value, q[1..], uri);
        assert q == [q[0]] + q[1..];
      }
    }
  }

  lemma FoundIsOffered(u: Unicode, v: Json, path: seq<nat>)
    requires FoundAt(u, v, path) && Find(u, v).Some?
    ensures Offers(u, v, path, Find(u, v).value)
  {
    DirectExactly(u, At(v, path).value.members);
  }

  /** The search returns only URIs offered somewhere in the tree, and nothing exactly when none is offered at
      any depth. */
  lemma FindsExactly(u: Unicode, v: Json)
    ensures Find(u, v).None? <==> forall path: seq<nat>, uri :: !Offers(u, v, path, uri)
    ensures Find(u, v).Some? ==> exists path: seq<nat> :: Offers(u, v, path, Find(u, v).value)
  {
    if Find(u, v).Some? {
      var path := FindsFirst(u, v);
      FoundIsOffered(u, v, path);
    }
    forall path: seq<nat>, uri | Offers(u, v, path, uri) ensures Find(u, v).Some? { OfferedIsFound(u, v, path, uri); }
  }

  // ----- which members name an artifact -----

  /** A key is kept character by character: letters and digits stay, everything else goes. */
  lemma {:induction false} AlphanumericExactly(u: Unicode, a: string, b: string)
    ensures Alphanumeric(u, a + b) == Alphanumeric(u, a) + Alphanumeric(u, b)
    ensures |b| == 1 ==> Alphanumeric(u, b) == if u.alnum(b[0]) then b else ""
  {
    if |b| == 1 { assert b[1..] == "" && [b[0]] == b; }
    if a == "" {
      assert a + b == b;
    } else {
      assert (a + b)[1..] == a[1..] + b;
      AlphanumericExactly(u, a[1..], b);
    }
  }

  /** A member names an artifact exactly if its key, in lower case and without other characters, is one of three, and
      its value is a string that begins as a path or an HTTP URL does. */
  lemma NamesExactly(u: Unicode, f: Field)
    ensures Names(u, f) <==>
            && (Alphanumeric(u, u.lower(f.key)) == "additionaldatauri"
                || Alphanumeric(u, u.lower(f.key)) == "downloaduri"
                || Alphanumeric(u, u.lower(f.key)) == "diagnosticdatauri")
            && f.value.Str? && ("/" <= f.value.s || "http://" <= f.value.s || "https://" <= f.value.s)
  {
  }
}
