/** Order-preserving de-duplication, first-wins merging of maps, and sorted listing of string sets. */
module Sequences {

  ghost predicate NoDuplicates<T>(s: seq<T>) {
    forall i, j :: 0 <= i < j < |s| ==> s[i] != s[j]
  }

  // ----- dict.fromkeys: keep the first occurrence of every element -----

  function Dedup<T(==, !new)>(s: seq<T>): (r: seq<T>)
    ensures NoDuplicates(r)
    ensures forall x :: x in r <==> x in s
  {
    if s == [] then []
    else
      var r := Dedup(s[..|s| - 1]);
      var x := s[|s| - 1];
      assert s == s[..|s| - 1] + [x];
      if x in r then r else r + [x]
  }

  lemma {:induction false} DedupLast<T(!new)>(s: seq<T>, x: T)
    ensures Dedup(s + [x]) == if x in s then Dedup(s) else Dedup(s) + [x]
  {
    assert (s + [x])[..|s|] == s;
  }

  lemma {:induction false} DedupIdentity<T(!new)>(s: seq<T>)
    requires NoDuplicates(s)
    ensures Dedup(s) == s
  {
    if s != [] {
      DedupIdentity(s[..|s| - 1]);
      assert s == s[..|s| - 1] + [s[|s| - 1]];
    }
  }

  /** De-duplicating either half first does not change the result. */
  lemma {:induction false} DedupConcat<T(!new)>(a: seq<T>, b: seq<T>)
    ensures Dedup(Dedup(a) + Dedup(b)) == Dedup(a + b)
  {
    if b == [] {
      assert Dedup(a) + Dedup(b) == Dedup(a) && a + b == a;
      DedupIdentity(Dedup(a));
    } else {
      var front, x := b[..|b| - 1], b[|b| - 1];
      assert b == front + [x] && a + b == (a + front) + [x];
      DedupConcat(a, front);
      DedupLast(front, x);
      DedupLast(a + front, x);
      if x !in front {
        assert Dedup(a) + Dedup(b) == (Dedup(a) + Dedup(front)) + [x];
        DedupLast(Dedup(a) + Dedup(front), x);
      }
    }
  }

  // ----- first-wins merging of partial records -----

  /** The earliest map of `ms` that has a key decides its value. */
  function Coalesce<K(==), V>(ms: seq<map<K, V>>): map<K, V> {
    if ms == [] then map[] else Coalesce(ms[1..]) + ms[0]
  }

  lemma CoalesceOne<K, V>(m: map<K, V>)
    ensures Coalesce([m]) == m
  {
    assert [m][1..] == [];
  }

  lemma {:induction false} CoalesceConcat<K, V>(a: seq<map<K, V>>, b: seq<map<K, V>>)
    ensures Coalesce(a + b) == Coalesce(b) + Coalesce(a)
  {
    if a == [] {
      assert a + b == b;
    } else {
      CoalesceConcat(a[1..], b);
      assert (a + b)[1..] == a[1..] + b;
    }
  }

  /** A key is missing exactly when every map misses it; otherwise the first map that has it wins. */
  lemma {:induction false} CoalesceFirst<K, V>(ms: seq<map<K, V>>, k: K)
    ensures k !in Coalesce(ms) <==> forall i :: 0 <= i < |ms| ==> k !in ms[i]
    ensures forall i :: 0 <= i < |ms| && k in ms[i] && (forall j :: 0 <= j < i ==> k !in ms[j]) ==>
              k in Coalesce(ms) && Coalesce(ms)[k] == ms[i][k]
  {
    if ms != [] {
      var tail := ms[1..];
      CoalesceFirst(tail, k);
      assert forall i :: 0 <= i < |tail| ==> tail[i] == ms[i + 1];
      forall i | 0 <= i < |ms| && k in ms[i] && forall j :: 0 <= j < i ==> k !in ms[j]
        ensures k in Coalesce(ms) && Coalesce(ms)[k] == ms[i][k]
      {
        if i > 0 {
          assert k in tail[i - 1];
          assert forall j :: 0 <= j < i - 1 ==> k !in tail[j];
        }
      }
      if k !in Coalesce(ms) {
        forall i | 0 <= i < |ms| ensures k !in ms[i] {
          if i > 0 { assert k !in tail[i - 1]; }
        }
      }
      if forall i :: 0 <= i < |ms| ==> k !in ms[i] {
        assert forall i :: 0 <= i < |tail| ==> k !in tail[i];
      }
    }
  }

  // ----- sorted() over a set of strings, by code point -----

  predicate LexLess(a: string, b: string) {
    if b == "" then false
    else if a == "" then true
    else a[0] < b[0] || (a[0] == b[0] && LexLess(a[1..], b[1..]))
  }

  lemma SameHead(a: string, b: string, k: nat)
    requires 0 < k <= |a| && k <= |b| && a[..k] == b[..k]
    ensures a[0] == b[0]
  {
    assert a[..k][0] == a[0] && b[..k][0] == b[0];
  }

  /** `a` and `b` agree before `k`, where `a` has the smaller character. */
  ghost predicate DiffersAt(a: string, b: string, k: nat) {
    k < |a| && k < |b| && a[..k] == b[..k] && a[k] < b[k]
  }

  lemma DiffersInTail(a: string, b: string, k: nat)
    requires a != "" && b != "" && a[0] == b[0]
    ensures DiffersAt(a, b, k + 1) <==> DiffersAt(a[1..], b[1..], k)
  {
    if k + 1 <= |a| && k + 1 <= |b| {
      assert a[..k + 1] == [a[0]] + a[1..][..k] && b[..k + 1] == [b[0]] + b[1..][..k];
      assert a[..k + 1][1..] == a[1..][..k] && b[..k + 1][1..] == b[1..][..k];
    }
  }

  lemma PrefixOfTail(a: string, b: string)
    requires a != "" && b != "" && a[0] == b[0]
    ensures a < b <==> a[1..] < b[1..]
  {
    assert a == [a[0]] + a[1..] && b == [b[0]] + b[1..];
  }

  /** `a` comes first exactly if it is a proper beginning of `b`, or has the smaller character where they first
      differ. */
  lemma {:induction false} LexLessExactly(a: string, b: string)
    ensures LexLess(a, b) <==> a < b || exists k: nat :: DiffersAt(a, b, k)
  {
    if a != "" && b != "" {
      if a[0] == b[0] {
        LexLessExactly(a[1..], b[1..]);
        PrefixOfTail(a, b);
        if exists k: nat :: DiffersAt(a, b, k) {
          var k: nat :| DiffersAt(a, b, k);
          DiffersInTail(a, b, k - 1);
        }
        if exists k: nat :: DiffersAt(a[1..], b[1..], k) {
          var k: nat :| DiffersAt(a[1..], b[1..], k);
          DiffersInTail(a, b, k);
        }
      } else {
        FirstDiffers(a, b);
      }
    }
  }

  lemma FirstDiffers(a: string, b: string)
    requires a != "" && b != "" && a[0] != b[0]
    ensures !(a < b) && ((exists k: nat :: DiffersAt(a, b, k)) <==> a[0] < b[0])
  {
    if a[0] < b[0] { assert DiffersAt(a, b, 0); }
    if exists k: nat :: DiffersAt(a, b, k) {
      var k: nat :| DiffersAt(a, b, k);
      if k > 0 { SameHead(a, b, k); }
    }
  }

  lemma {:induction false} LexTotal(a: string, b: string)
    ensures a == b || LexLess(a, b) || LexLess(b, a)
    ensures !(LexLess(a, b) && LexLess(b, a))
    ensures !LexLess(a, a)
  {
    if a != "" {
      LexTotal(a[1..], a[1..]);
      if b != "" {
        LexTotal(a[1..], b[1..]);
        if a[0] == b[0] && a[1..] == b[1..] {
          assert a == [a[0]] + a[1..] && b == [b[0]] + b[1..];
        }
      }
    }
  }

  lemma {:induction false} LexTransitive(a: string, b: string, c: string)
    requires LexLess(a, b) && LexLess(b, c)
    ensures LexLess(a, c)
  {
    if a != "" && a[0] == b[0] == c[0] {
      LexTransitive(a[1..], b[1..], c[1..]);
    }
  }

  predicate IsLeast(x: string, s: set<string>) {
    x in s && forall y :: y in s ==> x == y || LexLess(x, y)
  }

  lemma LeastExists(s: set<string>)
    requires s != {}
    ensures exists x :: IsLeast(x, s)
    decreases |s|
  {
    var x :| x in s;
    var rest := s - {x};
    if rest == {} {
      assert s == {x};
      assert IsLeast(x, s);
    } else {
      LeastExists(rest);
      var m :| IsLeast(m, rest);
      LexTotal(x, m);
      forall y | y in s && LexLess(x, m) ensures x == y || LexLess(x, y) {
        if y != x && y != m { LexTransitive(x, m, y); }
      }
      assert IsLeast(if LexLess(x, m) then x else m, s);
    }
  }

  lemma LeastUnique(s: set<string>)
    ensures forall x, y :: IsLeast(x, s) && IsLeast(y, s) ==> x == y
  {
    forall x, y | IsLeast(x, s) && IsLeast(y, s) ensures x == y {
      LexTotal(x, y);
    }
  }

  ghost predicate StrictlySorted(s: seq<string>) {
    forall i, j :: 0 <= i < j < |s| ==> LexLess(s[i], s[j])
  }

  function Sorted(s: set<string>): (r: seq<string>)
    ensures StrictlySorted(r)
    ensures forall x :: x in r <==> x in s
    decreases |s|
  {
    if s == {} then []
    else
      LeastExists(s);
      LeastUnique(s);
      var x :| IsLeast(x, s);
      var tail := Sorted(s - {x});
      assert forall i :: 0 <= i < |tail| ==> tail[i] in tail;
      [x] + tail
  }
}
