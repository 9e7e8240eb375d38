/** Merging vendor blocks into one BMC view, in place and in priority order. */
module OemMerge {
  import opened Wrappers
  import opened Sequences

  /** A field value; a field that is None is absent from the map. */
  datatype Value = Value(json: string)

  type Fields = map<string, Value>

  class Bmc {
    var fields: Fields

    constructor (fields: Fields)
      ensures this.fields == fields
    {
      this.fields := fields;
    }
  }

  /** The value under a vendor key: null, an object, an already parsed view, or something else. */
  datatype Extra = Null | Object(fields: Fields) | Parsed(bmc: Bmc) | Other

  const VENDOR_KEYS: seq<string> :=
    ["BMC", "xFusion", "Lenovo", "Hpe", "Dell", "gOemCustomeString", "Ami", "Enginetech"]

  ghost predicate AllDeclared(ms: seq<Fields>, declared: seq<string>) {
    forall i, f :: 0 <= i < |ms| && f in ms[i] ==> f in declared
  }

  class Oem {
    var bmc: Bmc?
    const extra: map<string, Extra>
    /** The declared fields of a BMC view, in order. */
    const declared: seq<string>

    constructor (bmc: Bmc?, extra: map<string, Extra>, declared: seq<string>)
      ensures this.bmc == bmc && this.extra == extra && this.declared == declared
    {
      this.bmc, this.extra, this.declared := bmc, extra, declared;
    }

    /** The views that appear as values, and the current view. */
    function Objects(): set<Bmc>
      reads this
    {
      (set k | k in extra && extra[k].Parsed? :: extra[k].bmc) + (if bmc != null then {bmc} else {})
    }

    /** The block under a vendor key, as a list of none or one. */
    function Block(key: string): seq<Fields>
      reads this, Objects()
    {
      if key !in extra then []
      else match extra[key]
           case Object(fields) => [fields]
           case Parsed(b) => [b.fields]
           case _ => []
    }

    function Blocks(n: nat): seq<Fields>
      requires n <= |VENDOR_KEYS|
      reads this, Objects()
    {
      if n == 0 then (if bmc != null then [bmc.fields] else []) else Blocks(n - 1) + Block(VENDOR_KEYS[n - 1])
    }

    /** Public first, then the vendor blocks in priority order. */
    function AllBlocks(): seq<Fields>
      reads this, Objects()
    {
      Blocks(|VENDOR_KEYS|)
    }

    /** The priority order, key by key. */
    lemma BlocksInOrder()
      ensures AllBlocks() ==
              (if bmc != null then [bmc.fields] else []) + Block("BMC") + Block("xFusion") + Block("Lenovo")
              + Block("Hpe") + Block("Dell") + Block("gOemCustomeString") + Block("Ami") + Block("Enginetech")
    {
      assert Blocks(2) == Blocks(0) + Block("BMC") + Block("xFusion");
      assert Blocks(4) == Blocks(2) + Block("Lenovo") + Block("Hpe");
      assert Blocks(6) == Blocks(4) + Block("Dell") + Block("gOemCustomeString");
      assert Blocks(8) == Blocks(6) + Block("Ami") + Block("Enginetech");
    }

    /** An object or a parsed view is a block; nothing else is. */
    lemma BlockExactly(key: string)
      ensures key in extra && extra[key].Object? ==> Block(key) == [extra[key].fields]
      ensures key in extra && extra[key].Parsed? ==> Block(key) == [extra[key].bmc.fields]
      ensures key !in extra || extra[key].Null? || extra[key].Other? ==> Block(key) == []
    {
    }

    ghost predicate Valid()
      reads this, Objects()
    {
      AllDeclared(AllBlocks(), declared)
    }

    /** Fills every declared field that is still missing. */
    method Fill(vendor: Bmc)
      requires bmc != null && forall f :: f in vendor.fields ==> f in declared
      modifies bmc
      ensures bmc.fields == old(vendor.fields) + old(bmc.fields)
    {
      for i := 0 to |declared|
        invariant vendor != bmc ==> vendor.fields == old(vendor.fields)
        invariant vendor == bmc ==> bmc.fields == old(bmc.fields)
        invariant forall f :: f in bmc.fields <==>
            f in old(bmc.fields) || (f in declared[..i] && f in old(vendor.fields))
        invariant forall f :: f in bmc.fields ==>
            bmc.fields[f] == (if f in old(bmc.fields) then old(bmc.fields) else old(vendor.fields))[f]
      {
        var f := declared[i];
        if f !in bmc.fields && f in vendor.fields {
          bmc.fields := bmc.fields[f := vendor.fields[f]];
        }
      }
      assert declared[..|declared|] == declared;
    }

    lemma BlockCounted(n: nat, i: nat)
      requires i < n <= |VENDOR_KEYS|
      ensures forall m :: m in Block(VENDOR_KEYS[i]) ==> m in Blocks(n)
    {
      if i < n - 1 { BlockCounted(n - 1, i); }
    }

    lemma BlockAtMostOne(key: string)
      ensures |Block(key)| <= 1
    {
    }

    /** Once the view has every field that any block has, merging again gives the view itself. */
    lemma {:induction false} Settled(n: nat)
      requires n <= |VENDOR_KEYS| && bmc != null
      requires forall i, m :: 0 <= i < n && m in Block(VENDOR_KEYS[i]) ==> m.Keys <= bmc.fields.Keys
      ensures Blocks(n) != [] && Coalesce(Blocks(n)) == bmc.fields
      ensures forall m :: m in Blocks(n) ==> m.Keys <= bmc.fields.Keys
    {
      hide Coalesce, Block;
      if n == 0 {
        CoalesceOne(bmc.fields);
      } else {
        Settled(n - 1);
        BlockAtMostOne(VENDOR_KEYS[n - 1]);
        OneMore(Blocks(n - 1), Block(VENDOR_KEYS[n - 1]), bmc.fields);
      }
    }

    /** The block under a key as it was when `first` was taken. */
    ghost function FirstBlock(key: string, first: map<string, Fields>): seq<Fields> {
      if key !in extra then []
      else match extra[key]
           case Object(fields) => [fields]
           case Parsed(_) => if key in first then [first[key]] else []
           case _ => []
    }

    ghost function FirstBlocks(public: seq<Fields>, first: map<string, Fields>, n: nat): seq<Fields>
      requires n <= |VENDOR_KEYS|
    {
      if n == 0 then public else FirstBlocks(public, first, n - 1) + FirstBlock(VENDOR_KEYS[n - 1], first)
    }

    /** `first` holds the fields of every parsed block. */
    ghost predicate Taken(first: map<string, Fields>)
      reads this, Objects()
    {
      forall k :: k in extra && extra[k].Parsed? ==> k in first && first[k] == extra[k].bmc.fields
    }

    /** After the blocks `before`: the view is their merge, its own first fields are among them if it is a parsed
        block, and the other parsed blocks are as they were. */
    ghost predicate Merging(before: seq<Fields>, first: map<string, Fields>)
      reads this, Objects()
    {
      && (bmc == null <==> before == [])
      && (bmc != null ==> bmc.fields == Coalesce(before))
      && forall k :: k in extra && extra[k].Parsed? ==>
           k in first && if extra[k].bmc == bmc then first[k] in before else extra[k].bmc.fields == first[k]
    }

    lemma {:induction false} Snapshot(public: seq<Fields>, first: map<string, Fields>, n: nat)
      requires n <= |VENDOR_KEYS| && Taken(first) && public == if bmc != null then [bmc.fields] else []
      ensures FirstBlocks(public, first, n) == Blocks(n)
    {
      if n > 0 { Snapshot(public, first, n - 1); }
    }

    lemma {:induction false} FirstBlocksGrow(public: seq<Fields>, first: map<string, Fields>, i: nat, n: nat)
      requires i < n <= |VENDOR_KEYS|
      ensures forall m :: m in FirstBlocks(public, first, i) || m in FirstBlock(VENDOR_KEYS[i], first) ==>
          m in FirstBlocks(public, first, n)
      ensures AllDeclared(FirstBlocks(public, first, n), declared) ==>
                AllDeclared(FirstBlocks(public, first, i), declared) &&
                    AllDeclared(FirstBlock(VENDOR_KEYS[i], first), declared)
      decreases n
    {
      if i < n - 1 { FirstBlocksGrow(public, first, i, n - 1); }
      if AllDeclared(FirstBlocks(public, first, n), declared) {
        SubDeclared(FirstBlocks(public, first, i), FirstBlocks(public, first, n), declared);
        SubDeclared(FirstBlock(VENDOR_KEYS[i], first), FirstBlocks(public, first, n), declared);
      }
    }

    /** When all blocks are merged, each block has only fields the view has. */
    lemma AllMerged(public: seq<Fields>, first: map<string, Fields>)
      requires bmc != null && Merging(FirstBlocks(public, first, |VENDOR_KEYS|), first)
      requires AllDeclared(FirstBlocks(public, first, |VENDOR_KEYS|), declared)
      ensures Coalesce(AllBlocks()) == bmc.fields && AllBlocks() != [] && Valid()
    {
      var all := FirstBlocks(public, first, |VENDOR_KEYS|);
      forall i, m | 0 <= i < |VENDOR_KEYS| && m in Block(VENDOR_KEYS[i]) ensures m.Keys <= bmc.fields.Keys {
        var key := VENDOR_KEYS[i];
        FirstBlocksGrow(public, first, i, |VENDOR_KEYS|);
        if !(extra[key].Parsed? && extra[key].bmc == bmc) {
          assert m in FirstBlock(key, first);
          assert m in all;
          CoalesceSnoc(all, m);
        }
      }
      Settled(|VENDOR_KEYS|);
      CoalesceDeclared(all, declared);
      StillDeclared();
    }

    lemma StillDeclared()
      requires bmc != null && forall m :: m in AllBlocks() ==> m.Keys <= bmc.fields.Keys
      requires forall f :: f in bmc.fields ==> f in declared
      ensures Valid()
    {
      var blocks := AllBlocks();
      forall i, f | 0 <= i < |blocks| && f in blocks[i] ensures f in declared {
        assert blocks[i] in blocks && f in blocks[i].Keys;
      }
    }

    /** Without any block nothing was touched. */
    lemma NothingMerged(public: seq<Fields>, first: map<string, Fields>)
      requires bmc == null && Merging(FirstBlocks(public, first, |VENDOR_KEYS|), first)
      ensures AllBlocks() == [] && Valid()
    {
      hide FirstBlocks;
      FirstBlocksZero(public, first);
      FirstBlocksGrow(public, first, 0, |VENDOR_KEYS|);
      if public != [] {
        HasFirst(public);
        assert false;
      }
      Snapshot(public, first, |VENDOR_KEYS|);
    }

    method MergeKey(key: string, ghost before: seq<Fields>, ghost first: map<string, Fields>)
      requires Merging(before, first)
      requires AllDeclared(before, declared) && AllDeclared(FirstBlock(key, first), declared)
      modifies this`bmc, Objects()
      ensures Merging(before + FirstBlock(key, first), first)
      ensures bmc == old(bmc) || fresh(bmc) || bmc in old(Objects())
    {
      ghost var block := FirstBlock(key, first);
      if key !in extra || extra[key].Null? || extra[key].Other? {
        assert before + block == before;
        return;
      }
      CoalesceSnoc(before, block[0]);
      assert block == [block[0]];
      var vendor;
      match extra[key] {
        case Object(fields) => vendor := new Bmc(fields);
        case Parsed(b) => vendor := b;
      }
      if bmc == null {
        bmc := vendor;
      } else {
        assert forall f :: f in Coalesce(before) ==> f in declared by { CoalesceDeclared(before, declared); }
        Fill(vendor);
      }
    }

    lemma FirstBlocksNext(public: seq<Fields>, first: map<string, Fields>, i: nat)
      requires i < |VENDOR_KEYS|
      ensures FirstBlocks(public, first, i + 1) == FirstBlocks(public, first, i) + FirstBlock(VENDOR_KEYS[i], first)
    {
    }

    lemma FirstBlocksZero(public: seq<Fields>, first: map<string, Fields>)
      ensures FirstBlocks(public, first, 0) == public
    {
    }

    lemma TakenNow(first: map<string, Fields>)
      requires first == map k | k in extra && extra[k].Parsed? :: extra[k].bmc.fields
      ensures Taken(first)
    {
    }

    lemma MergingMeans(all: seq<Fields>, first: map<string, Fields>)
      requires Merging(all, first)
      ensures (bmc == null <==> all == []) && (bmc != null ==> bmc.fields == Coalesce(all))
    {
    }

    lemma MergingStarts(public: seq<Fields>, first: map<string, Fields>)
      requires Taken(first) && public == if bmc != null then [bmc.fields] else []
      ensures Merging(public, first)
    {
      if bmc != null { CoalesceOne(bmc.fields); }
    }

    /** Merges the vendor blocks into the view, in place. */
    method PostInit()
      requires Valid()
      modifies this`bmc, Objects()
      ensures bmc == null <==> old(AllBlocks()) == []
      ensures bmc != null ==> bmc.fields == Coalesce(old(AllBlocks()))
      // It could be run again, and would change nothing.
      ensures Valid() && (bmc == null <==> AllBlocks() == [])
      ensures bmc != null ==> Coalesce(AllBlocks()) == bmc.fields
    {
      hide Merging, FirstBlocks, FirstBlock, AllDeclared, Taken;
      ghost var public: seq<Fields> := if bmc != null then [bmc.fields] else [];
      ghost var first: map<string, Fields> := map k | k in extra && extra[k].Parsed? :: extra[k].bmc.fields;
      TakenNow(first);
      Snapshot(public, first, |VENDOR_KEYS|);
      MergingStarts(public, first);
      FirstBlocksZero(public, first);
      for i := 0 to |VENDOR_KEYS|
        invariant Merging(FirstBlocks(public, first, i), first)
        invariant AllDeclared(FirstBlocks(public, first, |VENDOR_KEYS|), declared)
        invariant bmc == null || fresh(bmc) || bmc in old(Objects())
      {
        FirstBlocksGrow(public, first, i, |VENDOR_KEYS|);
        MergeKey(VENDOR_KEYS[i], FirstBlocks(public, first, i), first);
        FirstBlocksNext(public, first, i);
      }
      MergingMeans(FirstBlocks(public, first, |VENDOR_KEYS|), first);
      if bmc != null { AllMerged(public, first); } else { NothingMerged(public, first); }
    }
  }

  lemma HasFirst(ms: seq<Fields>)
    requires ms != []
    ensures exists m :: m in ms
  {
    assert ms[0] in ms;
  }

  lemma SubDeclared(a: seq<Fields>, b: seq<Fields>, declared: seq<string>)
    requires AllDeclared(b, declared) && forall m :: m in a ==> m in b
    ensures AllDeclared(a, declared)
  {
    forall i, f | 0 <= i < |a| && f in a[i] ensures f in declared {
      assert a[i] in b;
      var j :| 0 <= j < |b| && b[j] == a[i];
    }
  }

  lemma CoalesceDeclared(ms: seq<Fields>, declared: seq<string>)
    requires AllDeclared(ms, declared)
    ensures forall f :: f in Coalesce(ms) ==> f in declared
  {
    forall f | f in Coalesce(ms) ensures f in declared { CoalesceFirst(ms, f); }
  }

  /** A block without new fields changes nothing. */
  lemma OneMore(before: seq<Fields>, block: seq<Fields>, view: Fields)
    requires Coalesce(before) == view && |block| <= 1
    requires forall m :: m in before || m in block ==> m.Keys <= view.Keys
    ensures Coalesce(before + block) == view && forall m :: m in before + block ==> m.Keys <= view.Keys
  {
    hide Coalesce;
    if block == [] {
      assert before + block == before;
    } else {
      assert block == [block[0]] && block[0] in block;
      CoalesceSnoc(before, block[0]);
    }
  }

  lemma NothingToMerge(ms: seq<Fields>, m: Fields)
    ensures ms == [] ==> m + Coalesce(ms) == m
  {
  }

  lemma CoalesceSnoc(ms: seq<Fields>, m: Fields)
    ensures Coalesce(ms + [m]) == m + Coalesce(ms)
    ensures m in ms || m.Keys <= Coalesce(ms).Keys ==> Coalesce(ms + [m]) == Coalesce(ms)
    ensures m in ms ==> m.Keys <= Coalesce(ms).Keys
    ensures ms == [] ==> Coalesce(ms + [m]) == m
  {
    hide Coalesce;
    CoalesceOne(m);
    CoalesceConcat(ms, [m]);
    NothingToMerge(ms, m);
    if m in ms {
      forall f | f in m ensures f in Coalesce(ms) { CoalesceFirst(ms, f); }
    }
  }
}
