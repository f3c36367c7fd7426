/** Writes inside the regions being replaced leave the rest of the heap alone. */
module HeapMemoryLaws {
  import opened Bytes
  import opened OrderedArrays
  import opened HeapModel
  import opened HeapOps
  import opened HeapLaws
  import opened HeapMemory

  /** Every listed block has the same bytes in m and n. */
  ghost predicate KeepsBlocks(m: seq<byte>, n: seq<byte>, bs: set<Region>) {
    |m| == |n| && forall b :: b in bs ==> Same(m, n, b.start, b.End())
  }

  lemma KeepsTransitive(l: seq<byte>, m: seq<byte>, n: seq<byte>, bs: set<Region>)
    requires KeepsBlocks(l, m, bs) && KeepsBlocks(m, n, bs)
    ensures KeepsBlocks(l, n, bs)
  {
    forall b | b in bs ensures Same(l, n, b.start, b.End()) {
      assert Same(l, m, b.start, b.End()) && Same(m, n, b.start, b.End());
    }
  }

  lemma SpliceTagged(m: seq<byte>, n: seq<byte>, pre: seq<Region>, old_: seq<Region>, mid: seq<Region>,
                     post: seq<Region>, s: int, a: int, b: int, e: int)
    requires HeapTagged(m, pre + old_ + post) && old_ != []
    requires Tiles(pre, s, a) && Tiles(post, b, e) && OnlyWithin(m, n, a, b)
    requires Tagged(n, mid)
    ensures Tagged(n, pre + mid + post)
  {
    TaggedConcat(n, pre + mid, post);
    TaggedConcat(n, pre, mid);
    if Tagged(m, pre + old_ + post) {
      TaggedConcat(m, pre + old_, post);
      TaggedConcat(m, pre, old_);
      TaggedFrame(m, n, pre, s, a);
      TaggedFrame(m, n, post, b, e);
    } else {
      assert |pre| + |old_| + |post| == 1;
      assert pre == [] && post == [];
    }
  }

  /** Tagging one more region behind the others. */
  lemma TaggedAppend(m: seq<byte>, n: seq<byte>, rs: seq<Region>, r: Region, s: int, e: int)
    requires Tagged(m, rs) && Tiles(rs, s, e) && e == r.start
    requires OnlyWithin(m, n, r.start, r.End()) && RegionTag(n, r)
    ensures Tagged(n, rs + [r])
  {
    TaggedFrame(m, n, rs, s, e);
    TaggedConcat(n, rs, [r]);
    assert [r][1..] == [];
  }

  /** Blocks outside the regions lo..hi keep their bytes when all writes stay inside those regions. */
  lemma OthersKept(m: seq<byte>, n: seq<byte>, rs: seq<Region>, s: int, e: int, lo: nat, hi: nat, bs: set<Region>)
    requires Tiles(rs, s, e) && lo < hi <= |rs|
    requires OnlyWithin(m, n, rs[lo].start, rs[hi - 1].End())
    requires forall b :: b in bs ==> b in rs
    requires forall j :: lo <= j < hi ==> rs[j] !in bs
    ensures KeepsBlocks(m, n, bs)
  {
    forall b | b in bs ensures Same(m, n, b.start, b.End()) {
      var j :| 0 <= j < |rs| && rs[j] == b;
      if j < lo {
        TilesOrdered(rs, s, e, j, lo);
      } else {
        TilesOrdered(rs, s, e, hi - 1, j);
      }
    }
  }

  lemma HeaderAt(m: seq<byte>, rs: seq<Region>, i: nat)
    requires HeapTagged(m, rs) && i < |rs|
    ensures HeaderTag(m, rs[i])
  {
    if Tagged(m, rs) { TaggedAt(m, rs, i); }
  }

  /** Comparing sizes read from memory orders the index as comparing region sizes does. */
  lemma SameOrder(m: seq<byte>, rs: seq<Region>, s: int, e: int, kept: seq<int>, item: int)
    requires HeapTagged(m, rs) && Tiles(rs, s, e)
    requires Lists(Inserted(kept, item, Smaller(rs)), rs)
    ensures Inserted(kept, item, LessInMemory(m)) == Inserted(kept, item, Smaller(rs))
  {
    var idx := Inserted(kept, item, Smaller(rs));
    InsertedElements(kept, item, Smaller(rs));
    assert item in multiset(idx);
    IndexedHole(idx, rs, s, e, item);
    SizeFieldRight(m, rs, item);
    forall k | 0 <= k < |kept| ensures LessInMemory(m)(kept[k], item) == Smaller(rs)(kept[k], item) {
      assert kept[k] in multiset(kept);
      assert kept[k] in multiset(idx);
      IndexedHole(idx, rs, s, e, kept[k]);
      SizeFieldRight(m, rs, kept[k]);
    }
    InsertedCongruent(kept, item, LessInMemory(m), Smaller(rs));
  }

  lemma PlacedTagged(m: seq<byte>, n: seq<byte>, rs: seq<Region>, s: int, e: int, i: nat, ps: seq<Region>)
    requires HeapTagged(m, rs) && Tiles(rs, s, e) && i < |rs| && rs[i].hole
    requires OnlyWithin(m, n, rs[i].start, rs[i].End()) && Tagged(n, ps)
    ensures Tagged(n, rs[..i] + ps + rs[i + 1..])
    ensures KeepsBlocks(m, n, Blocks(rs))
  {
    TilesAt(rs, s, e, i);
    SplitAt(rs, i);
    SpliceTagged(m, n, rs[..i], [rs[i]], ps, rs[i + 1..], s, rs[i].start, rs[i].End(), e);
    forall b | b in Blocks(rs) ensures b in rs && b != rs[i] {
      BlockMember(rs, b);
    }
    OthersKept(m, n, rs, s, e, i, i + 1, Blocks(rs));
  }

  /** Writes from address a on keep the blocks that end at or before a. */
  lemma EarlierKept(m: seq<byte>, n: seq<byte>, rs: seq<Region>, s: int, a: int, b: int, post: seq<Region>)
    requires Tiles(rs, s, a) && OnlyWithin(m, n, a, b) && Blocks(post) == {}
    ensures KeepsBlocks(m, n, Blocks(rs + post))
  {
    BlocksConcat(rs, post);
    forall r | r in Blocks(rs) ensures Same(m, n, r.start, r.End()) {
      BlockMember(rs, r);
      var j :| 0 <= j < |rs| && rs[j] == r;
      TilesAt(rs, s, a, j);
    }
  }

  /** A bigger last hole. */
  lemma EnlargedTagged(m: seq<byte>, n: seq<byte>, rs: seq<Region>, s: int, e: int, growth: int)
    requires HeapTagged(m, rs) && Tiles(rs, s, e) && EndsInHole(rs)
    requires OnlyWithin(m, n, rs[|rs| - 1].start, e + growth)
    requires RegionTag(n, Region(rs[|rs| - 1].start, rs[|rs| - 1].size + growth, true))
    ensures Tagged(n, Enlarged(rs, |rs| - 1, growth))
    ensures KeepsBlocks(m, n, Blocks(rs))
  {
    var i := |rs| - 1;
    var r := rs[i].(size := rs[i].size + growth);
    TilesAt(rs, s, e, i);
    assert rs == rs[..i] + [rs[i]] + [] && rs[i + 1..] == [];
    assert [r][1..] == [];
    SpliceTagged(m, n, rs[..i], [rs[i]], [r], [], s, r.start, e + growth, e + growth);
    EarlierKept(m, n, rs[..i], s, r.start, e + growth, [rs[i]]);
    assert rs == rs[..i] + [rs[i]];
  }

  /** A new hole behind the last block. */
  lemma AppendedTagged(m: seq<byte>, n: seq<byte>, rs: seq<Region>, s: int, e: int, growth: int)
    requires HeapTagged(m, rs) && Tiles(rs, s, e) && (rs != [] ==> !rs[|rs| - 1].hole) && 0 < growth
    requires OnlyWithin(m, n, e, e + growth) && RegionTag(n, Region(e, growth, true))
    ensures Tagged(n, rs + [Region(e, growth, true)])
    ensures KeepsBlocks(m, n, Blocks(rs))
  {
    TaggedAppend(m, n, rs, Region(e, growth, true), s, e);
    EarlierKept(m, n, rs, s, e, e + growth, []);
    assert rs + [] == rs;
  }

  /** As soon as there is a block, no footer is missing. */
  lemma BlockTagged(m: seq<byte>, rs: seq<Region>, i: nat)
    requires HeapTagged(m, rs) && i < |rs| && !rs[i].hole
    ensures Tagged(m, rs) && RegionTag(m, rs[i])
    ensures 0 < i ==> RegionTag(m, rs[i - 1])
    ensures i + 1 < |rs| ==> RegionTag(m, rs[i + 1])
  {
    TaggedAt(m, rs, i);
    if 0 < i { TaggedAt(m, rs, i - 1); }
    if i + 1 < |rs| { TaggedAt(m, rs, i + 1); }
  }

  /** The regions after a merge, tagged. */
  lemma MergedTagged(m: seq<byte>, n: seq<byte>, rs: seq<Region>, s: int, e: int, lo: nat, hi: nat, parts: seq<Region>,
                     a: int, b: int)
    requires HeapTagged(m, rs) && lo < hi <= |rs| && Tiles(rs[..lo], s, a) && Tiles(rs[hi..], b, e)
    requires OnlyWithin(m, n, a, b) && Tagged(n, parts)
    ensures Tagged(n, rs[..lo] + parts + rs[hi..])
  {
    assert rs == rs[..lo] + rs[lo..hi] + rs[hi..];
    SpliceTagged(m, n, rs[..lo], rs[lo..hi], parts, rs[hi..], s, a, b, e);
  }
}
