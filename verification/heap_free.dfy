/** What free keeps, and that it undoes alloc (kernel/libc/memory.c). */
module HeapFree {
  import opened OrderedArrays
  import opened HeapModel
  import opened HeapOps
  import opened HeapLaws

  ghost predicate IsBlock(st: State, i: nat) {
    Wf(st) && i < |st.regions| && !st.regions[i].hole
  }

  /** The merged hole covers exactly the regions it replaces. */
  lemma MergedExtent(rs: seq<Region>, s: int, e: int, i: nat)
    requires Tiles(rs, s, e) && i < |rs|
    ensures var m := Merged(rs, i); var lo := MergeFrom(rs, i); var hi := MergeTo(rs, i);
      && Tiles(rs[..lo], s, m.start) && Tiles(rs[hi..], m.End(), e)
      && s <= m.start && m.End() <= e && OVERHEAD <= m.size
      && m.start <= rs[i].start && rs[i].End() <= m.End()
  {
    var lo, hi := MergeFrom(rs, i), MergeTo(rs, i);
    TilesAt(rs, s, e, lo);
    TilesAt(rs, s, e, i);
    TilesAt(rs, s, e, hi - 1);
    if lo < i { TilesOrdered(rs, s, e, lo, i); }
    if i < hi - 1 { TilesOrdered(rs, s, e, i, i + 1); }
  }

  lemma MergedNeighbours(rs: seq<Region>, i: nat)
    requires NoAdjacentHoles(rs) && i < |rs|
    ensures var lo := MergeFrom(rs, i); var hi := MergeTo(rs, i);
      && (rs[..lo] != [] ==> !rs[..lo][lo - 1].hole)
      && (rs[hi..] != [] ==> !rs[hi..][0].hole)
  {
    var lo, hi := MergeFrom(rs, i), MergeTo(rs, i);
    if 0 < lo && lo < i { NotAdjacent(rs, lo - 1); }
    if hi < |rs| && i + 1 < hi { NotAdjacent(rs, hi - 1); }
  }

  lemma SliceSplit(rs: seq<Region>, lo: nat, mid: nat, hi: nat)
    requires lo <= mid <= hi <= |rs|
    ensures rs[lo..hi] == rs[lo..mid] + rs[mid..hi]
  {
  }

  lemma MergedSplit(rs: seq<Region>, i: nat)
    requires i < |rs|
    ensures var lo := MergeFrom(rs, i); var hi := MergeTo(rs, i);
      && rs == rs[..lo] + rs[lo..hi] + rs[hi..]
      && rs[lo..hi] == rs[lo..i] + [rs[i]] + rs[i + 1..hi]
  {
    hide MergeFrom, MergeTo;
    var lo, hi := MergeFrom(rs, i), MergeTo(rs, i);
    SliceSplit(rs, 0, lo, |rs|);
    SliceSplit(rs, lo, hi, |rs|);
    SliceSplit(rs, lo, i, hi);
    SliceSplit(rs, i, i + 1, hi);
    assert rs[i..i + 1] == [rs[i]];
  }

  lemma MergedAtEnd(rs: seq<Region>, s: int, e: int, i: nat)
    requires Tiles(rs, s, e) && i < |rs|
    ensures MergeTo(rs, i) == |rs| <==> Merged(rs, i).End() == e
  {
    MergedExtent(rs, s, e, i);
    TilesExtent(rs[MergeTo(rs, i)..], Merged(rs, i).End(), e);
  }

  /** The lengths contraction picks. */
  lemma Contracted(st: State, i: nat)
    requires IsBlock(st, i)
    ensures var n := LengthAfterFree(st, i);
      && n % PAGE == 0 && HEAP_MIN_SIZE <= n <= st.Length()
      && Merged(st.regions, i).start - st.start <= n
      && Residual(st, i) == Merged(st.regions, i).size - (st.Length() - n)
      && 0 <= Residual(st, i)
      && (MergeTo(st.regions, i) < |st.regions| ==> n == st.Length() && OVERHEAD <= Residual(st, i))
      && (MergeTo(st.regions, i) == |st.regions| ==> Merged(st.regions, i).start + Residual(st, i) == st.start + n)
  {
    MergedExtent(st.regions, st.start, st.end, i);
    MergedAtEnd(st.regions, st.start, st.end, i);
  }

  /** free gives back every page it may: the heap shrinks to the least whole number of pages that holds everything in
      front of the merged hole and is no less than the minimum, and only when that hole reaches the end of the heap. */
  lemma FreedShrinks(st: State, i: nat)
    requires IsBlock(st, i)
    ensures var n := LengthAfterFree(st, i); var m := Merged(st.regions, i);
      && n % PAGE == 0 && HEAP_MIN_SIZE <= n && m.start - st.start <= n
      && (m.End() < st.end ==> n == st.Length())
      && (m.End() == st.end ==>
            forall k: nat :: HEAP_MIN_SIZE <= k * PAGE && m.start - st.start <= k * PAGE ==> n <= k * PAGE)
  {
    Contracted(st, i);
    MergedAtEnd(st.regions, st.start, st.end, i);
    MergedExtent(st.regions, st.start, st.end, i);
  }

  /** Contraction leaves a tiling exactly when what is left of the merged hole is nothing, or room for its tags. */
  lemma FreedTiles(st: State, i: nat)
    requires IsBlock(st, i)
    ensures Tiles(Freed(st, i).regions, st.start, Freed(st, i).end) <==> FreeGuard(st, i)
  {
    var rs := st.regions;
    Contracted(st, i);
    MergedExtent(rs, st.start, st.end, i);
    FreedTilesAt(rs[..MergeFrom(rs, i)], rs[MergeTo(rs, i)..], st.start, Merged(rs, i).start, Residual(st, i),
      Freed(st, i).end);
  }

  lemma FreedTilesAt(pre: seq<Region>, post: seq<Region>, s: int, at: int, size: int, e: int)
    requires Tiles(pre, s, at) && Tiles(post, at + size, e) && 0 <= size
    ensures Tiles(pre + (if size == 0 then [] else [Region(at, size, true)]) + post, s, e)
       <==> size == 0 || OVERHEAD <= size
  {
    var parts := if size == 0 then [] else [Region(at, size, true)];
    TilesOne(at, size);
    TilesExtent(pre, s, at);
    if size == 0 || OVERHEAD <= size {
      TilesConcat(pre, parts, s, at, at + size);
      TilesConcat(pre + parts, post, s, at + size, e);
    } else if Tiles(pre + parts + post, s, e) {
      assert (pre + parts + post)[|pre|] == parts[0];
      TilesAt(pre + parts + post, s, e, |pre|);
    }
  }

  lemma {:induction false} WithoutElements(s: seq<int>, a: int)
    requires a in s
    ensures multiset(Without(s, a)) == multiset(s) - multiset([a])
    ensures |Without(s, a)| < |s|
  {
    RemovedElements(s, IndexOf(s, a));
  }

  lemma MinusBoth(m: multiset<int>, l: multiset<int>, r: multiset<int>)
    requires l + r <= m
    ensures r <= m && l <= m - r && m - r - l == m - (l + r)
  {
  }

  lemma FreedElementsRight(idx: seq<int>, r: seq<int>)
    requires multiset(r) <= multiset(idx) && |r| <= 1
    ensures var idx1 := if r != [] then Without(idx, r[0]) else idx;
      multiset(idx1) == multiset(idx) - multiset(r) && |idx1| <= |idx|
  {
    if r != [] {
      assert r == [r[0]];
      assert r[0] in multiset(r);
      assert r[0] in multiset(idx);
      WithoutElements(idx, r[0]);
    }
  }

  /** The index after free, as elements: l and r are the merged neighbours' entries, gone that nothing is left. */
  lemma FreedElements(idx: seq<int>, l: seq<int>, r: seq<int>, gone: bool, at: int, less: (int, int) -> bool)
    requires multiset(l) + multiset(r) <= multiset(idx)
    requires (l == [] || l == [at]) && |r| <= 1
    ensures multiset(FreedIndex(idx, l, r, gone, at, less))
         == multiset(idx) - (multiset(l) + multiset(r)) + multiset(if gone then [] else [at])
    ensures |FreedIndex(idx, l, r, gone, at, less)| <= |idx| + 1
  {
    MinusBoth(multiset(idx), multiset(l), multiset(r));
    FreedElementsRight(idx, r);
    FreedElementsLeft(if r != [] then Without(idx, r[0]) else idx, l, gone, at, less);
  }

  lemma FreedElementsLeft(idx: seq<int>, l: seq<int>, gone: bool, at: int, less: (int, int) -> bool)
    requires multiset(l) <= multiset(idx) && (l == [] || l == [at])
    ensures var idx' := if l != [] then (if gone then Without(idx, at) else idx)
                        else if gone then idx else Inserted(idx, at, less);
      && multiset(idx') == multiset(idx) - multiset(l) + multiset(if gone then [] else [at])
      && |idx'| <= |idx| + 1
  {
    if l != [] {
      assert at in multiset(idx);
      if gone { WithoutElements(idx, at); }
    } else if !gone {
      InsertedElements(idx, at, less);
    }
  }

  lemma MergedHoleStarts(rs: seq<Region>, i: nat)
    requires i < |rs| && !rs[i].hole
    ensures HoleStarts(rs[MergeFrom(rs, i)..MergeTo(rs, i)]) == LeftStart(rs, i) + RightStart(rs, i)
  {
    var lo, hi := MergeFrom(rs, i), MergeTo(rs, i);
    MergedSplit(rs, i);
    HoleStartsConcat(rs[lo..i] + [rs[i]], rs[i + 1..hi]);
    HoleStartsConcat(rs[lo..i], [rs[i]]);
    if lo < i { assert rs[lo..i] == [rs[lo]]; }
    if i + 1 < hi { assert rs[i + 1..hi] == [rs[i + 1]]; }
  }

  lemma FreedLists(rs: seq<Region>, idx: seq<int>, i: nat, parts: seq<Region>, less: (int, int) -> bool)
    requires Lists(idx, rs) && i < |rs| && !rs[i].hole
    requires parts == [] || (|parts| == 1 && parts[0].hole && parts[0].start == Merged(rs, i).start)
    ensures var idx' := FreedIndex(idx, LeftStart(rs, i), RightStart(rs, i), parts == [], Merged(rs, i).start, less);
      && Lists(idx', rs[..MergeFrom(rs, i)] + parts + rs[MergeTo(rs, i)..])
      && |idx'| <= |idx| + 1
  {
    var lo, hi := MergeFrom(rs, i), MergeTo(rs, i);
    var l, r, at := LeftStart(rs, i), RightStart(rs, i), Merged(rs, i).start;
    MergedHoleStarts(rs, i);
    MergedSplit(rs, i);
    assert multiset(l) + multiset(r) <= multiset(idx) by {
      HoleStartsConcat(rs[..lo] + rs[lo..hi], rs[hi..]);
      HoleStartsConcat(rs[..lo], rs[lo..hi]);
    }
    assert HoleStarts(parts) == if parts == [] then [] else [at];
    FreedElements(idx, l, r, parts == [], at, less);
    SpliceHoles(rs[..lo], rs[lo..hi], parts, rs[hi..]);
  }

  lemma FreedNoAdjacent(rs: seq<Region>, i: nat, parts: seq<Region>)
    requires NoAdjacentHoles(rs) && i < |rs| && |parts| <= 1
    requires parts == [] ==> MergeTo(rs, i) == |rs|
    ensures NoAdjacentHoles(rs[..MergeFrom(rs, i)] + parts + rs[MergeTo(rs, i)..])
  {
    MergedSplit(rs, i);
    MergedNeighbours(rs, i);
    SpliceNoAdjacent(rs[..MergeFrom(rs, i)], rs[MergeFrom(rs, i)..MergeTo(rs, i)], parts, rs[MergeTo(rs, i)..]);
  }

  lemma FreedExtent(st: State, i: nat)
    requires IsBlock(st, i)
    ensures Freed(st, i).end % PAGE == 0 && st.start + HEAP_MIN_SIZE <= Freed(st, i).end <= st.end
    ensures FreedParts(st, i) == [] ==> MergeTo(st.regions, i) == |st.regions|
  {
    Contracted(st, i);
    SumAligned(st.start, LengthAfterFree(st, i));
  }

  lemma SumAligned(a: int, b: int)
    requires a % PAGE == 0 && b % PAGE == 0
    ensures (a + b) % PAGE == 0
  {
  }

  /** free keeps the heap well formed. */
  lemma FreedWf(st: State, i: nat)
    requires IsBlock(st, i) && FreeGuard(st, i) && |st.index| + 1 < st.capacity
    ensures Wf(Freed(st, i))
    ensures Freed(st, i).end <= st.end
  {
    FreedTiles(st, i);
    FreedExtent(st, i);
    FreedNoAdjacent(st.regions, i, FreedParts(st, i));
    FreedLists(st.regions, st.index, i, FreedParts(st, i), Smaller(Freed(st, i).regions));
  }

  /** The merged regions hold one block, which is in no other region. */
  lemma MergedBlock(rs: seq<Region>, s: int, e: int, i: nat)
    requires Tiles(rs, s, e) && i < |rs| && !rs[i].hole
    ensures Blocks(rs[MergeFrom(rs, i)..MergeTo(rs, i)]) == {rs[i]}
  {
    var lo, hi := MergeFrom(rs, i), MergeTo(rs, i);
    MergedSplit(rs, i);
    BlocksConcat(rs[lo..i] + [rs[i]], rs[i + 1..hi]);
    BlocksConcat(rs[lo..i], [rs[i]]);
  }

  lemma BlockElsewhere(rs: seq<Region>, s: int, e: int, i: nat)
    requires Tiles(rs, s, e) && i < |rs|
    ensures rs[i] !in Blocks(rs[..MergeFrom(rs, i)]) && rs[i] !in Blocks(rs[MergeTo(rs, i)..])
  {
    var lo, hi := MergeFrom(rs, i), MergeTo(rs, i);
    RegionOnce(rs, s, e, i);
    SliceSplit(rs, 0, lo, i);
    SliceSplit(rs, i + 1, hi, |rs|);
    BlockMember(rs[..lo], rs[i]);
    BlockMember(rs[hi..], rs[i]);
  }

  lemma MergedBlocks(rs: seq<Region>, s: int, e: int, i: nat, parts: seq<Region>)
    requires Tiles(rs, s, e) && i < |rs| && !rs[i].hole && Blocks(parts) == {}
    ensures Blocks(rs[..MergeFrom(rs, i)] + parts + rs[MergeTo(rs, i)..]) == Blocks(rs) - {rs[i]}
  {
    var lo, hi := MergeFrom(rs, i), MergeTo(rs, i);
    MergedBlock(rs, s, e, i);
    BlockElsewhere(rs, s, e, i);
    MergedSplit(rs, i);
    BlocksSplice(rs[..lo], rs[lo..hi], parts, rs[hi..]);
  }

  /** free takes away exactly the freed block. */
  lemma FreedBlocks(st: State, i: nat)
    requires IsBlock(st, i)
    ensures Blocks(Freed(st, i).regions) == Blocks(st.regions) - {st.regions[i]}
  {
    MergedBlocks(st.regions, st.start, st.end, i, FreedParts(st, i));
  }

  /** Freeing the block just cut restores the regions, whether the hole was split, absorbed whole, or cut in the
      middle to align the payload, unless the free changes the length of the heap. */
  lemma FreeUndoesPlace(st: State, k: nat, need: int, align: bool)
    requires PlaceReady(st, k, need, align)
    ensures var st' := Placed(st, k, need, align);
      var i := Where(st.regions, st.index[k]) + if align then 1 else 0;
      && i < |st'.regions| && st'.regions[i] == BlockOf(HoleAt(st, k), need, align)
      && (LengthAfterFree(st', i) == st.Length() ==>
            FreeGuard(st', i) && Freed(st', i).regions == st.regions && Freed(st', i).end == st.end)
  {
    PlaceHole(st, k, need, align);
    var j := Where(st.regions, st.index[k]);
    UndoneRegions(st.regions, j, need, align);
    var st' := Placed(st, k, need, align);
    var i := j + if align then 1 else 0;
    if LengthAfterFree(st', i) == st.Length() {
      UndoneState(st, st', i, j);
    }
  }

  lemma UndoneState(st: State, st': State, i: nat, j: nat)
    requires i < |st'.regions| && j < |st.regions| && st.regions[j].hole && OVERHEAD <= st.regions[j].size
    requires st'.start == st.start && st'.end == st.end && LengthAfterFree(st', i) == st.Length()
    requires Merged(st'.regions, i) == st.regions[j]
    requires st'.regions[..MergeFrom(st'.regions, i)] == st.regions[..j]
    requires st'.regions[MergeTo(st'.regions, i)..] == st.regions[j + 1..]
    ensures FreeGuard(st', i) && Freed(st', i).regions == st.regions && Freed(st', i).end == st.end
  {
    SplitAt(st.regions, j);
    assert FreedParts(st', i) == [st.regions[j]];
  }

  /** A block with at most one hole on each side, between non-holes, merges with just those. */
  lemma MergedBack(front: seq<Region>, ps: seq<Region>, back: seq<Region>, x: nat)
    requires x < |ps| && x <= 1 && |ps| - x <= 2 && !ps[x].hole
    requires forall y :: 0 <= y < |ps| && y != x ==> ps[y].hole
    requires front != [] ==> !front[|front| - 1].hole
    requires back != [] ==> !back[0].hole
    ensures var rs := front + ps + back; var i := |front| + x;
      && rs[i] == ps[x] && MergeFrom(rs, i) == |front| && MergeTo(rs, i) == |front| + |ps|
      && Merged(rs, i) == Region(ps[0].start, ps[|ps| - 1].End() - ps[0].start, true)
      && rs[..MergeFrom(rs, i)] == front && rs[MergeTo(rs, i)..] == back
  {
    var rs, i := front + ps + back, |front| + x;
    assert rs[i] == ps[x];
    if x == 1 {
      assert rs[i - 1] == ps[0];
    } else if front != [] {
      assert rs[i - 1] == front[|front| - 1];
    }
    assert MergeFrom(rs, i) == |front|;
    if x + 1 < |ps| {
      assert rs[i + 1] == ps[x + 1];
    } else if back != [] {
      assert rs[i + 1] == back[0];
    }
    assert MergeTo(rs, i) == |front| + |ps|;
    assert rs[|front|] == ps[0] && rs[|front| + |ps| - 1] == ps[|ps| - 1];
  }

  lemma UndoneRegions(rs: seq<Region>, j: nat, need: int, align: bool)
    requires j < |rs| && rs[j].hole && PAGE <= rs[j].start
    requires Tiles(PlaceParts(rs[j], need, align), rs[j].start, rs[j].End())
    requires 0 < j ==> !rs[j - 1].hole
    requires j + 1 < |rs| ==> !rs[j + 1].hole
    ensures var rs' := PlacedRegions(rs, j, need, align); var i := j + if align then 1 else 0;
      && i < |rs'| && rs'[i] == BlockOf(rs[j], need, align)
      && Merged(rs', i) == rs[j]
      && rs'[..MergeFrom(rs', i)] == rs[..j] && rs'[MergeTo(rs', i)..] == rs[j + 1..]
  {
    var ps := PlaceParts(rs[j], need, align);
    var x := if align then 1 else 0;
    TilesExtent(ps, rs[j].start, rs[j].End());
    MergedBack(rs[..j], ps, rs[j + 1..], x);
  }

  /** At the end of the heap the guard speaks of what contraction leaves. */
  lemma ResidualRoom(st: State, i: nat)
    requires IsBlock(st, i) && FreeGuard(st, i)
    ensures var m := Merged(st.regions, i);
      m.End() == st.end ==>
        var left := st.start + ContractedLength(m.start - st.start) - m.start; left == 0 || OVERHEAD <= left
  {
    MergedAtEnd(st.regions, st.start, st.end, i);
  }

  /** What free needs to know about the state it makes. */
  lemma FreedShape(st: State, i: nat)
    requires IsBlock(st, i) && FreeGuard(st, i) && |st.index| + 1 < st.capacity
    ensures var st' := Freed(st, i);
      && Wf(st') && st' == st.(end := st'.end, regions := st'.regions, index := st'.index)
      && st'.index == FreedIndex(st.index, LeftStart(st.regions, i), RightStart(st.regions, i), Residual(st, i) == 0,
                                 Merged(st.regions, i).start, Smaller(st'.regions))
  {
    FreedWf(st, i);
  }
}
