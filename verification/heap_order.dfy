/** The order of the hole index, and what find_smallest_hole makes of it (kernel/libc/memory.c). */
module HeapOrder {
  import opened OrderedArrays
  import opened HeapModel
  import opened HeapOps
  import opened HeapLaws
  import opened HeapAlloc
  import opened HeapFree

  ghost predicate SortedIndex(st: State) {
    Sorted(st.index, Smaller(st.regions))
  }

  lemma SizeOfMember(rs: seq<Region>, s: int, e: int, r: Region)
    requires Tiles(rs, s, e) && r in rs
    ensures SizeAt(rs, r.start) == r.size
  {
    var i :| 0 <= i < |rs| && rs[i] == r;
    WhereIs(rs, s, e, i);
  }

  lemma SmallerIsStrictWeak(rs: seq<Region>)
    ensures StrictWeak(Smaller(rs))
  {
  }

  /** Holes that are still there keep their order. */
  lemma StillSorted(idx: seq<int>, rs: seq<Region>, rs': seq<Region>)
    requires Sorted(idx, Smaller(rs))
    requires forall k :: 0 <= k < |idx| ==> SizeAt(rs', idx[k]) == SizeAt(rs, idx[k])
    ensures Sorted(idx, Smaller(rs'))
  {
    forall i, j | 0 <= i < j < |idx| ensures !Smaller(rs')(idx[j], idx[i]) {
      assert !Smaller(rs)(idx[j], idx[i]);
    }
  }

  /** A hole outside the replaced regions keeps its size. */
  lemma SameSize(rs: seq<Region>, s: int, e: int, lo: nat, hi: nat, mid: seq<Region>, e': int, a: int)
    requires Tiles(rs, s, e) && lo <= hi <= |rs| && Tiles(rs[..lo] + mid + rs[hi..], s, e')
    requires Where(rs, a) < |rs| && !(lo <= Where(rs, a) < hi)
    ensures SizeAt(rs[..lo] + mid + rs[hi..], a) == SizeAt(rs, a)
  {
    var j := Where(rs, a);
    assert rs[j] in rs[..lo] || rs[j] in rs[hi..] by {
      if j < lo { assert rs[..lo][j] == rs[j]; } else { assert rs[hi..][j - hi] == rs[j]; }
    }
    SizeOfMember(rs[..lo] + mid + rs[hi..], s, e', rs[j]);
  }

  lemma RemovedKeeps(idx: seq<int>, k: nat, j: nat)
    requires k < |idx| && j < |RemovedAt(idx, k)|
    requires forall a, b :: 0 <= a < b < |idx| ==> idx[a] != idx[b]
    ensures RemovedAt(idx, k)[j] in idx && RemovedAt(idx, k)[j] != idx[k]
  {
  }

  lemma RemovedEntry(st: State, k: nat, j: nat)
    requires Wf(st) && k < |st.index| && j < |RemovedAt(st.index, k)|
    ensures RemovedAt(st.index, k)[j] in st.index && RemovedAt(st.index, k)[j] != st.index[k]
  {
    IndexExact(st);
    RemovedKeeps(st.index, k, j);
  }

  lemma PlacedKeepsSize(st: State, k: nat, need: int, j: nat)
    requires PlaceReady(st, k, need, false) && j < |RemovedAt(st.index, k)|
    ensures var a := RemovedAt(st.index, k)[j];
      SizeAt(Placed(st, k, need, false).regions, a) == SizeAt(st.regions, a)
  {
    var a := RemovedAt(st.index, k)[j];
    var i := Where(st.regions, st.index[k]);
    PlacedFacts(st, k, need, false);
    RemovedEntry(st, k, j);
    IndexedHole(st.index, st.regions, st.start, st.end, a);
    SameSize(st.regions, st.start, st.end, i, i + 1, PlaceParts(st.regions[i], need, false), st.end, a);
  }

  /** An allocation without alignment that finds a hole keeps the index sorted by size. */
  lemma PlacedSorted(st: State, k: nat, need: int)
    requires PlaceReady(st, k, need, false) && SortedIndex(st)
    ensures SortedIndex(Placed(st, k, need, false))
  {
    var st' := Placed(st, k, need, false);
    var h := HoleAt(st, k);
    var kept := RemovedAt(st.index, k);
    RemovedSorted(st.index, k, Smaller(st.regions));
    forall j | 0 <= j < |kept| ensures SizeAt(st'.regions, kept[j]) == SizeAt(st.regions, kept[j]) {
      PlacedKeepsSize(st, k, need, j);
    }
    StillSorted(kept, st.regions, st'.regions);
    SmallerIsStrictWeak(st'.regions);
    var tail := TailStarts(h, need, false);
    if tail != [] {
      InsertedSorted(kept, tail[0], Smaller(st'.regions));
    }
  }

  lemma WithoutSorted(idx: seq<int>, a: int, less: (int, int) -> bool)
    requires Sorted(idx, less)
    ensures Sorted(Without(idx, a), less)
  {
    if IndexOf(idx, a) < |idx| { RemovedSorted(idx, IndexOf(idx, a), less); }
  }

  lemma WithoutKeeps(idx: seq<int>, a: int, j: nat)
    requires j < |Without(idx, a)| && forall x, y :: 0 <= x < y < |idx| ==> idx[x] != idx[y]
    ensures Without(idx, a)[j] in idx && Without(idx, a)[j] != a
  {
  }

  /** The index once the right neighbour has left it. */
  function KeptIndex(st: State, i: nat): seq<int>
    requires i < |st.regions|
  {
    if RightStart(st.regions, i) != [] then Without(st.index, RightStart(st.regions, i)[0]) else st.index
  }

  lemma OutsideMerge(rs: seq<Region>, i: nat, w: nat)
    requires i < |rs| && w < |rs| && !rs[i].hole && rs[w].hole
    requires rs[w].start != Merged(rs, i).start && (RightStart(rs, i) != [] ==> rs[w].start != RightStart(rs, i)[0])
    ensures !(MergeFrom(rs, i) <= w < MergeTo(rs, i))
  {
  }

  lemma KeptEntry(st: State, i: nat, j: nat)
    requires IsBlock(st, i) && j < |KeptIndex(st, i)|
    ensures var a := KeptIndex(st, i)[j]; var r := RightStart(st.regions, i);
      && Where(st.regions, a) < |st.regions| && st.regions[Where(st.regions, a)].hole
      && (r != [] ==> a != r[0])
  {
    IndexExact(st);
    if RightStart(st.regions, i) != [] { WithoutKeeps(st.index, RightStart(st.regions, i)[0], j); }
    IndexedHole(st.index, st.regions, st.start, st.end, KeptIndex(st, i)[j]);
  }

  lemma FreedKeepsSize(st: State, i: nat, j: nat)
    requires IsBlock(st, i) && FreeGuard(st, i) && |st.index| + 1 < st.capacity && j < |KeptIndex(st, i)|
    ensures KeptIndex(st, i)[j] != Merged(st.regions, i).start ==>
      SizeAt(Freed(st, i).regions, KeptIndex(st, i)[j]) == SizeAt(st.regions, KeptIndex(st, i)[j])
  {
    var rs := st.regions;
    var a := KeptIndex(st, i)[j];
    KeptEntry(st, i, j);
    if a != Merged(rs, i).start {
      OutsideMerge(rs, i, Where(rs, a));
      FreedTiles(st, i);
      SameSize(rs, st.start, st.end, MergeFrom(rs, i), MergeTo(rs, i), FreedParts(st, i), Freed(st, i).end, a);
    }
  }

  lemma KeptSorted(st: State, i: nat)
    requires IsBlock(st, i) && SortedIndex(st)
    ensures Sorted(KeptIndex(st, i), Smaller(st.regions))
  {
    if RightStart(st.regions, i) != [] { WithoutSorted(st.index, RightStart(st.regions, i)[0], Smaller(st.regions)); }
  }

  lemma NotInKept(st: State, i: nat, j: nat)
    requires IsBlock(st, i) && MergeFrom(st.regions, i) == i && j < |KeptIndex(st, i)|
    ensures KeptIndex(st, i)[j] != st.regions[i].start
  {
    KeptEntry(st, i, j);
    WhereIs(st.regions, st.start, st.end, i);
  }

  /** Freeing a block whose left neighbour is not a hole keeps the index sorted by size, even when the right neighbour
      is merged and when the heap contracts. */
  lemma FreedSorted(st: State, i: nat)
    requires IsBlock(st, i) && FreeGuard(st, i) && |st.index| + 1 < st.capacity && SortedIndex(st)
    requires MergeFrom(st.regions, i) == i
    ensures SortedIndex(Freed(st, i))
  {
    var rs' := Freed(st, i).regions;
    var kept := KeptIndex(st, i);
    KeptSorted(st, i);
    forall j | 0 <= j < |kept| ensures SizeAt(rs', kept[j]) == SizeAt(st.regions, kept[j]) {
      NotInKept(st, i, j);
      FreedKeepsSize(st, i, j);
    }
    StillSorted(kept, st.regions, rs');
    SmallerIsStrictWeak(rs');
    if FreedParts(st, i) != [] {
      InsertedSorted(kept, st.regions[i].start, Smaller(rs'));
    }
  }

  lemma OneSizeChanged(idx: seq<int>, rs: seq<Region>, rs': seq<Region>, j: nat)
    requires Sorted(idx, Smaller(rs)) && j < |idx|
    requires forall k :: 0 <= k < |idx| && k != j ==> SizeAt(rs', idx[k]) == SizeAt(rs, idx[k])
    ensures Sorted(idx, Smaller(rs')) <==>
      && (0 < j ==> SizeAt(rs, idx[j - 1]) <= SizeAt(rs', idx[j]))
      && (j + 1 < |idx| ==> SizeAt(rs', idx[j]) <= SizeAt(rs, idx[j + 1]))
  {
    var less := Smaller(rs');
    if Sorted(idx, less) {
      if 0 < j { assert !less(idx[j], idx[j - 1]); }
      if j + 1 < |idx| { assert !less(idx[j + 1], idx[j]); }
    } else {
      var a, b :| 0 <= a < b < |idx| && less(idx[b], idx[a]);
      assert !Smaller(rs)(idx[b], idx[a]);
      if a == j && j + 1 < b { assert !Smaller(rs)(idx[b], idx[j + 1]); }
      if b == j && a < j - 1 { assert !Smaller(rs)(idx[j - 1], idx[a]); }
    }
  }

  /** The left neighbour's entry serves the merged hole, and no other entry does. */
  lemma KeptHole(st: State, i: nat)
    requires IsBlock(st, i) && FreeGuard(st, i) && |st.index| + 1 < st.capacity
    requires MergeFrom(st.regions, i) < i && Residual(st, i) != 0
    ensures var st', kept, at := Freed(st, i), KeptIndex(st, i), Merged(st.regions, i).start;
      && st'.index == kept && at in kept && SizeAt(st'.regions, at) == Residual(st, i)
      && forall k, l :: 0 <= k < l < |kept| ==> kept[k] != kept[l]
  {
    var st' := Freed(st, i);
    var part := FreedParts(st, i)[0];
    var n := MergeFrom(st.regions, i);
    assert st'.index == KeptIndex(st, i) && st'.regions[n] == part;
    FreedWf(st, i);
    hide Freed, KeptIndex;
    WhereIs(st'.regions, st'.start, st'.end, n);
    InIndex(st'.index, st'.regions, n);
    IndexExact(st');
  }

  /** A left merge changes a size in place. The index stays sorted exactly when the merged hole still fits between its
      neighbours in the index. */
  lemma LeftMergeSorted(st: State, i: nat)
    requires IsBlock(st, i) && FreeGuard(st, i) && |st.index| + 1 < st.capacity && SortedIndex(st)
    requires MergeFrom(st.regions, i) < i && Residual(st, i) != 0
    ensures var kept := KeptIndex(st, i); var j := IndexOf(kept, Merged(st.regions, i).start);
      && j < |kept|
      && (SortedIndex(Freed(st, i)) <==>
            && (0 < j ==> SizeAt(st.regions, kept[j - 1]) <= Residual(st, i))
            && (j + 1 < |kept| ==> Residual(st, i) <= SizeAt(st.regions, kept[j + 1])))
  {
    hide Freed, Wf, KeptIndex, Residual;
    var rs' := Freed(st, i).regions;
    var kept := KeptIndex(st, i);
    KeptHole(st, i);
    var j := IndexOf(kept, Merged(st.regions, i).start);
    KeptSorted(st, i);
    forall k | 0 <= k < |kept| && k != j ensures SizeAt(rs', kept[k]) == SizeAt(st.regions, kept[k]) {
      FreedKeepsSize(st, i, k);
    }
    OneSizeChanged(kept, st.regions, rs', j);
  }

  /** With a sorted index the search finds a smallest hole among those that can hold the request, aligned or not. */
  lemma SmallestFits(st: State, need: int, align: bool, i: nat)
    requires Wf(st) && SortedIndex(st) && i < |st.regions| && st.regions[i].hole && CanHold(st.regions[i], need, align)
    ensures var k := FirstFit(st.index, st.regions, need, align);
      && k < |st.index| && Where(st.regions, st.index[k]) < |st.regions|
      && CanHold(HoleAt(st, k), need, align) && HoleAt(st, k).size <= st.regions[i].size
  {
    SearchExact(st, need, align);
    var k := FirstFit(st.index, st.regions, need, align);
    EntryFitsExactly(st, k, need, align);
    HoleEntry(st, i);
    var j :| 0 <= j < |st.index| && Where(st.regions, st.index[j]) == i;
    if k < j { assert !Smaller(st.regions)(st.index[j], st.index[k]); }
  }
}
