/** What alloc keeps (kernel/libc/memory.c). */
module HeapLaws {
  import opened OrderedArrays
  import opened HeapModel
  import opened HeapOps

  // ---- Splicing regions ---------------------------------------------------------------------------------------

  lemma SpliceHoles(pre: seq<Region>, old_: seq<Region>, mid: seq<Region>, post: seq<Region>)
    ensures multiset(HoleStarts(pre + mid + post))
         == multiset(HoleStarts(pre + old_ + post)) - multiset(HoleStarts(old_)) + multiset(HoleStarts(mid))
  {
    HoleStartsConcat(pre + old_, post);
    HoleStartsConcat(pre, old_);
    HoleStartsConcat(pre + mid, post);
    HoleStartsConcat(pre, mid);
  }

  /** Regions whose neighbours in the rest are blocks may be replaced freely. */
  lemma SpliceNoAdjacent(pre: seq<Region>, old_: seq<Region>, mid: seq<Region>, post: seq<Region>)
    requires NoAdjacentHoles(pre + old_ + post) && NoAdjacentHoles(mid)
    requires old_ != [] && (mid == [] ==> post == [])
    requires pre != [] ==> !pre[|pre| - 1].hole
    requires post != [] ==> !post[0].hole
    ensures NoAdjacentHoles(pre + mid + post)
  {
    NoAdjacentConcat(pre + old_, post);
    NoAdjacentConcat(pre, old_);
    NoAdjacentConcat(pre + mid, post);
    NoAdjacentConcat(pre, mid);
  }

  /** The live blocks. */
  function Blocks(rs: seq<Region>): set<Region> {
    if rs == [] then {}
    else (if rs[0].hole then {} else {rs[0]}) + Blocks(rs[1..])
  }

  lemma {:induction false} BlocksConcat(a: seq<Region>, b: seq<Region>)
    ensures Blocks(a + b) == Blocks(a) + Blocks(b)
  {
    if a == [] {
      assert a + b == b;
    } else {
      assert (a + b)[1..] == a[1..] + b;
      BlocksConcat(a[1..], b);
    }
  }

  lemma {:induction false} BlockMember(rs: seq<Region>, r: Region)
    ensures r in Blocks(rs) <==> r in rs && !r.hole
  {
    if rs != [] {
      assert rs == [rs[0]] + rs[1..];
      BlockMember(rs[1..], r);
    }
  }

  /** No two regions are the same value. */
  lemma RegionOnce(rs: seq<Region>, s: int, e: int, i: nat)
    requires Tiles(rs, s, e) && i < |rs|
    ensures rs[i] !in rs[..i] && rs[i] !in rs[i + 1..]
  {
    forall j | 0 <= j < |rs| && j != i ensures rs[j] != rs[i] {
      TilesAt(rs, s, e, if j < i then j else i);
      TilesOrdered(rs, s, e, if j < i then j else i, if j < i then i else j);
    }
  }

  // ---- alloc keeps the heap well formed -----------------------------------------------------------------------

  /** The hole that index position k leads to. */
  function HoleAt(st: State, k: nat): Region
    requires k < |st.index| && Where(st.regions, st.index[k]) < |st.regions|
  {
    st.regions[Where(st.regions, st.index[k])]
  }

  ghost predicate PlaceReady(st: State, k: nat, need: int, align: bool) {
    && Wf(st) && k < |st.index| && OVERHEAD <= need && |st.index| + 1 < st.capacity
    && Fits(st.regions, st.index[k], need, align)
    && Where(st.regions, st.index[k]) < |st.regions|
    && PlaceGuard(HoleAt(st, k), need, align)
  }

  lemma PlaceHole(st: State, k: nat, need: int, align: bool)
    requires PlaceReady(st, k, need, align)
    ensures var i := Where(st.regions, st.index[k]); var h := st.regions[i];
      && h.hole && PAGE <= h.start && OVERHEAD <= h.size && h.start == st.index[k]
      && need <= h.size - (if align then AlignOffset(h.start) else 0)
      && Tiles(PlaceParts(h, need, align), h.start, h.End())
      && (0 < i ==> !st.regions[i - 1].hole)
      && (i + 1 < |st.regions| ==> !st.regions[i + 1].hole)
      && st.start <= h.start && h.End() <= st.end
  {
    var i := Where(st.regions, st.index[k]);
    IndexedHole(st.index, st.regions, st.start, st.end, st.index[k]);
    TilesAt(st.regions, st.start, st.end, i);
    PlacePartsTile(st.regions[i], need, align);
    if 0 < i { NotAdjacent(st.regions, i - 1); }
    if i + 1 < |st.regions| { NotAdjacent(st.regions, i); }
  }

  lemma PartsHoles(h: Region, need: int, align: bool)
    ensures HoleStarts(PlaceParts(h, need, align))
         == (if KeepsFront(h, align) then [h.start] else []) + TailStarts(h, need, align)
    ensures NoAdjacentHoles(PlaceParts(h, need, align))
  {
    var at, tail := BlockStart(h, align), TailSize(h, need, align);
    var front := if KeepsFront(h, align) then [Region(h.start, at - h.start, true)] else [];
    var block := [Region(at, Taken(h, need), false)];
    var back := if tail != 0 then [Region(at + Taken(h, need), tail, true)] else [];
    assert PlaceParts(h, need, align) == front + block + back;
    HoleStartsConcat(front + block, back);
    HoleStartsConcat(front, block);
    NoAdjacentConcat(front + block, back);
    NoAdjacentConcat(front, block);
  }

  lemma EntryBounds(st: State, k: nat)
    requires Wf(st) && k < |st.index|
    ensures st.start <= st.index[k] < st.end
  {
    IndexedHole(st.index, st.regions, st.start, st.end, st.index[k]);
    TilesAt(st.regions, st.start, st.end, Where(st.regions, st.index[k]));
  }

  lemma HighestEntryBounds(st: State)
    requires Wf(st) && st.index != []
    ensures st.start <= Highest(st.index) < st.end
  {
    var k :| 0 <= k < |st.index| && st.index[k] == Highest(st.index);
    EntryBounds(st, k);
  }

  /** The index after a cut, as elements. */
  lemma ElementsJoin(m: multiset<int>, a: seq<int>, b: seq<int>)
    ensures m + multiset(a) + multiset(b) == m + multiset(a + b)
  {
  }

  lemma KeptElements(idx: seq<int>, k: nat, keep: bool)
    requires k < |idx|
    ensures var kept := if keep then idx else RemovedAt(idx, k);
      && multiset(kept) == multiset(idx) - multiset([idx[k]]) + multiset(if keep then [idx[k]] else [])
      && |kept| <= |idx|
  {
    RemovedElements(idx, k);
    assert idx[k] in multiset(idx);
  }

  lemma PlacedElements(idx: seq<int>, k: nat, keep: bool, tail: seq<int>, less: (int, int) -> bool)
    requires k < |idx| && |tail| <= 1
    ensures multiset(PlacedIndex(idx, k, keep, tail, less))
         == multiset(idx) - multiset([idx[k]]) + multiset((if keep then [idx[k]] else []) + tail)
    ensures |PlacedIndex(idx, k, keep, tail, less)| <= |idx| + 1
  {
    hide RemovedAt, Inserted;
    KeptElements(idx, k, keep);
    var stays := if keep then [idx[k]] else [];
    if tail == [] {
      assert stays + tail == stays;
    } else {
      assert tail == [tail[0]];
      InsertedElements(if keep then idx else RemovedAt(idx, k), tail[0], less);
      ElementsJoin(multiset(idx) - multiset([idx[k]]), stays, tail);
    }
  }

  lemma PlacedLists(rs: seq<Region>, idx: seq<int>, i: nat, need: int, align: bool, idx': seq<int>)
    requires Lists(idx, rs) && i < |rs| && rs[i].hole
    requires multiset(idx') ==
      multiset(idx) - multiset([rs[i].start]) + multiset(HoleStarts(PlaceParts(rs[i], need, align)))
    ensures Lists(idx', PlacedRegions(rs, i, need, align))
  {
    SplitAt(rs, i);
    assert HoleStarts([rs[i]]) == [rs[i].start];
    SpliceHoles(rs[..i], [rs[i]], PlaceParts(rs[i], need, align), rs[i + 1..]);
  }

  lemma PlacedHoles(st: State, k: nat, need: int, align: bool)
    requires PlaceReady(st, k, need, align)
    ensures Lists(Placed(st, k, need, align).index, Placed(st, k, need, align).regions)
    ensures |Placed(st, k, need, align).index| < st.capacity
  {
    PlaceHole(st, k, need, align);
    var i := Where(st.regions, st.index[k]);
    var h := st.regions[i];
    var less := Smaller(PlacedRegions(st.regions, i, need, align));
    PartsHoles(h, need, align);
    PlacedElements(st.index, k, KeepsFront(h, align), TailStarts(h, need, align), less);
    PlacedLists(st.regions, st.index, i, need, align,
      PlacedIndex(st.index, k, KeepsFront(h, align), TailStarts(h, need, align), less));
  }

  lemma SplitAt(rs: seq<Region>, i: nat)
    requires i < |rs|
    ensures rs == rs[..i] + [rs[i]] + rs[i + 1..]
  {
  }

  lemma PlacedTiles(rs: seq<Region>, s: int, e: int, i: nat, ps: seq<Region>)
    requires Tiles(rs, s, e) && i < |rs| && Tiles(ps, rs[i].start, rs[i].End())
    ensures Tiles(rs[..i] + ps + rs[i + 1..], s, e)
  {
    TilesAt(rs, s, e, i);
    TilesConcat(rs[..i], ps, s, rs[i].start, rs[i].End());
    TilesConcat(rs[..i] + ps, rs[i + 1..], s, rs[i].End(), e);
  }

  lemma PlacedWf(st: State, k: nat, need: int, align: bool)
    requires PlaceReady(st, k, need, align)
    ensures Wf(Placed(st, k, need, align))
  {
    PlaceHole(st, k, need, align);
    var i := Where(st.regions, st.index[k]);
    var h := HoleAt(st, k);
    var ps := PlaceParts(h, need, align);
    PlacedTiles(st.regions, st.start, st.end, i, ps);
    SplitAt(st.regions, i);
    PartsHoles(h, need, align);
    SpliceNoAdjacent(st.regions[..i], [h], ps, st.regions[i + 1..]);
    PlacedHoles(st, k, need, align);
  }

  /** What the cut needs to know about its hole, and about the state it makes. */
  lemma PlacedFacts(st: State, k: nat, need: int, align: bool)
    requires PlaceReady(st, k, need, align)
    ensures var i := Where(st.regions, st.index[k]); var h := st.regions[i]; var st' := Placed(st, k, need, align);
      && h == Region(st.index[k], SizeAt(st.regions, st.index[k]), true)
      && PAGE <= h.start && OVERHEAD <= h.size && h.End() <= st.end
      && need <= h.size - (if align then AlignOffset(h.start) else 0)
      && Wf(st') && st' == st.(regions := st'.regions, index := st'.index)
      && st'.regions == st.regions[..i] + PlaceParts(h, need, align) + st.regions[i + 1..]
      && st'.index == PlacedIndex(st.index, k, KeepsFront(h, align), TailStarts(h, need, align), Smaller(st'.regions))
  {
    PlaceHole(st, k, need, align);
    PlacedWf(st, k, need, align);
  }

  /** The block that is cut out. */
  function BlockOf(h: Region, need: int, align: bool): Region {
    Region(BlockStart(h, align), Taken(h, need), false)
  }

  lemma PartsBlocks(h: Region, need: int, align: bool)
    ensures Blocks(PlaceParts(h, need, align)) == {BlockOf(h, need, align)}
  {
    var at, tail := BlockStart(h, align), TailSize(h, need, align);
    var front := if KeepsFront(h, align) then [Region(h.start, at - h.start, true)] else [];
    var back := if tail != 0 then [Region(at + Taken(h, need), tail, true)] else [];
    assert PlaceParts(h, need, align) == front + [BlockOf(h, need, align)] + back;
    BlocksConcat(front + [BlockOf(h, need, align)], back);
    BlocksConcat(front, [BlockOf(h, need, align)]);
  }

  lemma BlockInHole(h: Region, need: int, align: bool)
    requires PAGE <= h.start && OVERHEAD <= need && OVERHEAD <= h.size
    requires need <= h.size - (if align then AlignOffset(h.start) else 0)
    requires PlaceGuard(h, need, align)
    ensures var b := BlockOf(h, need, align);
      && h.start <= b.start && b.End() <= h.End() && need <= b.size < need + OVERHEAD
      && (align ==> (b.start + HEADER) % PAGE == 0)
  {
    if align {
      assert BlockOf(h, need, align).start + HEADER == h.start - h.start % PAGE + PAGE;
    }
  }

  /** Cutting a block adds exactly that block to the live ones. It has the size asked for, unless less than the size of
      two tags would be left of the hole; then the whole hole becomes the block. */
  lemma PlacedBlocks(st: State, k: nat, need: int, align: bool)
    requires PlaceReady(st, k, need, align)
    ensures var b := BlockOf(HoleAt(st, k), need, align);
      && Blocks(Placed(st, k, need, align).regions) == Blocks(st.regions) + {b}
      && b !in Blocks(st.regions)
      && need <= b.size < need + OVERHEAD && st.start <= b.start && b.End() <= st.end
      && (need < b.size ==> b == HoleAt(st, k).(hole := false))
      && (align ==> (b.start + HEADER) % PAGE == 0)
  {
    PlaceHole(st, k, need, align);
    var i := Where(st.regions, st.index[k]);
    var h := HoleAt(st, k);
    var b := BlockOf(h, need, align);
    var ps := PlaceParts(h, need, align);
    BlockInHole(h, need, align);
    PlacedIn(st.regions, i, need, align);
    NotInside(st.regions, st.start, st.end, i, b);
    BlockMember(st.regions, b);
  }

  lemma PlacedIn(rs: seq<Region>, i: nat, need: int, align: bool)
    requires i < |rs| && rs[i].hole
    ensures Blocks(PlacedRegions(rs, i, need, align)) == Blocks(rs) + {BlockOf(rs[i], need, align)}
  {
    PartsBlocks(rs[i], need, align);
    SplitAt(rs, i);
    assert Blocks([rs[i]]) == {};
    BlocksSplice(rs[..i], [rs[i]], PlaceParts(rs[i], need, align), rs[i + 1..]);
  }

  lemma BlocksSplice(pre: seq<Region>, old_: seq<Region>, mid: seq<Region>, post: seq<Region>)
    requires Blocks(old_) !! Blocks(pre) && Blocks(old_) !! Blocks(post)
    ensures Blocks(pre + mid + post) == Blocks(pre + old_ + post) - Blocks(old_) + Blocks(mid)
  {
    BlocksConcat(pre + old_, post);
    BlocksConcat(pre, old_);
    BlocksConcat(pre + mid, post);
    BlocksConcat(pre, mid);
  }

  /** A nonempty block inside a hole is not one of the regions. */
  lemma NotInside(rs: seq<Region>, s: int, e: int, i: nat, b: Region)
    requires Tiles(rs, s, e) && i < |rs| && rs[i].hole && !b.hole
    requires rs[i].start <= b.start && b.End() <= rs[i].End() && 0 < b.size
    ensures b !in rs
  {
    if b in rs {
      var j :| 0 <= j < |rs| && rs[j] == b;
      if j < i { TilesOrdered(rs, s, e, j, i); }
      if i < j { TilesOrdered(rs, s, e, i, j); }
    }
  }

  // ---- Growing keeps the heap well formed, and ends the search ---------------------------------------------------

  lemma NoHoles(idx: seq<int>, rs: seq<Region>)
    requires Lists(idx, rs) && idx == []
    ensures HoleStarts(rs) == []
    ensures rs != [] ==> !rs[|rs| - 1].hole
  {
    assert |HoleStarts(rs)| == |multiset(HoleStarts(rs))|;
    if rs != [] && rs[|rs| - 1].hole { InIndex(idx, rs, |rs| - 1); }
  }

  lemma AppendedHole(rs: seq<Region>, a: int, growth: int)
    requires NoAdjacentHoles(rs) && HoleStarts(rs) == [] && (rs != [] ==> !rs[|rs| - 1].hole)
    ensures var rs' := rs + [Region(a, growth, true)];
      NoAdjacentHoles(rs') && Lists([a], rs') && Blocks(rs') == Blocks(rs)
  {
    var h := [Region(a, growth, true)];
    HoleStartsConcat(rs, h);
    NoAdjacentConcat(rs, h);
    BlocksConcat(rs, h);
    assert HoleStarts(rs + h) == [a];
  }

  lemma EnlargedHole(rs: seq<Region>, idx: seq<int>, growth: int)
    requires NoAdjacentHoles(rs) && Lists(idx, rs) && EndsInHole(rs)
    ensures var rs' := Enlarged(rs, |rs| - 1, growth);
      NoAdjacentHoles(rs') && Lists(idx, rs') && Blocks(rs') == Blocks(rs)
  {
    var n := |rs| - 1;
    var r := rs[n].(size := rs[n].size + growth);
    var pre := rs[..n];
    assert rs == pre + [rs[n]] && Enlarged(rs, n, growth) == pre + [r];
    HoleStartsConcat(pre, [rs[n]]);
    HoleStartsConcat(pre, [r]);
    NoAdjacentConcat(pre, [rs[n]]);
    NoAdjacentConcat(pre, [r]);
    BlocksConcat(pre, [rs[n]]);
    BlocksConcat(pre, [r]);
    assert HoleStarts([rs[n]]) == [r.start] == HoleStarts([r]);
  }

  lemma GrownParts(rs: seq<Region>, idx: seq<int>, s: int, e: int, growth: int)
    requires Tiles(rs, s, e) && Lists(idx, rs) && NoAdjacentHoles(rs) && OVERHEAD <= growth
    requires idx == [] || EndsInHole(rs)
    ensures var rs' := GrownRegions(rs, idx, e, growth);
      && Tiles(rs', s, e + growth) && NoAdjacentHoles(rs')
      && Lists(if idx == [] then [e] else idx, rs')
      && Blocks(rs') == Blocks(rs)
      && EndsInHole(rs') && rs'[|rs'| - 1].size == growth + (if idx == [] then 0 else rs[|rs| - 1].size)
  {
    GrowTiles(rs, idx, s, e, growth);
    if idx == [] {
      NoHoles(idx, rs);
      AppendedHole(rs, e, growth);
    } else {
      HighestIsLast(rs, idx, s, e);
      EnlargedHole(rs, idx, growth);
    }
  }

  lemma Growth(st: State, need: int)
    requires st.start % PAGE == 0 && st.end % PAGE == 0 && 0 < need
    ensures (st.start + NewLength(st, need)) % PAGE == 0
    ensures st.Length() + need <= NewLength(st, need) && st.Length() + PAGE <= NewLength(st, need)
  {
    hide RoundUp;
    PageSums(st.end, st.start);
    PageSums(st.start, NewLength(st, need));
    PageApart(st.Length(), NewLength(st, need));
  }

  lemma GrowthRoom(st: State, need: int)
    requires st.start % PAGE == 0 && st.end % PAGE == 0 && 0 < need
    ensures OVERHEAD <= NewLength(st, need) - st.Length()
  {
    Growth(st, need);
  }

  lemma GrownWf(st: State, need: int)
    requires Wf(st) && GrowGuard(st, need) && 0 < need
    ensures Wf(Grown(st, need))
    ensures Blocks(Grown(st, need).regions) == Blocks(st.regions)
    ensures need <= Grown(st, need).end - st.end && PAGE <= Grown(st, need).end - st.end
  {
    hide NewLength, TablesPresent, Tiles, Lists, NoAdjacentHoles, GrownRegions, EndsInHole;
    Growth(st, need);
    var growth := NewLength(st, need) - st.Length();
    GrownParts(st.regions, st.index, st.start, st.end, growth);
    assert st.end + growth == st.start + NewLength(st, need);
  }

  /** Putting the pieces of a growth together. */
  lemma GrowDone(st: State, need: int, end: int, rs: seq<Region>, idx: seq<int>)
    requires Wf(st) && GrowGuard(st, need) && 0 < need
    requires end == st.start + RoundUp(st.end - st.start + need)
    requires rs == GrownRegions(st.regions, st.index, st.end, end - st.end)
    requires idx == GrownIndex(st.index, st.end)
    ensures st.(end := end, regions := rs, index := idx) == Grown(st, need) && Wf(Grown(st, need))
  {
    hide Wf, GrowGuard, RoundUp, GrownRegions;
    GrownWf(st, need);
  }

  lemma GrowReady(st: State, need: int, end: int)
    requires Wf(st) && GrowGuard(st, need) && 0 < need
    requires end == st.start + RoundUp(st.end - st.start + need)
    ensures OVERHEAD <= end - st.end && end <= st.max
  {
    Growth(st, need);
  }

  function LastHole(rs: seq<Region>): int {
    if EndsInHole(rs) then rs[|rs| - 1].size else 0
  }

  /** How much bigger the last hole must get before the request certainly fits. */
  function Shortfall(rs: seq<Region>, need: int, align: bool): nat {
    var want := need + if align then PAGE else 0;
    if want <= LastHole(rs) then 0 else want - LastHole(rs)
  }

  lemma NoFitShortfall(st: State, need: int, align: bool)
    requires Wf(st) && FirstFit(st.index, st.regions, need, align) == |st.index| && 0 < need
    ensures LastHole(st.regions) < need + if align then PAGE else 0
  {
    if EndsInHole(st.regions) {
      var n := |st.regions| - 1;
      InIndex(st.index, st.regions, n);
      var k :| 0 <= k < |st.index| && st.index[k] == st.regions[n].start;
      WhereIs(st.regions, st.start, st.end, n);
      NoFitBefore(st.index, st.regions, need, align, k);
    }
  }

  lemma LastHoleGrows(rs: seq<Region>, idx: seq<int>, s: int, e: int, growth: int)
    requires Tiles(rs, s, e) && Lists(idx, rs) && NoAdjacentHoles(rs) && OVERHEAD <= growth
    requires idx == [] || EndsInHole(rs)
    ensures LastHole(GrownRegions(rs, idx, e, growth)) == LastHole(rs) + growth
  {
    if idx == [] { NoHoles(idx, rs); }
    GrownParts(rs, idx, s, e, growth);
  }

  lemma GrownLastHole(st: State, need: int)
    requires Wf(st) && GrowGuard(st, need) && 0 < need
    ensures LastHole(Grown(st, need).regions) == LastHole(st.regions) + (Grown(st, need).end - st.end)
  {
    hide TablesPresent, NewLength, GrownRegions;
    GrowthRoom(st, need);
    LastHoleGrows(st.regions, st.index, st.start, st.end, NewLength(st, need) - st.Length());
  }

  /** Everything one round of growing guarantees. */
  lemma GrownStep(st: State, need: int, align: bool)
    requires Wf(st) && GrowGuard(st, need) && 0 < need
    requires FirstFit(st.index, st.regions, need, align) == |st.index|
    ensures Wf(Grown(st, need)) && Blocks(Grown(st, need).regions) == Blocks(st.regions)
    ensures LastHole(st.regions) < need + if align then PAGE else 0
    ensures LastHole(Grown(st, need).regions) >= LastHole(st.regions) + need
    ensures LastHole(Grown(st, need).regions) >= LastHole(st.regions) + PAGE
    ensures Shortfall(Grown(st, need).regions, need, align) < Shortfall(st.regions, need, align)
    ensures st.end <= Grown(st, need).end
  {
    GrownWf(st, need);
    GrownLastHole(st, need);
    NoFitShortfall(st, need, align);
  }
}
