/** What the methods of the heap hand on to each other, as facts about states and memories (kernel/libc/memory.c). */
module HeapSteps {
  import opened Bytes
  import opened HeapModel
  import opened HeapOps
  import opened HeapLaws
  import opened HeapFree
  import opened HeapMemory
  import opened HeapMemoryLaws

  /** Page-aligned addresses advance one page number at a time. */
  lemma PageStep(base: int, i: int)
    requires base % PAGE == 0 && i % PAGE == 0
    ensures (base + i) % PAGE == 0 && (base + i) / PAGE * PAGE == base + i
    ensures (i + PAGE) % PAGE == 0 && (i - PAGE) % PAGE == 0
    ensures forall n :: base + i <= n * PAGE < base + i + PAGE ==> n == (base + i) / PAGE
  {
  }

  lemma PagePresent(tables: set<nat>, lo: int, hi: int, a: int)
    requires TablesPresent(tables, lo, hi) && lo <= a < hi && a % PAGE == 0 && 0 <= a
    ensures Frames.HasTable(tables, a / PAGE)
  {
    assert a / PAGE * PAGE == a;
  }

  /** A heap that is one hole. */
  lemma FreshHeap(start: int, end: int, max: int, capacity: nat, tables: set<nat>)
    requires PAGE <= start && start % PAGE == 0 && end % PAGE == 0
    requires start + HEAP_MIN_SIZE <= end <= max && 2 <= capacity
    ensures Wf(State(start, end, max, capacity, tables, [Region(start, end - start, true)], [start]))
  {
    TilesOne(start, end - start);
    assert HoleStarts([Region(start, end - start, true)]) == [start];
  }

  lemma Neighbours(rs: seq<Region>, s: int, e: int, i: nat)
    requires Tiles(rs, s, e) && i < |rs|
    ensures s <= rs[i].start && rs[i].End() <= e && OVERHEAD <= rs[i].size
    ensures rs[i].start == s <==> i == 0
    ensures rs[i].End() == e <==> i + 1 == |rs|
    ensures 0 < i ==> rs[i - 1].End() == rs[i].start && OVERHEAD <= rs[i - 1].size && s <= rs[i - 1].start
    ensures i + 1 < |rs| ==> rs[i].End() == rs[i + 1].start && OVERHEAD <= rs[i + 1].size && rs[i + 1].End() <= e
  {
    TilesAt(rs, s, e, i);
    TilesExtent(rs[..i], s, rs[i].start);
    TilesExtent(rs[i + 1..], rs[i].End(), e);
    if 0 < i {
      TilesOrdered(rs, s, e, i - 1, i);
      TilesAt(rs, s, e, i - 1);
    }
    if i + 1 < |rs| {
      TilesOrdered(rs, s, e, i, i + 1);
      TilesAt(rs, s, e, i + 1);
    }
  }

  /** The tags of a neighbour survive a write that stays clear of it. */
  lemma NeighbourTag(m: seq<byte>, n: seq<byte>, x: seq<Region>, lo: int, hi: int)
    requires |x| <= 1 && OnlyWithin(m, n, lo, hi)
    requires x != [] ==> RegionTag(m, x[0]) && OVERHEAD <= x[0].size && (x[0].End() <= lo || hi <= x[0].start)
    ensures x != [] ==> RegionTag(n, x[0])
  {
    if x != [] { TagFrame(m, n, x[0]); }
  }

  lemma UnifyReady(m: seq<byte>, rs: seq<Region>, s: int, e: int, i: nat, l: seq<Region>, r: seq<Region>)
    requires HeapTagged(m, rs) && Tiles(rs, s, e) && i < |rs| && !rs[i].hole
    requires l == (if 0 < i then [rs[i - 1]] else []) && r == (if i + 1 < |rs| then [rs[i + 1]] else [])
    ensures RegionTag(m, rs[i]) && OVERHEAD <= rs[i].size && s <= rs[i].start && rs[i].End() <= e
    ensures (rs[i].start == s <==> l == []) && (rs[i].End() == e <==> r == [])
    ensures l != [] ==> RegionTag(m, l[0]) && l[0].End() == rs[i].start && OVERHEAD <= l[0].size && s <= l[0].start
    ensures r != [] ==> RegionTag(m, r[0]) && r[0].start == rs[i].End() && OVERHEAD <= r[0].size && r[0].End() <= e
  {
    BlockTagged(m, rs, i);
    Neighbours(rs, s, e, i);
  }

  lemma UnifyIsMerge(rs: seq<Region>, i: nat, at: int, size: int, left: seq<int>, right: seq<int>, s: int, e: int)
    requires Tiles(rs, s, e) && i < |rs|
    requires left == if 0 < i && rs[i - 1].hole then [rs[i - 1].start] else []
    requires right == if i + 1 < |rs| && rs[i + 1].hole then [rs[i + 1].start] else []
    requires at == if left != [] then rs[i - 1].start else rs[i].start
    requires at + size == if right != [] then rs[i + 1].End() else rs[i].End()
    ensures Region(at, size, true) == Merged(rs, i)
    ensures left == LeftStart(rs, i) && right == RightStart(rs, i)
  {
  }

  lemma FreedKept(m: seq<byte>, n: seq<byte>, rs: seq<Region>, s: int, e: int, i: nat)
    requires Tiles(rs, s, e) && i < |rs| && !rs[i].hole
    requires OnlyWithin(m, n, Merged(rs, i).start, Merged(rs, i).End())
    ensures KeepsBlocks(m, n, Blocks(rs) - {rs[i]})
  {
    var lo, hi := MergeFrom(rs, i), MergeTo(rs, i);
    forall b | b in Blocks(rs) ensures b in rs && !b.hole {
      BlockMember(rs, b);
    }
    OthersKept(m, n, rs, s, e, lo, hi, Blocks(rs) - {rs[i]});
  }

  lemma FreedTagged(m: seq<byte>, n: seq<byte>, rs: seq<Region>, s: int, e: int, i: nat, parts: seq<Region>)
    requires Tiles(rs, s, e) && i < |rs| && !rs[i].hole && HeapTagged(m, rs)
    requires OnlyWithin(m, n, Merged(rs, i).start, Merged(rs, i).End()) && |parts| <= 1
    requires parts != [] ==> RegionTag(n, parts[0])
    ensures HeapTagged(n, rs[..MergeFrom(rs, i)] + parts + rs[MergeTo(rs, i)..])
  {
    MergedExtent(rs, s, e, i);
    assert Tagged(n, parts) by { if parts != [] { assert parts[1..] == []; } }
    MergedTagged(m, n, rs, s, e, MergeFrom(rs, i), MergeTo(rs, i), parts, Merged(rs, i).start, Merged(rs, i).End());
  }

  /** Contraction leaves nothing of a hole at the given address, or enough for its tags. */
  predicate RoomAfterContraction(base: int, at: int) {
    var left := base + ContractedLength(at - base) - at;
    left == 0 || OVERHEAD <= left
  }

  /** A hole in a heap [start, oldEnd) after contraction: the new end, and the size of the hole that is left. */
  predicate ShrunkTo(start: int, oldEnd: int, at: int, size: int, total: int, end: int) {
    && end == (if at + size == oldEnd then start + ContractedLength(at - start) else oldEnd)
    && total == (if at + size == oldEnd then size - (oldEnd - end) else size)
  }

  lemma ShrinkReady(st: State, i: nat, at: int, size: int)
    requires IsBlock(st, i) && FreeGuard(st, i) && |st.index| + 1 < st.capacity
    requires Region(at, size, true) == Merged(st.regions, i)
    ensures st.start <= at && at + size <= st.end && OVERHEAD <= size
    ensures at + size == st.end ==> RoomAfterContraction(st.start, at)
  {
    MergedExtent(st.regions, st.start, st.end, i);
    ResidualRoom(st, i);
  }

  lemma ShrunkLength(st: State, i: nat, at: int, size: int, total: int, end: int)
    requires IsBlock(st, i) && Region(at, size, true) == Merged(st.regions, i)
    requires ShrunkTo(st.start, st.end, at, size, total, end)
    ensures LengthAfterFree(st, i) == end - st.start && total == size - (st.end - end)
  {
    MergedAtEnd(st.regions, st.start, st.end, i);
  }

  lemma ShrinkDone(st: State, i: nat, at: int, size: int, total: int, end: int)
    requires IsBlock(st, i) && Region(at, size, true) == Merged(st.regions, i)
    requires ShrunkTo(st.start, st.end, at, size, total, end)
    ensures end == Freed(st, i).end && total == Residual(st, i)
    ensures FreedParts(st, i) == if total == 0 then [] else [Region(at, total, true)]
  {
    ShrunkLength(st, i, at, size, total, end);
  }

  lemma FreeTagsDone(st: State, i: nat, at: int, size: int, total: int, end: int, m: seq<byte>, m1: seq<byte>,
                     n: seq<byte>)
    requires IsBlock(st, i) && FreeGuard(st, i) && |st.index| + 1 < st.capacity && HeapTagged(m, st.regions)
    requires Region(at, size, true) == Merged(st.regions, i)
    requires ShrunkTo(st.start, st.end, at, size, total, end)
    requires OnlyWithin(m, m1, at, at + size) && OnlyWithin(m1, n, at, at + size)
    requires total != 0 ==> RegionTag(n, Region(at, total, true))
    ensures end == Freed(st, i).end && (total == 0 <==> Residual(st, i) == 0)
    ensures HeapTagged(n, Freed(st, i).regions)
    ensures KeepsBlocks(m, n, Blocks(st.regions) - {st.regions[i]})
  {
    ShrinkDone(st, i, at, size, total, end);
    assert OnlyWithin(m, n, at, at + size);
    FreedTagged(m, n, st.regions, st.start, st.end, i, FreedParts(st, i));
    FreedKept(m, n, st.regions, st.start, st.end, i);
  }

  lemma ContractRoom(base: int, oldSize: int, newSize: int)
    requires base % PAGE == 0 && (base + oldSize) % PAGE == 0 && 0 <= newSize < oldSize && HEAP_MIN_SIZE <= oldSize
    ensures oldSize % PAGE == 0 && (oldSize - PAGE) % PAGE == 0
    ensures ContractedLength(newSize) % PAGE == 0 && ContractedLength(newSize) <= oldSize
    ensures oldSize - PAGE < ContractedLength(newSize) ==> ContractedLength(newSize) == oldSize
  {
    hide RoundUp;
    PageSums(base + oldSize, base);
    PageSums(oldSize, PAGE);
    if oldSize < RoundUp(newSize) { PageApart(oldSize, RoundUp(newSize)); }
    if ContractedLength(newSize) < oldSize { PageApart(ContractedLength(newSize), oldSize); }
  }
}
