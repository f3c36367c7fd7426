/** alloc, expand, contract and free (kernel/libc/memory.c) as functions on heap states. */
module HeapOps {
  import opened OrderedArrays
  import opened HeapModel
  import Frames

  /** The following page boundary, as the comments of expand and contract promise. */
  function RoundUp(n: int): (r: int)
    ensures r % PAGE == 0 && n <= r < n + PAGE
  {
    if n % PAGE == 0 then n else n - n % PAGE + PAGE
  }

  lemma PageSums(a: int, b: int)
    requires a % PAGE == 0 && b % PAGE == 0
    ensures (a + b) % PAGE == 0 && (a - b) % PAGE == 0
  {
    var p, q := a / PAGE, b / PAGE;
    assert a == p * PAGE && b == q * PAGE;
    assert a + b == (p + q) * PAGE && a - b == (p - q) * PAGE;
  }

  /** Between two page boundaries there is a page. */
  lemma PageApart(a: int, b: int)
    requires a % PAGE == 0 && b % PAGE == 0 && a < b
    ensures a + PAGE <= b
  {
    assert a == a / PAGE * PAGE && b == b / PAGE * PAGE;
  }

  lemma PageBehind(a: int, n: int)
    requires a % PAGE == 0 && a < n * PAGE
    ensures a + PAGE <= n * PAGE
  {
  }

  // ---- find_smallest_hole -------------------------------------------------------------------------------------

  /** Bytes skipped in front of the payload of a hole at a, when it has to be page aligned. */
  function AlignOffset(a: int): int {
    if a + HEADER >= PAGE then PAGE - (a + HEADER) % PAGE else 0
  }

  predicate Fits(rs: seq<Region>, a: int, need: int, align: bool) {
    need <= SizeAt(rs, a) - (if align then AlignOffset(a) else 0)
  }

  /** A payload address for an aligned request in a hole at a: a page boundary behind the hole's header. */
  predicate AlignedPayload(a: int, p: int) {
    p % PAGE == 0 && a + HEADER < p
  }

  /** A block of the given size, header included, has room in hole h, with its payload on a page boundary behind the
      hole's header if it has to be aligned. */
  ghost predicate CanHold(h: Region, need: int, align: bool) {
    if align then exists p :: AlignedPayload(h.start, p) && p - HEADER + need <= h.End()
    else need <= h.size
  }

  /** The offset leads to the first such address. */
  lemma AlignOffsetIs(a: int)
    requires PAGE <= a
    ensures AlignedPayload(a, a + HEADER + AlignOffset(a))
    ensures forall p :: AlignedPayload(a, p) ==> a + HEADER + AlignOffset(a) <= p
  {
    forall p | AlignedPayload(a, p) ensures a + HEADER + AlignOffset(a) <= p {
      if p < a + HEADER + AlignOffset(a) { PageApart(p, a + HEADER + AlignOffset(a)); }
    }
  }

  /** The test of the search passes exactly for holes that can hold the request. */
  lemma FitsExactly(h: Region, need: int, align: bool)
    requires PAGE <= h.start
    ensures CanHold(h, need, align) <==> need <= h.size - (if align then AlignOffset(h.start) else 0)
  {
    AlignOffsetIs(h.start);
    if align && need <= h.size - AlignOffset(h.start) {
      assert AlignedPayload(h.start, h.start + HEADER + AlignOffset(h.start));
    }
  }

  /** Where the cut will leave room for the tags of the front hole, that is where the cut puts the block. */
  lemma CutFits(h: Region, need: int)
    requires PAGE <= h.start && h.start % PAGE <= 0xFE0
    ensures CanHold(h, need, true) <==> BlockStart(h, true) + need <= h.End()
  {
    FitsExactly(h, need, true);
  }

  /** First index position whose hole fits, |idx| if none does. */
  function FirstFit(idx: seq<int>, rs: seq<Region>, need: int, align: bool): (k: nat)
    ensures k <= |idx|
    ensures k < |idx| ==> Fits(rs, idx[k], need, align)
  {
    if idx == [] then 0
    else if Fits(rs, idx[0], need, align) then 0
    else 1 + FirstFit(idx[1..], rs, need, align)
  }

  lemma {:induction false} NoFitBefore(idx: seq<int>, rs: seq<Region>, need: int, align: bool, j: nat)
    requires j < FirstFit(idx, rs, need, align)
    ensures !Fits(rs, idx[j], need, align)
  {
    if 0 < j {
      NoFitBefore(idx[1..], rs, need, align, j - 1);
    }
  }

  lemma FirstFitStep(idx: seq<int>, pos: nat, rs: seq<Region>, need: int, align: bool)
    requires pos < |idx|
    ensures FirstFit(idx[pos..], rs, need, align)
         == if Fits(rs, idx[pos], need, align) then 0 else 1 + FirstFit(idx[pos + 1..], rs, need, align)
  {
    assert idx[pos..][1..] == idx[pos + 1..];
  }

  // ---- alloc: cutting a block out of a hole -------------------------------------------------------------------

  function FrontSize(a: int): int {
    PAGE - a % PAGE - HEADER
  }

  function Taken(h: Region, need: int): int {
    if h.size - need < OVERHEAD then h.size else need
  }

  function BlockStart(h: Region, align: bool): int {
    if align && PAGE <= h.start then h.start + FrontSize(h.start) else h.start
  }

  function TailSize(h: Region, need: int, align: bool): int {
    h.End() - BlockStart(h, align) - Taken(h, need)
  }

  /** What becomes of hole h: an optional front hole, the block, an optional tail hole. */
  function PlaceParts(h: Region, need: int, align: bool): seq<Region> {
    var at := BlockStart(h, align);
    var tail := TailSize(h, need, align);
    (if align && PAGE <= h.start then [Region(h.start, at - h.start, true)] else [])
    + [Region(at, Taken(h, need), false)]
    + (if tail != 0 then [Region(at + Taken(h, need), tail, true)] else [])
  }

  /** When the cut is sound. A request without alignment always is. */
  predicate PlaceGuard(h: Region, need: int, align: bool) {
    align ==>
      && h.start % PAGE <= 0xFE0
      && (TailSize(h, need, align) == 0 || OVERHEAD <= TailSize(h, need, align))
  }

  /** The parts tile the hole exactly when the guard holds. */
  lemma PlacePartsTile(h: Region, need: int, align: bool)
    requires PAGE <= h.start && OVERHEAD <= need && OVERHEAD <= h.size
    requires need <= h.size - (if align then AlignOffset(h.start) else 0)
    ensures Tiles(PlaceParts(h, need, align), h.start, h.End()) <==> PlaceGuard(h, need, align)
  {
    var ps := PlaceParts(h, need, align);
    var at := BlockStart(h, align);
    var tail := TailSize(h, need, align);
    var block := Region(at, Taken(h, need), false);
    var rest := if tail != 0 then [Region(block.End(), tail, true)] else [];
    TilesOne(block.End(), tail);
    assert Tiles(rest, block.End(), h.End()) <==> tail == 0 || OVERHEAD <= tail;
    var back := [block] + rest;
    assert back[0] == block && back[1..] == rest;
    if align {
      assert ps == [Region(h.start, at - h.start, true)] + back;
      assert ps[0] == Region(h.start, at - h.start, true) && ps[1..] == back;
    } else {
      assert ps == back;
    }
  }

  /** The sizes the cut works with. */
  lemma PartsRoom(h: Region, need: int, align: bool)
    requires PAGE <= h.start && OVERHEAD <= need && OVERHEAD <= h.size && PlaceGuard(h, need, align)
    requires need <= h.size - (if align then AlignOffset(h.start) else 0)
    ensures OVERHEAD <= Taken(h, need) && Taken(h, need) == if h.size - need < OVERHEAD then h.size else need
    ensures align ==> h.start + OVERHEAD <= BlockStart(h, align)
    ensures BlockStart(h, align) == if align then h.start + FrontSize(h.start) else h.start
    ensures TailSize(h, need, align) == 0 || OVERHEAD <= TailSize(h, need, align)
  {
  }

  /** The hole in front of a block at the given address, if there is one. */
  function FrontPart(a: int, at: int, keep: bool): seq<Region> {
    if keep then [Region(a, at - a, true)] else []
  }

  /** The parts and the tail entry in terms of where the block ends. */
  lemma PartsAre(h: Region, need: int, align: bool)
    ensures var at := BlockStart(h, align); var after := at + Taken(h, need);
      && PlaceParts(h, need, align) ==
           FrontPart(h.start, at, KeepsFront(h, align)) + [Region(at, Taken(h, need), false)]
           + (if h.End() != after then [Region(after, h.End() - at - Taken(h, need), true)] else [])
      && TailStarts(h, need, align) == if h.End() != after then [after] else []
  {
  }

  lemma TilesOne(a: int, size: int)
    ensures Tiles([Region(a, size, true)], a, a + size) <==> OVERHEAD <= size
  {
    assert [Region(a, size, true)][1..] == [];
  }

  /** The aligned path keeps the hole's index entry, now for the front hole. */
  predicate KeepsFront(h: Region, align: bool) {
    align && PAGE <= h.start
  }

  function TailStarts(h: Region, need: int, align: bool): seq<int> {
    if TailSize(h, need, align) != 0 then [BlockStart(h, align) + Taken(h, need)] else []
  }

  function PlacedIndex(idx: seq<int>, k: nat, keep: bool, tail: seq<int>, less: (int, int) -> bool): seq<int>
    requires k < |idx|
  {
    var kept := if keep then idx else RemovedAt(idx, k);
    if tail != [] then Inserted(kept, tail[0], less) else kept
  }

  function PlacedRegions(rs: seq<Region>, i: nat, need: int, align: bool): seq<Region>
    requires i < |rs|
  {
    rs[..i] + PlaceParts(rs[i], need, align) + rs[i + 1..]
  }

  function Placed(st: State, k: nat, need: int, align: bool): State
    requires k < |st.index| && Where(st.regions, st.index[k]) < |st.regions|
  {
    var i := Where(st.regions, st.index[k]);
    var h := st.regions[i];
    var rs := PlacedRegions(st.regions, i, need, align);
    st.(regions := rs,
        index := PlacedIndex(st.index, k, KeepsFront(h, align), TailStarts(h, need, align), Smaller(rs)))
  }

  // ---- alloc: growing the heap --------------------------------------------------------------------------------

  function NewLength(st: State, need: int): int {
    RoundUp(st.Length() + need)
  }

  /** The highest-addressed entry of the index. */
  function Highest(idx: seq<int>): (a: int)
    requires idx != []
    ensures a in idx
  {
    if |idx| == 1 then idx[0]
    else
      var rest := Highest(idx[1..]);
      assert idx == [idx[0]] + idx[1..];
      if rest < idx[0] then idx[0] else rest
  }

  lemma {:induction false} HighestBound(idx: seq<int>, j: nat)
    requires j < |idx|
    ensures idx[j] <= Highest(idx)
  {
    if 1 < |idx| {
      HighestBound(idx[1..], if j == 0 then 0 else j - 1);
    }
  }

  lemma {:induction false} HighestIs(idx: seq<int>, a: int)
    requires idx != [] && a in idx && forall j :: 0 <= j < |idx| ==> idx[j] <= a
    ensures a == Highest(idx)
  {
    var j :| 0 <= j < |idx| && idx[j] == a;
    HighestBound(idx, j);
    var k :| 0 <= k < |idx| && idx[k] == Highest(idx);
  }

  function Enlarged(rs: seq<Region>, i: nat, growth: int): seq<Region>
    requires i < |rs|
  {
    rs[..i] + [rs[i].(size := rs[i].size + growth)] + rs[i + 1..]
  }

  /** After expand the extra bytes go to the highest hole, or to a new hole when there is none. */
  function GrownRegions(rs: seq<Region>, idx: seq<int>, end: int, growth: int): seq<Region> {
    if idx == [] then rs + [Region(end, growth, true)]
    else if Where(rs, Highest(idx)) < |rs| then Enlarged(rs, Where(rs, Highest(idx)), growth)
    else rs
  }

  function GrownIndex(idx: seq<int>, end: int): seq<int> {
    if idx == [] then [end] else idx
  }

  function Grown(st: State, need: int): State {
    var growth := NewLength(st, need) - st.Length();
    st.(end := st.end + growth,
        regions := GrownRegions(st.regions, st.index, st.end, growth),
        index := GrownIndex(st.index, st.end))
  }

  predicate EndsInHole(rs: seq<Region>) {
    rs != [] && rs[|rs| - 1].hole
  }

  /** Every page of [lo, hi) has its page table. */
  ghost predicate TablesPresent(tables: set<nat>, lo: int, hi: int) {
    forall n: nat :: lo <= n * PAGE < hi ==> Frames.HasTable(tables, n)
  }

  /** When growing is sound: the new bytes can go to the end of the heap, and expand need not make a page table, which
      would come from this very heap. */
  ghost predicate GrowGuard(st: State, need: int) {
    && (st.index == [] || EndsInHole(st.regions))
    && st.start + NewLength(st, need) <= st.max
    && TablesPresent(st.tables, st.end, st.start + NewLength(st, need))
  }

  lemma HighestIsLast(rs: seq<Region>, idx: seq<int>, s: int, e: int)
    requires Tiles(rs, s, e) && Lists(idx, rs) && EndsInHole(rs)
    ensures idx != []
    ensures Where(rs, Highest(idx)) == |rs| - 1
  {
    var n := |rs| - 1;
    InIndex(idx, rs, n);
    var j :| 0 <= j < |idx| && idx[j] == rs[n].start;
    HighestBound(idx, j);
    IndexedHole(idx, rs, s, e, Highest(idx));
    var i := Where(rs, Highest(idx));
    if i < n {
      TilesOrdered(rs, s, e, i, n);
      TilesAt(rs, s, e, i);
    }
  }

  /** Only the last region can grow without running into its neighbour. */
  lemma EnlargedTiles(rs: seq<Region>, s: int, e: int, i: nat, growth: int)
    requires Tiles(rs, s, e) && i < |rs| && 0 < growth
    ensures Tiles(Enlarged(rs, i, growth), s, e + growth) <==> i == |rs| - 1
  {
    var r := rs[i].(size := rs[i].size + growth);
    var rs' := Enlarged(rs, i, growth);
    if i == |rs| - 1 {
      TilesAt(rs, s, e, i);
      TilesExtent(rs, s, e);
      assert Tiles([r][1..], r.End(), e + growth);
      TilesConcat(rs[..i], [r], s, r.start, e + growth);
      assert rs' == rs[..i] + [r];
    } else {
      TilesOrdered(rs, s, e, i, i + 1);
      if Tiles(rs', s, e + growth) {
        assert rs'[i] == r && rs'[i + 1] == rs[i + 1];
        TilesOrdered(rs', s, e + growth, i, i + 1);
      }
    }
  }

  /** Growing keeps the tiling exactly when there is no hole, or the heap ends in one. */
  lemma GrowTiles(rs: seq<Region>, idx: seq<int>, s: int, e: int, growth: int)
    requires Tiles(rs, s, e) && Lists(idx, rs) && OVERHEAD <= growth
    ensures Tiles(GrownRegions(rs, idx, e, growth), s, e + growth) <==> idx == [] || EndsInHole(rs)
  {
    if idx == [] {
      TilesOne(e, growth);
      TilesConcat(rs, [Region(e, growth, true)], s, e, e + growth);
    } else {
      IndexedHole(idx, rs, s, e, Highest(idx));
      EnlargedTiles(rs, s, e, Where(rs, Highest(idx)), growth);
      if EndsInHole(rs) {
        HighestIsLast(rs, idx, s, e);
      }
    }
  }

  // ---- free ---------------------------------------------------------------------------------------------------

  function MergeFrom(rs: seq<Region>, i: nat): (lo: nat)
    requires i < |rs|
    ensures lo <= i
  {
    if 0 < i && rs[i - 1].hole then i - 1 else i
  }

  function MergeTo(rs: seq<Region>, i: nat): (hi: nat)
    requires i < |rs|
    ensures i < hi <= |rs|
  {
    if i + 1 < |rs| && rs[i + 1].hole then i + 2 else i + 1
  }

  function Merged(rs: seq<Region>, i: nat): Region
    requires i < |rs|
  {
    var first := rs[MergeFrom(rs, i)];
    Region(first.start, rs[MergeTo(rs, i) - 1].End() - first.start, true)
  }

  /** contract: the new heap length when everything from offset on may go. */
  function ContractedLength(offset: int): int {
    var n := RoundUp(offset);
    if n < HEAP_MIN_SIZE then HEAP_MIN_SIZE else n
  }

  /** The heap length after freeing region i: the heap contracts when the merged hole reaches its end. */
  function LengthAfterFree(st: State, i: nat): int
    requires i < |st.regions|
  {
    if MergeTo(st.regions, i) == |st.regions| then ContractedLength(Merged(st.regions, i).start - st.start)
    else st.Length()
  }

  /** What the contraction leaves of the merged hole. */
  function Residual(st: State, i: nat): int
    requires i < |st.regions|
  {
    Merged(st.regions, i).size - (st.Length() - LengthAfterFree(st, i))
  }

  function FreedParts(st: State, i: nat): seq<Region>
    requires i < |st.regions|
  {
    if Residual(st, i) == 0 then [] else [Merged(st.regions, i).(size := Residual(st, i))]
  }

  function IndexOf(s: seq<int>, a: int): (k: nat)
    ensures k <= |s|
    ensures k < |s| ==> s[k] == a
    ensures k == |s| ==> a !in s
  {
    if s == [] then 0 else if s[0] == a then 0 else 1 + IndexOf(s[1..], a)
  }

  function Without(s: seq<int>, a: int): seq<int> {
    if IndexOf(s, a) < |s| then RemovedAt(s, IndexOf(s, a)) else s
  }

  /** Index entries of the neighbours that get merged. */
  function LeftStart(rs: seq<Region>, i: nat): seq<int>
    requires i < |rs|
  {
    if MergeFrom(rs, i) < i then [rs[i - 1].start] else []
  }

  function RightStart(rs: seq<Region>, i: nat): seq<int>
    requires i < |rs|
  {
    if i + 1 < MergeTo(rs, i) then [rs[i + 1].start] else []
  }

  /** The right neighbour leaves the index. A left neighbour's entry serves the merged hole, otherwise the hole is
      inserted; a hole that contraction used up has no entry. */
  function FreedIndex(idx: seq<int>, l: seq<int>, r: seq<int>, gone: bool, at: int,
                      less: (int, int) -> bool): seq<int> {
    var idx1 := if r != [] then Without(idx, r[0]) else idx;
    if l != [] then (if gone then Without(idx1, at) else idx1)
    else if gone then idx1 else Inserted(idx1, at, less)
  }

  function Freed(st: State, i: nat): State
    requires i < |st.regions|
  {
    var rs := st.regions;
    var parts := FreedParts(st, i);
    var rs' := rs[..MergeFrom(rs, i)] + parts + rs[MergeTo(rs, i)..];
    st.(end := st.start + LengthAfterFree(st, i),
        regions := rs',
        index := FreedIndex(st.index, LeftStart(rs, i), RightStart(rs, i), parts == [], Merged(rs, i).start,
                            Smaller(rs')))
  }

  /** A hole left by contraction must still hold its own header and footer. */
  predicate FreeGuard(st: State, i: nat)
    requires i < |st.regions|
  {
    Residual(st, i) == 0 || OVERHEAD <= Residual(st, i)
  }
}
