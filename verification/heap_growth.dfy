/** Growing over a missing page table: exactly when expand returns, and exactly when the heap is still whole afterwards
    (kernel/libc/memory.c, kernel/cpu/paging/paging.c). */
module HeapGrowth {
  import opened Frames
  import opened HeapModel
  import opened HeapOps
  import opened HeapLaws
  import opened HeapReentry
  import opened HeapPageTable

  // ---- When expand returns ------------------------------------------------------------------------------------

  /** Where expand is to go for a request. */
  function Target(st: State, need: int): int {
    st.start + NewLength(st, need)
  }

  ghost predicate AllTables(st: State, need: int) {
    TablesPresent(st.tables, st.end, Target(st, need))
  }

  /** At most one page table is missing on the way. */
  ghost predicate OneMissing(st: State, need: int) {
    exists t: nat :: TablesPresent(st.tables + {t}, st.end, Target(st, need))
  }

  lemma MissingIs(tables: set<nat>, t: nat, a: int, target: int)
    requires 0 <= a < target && a % PAGE == 0 && TablesPresent(tables + {t}, a, target) && !HasTableAt(tables, a)
    ensures a / PAGE / ENTRIES == t && TablesPresent(tables + {t}, a + PAGE, target)
  {
    FirstPagePresent(tables + {t}, a, target);
  }

  /** Where expand meets a missing table it calls alloc, and then finds every other table. */
  lemma {:induction false} ExpandOneTable(st: State, a: int, target: int, fuel: nat, t: nat)
    requires 0 <= a && a % PAGE == 0
    requires !TablesPresent(st.tables, a, target) && TablesPresent(st.tables + {t}, a, target)
    ensures var c, r := AllocAsWritten(st, TABLE_NEED, true, fuel), ExpandAsWritten(st, a, target, fuel);
      && (c == None ==> r == None)
      && (c.Some? && c.value.state.tables == st.tables ==>
            r == Some(Ended(c.value.state.(end := target, tables := st.tables + {t}), c.value.blocks)))
    decreases target - a
  {
    hide AllocAsWritten;
    if a < target {
      FirstPagePresent(st.tables, a, target);
      FirstPagePresent(st.tables + {t}, a, target);
      if HasTableAt(st.tables, a) {
        ExpandOneTable(st, a + PAGE, target, fuel, t);
      } else {
        MissingIs(st.tables, t, a, target);
        var c := AllocAsWritten(st, TABLE_NEED, true, fuel);
        if c.Some? && c.value.state.tables == st.tables {
          ExpandReenters(WithTable(c.value.state, a), a + PAGE, target, fuel);
          assert c.value.blocks + [] == c.value.blocks;
        }
      }
    }
  }

  /** What expand leaves when it had to have a page table made. */
  ghost predicate LeftByCut(st: State, r: Ended, target: int) {
    && CutReady(st, TableHeap(st))
    && var c := TableCut(TableHeap(st));
       r.blocks == c.blocks && r.state == c.state.(end := target, tables := r.state.tables)
  }

  lemma ExpandedByCut(st: State, need: int, fuel: nat)
    requires Wf(st) && OneMissing(st, need) && !AllTables(st, need)
    ensures var r := Expanded(st, need, fuel);
      && (r.Some? ==> TableComes(st) && LeftByCut(st, r.value, Target(st, need)))
      && (TableComes(st) && 2 <= fuel ==> r.Some?)
  {
    hide AllocAsWritten, ExpandAsWritten, TableComes, TablesPresent, NewLength, TableFits, Stretched;
    var t: nat :| TablesPresent(st.tables + {t}, st.end, Target(st, need));
    TilesExtent(st.regions, st.start, st.end);
    TableRequest(st, fuel);
    ExpandOneTable(st, st.end, Target(st, need), fuel, t);
  }

  /** expand returns if and only if no page table is missing, or the one that is missing comes. */
  lemma ExpandReturns(st: State, need: int, fuel: nat)
    requires Wf(st) && OneMissing(st, need)
    ensures Expanded(st, need, fuel).Some? ==> AllTables(st, need) || TableComes(st)
    ensures 2 <= fuel && (AllTables(st, need) || TableComes(st)) ==> Expanded(st, need, fuel).Some?
  {
    hide TableComes, ExpandAsWritten, TablesPresent, NewLength;
    if AllTables(st, need) {
      ExpandReenters(st, st.end, Target(st, need), fuel);
    } else {
      ExpandedByCut(st, need, fuel);
    }
  }

  /** When the table does not come, every request that needs it hangs, however many are missing. */
  lemma AllocNeverReturns(st: State, need: int, align: bool, fuel: nat)
    requires Wf(st) && FirstFit(st.index, st.regions, need, align) == |st.index|
    requires !AllTables(st, need) && !TableComes(st)
    ensures AllocAsWritten(st, need, align, fuel) == None
  {
    hide AllocAsWritten, ExpandAsWritten, TableComes, TablesPresent, NewLength;
    if fuel == 0 {
      NoFuel(st, need, align);
    } else {
      TilesExtent(st.regions, st.start, st.end);
      TableRequest(st, fuel - 1);
      ExpandStuck(st, st.end, Target(st, need), fuel - 1);
      GrowingAlloc(st, need, align, fuel);
    }
  }

  // ---- When the heap is whole afterwards ----------------------------------------------------------------------

  /** A region without room for its tags, and another right behind it: no growth mends that. */
  lemma SmallStays(rs: seq<Region>, idx: seq<int>, p: nat, end: int, growth: int, s: int, e: int)
    requires idx != [] && p + 1 < |rs| && rs[p].size < OVERHEAD && rs[p + 1].start == rs[p].End() && growth != 0
    ensures !Tiles(GrownRegions(rs, idx, end, growth), s, e)
  {
    var rs' := GrownRegions(rs, idx, end, growth);
    if Tiles(rs', s, e) {
      TilesAt(rs', s, e, p);
      TilesOrdered(rs', s, e, p, p + 1);
    }
  }

  /** A hole at the end is the highest one, whatever its size. */
  lemma TailIsHighest(pre: seq<Region>, idx: seq<int>, s: int, m: int, size: int)
    requires Tiles(pre, s, m) && Lists(idx, pre + [Region(m, size, true)])
    ensures idx != [] && Highest(idx) == m && Where(pre + [Region(m, size, true)], m) == |pre|
  {
    hide Tiles;
    var rs := pre + [Region(m, size, true)];
    HoleStartsConcat(pre, [Region(m, size, true)]);
    assert HoleStarts(rs) == HoleStarts(pre) + [m];
    HoleStartsBound(pre, s, m);
    InIndex(idx, rs, |pre|);
    forall j | 0 <= j < |idx| ensures idx[j] <= m {
      assert idx[j] in multiset(HoleStarts(rs));
    }
    HighestIs(idx, m);
    EndIsFree(pre, s, m);
    WhereAppended(pre, Region(m, size, true), m);
  }

  lemma EnlargedLast(pre: seq<Region>, h: Region, growth: int)
    ensures Enlarged(pre + [h], |pre|, growth) == pre + [h.(size := h.size + growth)]
  {
    assert (pre + [h])[..|pre|] == pre && (pre + [h])[|pre| + 1..] == [];
  }

  /** Growth that goes to a hole at the end gives it room for its tags. */
  lemma TailMends(pre: seq<Region>, idx: seq<int>, s: int, m: int, size: int, e: int, growth: int)
    requires Tiles(pre, s, m) && Lists(idx, pre + [Region(m, size, true)]) && 0 < size && PAGE <= growth
    ensures Tiles(GrownRegions(pre + [Region(m, size, true)], idx, e, growth), s, m + size + growth)
  {
    TailIsHighest(pre, idx, s, m, size);
    hide Tiles, Enlarged, Lists;
    EnlargedLast(pre, Region(m, size, true), growth);
    TilesOne(m, size + growth);
    TilesConcat(pre, [Region(m, size + growth, true)], s, m, m + size + growth);
  }

  // ---- The cut of an aligned block ----------------------------------------------------------------------------

  /** A hole at h takes an aligned request. */
  ghost predicate Takes(rs: seq<Region>, s: int, e: int, i: nat, need: int) {
    && Tiles(rs, s, e) && i < |rs| && rs[i].hole && PAGE <= rs[i].start && OVERHEAD <= need
    && need <= rs[i].size - AlignOffset(rs[i].start)
  }

  /** Growing after that cut keeps the tiling: the front hole has room for its tags, and the heap ends in a hole; a tail
      hole that is too small is mended if it ends the heap. */
  predicate CutGrows(rs: seq<Region>, i: nat, need: int)
    requires i < |rs|
  {
    rs[i].start % PAGE <= 0xFE0
    && if i + 1 == |rs| then TailSize(rs[i], need, true) != 0 else EndsInHole(rs) && PlaceGuard(rs[i], need, true)
  }

  function Front(h: Region): Region {
    Region(h.start, FrontSize(h.start), true)
  }

  function Tail(h: Region, need: int): seq<Region> {
    var after := BlockStart(h, true) + Taken(h, need);
    if h.End() != after then [Region(after, h.End() - after, true)] else []
  }

  lemma CutParts(rs: seq<Region>, i: nat, need: int)
    requires i < |rs| && PAGE <= rs[i].start
    ensures PlacedRegions(rs, i, need, true) ==
      rs[..i] + [Front(rs[i]), BlockOf(rs[i], need, true)] + Tail(rs[i], need) + rs[i + 1..]
    ensures BlockStart(rs[i], true) == Front(rs[i]).End() == BlockOf(rs[i], need, true).start
  {
    hide FrontSize, Taken;
    PartsAre(rs[i], need, true);
    assert PlaceParts(rs[i], need, true) == [Front(rs[i]), BlockOf(rs[i], need, true)] + Tail(rs[i], need);
    assert rs[..i] + PlaceParts(rs[i], need, true) ==
      rs[..i] + [Front(rs[i]), BlockOf(rs[i], need, true)] + Tail(rs[i], need);
  }

  /** A tail that is too small comes of a hole that is split, not used up. */
  lemma TailBounds(h: Region, need: int)
    requires PAGE <= h.start && OVERHEAD <= need && need <= h.size - AlignOffset(h.start) && h.start % PAGE <= 0xFE0
    ensures 0 <= TailSize(h, need, true) && OVERHEAD <= FrontSize(h.start)
    ensures TailSize(h, need, true) == h.End() - BlockStart(h, true) - Taken(h, need) && OVERHEAD <= Taken(h, need)
  {
  }

  lemma FrontSmall(a: int)
    requires 0xFE0 < a % PAGE
    ensures FrontSize(a) < OVERHEAD
  {
  }

  lemma FrontKept(rs: seq<Region>, i: nat, need: int, idx: seq<int>)
    requires i < |rs| && PAGE <= rs[i].start && Lists(idx, PlacedRegions(rs, i, need, true))
    ensures idx != []
  {
    hide PlacedRegions, FrontSize, BlockOf, Tail;
    CutParts(rs, i, need);
    var rs' := PlacedRegions(rs, i, need, true);
    assert rs'[i] == Front(rs[i]);
    InIndex(idx, rs', i);
  }

  lemma EndAfterCut(rs: seq<Region>, i: nat, need: int)
    requires i < |rs| && PAGE <= rs[i].start
    ensures EndsInHole(PlacedRegions(rs, i, need, true)) <==>
      if i + 1 == |rs| then TailSize(rs[i], need, true) != 0 else EndsInHole(rs)
  {
    hide PlacedRegions, FrontSize, Taken;
    CutParts(rs, i, need);
    var rs' := PlacedRegions(rs, i, need, true);
    if i + 1 == |rs| {
      assert rs[i + 1..] == [];
      assert rs' == rs[..i] + [Front(rs[i]), BlockOf(rs[i], need, true)] + Tail(rs[i], need);
    } else {
      assert rs'[|rs'| - 1] == rs[|rs| - 1];
    }
  }

  lemma SoundCutGrows(rs: seq<Region>, s: int, e: int, i: nat, need: int, idx: seq<int>, growth: int)
    requires Takes(rs, s, e, i, need) && PlaceGuard(rs[i], need, true) && OVERHEAD <= growth
    requires Lists(idx, PlacedRegions(rs, i, need, true))
    ensures Tiles(GrownRegions(PlacedRegions(rs, i, need, true), idx, e, growth), s, e + growth) <==>
      CutGrows(rs, i, need)
  {
    hide GrownRegions, Tiles, FrontSize, Taken, Lists, PlaceParts, BlockStart, AlignOffset, EndsInHole;
    FrontKept(rs, i, need, idx);
    TilesAt(rs, s, e, i);
    PlacePartsTile(rs[i], need, true);
    PlacedTiles(rs, s, e, i, PlaceParts(rs[i], need, true));
    EndAfterCut(rs, i, need);
    GrowTiles(PlacedRegions(rs, i, need, true), idx, s, e, growth);
  }

  lemma SmallFrontStays(rs: seq<Region>, s: int, e: int, i: nat, need: int, idx: seq<int>, growth: int)
    requires Takes(rs, s, e, i, need) && 0xFE0 < rs[i].start % PAGE && growth != 0
    requires Lists(idx, PlacedRegions(rs, i, need, true))
    ensures !Tiles(GrownRegions(PlacedRegions(rs, i, need, true), idx, e, growth), s, e + growth)
  {
    hide PlacedRegions, GrownRegions, Tiles, FrontSize, Taken, Lists;
    FrontKept(rs, i, need, idx);
    FrontSmall(rs[i].start);
    CutParts(rs, i, need);
    var rs' := PlacedRegions(rs, i, need, true);
    assert rs'[i] == Front(rs[i]) && rs'[i + 1] == BlockOf(rs[i], need, true);
    SmallStays(rs', idx, i, e, growth, s, e + growth);
  }

  lemma SmallTailStays(rs: seq<Region>, s: int, e: int, i: nat, need: int, idx: seq<int>, growth: int)
    requires Takes(rs, s, e, i, need) && 0 < TailSize(rs[i], need, true) < OVERHEAD && growth != 0 && i + 1 < |rs|
    requires Lists(idx, PlacedRegions(rs, i, need, true))
    ensures !Tiles(GrownRegions(PlacedRegions(rs, i, need, true), idx, e, growth), s, e + growth)
  {
    FrontKept(rs, i, need, idx);
    CutParts(rs, i, need);
    TilesOrdered(rs, s, e, i, i + 1);
    hide PlacedRegions, GrownRegions, Tiles, FrontSize, Taken, Lists;
    var rs' := PlacedRegions(rs, i, need, true);
    assert Tail(rs[i], need) != [];
    assert rs'[i + 2] == Tail(rs[i], need)[0] && rs'[i + 3] == rs[i + 1];
    SmallStays(rs', idx, i + 2, e, growth, s, e + growth);
  }

  lemma FrontAndBlock(pre: seq<Region>, s: int, h: Region, need: int)
    requires Tiles(pre, s, h.start) && PAGE <= h.start && OVERHEAD <= FrontSize(h.start) && OVERHEAD <= Taken(h, need)
    ensures Tiles(pre + [Front(h), BlockOf(h, need, true)], s, BlockOf(h, need, true).End())
  {
    var b := BlockOf(h, need, true);
    hide FrontSize, Taken, Tiles;
    TwoTile(Front(h), b);
    TilesConcat(pre, [Front(h), b], s, h.start, b.End());
  }

  lemma TwoTile(a: Region, b: Region)
    requires a.End() == b.start && OVERHEAD <= a.size && OVERHEAD <= b.size
    ensures Tiles([a, b], a.start, b.End())
  {
    assert [a, b][1..] == [b] && [b][1..] == [];
  }

  lemma SmallTailMended(rs: seq<Region>, s: int, e: int, i: nat, need: int, idx: seq<int>, growth: int)
    requires Takes(rs, s, e, i, need) && rs[i].start % PAGE <= 0xFE0 && 0 < TailSize(rs[i], need, true)
    requires PAGE <= growth && i + 1 == |rs| && Lists(idx, PlacedRegions(rs, i, need, true))
    ensures Tiles(GrownRegions(PlacedRegions(rs, i, need, true), idx, e, growth), s, e + growth)
  {
    var h := rs[i];
    var b := BlockOf(h, need, true);
    CutParts(rs, i, need);
    TailBounds(h, need);
    TilesAt(rs, s, e, i);
    LastRegion(rs, s, e);
    FrontAndBlock(rs[..i], s, h, need);
    hide PlacedRegions, GrownRegions, Tiles, FrontSize, Taken, Lists;
    assert rs[i + 1..] == [] && Tail(h, need) == [Region(b.End(), h.End() - b.End(), true)];
    assert PlacedRegions(rs, i, need, true) == rs[..i] + [Front(h), b] + [Region(b.End(), h.End() - b.End(), true)];
    TailMends(rs[..i] + [Front(h), b], idx, s, b.End(), h.End() - b.End(), e, growth);
  }

  /** The heap grows right after an aligned cut, sound or not, if and only if that condition holds. */
  lemma CutGrowsExactly(rs: seq<Region>, s: int, e: int, i: nat, need: int, idx: seq<int>, growth: int)
    requires Takes(rs, s, e, i, need) && PAGE <= growth && Lists(idx, PlacedRegions(rs, i, need, true))
    ensures Tiles(GrownRegions(PlacedRegions(rs, i, need, true), idx, e, growth), s, e + growth) <==>
      CutGrows(rs, i, need)
  {
    hide PlacedRegions, GrownRegions, Tiles, FrontSize, Taken, Lists, AlignOffset, BlockStart;
    if PlaceGuard(rs[i], need, true) {
      SoundCutGrows(rs, s, e, i, need, idx, growth);
    } else if 0xFE0 < rs[i].start % PAGE {
      SmallFrontStays(rs, s, e, i, need, idx, growth);
    } else {
      TailBounds(rs[i], need);
      if i + 1 < |rs| {
        SmallTailStays(rs, s, e, i, need, idx, growth);
      } else {
        SmallTailMended(rs, s, e, i, need, idx, growth);
      }
    }
  }

  // ---- Growing over a missing table ---------------------------------------------------------------------------

  lemma CutLists(rs: seq<Region>, idx: seq<int>, k: nat, need: int, align: bool, less: (int, int) -> bool)
    requires Lists(idx, rs) && k < |idx| && Where(rs, idx[k]) < |rs| && rs[Where(rs, idx[k])].hole
    ensures var i := Where(rs, idx[k]);
      Lists(PlacedIndex(idx, k, KeepsFront(rs[i], align), TailStarts(rs[i], need, align), less),
            PlacedRegions(rs, i, need, align))
  {
    var i := Where(rs, idx[k]);
    var keep, tail := KeepsFront(rs[i], align), TailStarts(rs[i], need, align);
    hide PlacedIndex, PlacedRegions, PlaceParts, BlockStart, TailSize, Taken, FrontSize;
    PartsHoles(rs[i], need, align);
    PlacedElements(idx, k, keep, tail, less);
    PlacedLists(rs, idx, i, need, align, PlacedIndex(idx, k, keep, tail, less));
  }

  /** What the cut of the page table leaves, in terms of regions and index. */
  lemma TableCutIs(s: State)
    requires TableFits(s) && Leads(s.index, s.regions) && Lists(s.index, s.regions)
    ensures Where(s.regions, s.index[TableFit(s)]) < |s.regions|
    ensures var i := Where(s.regions, s.index[TableFit(s)]); var c := TableCut(s).state;
      && c.regions == PlacedRegions(s.regions, i, TABLE_NEED, true) && Lists(c.index, c.regions)
      && c == s.(regions := c.regions, index := c.index)
      && s.regions[i].hole && s.regions[i].start == s.index[TableFit(s)]
      && Total(c.regions) == Total(s.regions)
  {
    hide FirstFit, PlacedRegions, PlacedIndex, Lists;
    assert s.index[TableFit(s)] in s.index;
    var i := Where(s.regions, s.index[TableFit(s)]);
    PlacedTotal(s.regions, i, TABLE_NEED, true);
    CutLists(s.regions, s.index, TableFit(s), TABLE_NEED, true, Smaller(PlacedRegions(s.regions, i, TABLE_NEED, true)));
  }

  lemma ListsStart(idx: seq<int>, rs: seq<Region>)
    requires Lists(idx, rs) && idx != []
    ensures Where(rs, Highest(idx)) < |rs|
  {
    assert Highest(idx) in multiset(HoleStarts(rs));
    StartLeads(rs, Highest(idx));
  }

  /** Growth adds its bytes wherever the highest entry leads. */
  lemma GrownSum(rs: seq<Region>, idx: seq<int>, end: int, growth: int)
    requires Lists(idx, rs)
    ensures Total(GrownRegions(rs, idx, end, growth)) == Total(rs) + growth
  {
    hide Lists, Highest;
    if idx == [] {
      TotalConcat(rs, [Region(end, growth, true)]);
    } else {
      ListsStart(idx, rs);
      var i := Where(rs, Highest(idx));
      SpliceTotal(rs, i, [rs[i].(size := rs[i].size + growth)]);
    }
  }

  /** The exact condition, on the heap as it is before the call. */
  ghost predicate GrowsRight(st: State, need: int) {
    if AllTables(st, need) then st.index == [] || EndsInHole(st.regions)
    else
      && TableFits(st) && Where(st.regions, st.index[TableFit(st)]) < |st.regions|
      && CutGrows(st.regions, Where(st.regions, st.index[TableFit(st)]), TABLE_NEED)
  }

  /** When the nested call has moved the end, its bytes are counted twice. */
  lemma MovedEndCountsTwice(st: State, c: State, end: int)
    requires Tiles(st.regions, st.start, st.end) && Lists(c.index, c.regions)
    requires Total(c.regions) != Total(st.regions)
    ensures !Tiles(GrownRegions(c.regions, c.index, st.end, end - st.end), st.start, end)
  {
    hide GrownRegions, Tiles, Lists, Total;
    TilesTotal(st.regions, st.start, st.end);
    GrownSum(c.regions, c.index, st.end, end - st.end);
    var rs := GrownRegions(c.regions, c.index, st.end, end - st.end);
    if Tiles(rs, st.start, end) { TilesTotal(rs, st.start, end); }
  }

  lemma TableTakes(st: State)
    requires Wf(st) && TableFits(st) && Where(st.regions, st.index[TableFit(st)]) < |st.regions|
    ensures Takes(st.regions, st.start, st.end, Where(st.regions, st.index[TableFit(st)]), TABLE_NEED)
  {
    var i := Where(st.regions, st.index[TableFit(st)]);
    WfLeads(st);
    TilesAt(st.regions, st.start, st.end, i);
  }

  lemma CutGrowth(st: State, end: int)
    requires Wf(st) && CutReady(st, TableHeap(st)) && PAGE <= end - st.end
    ensures var c := TableCut(TableHeap(st)).state;
      Tiles(GrownRegions(c.regions, c.index, st.end, end - st.end), st.start, end) <==>
        && TableFits(st) && Where(st.regions, st.index[TableFit(st)]) < |st.regions|
        && CutGrows(st.regions, Where(st.regions, st.index[TableFit(st)]), TABLE_NEED)
  {
    hide FirstFit, PlacedRegions, GrownRegions, Tiles, Lists, Stretched, Takes, Leads, TableCut, CutGrows;
    var c := TableCut(TableHeap(st)).state;
    TableCutIs(TableHeap(st));
    if TableFits(st) {
      TableTakes(st);
      CutGrowsExactly(st.regions, st.start, st.end, Where(st.regions, st.index[TableFit(st)]), TABLE_NEED, c.index,
        end - st.end);
    } else {
      MovedEndCountsTwice(st, c, end);
    }
  }

  /** The heap that alloc goes on with after expand. */
  ghost predicate GrowthIs(st: State, need: int, g: State) {
    && g.start == st.start && g.end == Target(st, need)
    && (Tiles(g.regions, g.start, g.end) <==> GrowsRight(st, need))
  }

  lemma GrowthWithTables(st: State, need: int, fuel: nat)
    requires Wf(st) && 0 < need && AllTables(st, need)
    ensures Expanded(st, need, fuel) == Some(Ended(st.(end := Target(st, need)), []))
    ensures GrowthIs(st, need, GivenBytes(st.(end := Target(st, need)), st.end))
  {
    Growth(st, need);
    TilesExtent(st.regions, st.start, st.end);
    hide NewLength, ExpandAsWritten, TablesPresent, Tiles, Lists, GrownRegions;
    ExpandReenters(st, st.end, Target(st, need), fuel);
    GrowTiles(st.regions, st.index, st.start, st.end, Target(st, need) - st.end);
  }

  lemma GrowthByCut(st: State, need: int, r: Ended)
    requires Wf(st) && 0 < need && !AllTables(st, need) && LeftByCut(st, r, Target(st, need))
    ensures GrowthIs(st, need, GivenBytes(r.state, st.end))
  {
    hide NewLength, TablesPresent, FirstFit, GrownRegions, Tiles, Lists, Stretched, TableCut, CutGrows;
    Growth(st, need);
    CutGrowth(st, Target(st, need));
    TableCutIs(TableHeap(st));
  }

  /** alloc with at most one page table missing: after expand has returned, the heap it grows tiles its new range if and
      only if that condition holds. */
  lemma GrowthTiles(st: State, need: int, fuel: nat)
    requires Wf(st) && 0 < need && OneMissing(st, need) && Expanded(st, need, fuel).Some?
    ensures var g := GivenBytes(Expanded(st, need, fuel).value.state, st.end);
      && g.start == st.start && g.end == Target(st, need)
      && (Tiles(g.regions, g.start, g.end) <==> GrowsRight(st, need))
  {
    hide NewLength, Expanded, AllTables, GivenBytes, GrowsRight, LeftByCut, OneMissing, Wf, Tiles;
    if AllTables(st, need) {
      GrowthWithTables(st, need, fuel);
    } else {
      ExpandedByCut(st, need, fuel);
      GrowthByCut(st, need, Expanded(st, need, fuel).value);
    }
  }
}
