/** A heap without holes that grows over a missing page table, and the runs from create_heap that get there
    (kernel/libc/memory.c). */
module HeapFull {
  import opened Frames
  import opened HeapModel
  import opened HeapOps
  import opened HeapLaws
  import opened HeapAlloc
  import opened HeapReentry
  import opened HeapPageTable
  import opened HeapGrowth
  import opened HeapGuards

  // ---- When the request returns -------------------------------------------------------------------------------

  /** The growth alone serves a request without alignment. */
  lemma GrowthServes(rs: seq<Region>, idx: seq<int>, end: int, growth: int, need: int)
    requires idx != [] && Where(rs, Highest(idx)) < |rs| && 0 <= rs[Where(rs, Highest(idx))].size && need <= growth
    ensures FirstFit(idx, GrownRegions(rs, idx, end, growth), need, false) < |idx|
  {
    var a := Highest(idx);
    EnlargedSize(rs, Where(rs, a), growth, a);
    FitFound(idx, GrownRegions(rs, idx, end, growth), need, false, a);
  }

  lemma FitReturns(st: State, need: int, align: bool, fuel: nat)
    requires FirstFit(st.index, st.regions, need, align) < |st.index| && 0 < need
    ensures var k := FirstFit(st.index, st.regions, need, align);
      && Where(st.regions, st.index[k]) < |st.regions|
      && AllocAsWritten(st, need, align, fuel) ==
           Some(Ended(Placed(st, k, need, align), [BlockOf(HoleAt(st, k), need, align)]))
  {
    FitLeads(st.regions, st.index[FirstFit(st.index, st.regions, need, align)], need, align);
  }

  /** Four pages behind the last block hold an aligned page table, and room for tags on both sides of it. */
  lemma FourPagesTile(rs: seq<Region>, s: int, e: int)
    requires Tiles(rs, s, e) && e % PAGE == 0 && PAGE <= e
    ensures Tiles(PlacedRegions(rs + [Region(e, 4 * PAGE, true)], |rs|, TABLE_NEED, true), s, e + 4 * PAGE)
  {
    hide Tiles, PlaceParts, PlaceGuard;
    var h := Region(e, 4 * PAGE, true);
    BoundaryCut(e);
    PlacePartsTile(h, TABLE_NEED, true);
    TilesOne(e, 4 * PAGE);
    TilesConcat(rs, [h], s, e, e + 4 * PAGE);
    PlacedTiles(rs + [h], s, e + 4 * PAGE, |rs|, PlaceParts(h, TABLE_NEED, true));
  }

  lemma FourPages(st: State)
    requires Wf(st) && st.index == []
    ensures var s := Stretched(Stretched(st));
      && s.regions == st.regions + [Region(st.end, 4 * PAGE, true)] && s.index == [st.end] && s.end == st.end + 4 * PAGE
      && Where(s.regions, st.end) == |st.regions|
  {
    var rs := st.regions;
    EndIsFree(rs, st.start, st.end);
    WhereAppended(rs, Region(st.end, 2 * PAGE, true), st.end);
    WhereAppended(rs, Region(st.end, 4 * PAGE, true), st.end);
    hide FirstFit, Tiles, Lists, Enlarged;
    assert Stretched(st).regions == rs + [Region(st.end, 2 * PAGE, true)] && Stretched(st).index == [st.end];
    EnlargedLast(rs, Region(st.end, 2 * PAGE, true), 2 * PAGE);
  }

  lemma BoundaryCut(a: int)
    requires a % PAGE == 0 && PAGE <= a
    ensures PlaceGuard(Region(a, 4 * PAGE, true), TABLE_NEED, true)
    ensures TABLE_NEED <= 4 * PAGE - AlignOffset(a)
  {
    BoundaryOffset(a);
  }

  /** The cut out of those pages leaves a hole that the growth makes big enough. */
  lemma CutServes(st: State, c: State, end: int, need: int)
    requires Wf(st) && st.index == [] && 0 < need <= end - st.end
    requires CutReady(st, TableHeap(st)) && c == TableCut(TableHeap(st)).state
    ensures FirstFit(c.index, GrownRegions(c.regions, c.index, st.end, end - st.end), need, false) < |c.index|
  {
    hide FirstFit, Lists, Leads, Stretched, Tiles, GrownRegions, TableCut, Wf, TableHeap, CutReady;
    CutIsWhole(st, c);
    WholeServes(c.regions, c.index, st.start, c.end, st.end, end - st.end, need);
  }

  lemma WholeServes(rs: seq<Region>, idx: seq<int>, s: int, e: int, end: int, growth: int, need: int)
    requires Tiles(rs, s, e) && Lists(idx, rs) && idx != [] && need <= growth
    ensures FirstFit(idx, GrownRegions(rs, idx, end, growth), need, false) < |idx|
  {
    ListsStart(idx, rs);
    TilesAt(rs, s, e, Where(rs, Highest(idx)));
    hide FirstFit, Lists, Tiles, GrownRegions;
    GrowthServes(rs, idx, end, growth, need);
  }

  lemma CutIsWhole(st: State, c: State)
    requires Wf(st) && st.index == [] && CutReady(st, TableHeap(st)) && c == TableCut(TableHeap(st)).state
    ensures Tiles(c.regions, st.start, c.end) && Lists(c.index, c.regions) && c.index != []
  {
    TilesExtent(st.regions, st.start, st.end);
    hide FirstFit, Lists, Leads, PlacedRegions, Tiles, Stretched, TableCut;
    NoHoleNow(st);
    FourPages(st);
    FourPagesTile(st.regions, st.start, st.end);
    TableCutIs(TableHeap(st));
    CutKeepsFront(TableHeap(st));
  }

  lemma CutKeepsFront(s: State)
    requires TableFits(s) && Leads(s.index, s.regions) && Lists(s.index, s.regions)
    requires Where(s.regions, s.index[TableFit(s)]) < |s.regions|
    requires PAGE <= s.index[TableFit(s)]
    ensures TableCut(s).state.index != []
  {
    TableCutIs(s);
    hide FirstFit, Lists, Leads, TableCut, Placed;
    FrontKept(s.regions, Where(s.regions, s.index[TableFit(s)]), TABLE_NEED, TableCut(s).state.index);
  }

  lemma NothingFits(st: State, need: int, align: bool)
    requires st.index == []
    ensures FirstFit(st.index, st.regions, need, align) == |st.index| && !TableFits(st)
  {
  }

  lemma EndServes(st: State, end: int, need: int)
    requires Wf(st) && st.index == [] && need <= end - st.end
    ensures var g := GivenBytes(st.(end := end), st.end); FirstFit(g.index, g.regions, need, false) < |g.index|
  {
    EndIsFree(st.regions, st.start, st.end);
    WhereAppended(st.regions, Region(st.end, end - st.end, true), st.end);
  }

  lemma ReturnsWithTables(st: State, need: int, fuel: nat)
    requires Wf(st) && st.index == [] && OVERHEAD <= need && AllTables(st, need) && 0 < fuel
    ensures AllocAsWritten(st, need, false, fuel).Some?
  {
    hide AllocAsWritten, NewLength, Expanded, AllTables, GivenBytes, FirstFit, Wf;
    GrowthEnough(st, need);
    NothingFits(st, need, false);
    GrowthWithTables(st, need, fuel - 1);
    GrowingAlloc(st, need, false, fuel);
    EndServes(st, Target(st, need), need);
    FitReturns(GivenBytes(st.(end := Target(st, need)), st.end), need, false, fuel - 1);
  }

  lemma GrowthEnough(st: State, need: int)
    requires Wf(st) && OVERHEAD <= need
    ensures 0 < need <= Target(st, need) - st.end
  {
    Growth(st, need);
  }

  lemma ReturnsByCut(st: State, need: int, fuel: nat)
    requires Wf(st) && st.index == [] && OVERHEAD <= need && OneMissing(st, need) && !AllTables(st, need)
    requires TableComes(st) && 3 <= fuel
    ensures AllocAsWritten(st, need, false, fuel).Some?
  {
    hide AllocAsWritten, NewLength, Expanded, AllTables, OneMissing, TableComes, GrownRegions, FirstFit, Wf, TableCut,
      TableHeap;
    GrowthEnough(st, need);
    NothingFits(st, need, false);
    ExpandedByCut(st, need, fuel - 1);
    GrowingAlloc(st, need, false, fuel);
    CutServes(st, TableCut(TableHeap(st)).state, Target(st, need), need);
    var g := GivenBytes(Expanded(st, need, fuel - 1).value.state, st.end);
    assert g.index == TableCut(TableHeap(st)).state.index;
    FitReturns(g, need, false, fuel - 1);
  }

  /** Without any hole, a request without alignment returns if and only if every table it needs is there, or those of
      the four pages that a page table needs. */
  lemma FullHeapReturns(st: State, need: int, fuel: nat)
    requires Wf(st) && st.index == [] && OVERHEAD <= need && OneMissing(st, need) && 3 <= fuel
    ensures AllocAsWritten(st, need, false, fuel).Some? <==>
      AllTables(st, need) || TablesPresent(st.tables, st.end, st.end + 4 * PAGE)
  {
    NothingFits(st, need, false);
    hide AllocAsWritten, AllTables, OneMissing, TablesPresent, Wf, TableFits;
    if AllTables(st, need) {
      ReturnsWithTables(st, need, fuel);
    } else if TableComes(st) {
      ReturnsByCut(st, need, fuel);
    } else {
      AllocNeverReturns(st, need, false, fuel);
    }
  }

  // ---- The block that ends beyond the heap --------------------------------------------------------------------

  lemma {:induction false} WhereConcat(a: seq<Region>, b: seq<Region>, x: int)
    requires Where(a, x) == |a|
    ensures Where(a + b, x) == |a| + Where(b, x)
  {
    if a == [] {
      assert a + b == b;
    } else {
      assert (a + b)[1..] == a[1..] + b;
      WhereConcat(a[1..], b, x);
    }
  }

  lemma NoStartBehind(rs: seq<Region>, s: int, e: int, a: int)
    requires Tiles(rs, s, e) && e <= a
    ensures Where(rs, a) == |rs|
  {
    if Where(rs, a) < |rs| { TilesAt(rs, s, e, Where(rs, a)); }
  }

  /** The four pages once the page table has been cut out of them. */
  function TableParts(e: int, growth: int): seq<Region> {
    [Region(e, 0xFF4, true), Region(e + 0xFF4, TABLE_NEED, false), Region(e + 0x2008, 0x1FF8 + growth, true)]
  }

  lemma TablePartsAre(e: int)
    requires e % PAGE == 0 && PAGE <= e
    ensures var h := Region(e, 4 * PAGE, true);
      && PlaceParts(h, TABLE_NEED, true) == TableParts(e, 0)
      && BlockOf(h, TABLE_NEED, true) == Region(e + 0xFF4, TABLE_NEED, false)
      && KeepsFront(h, true) && TailStarts(h, TABLE_NEED, true) == [e + 0x2008]
  {
  }

  lemma FullTableHeap(st: State)
    requires Wf(st) && st.index == []
    ensures TableHeap(st) == Stretched(Stretched(st)) && TableFits(TableHeap(st))
  {
    hide Stretched, Wf, TableFits;
    NoHoleNow(st);
  }

  lemma StartsBehind(st: State)
    requires Wf(st)
    ensures PAGE <= st.end && st.end % PAGE == 0 && Tiles(st.regions, st.start, st.end)
  {
    TilesExtent(st.regions, st.start, st.end);
  }

  /** The cut, when the heap was full. */
  lemma FullHeapCut(st: State, c: Ended)
    requires Wf(st) && st.index == [] && CutReady(st, TableHeap(st)) && c == TableCut(TableHeap(st))
    ensures c.state.regions == st.regions + TableParts(st.end, 0)
    ensures multiset(c.state.index) == multiset([st.end, st.end + 0x2008])
    ensures c.blocks == [Region(st.end + 0xFF4, TABLE_NEED, false)]
  {
    hide Stretched, Lists, Leads, Tiles, Wf, TableFits, TableCut, TableParts, TableHeap;
    StartsBehind(st);
    FourPages(st);
    FullTableHeap(st);
    CutLast(TableHeap(st), st.regions, st.end);
  }

  lemma CutLast(s: State, rs: seq<Region>, e: int)
    requires s.regions == rs + [Region(e, 4 * PAGE, true)] && s.index == [e] && Where(s.regions, e) == |rs|
    requires TableFits(s) && e % PAGE == 0 && PAGE <= e
    ensures var c := TableCut(s);
      && c.state.regions == rs + TableParts(e, 0) && c.blocks == [Region(e + 0xFF4, TABLE_NEED, false)]
      && multiset(c.state.index) == multiset([e, e + 0x2008])
  {
    var h := Region(e, 4 * PAGE, true);
    hide PlaceParts, BlockStart, TailStarts, BlockOf, KeepsFront, TableParts, FirstFit;
    TablePartsAre(e);
    assert TableFit(s) == 0 && HoleAt(s, 0) == h;
    assert s.regions[..|rs|] == rs && s.regions[|rs| + 1..] == [];
    CutIndex(s, h);
  }

  lemma CutIndex(s: State, h: Region)
    requires s.index == [h.start] && TableFit(s) == 0 && Where(s.regions, h.start) < |s.regions| && HoleAt(s, 0) == h
    requires KeepsFront(h, true) && TailStarts(h, TABLE_NEED, true) == [h.start + 0x2008]
    ensures multiset(Placed(s, 0, TABLE_NEED, true).index) == multiset([h.start, h.start + 0x2008])
  {
    hide PlacedRegions, TailStarts, BlockStart, KeepsFront;
    PlacedElements(s.index, 0, true, [h.start + 0x2008],
      Smaller(PlacedRegions(s.regions, Where(s.regions, h.start), TABLE_NEED, true)));
  }

  /** That heap after the growth: the tail hole has it. */
  lemma FullHeapGrown(rs: seq<Region>, idx: seq<int>, s: int, e: int, growth: int)
    requires Tiles(rs, s, e) && multiset(idx) == multiset([e, e + 0x2008])
    ensures GrownRegions(rs + TableParts(e, 0), idx, e, growth) == rs + TableParts(e, growth)
  {
    hide Tiles;
    PartsAt(rs, s, e, 0);
    forall j | 0 <= j < |idx| ensures idx[j] <= e + 0x2008 {
      assert idx[j] in multiset([e, e + 0x2008]);
    }
    assert e + 0x2008 in multiset(idx);
    HighestIs(idx, e + 0x2008);
    assert (rs + TableParts(e, 0))[..|rs| + 2] == rs + TableParts(e, 0)[..2];
  }

  lemma PartsAt(rs: seq<Region>, s: int, e: int, growth: int)
    requires Tiles(rs, s, e)
    ensures var rs' := rs + TableParts(e, growth);
      && Where(rs', e) == |rs| && Where(rs', e + 0x2008) == |rs| + 2
      && SizeAt(rs', e) == 0xFF4 && SizeAt(rs', e + 0x2008) == 0x1FF8 + growth
  {
    NoStartBehind(rs, s, e, e);
    NoStartBehind(rs, s, e, e + 0x2008);
    hide Tiles;
    WhereConcat(rs, TableParts(e, growth), e);
    WhereConcat(rs, TableParts(e, growth), e + 0x2008);
    PartsWhere(e, growth);
  }

  lemma PartsWhere(e: int, growth: int)
    ensures Where(TableParts(e, growth), e) == 0 && Where(TableParts(e, growth), e + 0x2008) == 2
  {
    var ps := TableParts(e, growth);
    assert ps[1..] == [ps[1], ps[2]] && ps[1..][1..] == [ps[2]];
    assert Where([ps[2]], e + 0x2008) == 0 && Where(ps[1..], e + 0x2008) == 1;
  }

  /** The request is served from the tail hole. */
  lemma TailServes(st: State, rs: seq<Region>, s: int, e: int, growth: int, need: int, fuel: nat)
    requires Tiles(rs, s, e) && st.regions == rs + TableParts(e, growth)
    requires multiset(st.index) == multiset([e, e + 0x2008]) && 0xFF4 < need <= growth
    ensures var r := AllocAsWritten(st, need, false, fuel);
      r.Some? && r.value.state.end == st.end && r.value.blocks == [Region(e + 0x2008, need, false)]
  {
    PartsAt(rs, s, e, growth);
    assert e + 0x2008 in multiset(st.index);
    FitFound(st.index, st.regions, need, false, e + 0x2008);
    var k := FirstFit(st.index, st.regions, need, false);
    assert st.index[k] in multiset([e, e + 0x2008]);
    assert st.index[k] == e + 0x2008;
    FitReturns(st, need, false, fuel);
    assert HoleAt(st, k).start == e + 0x2008 && HoleAt(st, k).size == 0x1FF8 + growth;
  }

  lemma WholePages(length: int, need: int)
    requires length % PAGE == 0
    ensures RoundUp(length + need) < length + need + PAGE
  {
  }

  /** When the heap is full and the page table does come, the block that alloc returns ends beyond the heap. */
  lemma BlockBeyond(st: State, need: int, fuel: nat)
    requires Wf(st) && st.index == [] && OVERHEAD <= need && OneMissing(st, need) && !AllTables(st, need)
    requires TablesPresent(st.tables, st.end, st.end + 4 * PAGE) && 3 <= fuel
    ensures var r := AllocAsWritten(st, need, false, fuel);
      && r.Some?
      && r.value.blocks == [Region(st.end + 0xFF4, TABLE_NEED, false), Region(st.end + 0x2008, need, false)]
      && r.value.state.end == Target(st, need) < st.end + 0x2008 + need
  {
    hide AllocAsWritten, NewLength, Expanded, AllTables, OneMissing, TablesPresent, GrownRegions, FirstFit, Wf,
      TableCut, TableHeap, TableFits, LeftByCut, GivenBytes;
    GrowthEnough(st, need);
    NothingFits(st, need, false);
    LongGrowth(st, need);
    ExpandedByCut(st, need, fuel - 1);
    GrowingAlloc(st, need, false, fuel);
    BeyondServed(st, Expanded(st, need, fuel - 1).value, need, fuel - 1);
  }

  lemma BeyondServed(st: State, e: Ended, need: int, fuel: nat)
    requires Wf(st) && st.index == [] && LeftByCut(st, e, Target(st, need)) && 0xFF4 < need <= Target(st, need) - st.end
    ensures e.blocks == [Region(st.end + 0xFF4, TABLE_NEED, false)]
    ensures var r := AllocAsWritten(GivenBytes(e.state, st.end), need, false, fuel);
      r.Some? && r.value.state.end == Target(st, need) && r.value.blocks == [Region(st.end + 0x2008, need, false)]
  {
    hide AllocAsWritten, NewLength, GrownRegions, FirstFit, Wf, TableCut, TableHeap, TableFits, TableParts, Lists,
      Leads;
    FullHeapCut(st, TableCut(TableHeap(st)));
    StartsBehind(st);
    var growth := Target(st, need) - st.end;
    var g := GivenBytes(e.state, st.end);
    FullHeapGrown(st.regions, e.state.index, st.start, st.end, growth);
    assert st.end in multiset(e.state.index);
    TailServes(g, st.regions, st.start, st.end, growth, need, fuel);
  }

  /** A growth that misses a table behind the first four pages is a long one. */
  lemma LongGrowth(st: State, need: int)
    requires Wf(st) && !AllTables(st, need) && TablesPresent(st.tables, st.end, st.end + 4 * PAGE)
    ensures 0xFF4 < need && Target(st, need) < st.end + need + PAGE
  {
    PageSums(st.end, st.start);
    WholePages(st.end - st.start, need);
  }

  // ---- From boot ----------------------------------------------------------------------------------------------

  /** The first heap, taken whole. */
  function Whole(): State {
    With([Region(BOOT_START, SIZE, false)], [])
  }

  /** Two blocks, the second one up to the given end. */
  function Filled(end: int): State {
    Whole().(end := end, regions := [Region(BOOT_START, SIZE, false), Region(BOOT_END, end - BOOT_END, false)])
  }

  ghost predicate FilledTo(end: int) {
    end % PAGE == 0 && BOOT_END < end <= BOOT_TABLE_END
  }

  lemma TakesWhole()
    ensures Makes(Fresh(), SIZE, Whole()) && Wf(Whole())
  {
    FreshIs();
    TakesEnd(Fresh(), [], Region(BOOT_START, SIZE, true), SIZE);
    assert Whole() == AfterCut(Fresh(), [], Region(BOOT_START, SIZE, true), SIZE);
  }

  lemma WholeGrows(end: int)
    requires FilledTo(end)
    ensures var need := end - BOOT_END;
      && FirstFit(Whole().index, Whole().regions, need, false) == |Whole().index| && OVERHEAD <= need
      && Wf(Whole()) && GrowGuard(Whole(), need)
      && Grown(Whole(), need) ==
           With([Region(BOOT_START, SIZE, false), Region(BOOT_END, need, true)], [BOOT_END]).(end := end)
  {
    hide Makes, Wf, Tiles, TablesPresent;
    TakesWhole();
    BootTables({BOOT_TABLE}, BOOT_END, end);
    PageApart(BOOT_END, end);
    PageSums(end, BOOT_START);
  }

  lemma Fills(end: int)
    requires FilledTo(end)
    ensures Makes(Whole(), end - BOOT_END, Filled(end)) && Wf(Filled(end))
  {
    var need := end - BOOT_END;
    WholeGrows(end);
    var g := Grown(Whole(), need);
    GrownWf(Whole(), need);
    hide Wf, GrowGuard, Grown, NewLength, Makes, AllocReady;
    TakesEnd(g, [Region(BOOT_START, SIZE, false)], Region(BOOT_END, need, true), need);
    assert AfterCut(g, [Region(BOOT_START, SIZE, false)], Region(BOOT_END, need, true), need) == Filled(end);
    MakesAfterGrowing(Whole(), need, Filled(end));
  }

  lemma MakesAfterGrowing(st: State, need: int, t: State)
    requires Wf(st) && OVERHEAD <= need && FirstFit(st.index, st.regions, need, false) == |st.index|
    requires GrowGuard(st, need) && Makes(Grown(st, need), need, t)
    ensures Makes(st, need, t)
  {
    ReadyGrows(st, need, false);
    GrowingRound(st, need, false);
  }

  lemma FilledTables(end: int, need: int)
    requires FilledTo(end) && OVERHEAD <= need
    ensures var st := Filled(end);
      && end < Target(st, need) < end + need + PAGE && Target(st, need) % PAGE == 0
      && (AllTables(st, need) <==> Target(st, need) <= BOOT_TABLE_END)
      && (TablesPresent(st.tables, end, end + 4 * PAGE) <==> end + 4 * PAGE <= BOOT_TABLE_END)
      && (TableComes(st) <==> end + 4 * PAGE <= BOOT_TABLE_END)
  {
    var st := Filled(end);
    Fills(end);
    Growth(st, need);
    hide Wf, FirstFit, NewLength;
    PageSums(end, 4 * PAGE);
    FilledLength(end, need);
    BootTables({BOOT_TABLE}, end, Target(st, need));
    BootTables({BOOT_TABLE}, end, end + 4 * PAGE);
    NothingFits(st, need, false);
  }

  lemma FilledLength(end: int, need: int)
    requires FilledTo(end)
    ensures Target(Filled(end), need) < end + need + PAGE
  {
    PageSums(end, BOOT_START);
    WholePages(end - BOOT_START, need);
  }

  /** Up to the end of the next page table only that one is missing. */
  lemma FilledOneMissing(end: int, need: int)
    requires FilledTo(end) && OVERHEAD <= need && Target(Filled(end), need) <= BOOT_TABLE_END + 0x40_0000
    ensures OneMissing(Filled(end), need)
  {
    var st := Filled(end);
    forall n: nat | end <= n * PAGE < Target(st, need) ensures HasTable({BOOT_TABLE} + {BOOT_TABLE + 1}, n) {
      assert n / ENTRIES == BOOT_TABLE || n / ENTRIES == BOOT_TABLE + 1;
    }
    assert TablesPresent(st.tables + {BOOT_TABLE + 1}, st.end, Target(st, need));
  }

  /** Two requests from boot fill the heap up to any page; the next one, without alignment, returns if and only if it
      stays within the one page table there is, or four pages do. */
  lemma FilledReturns(end: int, need: int, fuel: nat)
    requires FilledTo(end) && OVERHEAD <= need && Target(Filled(end), need) <= BOOT_TABLE_END + 0x40_0000 && 3 <= fuel
    ensures Makes(Fresh(), SIZE, Whole()) && Makes(Whole(), end - BOOT_END, Filled(end))
    ensures AllocAsWritten(Filled(end), need, false, fuel).Some? <==>
      Target(Filled(end), need) <= BOOT_TABLE_END || end + 4 * PAGE <= BOOT_TABLE_END
  {
    hide AllocAsWritten, NewLength, TablesPresent, OneMissing, AllTables, TableComes;
    TakesWhole();
    Fills(end);
    FilledTables(end, need);
    FilledOneMissing(end, need);
    FullHeapReturns(Filled(end), need, fuel);
  }

  /** A request of the first heap's size and one of 3 MiB fill the heap up to the end of its one page table. The next
      request never returns, however small, although the heap may grow far beyond. */
  lemma FullHeapHangs(size: nat, align: bool, fuel: nat)
    ensures Makes(Fresh(), SIZE, Whole()) && Makes(Whole(), 0x30_0000, Filled(BOOT_TABLE_END))
    ensures AllocAsWritten(Filled(BOOT_TABLE_END), size + OVERHEAD, align, fuel) == None
    ensures size < 0xFBF_E000 - OVERHEAD ==> Target(Filled(BOOT_TABLE_END), size + OVERHEAD) <= BOOT_MAX
  {
    hide AllocAsWritten, NewLength, TablesPresent, AllTables, TableComes, Makes, Wf, FirstFit, Target;
    var st := Filled(BOOT_TABLE_END);
    NothingFits(st, size + OVERHEAD, align);
    TakesWhole();
    Fills(BOOT_TABLE_END);
    FilledTables(BOOT_TABLE_END, size + OVERHEAD);
    AllocNeverReturns(st, size + OVERHEAD, align, fuel);
  }

  lemma FivePagesMore()
    ensures Target(Filled(0xC03F_C000), 0x5000) == 0xC040_1000
  {
  }

  /** Filled up to four pages below that, a request for five pages does return, with a block that ends 0x2008 bytes
      beyond the heap. */
  lemma BlockBeyondFromBoot(fuel: nat)
    requires 3 <= fuel
    ensures Makes(Fresh(), SIZE, Whole()) && Makes(Whole(), 0x2F_C000, Filled(0xC03F_C000))
    ensures var r := AllocAsWritten(Filled(0xC03F_C000), 0x5000, false, fuel);
      && r.Some? && r.value.state.end == 0xC040_1000
      && |r.value.blocks| == 2 && r.value.blocks[1] == Region(0xC03F_E008, 0x5000, false)
      && r.value.blocks[1].End() == r.value.state.end + 0x2008
  {
    hide AllocAsWritten, NewLength, TablesPresent, OneMissing, AllTables, TableComes, Makes, Wf;
    FivePagesMore();
    TakesWhole();
    Fills(0xC03F_C000);
    FilledTables(0xC03F_C000, 0x5000);
    FilledOneMissing(0xC03F_C000, 0x5000);
    BlockBeyond(Filled(0xC03F_C000), 0x5000, fuel);
  }
}
