/** A page table that expand takes from the heap it is expanding: when it comes, and when the heap survives
    (kernel/libc/memory.c, kernel/cpu/paging/paging.c). */
module HeapPageTable {
  import opened Frames
  import opened HeapModel
  import opened HeapOps
  import opened HeapLaws
  import opened HeapReentry

  // ---- Counting bytes -----------------------------------------------------------------------------------------

  /** Bytes of all regions, holes and blocks. */
  function Total(rs: seq<Region>): int {
    if rs == [] then 0 else rs[0].size + Total(rs[1..])
  }

  lemma {:induction false} TotalConcat(a: seq<Region>, b: seq<Region>)
    ensures Total(a + b) == Total(a) + Total(b)
  {
    if a == [] {
      assert a + b == b;
    } else {
      assert (a + b)[1..] == a[1..] + b;
      TotalConcat(a[1..], b);
    }
  }

  lemma {:induction false} TilesTotal(rs: seq<Region>, s: int, e: int)
    requires Tiles(rs, s, e)
    ensures Total(rs) == e - s
  {
    if rs != [] { TilesTotal(rs[1..], rs[0].End(), e); }
  }

  lemma SpliceTotal(rs: seq<Region>, i: nat, mid: seq<Region>)
    requires i < |rs|
    ensures Total(rs[..i] + mid + rs[i + 1..]) == Total(rs) - rs[i].size + Total(mid)
  {
    SplitAt(rs, i);
    TotalConcat(rs[..i] + [rs[i]], rs[i + 1..]);
    TotalConcat(rs[..i], [rs[i]]);
    TotalConcat(rs[..i] + mid, rs[i + 1..]);
    TotalConcat(rs[..i], mid);
    assert Total([rs[i]]) == rs[i].size;
  }

  lemma PartsTotal(h: Region, need: int, align: bool)
    ensures Total(PlaceParts(h, need, align)) == h.size
  {
    hide FrontSize, Taken;
    var at, after := BlockStart(h, align), BlockStart(h, align) + Taken(h, need);
    var front := FrontPart(h.start, at, KeepsFront(h, align));
    var block := [Region(at, Taken(h, need), false)];
    var back := if h.End() != after then [Region(after, h.End() - at - Taken(h, need), true)] else [];
    PartsAre(h, need, align);
    assert PlaceParts(h, need, align) == front + block + back;
    TotalConcat(front + block, back);
    TotalConcat(front, block);
    assert Total(front) == at - h.start && Total(block) == Taken(h, need) && Total(back) == h.End() - after;
  }

  /** A cut, sound or not, gives and takes no byte. */
  lemma PlacedTotal(rs: seq<Region>, i: nat, need: int, align: bool)
    requires i < |rs|
    ensures Total(PlacedRegions(rs, i, need, align)) == Total(rs)
  {
    hide PlaceParts;
    PartsTotal(rs[i], need, align);
    SpliceTotal(rs, i, PlaceParts(rs[i], need, align));
  }

  lemma GrownTotal(rs: seq<Region>, idx: seq<int>, end: int, growth: int)
    requires Leads(idx, rs)
    ensures Total(GrownRegions(rs, idx, end, growth)) == Total(rs) + growth
  {
    if idx == [] {
      TotalConcat(rs, [Region(end, growth, true)]);
    } else {
      var i := Where(rs, Highest(idx));
      SpliceTotal(rs, i, [rs[i].(size := rs[i].size + growth)]);
    }
  }

  // ---- Where the index leads ----------------------------------------------------------------------------------

  /** Every entry leads to a hole. */
  ghost predicate Leads(idx: seq<int>, rs: seq<Region>) {
    forall a :: a in idx ==> Where(rs, a) < |rs| && rs[Where(rs, a)].hole
  }

  lemma WfLeads(st: State)
    requires Wf(st)
    ensures Leads(st.index, st.regions)
  {
    forall a | a in st.index ensures Where(st.regions, a) < |st.regions| && st.regions[Where(st.regions, a)].hole {
      IndexedHole(st.index, st.regions, st.start, st.end, a);
    }
  }

  lemma {:induction false} StartLeads(rs: seq<Region>, a: int)
    requires a in HoleStarts(rs)
    ensures Where(rs, a) < |rs|
  {
    if rs[0].start != a { StartLeads(rs[1..], a); }
  }

  lemma {:induction false} WhereSame(rs: seq<Region>, rs': seq<Region>, a: int)
    requires |rs| == |rs'| && forall i :: 0 <= i < |rs| ==> rs[i].start == rs'[i].start
    ensures Where(rs, a) == Where(rs', a)
  {
    if rs != [] && rs[0].start != a { WhereSame(rs[1..], rs'[1..], a); }
  }

  lemma {:induction false} HoleStartsSame(rs: seq<Region>, rs': seq<Region>)
    requires |rs| == |rs'| && forall i :: 0 <= i < |rs| ==> rs[i].start == rs'[i].start && rs[i].hole == rs'[i].hole
    ensures HoleStarts(rs) == HoleStarts(rs')
  {
    if rs != [] { HoleStartsSame(rs[1..], rs'[1..]); }
  }

  lemma {:induction false} WhereAppended(rs: seq<Region>, r: Region, a: int)
    ensures Where(rs + [r], a) ==
      if Where(rs, a) < |rs| then Where(rs, a) else if r.start == a then |rs| else |rs| + 1
  {
    if rs == [] {
      assert rs + [r] == [r];
    } else {
      assert (rs + [r])[1..] == rs[1..] + [r];
      if rs[0].start != a { WhereAppended(rs[1..], r, a); }
    }
  }

  /** Giving bytes to the highest hole moves no region and no entry. */
  lemma EnlargedLeads(rs: seq<Region>, idx: seq<int>, i: nat, growth: int)
    requires i < |rs| && Leads(idx, rs) && Lists(idx, rs)
    ensures Leads(idx, Enlarged(rs, i, growth)) && Lists(idx, Enlarged(rs, i, growth))
  {
    var rs' := Enlarged(rs, i, growth);
    HoleStartsSame(rs, rs');
    forall a | a in idx ensures Where(rs', a) < |rs'| && rs'[Where(rs', a)].hole {
      WhereSame(rs, rs', a);
    }
  }

  /** The end of the heap is the start of no region. */
  lemma EndIsFree(rs: seq<Region>, s: int, e: int)
    requires Tiles(rs, s, e)
    ensures Where(rs, e) == |rs|
  {
    if Where(rs, e) < |rs| { TilesAt(rs, s, e, Where(rs, e)); }
  }

  /** With a hole, the highest one has the bytes it had and those it is given. */
  lemma EnlargedSize(rs: seq<Region>, i: nat, growth: int, a: int)
    requires i < |rs| && Where(rs, a) == i
    ensures SizeAt(Enlarged(rs, i, growth), a) == rs[i].size + growth
  {
    WhereSame(rs, Enlarged(rs, i, growth), a);
  }

  lemma AlignOffsetBounds(a: int)
    ensures 0 <= AlignOffset(a) <= PAGE
  {
  }

  lemma FitLeads(rs: seq<Region>, a: int, need: int, align: bool)
    requires Fits(rs, a, need, align) && 0 < need
    ensures Where(rs, a) < |rs|
  {
    AlignOffsetBounds(a);
  }

  lemma {:induction false} FitFound(idx: seq<int>, rs: seq<Region>, need: int, align: bool, a: int)
    requires a in idx && Fits(rs, a, need, align)
    ensures FirstFit(idx, rs, need, align) < |idx|
  {
    var j :| 0 <= j < |idx| && idx[j] == a;
    if FirstFit(idx, rs, need, align) == |idx| { NoFitBefore(idx, rs, need, align, j); }
  }

  // ---- The request for a page table ---------------------------------------------------------------------------

  function TableFit(st: State): (k: nat)
    ensures k <= |st.index|
  {
    FirstFit(st.index, st.regions, TABLE_NEED, true)
  }

  predicate TableFits(st: State) {
    TableFit(st) < |st.index|
  }

  /** The heap after a round of growing for a page table. */
  function Stretched(st: State): State {
    GivenBytes(st.(end := st.end + 2 * PAGE), st.end)
  }

  ghost predicate TwoPages(st: State) {
    TablesPresent(st.tables, st.end, st.end + 2 * PAGE)
  }

  /** Some hole takes the page table, or the pages have their tables that expand backs for it: two, and two more if
      there is no hole that they could be added to. */
  ghost predicate TableComes(st: State) {
    TableFits(st) || TablesPresent(st.tables, st.end, st.end + (if st.index == [] then 4 else 2) * PAGE)
  }

  /** The heap that the page table is cut out of. */
  ghost function TableHeap(st: State): State {
    if TableFits(st) then st
    else if TableFits(Stretched(st)) then Stretched(st)
    else Stretched(Stretched(st))
  }

  /** The cut. */
  function TableCut(st: State): Ended
    requires TableFits(st) && Where(st.regions, st.index[TableFit(st)]) < |st.regions|
  {
    Ended(Placed(st, TableFit(st), TABLE_NEED, true), [BlockOf(HoleAt(st, TableFit(st)), TABLE_NEED, true)])
  }

  ghost predicate Aligned(st: State) {
    st.start % PAGE == 0 && st.end % PAGE == 0 && 0 <= st.end
  }

  lemma TwoPagesMore(length: int)
    requires length % PAGE == 0
    ensures RoundUp(length + TABLE_NEED) == length + 2 * PAGE
  {
  }

  lemma TableTarget(st: State)
    requires Aligned(st)
    ensures st.start + NewLength(st, TABLE_NEED) == st.end + 2 * PAGE
  {
    hide RoundUp;
    PageSums(st.end, st.start);
    TwoPagesMore(st.end - st.start);
  }

  lemma FitCuts(st: State, fuel: nat)
    requires TableFits(st)
    ensures Where(st.regions, st.index[TableFit(st)]) < |st.regions|
    ensures AllocAsWritten(st, TABLE_NEED, true, fuel) == Some(TableCut(st))
  {
    FitLeads(st.regions, st.index[TableFit(st)], TABLE_NEED, true);
  }

  /** A round that finds its tables goes on in the heap it stretched. */
  lemma StretchCall(st: State, fuel: nat)
    requires Aligned(st) && !TableFits(st) && TwoPages(st) && 0 < fuel
    ensures AllocAsWritten(st, TABLE_NEED, true, fuel) == AllocAsWritten(Stretched(st), TABLE_NEED, true, fuel - 1)
  {
    hide AllocAsWritten, ExpandAsWritten, NewLength, GivenBytes, FirstFit, TablesPresent;
    TableTarget(st);
    GrowingAlloc(st, TABLE_NEED, true, fuel);
    ExpandReenters(st, st.end, st.end + 2 * PAGE, fuel - 1);
    ThenNothing(AllocAsWritten(Stretched(st), TABLE_NEED, true, fuel - 1));
    assert Expanded(st, TABLE_NEED, fuel - 1).value.blocks == [];
  }

  /** expand that misses a table returns only if the request for the table does. */
  lemma {:induction false} ExpandStuck(st: State, a: int, target: int, fuel: nat)
    requires 0 <= a && a % PAGE == 0 && !TablesPresent(st.tables, a, target)
    requires AllocAsWritten(st, TABLE_NEED, true, fuel) == None
    ensures ExpandAsWritten(st, a, target, fuel) == None
    decreases target - a
  {
    hide AllocAsWritten;
    if a < target {
      FirstPagePresent(st.tables, a, target);
      if HasTableAt(st.tables, a) { ExpandStuck(st, a + PAGE, target, fuel); }
    }
  }

  /** No hole takes a page table, and expand misses the table of a page it has to back for one: the request asks for the
      same table again, and never returns. */
  lemma {:induction false} TableNeverComes(st: State, fuel: nat)
    requires Aligned(st) && !TableFits(st) && !TwoPages(st)
    ensures AllocAsWritten(st, TABLE_NEED, true, fuel) == None
    decreases fuel
  {
    hide AllocAsWritten, ExpandAsWritten, NewLength, GivenBytes, FirstFit, TablesPresent;
    if fuel == 0 {
      NoFuel(st, TABLE_NEED, true);
    } else {
      TableTarget(st);
      TableNeverComes(st, fuel - 1);
      ExpandStuck(st, st.end, st.end + 2 * PAGE, fuel - 1);
      GrowingAlloc(st, TABLE_NEED, true, fuel);
    }
  }

  /** What giving bytes to the highest hole, or to a new one at the end, keeps. */
  lemma GrownLeads(rs: seq<Region>, idx: seq<int>, end: int, growth: int)
    requires Leads(idx, rs) && Lists(idx, rs) && (idx == [] ==> Where(rs, end) == |rs|)
    ensures Leads(GrownIndex(idx, end), GrownRegions(rs, idx, end, growth))
    ensures Lists(GrownIndex(idx, end), GrownRegions(rs, idx, end, growth))
  {
    if idx == [] {
      var h := Region(end, growth, true);
      NoHoles(idx, rs);
      WhereAppended(rs, h, end);
      HoleStartsConcat(rs, [h]);
      assert HoleStarts(rs + [h]) == [end];
    } else {
      hide Enlarged;
      EnlargedLeads(rs, idx, Where(rs, Highest(idx)), growth);
    }
  }

  /** What stretching keeps, and that it adds two pages. */
  lemma StretchedKeeps(st: State)
    requires Leads(st.index, st.regions) && Lists(st.index, st.regions)
    requires st.index == [] ==> Where(st.regions, st.end) == |st.regions|
    ensures var s := Stretched(st);
      && Leads(s.index, s.regions) && Lists(s.index, s.regions) && s.index != []
      && Total(s.regions) == Total(st.regions) + 2 * PAGE
      && s == st.(end := st.end + 2 * PAGE, regions := s.regions, index := s.index)
  {
    hide Leads, Lists, GrownRegions;
    GrownTotal(st.regions, st.index, st.end, 2 * PAGE);
    GrownLeads(st.regions, st.index, st.end, 2 * PAGE);
  }

  /** Two more pages make any hole that has its tags fit. */
  lemma StretchedFits(st: State)
    requires Leads(st.index, st.regions) && st.index != []
    requires OVERHEAD <= SizeAt(st.regions, Highest(st.index))
    ensures TableFits(Stretched(st))
  {
    var a := Highest(st.index);
    EnlargedSize(st.regions, Where(st.regions, a), 2 * PAGE, a);
    AlignOffsetBounds(a);
    FitFound(st.index, Stretched(st).regions, TABLE_NEED, true, a);
  }

  /** Two pages alone do not hold an aligned page table: the payload starts a page behind their first byte. */
  lemma TwoPagesDoNotFit(st: State)
    requires st.index == [] && st.end % PAGE == 0 && PAGE <= st.end && Where(st.regions, st.end) == |st.regions|
    ensures !TableFits(Stretched(st))
    ensures Stretched(st).index == [st.end] && SizeAt(Stretched(st).regions, st.end) == 2 * PAGE
  {
    WhereAppended(st.regions, Region(st.end, 2 * PAGE, true), st.end);
    BoundaryOffset(st.end);
  }

  lemma BoundaryOffset(a: int)
    requires a % PAGE == 0 && PAGE <= a
    ensures AlignOffset(a) == PAGE - HEADER
  {
  }

  /** What is known of the heap that the page table is cut out of. */
  ghost predicate CutReady(st: State, s: State) {
    && TableFits(s) && Leads(s.index, s.regions) && Lists(s.index, s.regions)
    && Where(s.regions, s.index[TableFit(s)]) < |s.regions|
    && s == st.(end := s.end, regions := s.regions, index := s.index) && st.end <= s.end
    && (s.end == st.end <==> TableFits(st))
    && Total(s.regions) == Total(st.regions) + (s.end - st.end)
  }

  lemma HighestHasTags(st: State)
    requires Wf(st) && st.index != []
    ensures OVERHEAD <= SizeAt(st.regions, Highest(st.index))
  {
    IndexedHole(st.index, st.regions, st.start, st.end, Highest(st.index));
    TilesAt(st.regions, st.start, st.end, Where(st.regions, Highest(st.index)));
  }

  lemma OnceReady(st: State)
    requires Leads(st.index, st.regions) && Lists(st.index, st.regions)
    requires st.index == [] ==> Where(st.regions, st.end) == |st.regions|
    requires !TableFits(st) && TableFits(Stretched(st))
    ensures CutReady(st, Stretched(st))
  {
    hide Stretched, Lists, Leads;
    StretchedKeeps(st);
    FitCuts(Stretched(st), 0);
  }

  lemma TwiceReady(st: State)
    requires st.index == [] && Leads(st.index, st.regions) && Lists(st.index, st.regions)
    requires st.end % PAGE == 0 && PAGE <= st.end && Where(st.regions, st.end) == |st.regions|
    ensures !TableFits(Stretched(st)) && CutReady(st, Stretched(Stretched(st)))
  {
    TwoPagesDoNotFit(st);
    var s := Stretched(st);
    assert Highest(s.index) == st.end;
    hide Stretched, Lists, Leads;
    StretchedKeeps(st);
    StretchedFits(s);
    OnceReady(s);
  }

  lemma TableHeapReady(st: State)
    requires Wf(st)
    ensures CutReady(st, TableHeap(st))
  {
    WfLeads(st);
    EndIsFree(st.regions, st.start, st.end);
    TilesExtent(st.regions, st.start, st.end);
    if TableFits(st) {
      FitCuts(st, 0);
    } else if st.index != [] {
      HighestHasTags(st);
      StretchedFits(st);
      OnceReady(st);
    } else {
      TwiceReady(st);
    }
  }

  lemma PagesSplit(tables: set<nat>, a: int, b: int, c: int)
    requires a <= b <= c
    ensures TablesPresent(tables, a, c) <==> TablesPresent(tables, a, b) && TablesPresent(tables, b, c)
  {
    if TablesPresent(tables, a, b) && TablesPresent(tables, b, c) {
      forall n: nat | a <= n * PAGE < c ensures HasTable(tables, n) {
        assert n * PAGE < b || b <= n * PAGE;
      }
    }
  }

  /** A request that returns cuts the page table out of that heap. */
  ghost predicate Cuts(st: State, r: Option<Ended>) {
    CutReady(st, TableHeap(st)) && r == Some(TableCut(TableHeap(st)))
  }

  lemma CutsAtOnce(st: State, fuel: nat)
    requires Wf(st) && TableFits(st)
    ensures Cuts(st, AllocAsWritten(st, TABLE_NEED, true, fuel))
  {
    hide AllocAsWritten, FirstFit;
    TableHeapReady(st);
    FitCuts(st, fuel);
  }

  lemma NothingFits(st: State)
    requires !TableFits(st)
    ensures AllocAsWritten(st, TABLE_NEED, true, 0) == None
  {
    NoFuel(st, TABLE_NEED, true);
  }

  /** One round of growing is enough, if it finds its tables. */
  lemma OneStretch(s: State, fuel: nat)
    requires Aligned(s) && !TableFits(s) && TableFits(Stretched(s))
    ensures var r, s' := AllocAsWritten(s, TABLE_NEED, true, fuel), Stretched(s);
      && Where(s'.regions, s'.index[TableFit(s')]) < |s'.regions|
      && r == if fuel == 0 || !TwoPages(s) then None else Some(TableCut(s'))
  {
    hide AllocAsWritten, FirstFit, Stretched, TwoPages, TableCut;
    FitCuts(Stretched(s), if fuel == 0 then 0 else fuel - 1);
    if fuel == 0 {
      NothingFits(s);
    } else if TwoPages(s) {
      StretchCall(s, fuel);
    } else {
      TableNeverComes(s, fuel);
    }
  }

  lemma CutsLater(st: State, fuel: nat)
    requires Wf(st) && !TableFits(st) && TwoPages(st) && st.index != []
    ensures var r := AllocAsWritten(st, TABLE_NEED, true, fuel);
      if fuel == 0 then r == None else Cuts(st, r)
  {
    hide AllocAsWritten, TableFits, Stretched, TwoPages, TableCut;
    TilesExtent(st.regions, st.start, st.end);
    TableHeapReady(st);
    WfLeads(st);
    HighestHasTags(st);
    StretchedFits(st);
    OneStretch(st, fuel);
  }

  lemma StretchedAligned(st: State)
    requires Aligned(st)
    ensures Aligned(Stretched(st)) && Stretched(st).end == st.end + 2 * PAGE && Stretched(st).tables == st.tables
  {
    PageSums(st.end, 2 * PAGE);
  }

  lemma NoHoleNow(st: State)
    requires Wf(st) && st.index == []
    ensures !TableFits(st) && !TableFits(Stretched(st)) && TableFits(Stretched(Stretched(st)))
    ensures Aligned(st) && Aligned(Stretched(st)) && Aligned(Stretched(Stretched(st)))
  {
    WfLeads(st);
    EndIsFree(st.regions, st.start, st.end);
    TilesExtent(st.regions, st.start, st.end);
    TwiceReady(st);
    StretchedAligned(st);
    StretchedAligned(Stretched(st));
  }

  /** Without any hole the first two pages do not do. */
  lemma CutsLast(st: State, fuel: nat)
    requires Wf(st) && TwoPages(st) && st.index == []
    ensures var r := AllocAsWritten(st, TABLE_NEED, true, fuel);
      if fuel < 2 || !TwoPages(Stretched(st)) then r == None else Cuts(st, r)
  {
    hide AllocAsWritten, TableFits, Stretched, TwoPages, TableCut, Wf, CutReady, Aligned;
    NoHoleNow(st);
    TableHeapReady(st);
    if fuel == 0 {
      NothingFits(st);
    } else {
      StretchCall(st, fuel);
      OneStretch(Stretched(st), fuel - 1);
    }
  }

  /** The request for a page table returns if and only if the table comes; then it is cut out of a hole, or out of what
      was added for it. */
  lemma TableRequest(st: State, fuel: nat)
    requires Wf(st)
    ensures var r := AllocAsWritten(st, TABLE_NEED, true, fuel);
      && (r.Some? ==> TableComes(st) && Cuts(st, r))
      && (TableComes(st) && 2 <= fuel ==> r.Some?)
  {
    TableComesInPages(st);
    hide AllocAsWritten, TableFits, TwoPages, Stretched, TableComes, Cuts;
    if TableFits(st) {
      CutsAtOnce(st, fuel);
    } else if !TwoPages(st) {
      TableNeverComes(st, fuel);
    } else if st.index != [] {
      CutsLater(st, fuel);
    } else {
      CutsLast(st, fuel);
    }
  }

  lemma TableComesInPages(st: State)
    requires Wf(st)
    ensures Aligned(st)
    ensures TableComes(st) <==> TableFits(st) || (TwoPages(st) && (st.index == [] ==> TwoPages(Stretched(st))))
  {
    TilesExtent(st.regions, st.start, st.end);
    StretchedAligned(st);
    PagesSplit(st.tables, st.end, st.end + 2 * PAGE, st.end + 4 * PAGE);
  }
}
