/** Runs of the heap that need no guard, and runs that keep the hole index sorted (kernel/libc/memory.c). */
module HeapSteady {
  import opened HeapModel
  import opened HeapOps
  import opened HeapLaws
  import opened HeapAlloc
  import opened HeapOrder
  import opened HeapRuns

  // ---- Allocation without alignment and without free --------------------------------------------------------

  /** No region but the last is a hole. create_heap leaves the heap like this. */
  ghost predicate OnlyLastHole(rs: seq<Region>) {
    forall i :: 0 <= i < |rs| - 1 ==> !rs[i].hole
  }

  lemma {:induction false} FewHoles(rs: seq<Region>)
    requires OnlyLastHole(rs)
    ensures |HoleStarts(rs)| <= 1
  {
    if 1 < |rs| {
      assert forall i :: 0 <= i < |rs[1..]| ==> rs[1..][i] == rs[i + 1];
      FewHoles(rs[1..]);
      assert HoleStarts(rs) == HoleStarts(rs[1..]);
    } else if |rs| == 1 {
      assert HoleStarts(rs[1..]) == [];
    }
  }

  lemma FewEntries(st: State)
    requires Wf(st) && OnlyLastHole(st.regions)
    ensures |st.index| <= 1 && (st.index == [] || EndsInHole(st.regions))
    ensures forall k :: 0 <= k < |st.index| ==> Where(st.regions, st.index[k]) == |st.regions| - 1
  {
    FewHoles(st.regions);
    assert |multiset(st.index)| == |st.index| && |multiset(HoleStarts(st.regions))| == |HoleStarts(st.regions)|;
    forall k | 0 <= k < |st.index| ensures Where(st.regions, st.index[k]) == |st.regions| - 1 {
      IndexedHole(st.index, st.regions, st.start, st.end, st.index[k]);
    }
    if st.index != [] {
      IndexedHole(st.index, st.regions, st.start, st.end, st.index[0]);
      assert Where(st.regions, st.index[0]) == |st.regions| - 1;
    }
  }

  lemma PlacedOnlyLast(rs: seq<Region>, i: nat, need: int)
    requires i == |rs| - 1 && OnlyLastHole(rs)
    ensures OnlyLastHole(PlacedRegions(rs, i, need, false))
  {
    var ps := PlaceParts(rs[i], need, false);
    var rs' := PlacedRegions(rs, i, need, false);
    assert rs' == rs[..i] + ps;
    forall x | 0 <= x < |rs'| - 1 ensures !rs'[x].hole {
      assert rs'[x] == if x < i then rs[x] else ps[x - i];
    }
  }

  lemma GrownOnlyLast(st: State, need: int)
    requires Wf(st) && OnlyLastHole(st.regions) && 0 < need
    ensures OnlyLastHole(Grown(st, need).regions)
  {
    hide NewLength;
    FewEntries(st);
    if st.index == [] {
      NoHoles(st.index, st.regions);
    } else {
      HighestIsLast(st.regions, st.index, st.start, st.end);
    }
  }

  /** A request without alignment that some hole fits. */
  lemma FittingRequest(st: State, need: int)
    requires Wf(st) && OVERHEAD <= need && OnlyLastHole(st.regions) && 3 <= st.capacity
    requires FirstFit(st.index, st.regions, need, false) < |st.index|
    ensures AllocGuard(st, need, false) && OnlyLastHole(Allocated(st, need, false).state.regions)
    ensures Allocated(st, need, false).rounds == 0
  {
    var k := FirstFit(st.index, st.regions, need, false);
    FewEntries(st);
    Found(st, need, false);
    PlacedOnlyLast(st.regions, Where(st.regions, st.index[k]), need);
  }

  /** As long as nothing is freed, a request without alignment meets every guard as the code stands: it only needs room
      below the heap's limit, and page tables that are there. */
  lemma UnalignedIsSteady(st: State, need: int)
    requires Wf(st) && OVERHEAD <= need && OnlyLastHole(st.regions) && 3 <= st.capacity
    requires st.start + NewLength(st, need) <= st.max
    requires TablesPresent(st.tables, st.end, st.start + NewLength(st, need))
    ensures AllocGuard(st, need, false) && OnlyLastHole(Allocated(st, need, false).state.regions)
  {
    if FirstFit(st.index, st.regions, need, false) < |st.index| {
      FittingRequest(st, need);
    } else {
      var g := Grown(st, need);
      FewEntries(st);
      GrownStep(st, need, false);
      GrownOnlyLast(st, need);
      LastHoleNotNegative(st);
      if FirstFit(g.index, g.regions, need, false) == |g.index| { NoFitShortfall(g, need, false); }
      FittingRequest(g, need);
    }
  }

  /** A store, or a request without alignment that leaves the heap below its limit and within its page tables. */
  ghost predicate Unaligned(st: State, e: Event) {
    match e
    case AllocEv(size, align) =>
      var end := st.start + NewLength(st, size + OVERHEAD);
      !align && end <= st.max && TablesPresent(st.tables, st.end, end)
    case FreeEv(_) => false
    case StoreEv(_, _, _) => true
  }

  /** Over any run of allocations without alignment, and of stores, only the last region is ever a hole. */
  lemma {:induction false} UnalignedRunIsSteady(trace: seq<Snapshot>, events: seq<Event>, k: nat)
    requires Run(trace, events) && Inv(trace[0]) && k < |trace| && OnlyLastHole(trace[0].st.regions)
    requires 3 <= trace[0].st.capacity
    requires forall j :: 0 <= j < k ==> Unaligned(trace[j].st, events[j])
    ensures OnlyLastHole(trace[k].st.regions) && 3 <= trace[k].st.capacity
  {
    if 0 < k {
      UnalignedRunIsSteady(trace, events, k - 1);
      RunKeepsInv(trace, events, k - 1);
      var s, e := trace[k - 1], events[k - 1];
      assert Step(s, e, trace[k]);
      if e.AllocEv? {
        UnalignedIsSteady(s.st, e.size + OVERHEAD);
        AllocatedGood(s.st, e.size + OVERHEAD, false);
      }
    }
  }

  // ---- The order of the index ---------------------------------------------------------------------------------

  /** Allocations without alignment that do not expand the heap, frees without left merge, and stores. */
  ghost predicate Orderly(st: State, e: Event) {
    match e
    case AllocEv(size, align) => !align && FirstFit(st.index, st.regions, size + OVERHEAD, false) < |st.index|
    case FreeEv(p) =>
      var i := Where(st.regions, p - HEADER); i < |st.regions| && MergeFrom(st.regions, i) == i
    case StoreEv(_, _, _) => true
  }

  /** Region i is a hole that can hold the request. */
  ghost predicate FitsIn(st: State, need: int, align: bool, i: nat) {
    i < |st.regions| && st.regions[i].hole && CanHold(st.regions[i], need, align)
  }

  /** The search finds a hole that can hold it and is no bigger than hole i. */
  ghost predicate FindsSmallest(st: State, need: int, align: bool, i: nat) {
    var k := FirstFit(st.index, st.regions, need, align);
    && i < |st.regions| && k < |st.index| && Where(st.regions, st.index[k]) < |st.regions|
    && CanHold(HoleAt(st, k), need, align) && HoleAt(st, k).size <= st.regions[i].size
  }

  lemma AllocKeepsSorted(s: Snapshot, size: nat, align: bool, t: Snapshot)
    requires AllocStep(s, size, align, t) && SortedIndex(s.st) && !align
    requires FirstFit(s.st.index, s.st.regions, size + OVERHEAD, false) < |s.st.index|
    ensures SortedIndex(t.st)
  {
    Found(s.st, size + OVERHEAD, false);
    PlacedSorted(s.st, FirstFit(s.st.index, s.st.regions, size + OVERHEAD, false), size + OVERHEAD);
  }

  lemma FreeKeepsSorted(s: Snapshot, p: int, t: Snapshot)
    requires FreeStep(s, p, t) && SortedIndex(s.st)
    requires MergeFrom(s.st.regions, Where(s.st.regions, p - HEADER)) == Where(s.st.regions, p - HEADER)
    ensures SortedIndex(t.st)
  {
    FreedSorted(s.st, Where(s.st.regions, p - HEADER));
  }

  lemma StepKeepsSorted(s: Snapshot, e: Event, t: Snapshot)
    requires Step(s, e, t) && Orderly(s.st, e) && SortedIndex(s.st)
    ensures SortedIndex(t.st)
  {
    hide AllocStep, FreeStep, SortedIndex;
    if e.AllocEv? {
      assert AllocStep(s, e.size, e.align, t);
      AllocKeepsSorted(s, e.size, e.align, t);
    } else if e.FreeEv? {
      assert FreeStep(s, e.p, t);
      FreeKeepsSorted(s, e.p, t);
    } else {
      assert t.st == s.st;
    }
  }

  /** Over any such run the index stays sorted by size, so that the search finds a smallest hole that fits. */
  lemma {:induction false} RunKeepsSorted(trace: seq<Snapshot>, events: seq<Event>, k: nat)
    requires Run(trace, events) && Inv(trace[0]) && k < |trace| && SortedIndex(trace[0].st)
    requires forall j :: 0 <= j < k ==> Orderly(trace[j].st, events[j])
    ensures SortedIndex(trace[k].st)
    ensures forall need, align, i :: FitsIn(trace[k].st, need, align, i) ==> FindsSmallest(trace[k].st, need, align, i)
  {
    if 0 < k {
      RunKeepsSorted(trace, events, k - 1);
      RunKeepsInv(trace, events, k - 1);
      StepKeepsSorted(trace[k - 1], events[k - 1], trace[k]);
    }
    RunKeepsInv(trace, events, k);
    var st := trace[k].st;
    forall need, align, i | FitsIn(st, need, align, i) ensures FindsSmallest(st, need, align, i) {
      SmallestFits(st, need, align, i);
    }
  }
}
