/** alloc as a whole: search, growth and cut (kernel/libc/memory.c). */
module HeapAlloc {
  import opened HeapModel
  import opened HeapOps
  import opened HeapLaws

  lemma Found(st: State, need: int, align: bool)
    requires Wf(st) && FirstFit(st.index, st.regions, need, align) < |st.index|
    ensures var k := FirstFit(st.index, st.regions, need, align);
      Where(st.regions, st.index[k]) < |st.regions|
  {
    IndexedHole(st.index, st.regions, st.start, st.end, st.index[FirstFit(st.index, st.regions, need, align)]);
  }

  /** The search misses no hole: it comes back with nothing if and only if no hole can hold the request. */
  lemma SearchExact(st: State, need: int, align: bool)
    requires Wf(st)
    ensures FirstFit(st.index, st.regions, need, align) < |st.index| <==>
      exists i :: 0 <= i < |st.regions| && st.regions[i].hole && CanHold(st.regions[i], need, align)
    ensures forall k :: 0 <= k < FirstFit(st.index, st.regions, need, align) ==>
      Where(st.regions, st.index[k]) < |st.regions| && !CanHold(HoleAt(st, k), need, align)
  {
    var k := FirstFit(st.index, st.regions, need, align);
    forall j: nat | j < |st.index| ensures Where(st.regions, st.index[j]) < |st.regions| && HoleAt(st, j).hole
      && (Fits(st.regions, st.index[j], need, align) <==> CanHold(HoleAt(st, j), need, align))
    {
      EntryFitsExactly(st, j, need, align);
    }
    forall j: nat | j < k ensures !CanHold(HoleAt(st, j), need, align) {
      NoFitBefore(st.index, st.regions, need, align, j);
    }
    forall i: nat | i < |st.regions| && st.regions[i].hole && CanHold(st.regions[i], need, align)
      ensures k < |st.index|
    {
      HoleEntry(st, i);
    }
  }

  lemma EntryFitsExactly(st: State, j: nat, need: int, align: bool)
    requires Wf(st) && j < |st.index|
    ensures Where(st.regions, st.index[j]) < |st.regions| && HoleAt(st, j).hole
    ensures Fits(st.regions, st.index[j], need, align) <==> CanHold(HoleAt(st, j), need, align)
  {
    IndexedHole(st.index, st.regions, st.start, st.end, st.index[j]);
    TilesAt(st.regions, st.start, st.end, Where(st.regions, st.index[j]));
    FitsExactly(HoleAt(st, j), need, align);
  }

  /** Every hole has an entry that leads to it. */
  lemma HoleEntry(st: State, i: nat)
    requires Wf(st) && i < |st.regions| && st.regions[i].hole
    ensures exists j :: 0 <= j < |st.index| && Where(st.regions, st.index[j]) == i
  {
    InIndex(st.index, st.regions, i);
    WhereIs(st.regions, st.start, st.end, i);
  }

  /** Every cut and every growth the request leads to is sound. */
  ghost predicate AllocGuard(st: State, need: int, align: bool)
    requires Wf(st) && OVERHEAD <= need
    decreases Shortfall(st.regions, need, align)
  {
    var k := FirstFit(st.index, st.regions, need, align);
    if k < |st.index| then
      Found(st, need, align);
      |st.index| + 1 < st.capacity && PlaceGuard(HoleAt(st, k), need, align)
    else
      GrowGuard(st, need) && (
        GrownStep(st, need, align);
        AllocGuard(Grown(st, need), need, align))
  }

  /** The state after alloc, the block it cut out, and how often it expanded the heap. */
  datatype Outcome = Outcome(state: State, block: Region, rounds: nat)

  ghost function Allocated(st: State, need: int, align: bool): Outcome
    requires Wf(st) && OVERHEAD <= need && AllocGuard(st, need, align)
    decreases Shortfall(st.regions, need, align)
  {
    var k := FirstFit(st.index, st.regions, need, align);
    if k < |st.index| then
      Found(st, need, align);
      Outcome(Placed(st, k, need, align), BlockOf(HoleAt(st, k), need, align), 0)
    else
      GrownStep(st, need, align);
      var o := Allocated(Grown(st, need), need, align);
      Outcome(o.state, o.block, o.rounds + 1)
  }

  ghost predicate AllocReady(st: State, need: int, align: bool) {
    Wf(st) && OVERHEAD <= need && AllocGuard(st, need, align)
  }

  /** The result of alloc in a state where every step it leads to is sound. */
  ghost function AllocOutcome(st: State, need: int, align: bool): Outcome
    requires AllocReady(st, need, align)
  {
    Allocated(st, need, align)
  }

  /** What alloc promises of its outcome. */
  ghost predicate GoodOutcome(st: State, o: Outcome, need: int) {
    && Wf(o.state) && o.state.start == st.start && o.state.max == st.max && o.state.capacity == st.capacity
    && o.state.tables == st.tables
    && st.end <= o.state.end
    && Blocks(o.state.regions) == Blocks(st.regions) + {o.block} && o.block !in Blocks(st.regions)
    && !o.block.hole && need <= o.block.size < need + OVERHEAD
    && st.start <= o.block.start && o.block.End() <= o.state.end
  }

  lemma GoodAfterGrowing(st: State, g: State, o: Outcome, need: int, align: bool)
    requires GoodOutcome(g, o, need)
    requires g.start == st.start && g.max == st.max && g.capacity == st.capacity && g.tables == st.tables
    requires st.end <= g.end
    requires Blocks(g.regions) == Blocks(st.regions)
    ensures GoodOutcome(st, o.(rounds := o.rounds + 1), need)
  {
  }

  lemma PlacedGood(st: State, k: nat, need: int, align: bool)
    requires PlaceReady(st, k, need, align)
    ensures GoodOutcome(st, Outcome(Placed(st, k, need, align), BlockOf(HoleAt(st, k), need, align), 0), need)
  {
    PlacedWf(st, k, need, align);
    PlacedBlocks(st, k, need, align);
  }

  lemma GrownGood(st: State, o: Outcome, need: int, align: bool)
    requires Wf(st) && GrowGuard(st, need) && 0 < need
    requires FirstFit(st.index, st.regions, need, align) == |st.index|
    requires GoodOutcome(Grown(st, need), o, need)
    ensures GoodOutcome(st, Outcome(o.state, o.block, o.rounds + 1), need)
  {
    GrownStep(st, need, align);
    GoodAfterGrowing(st, Grown(st, need), o, need, align);
  }

  /** One round of growing: the request goes on in the grown heap. */
  lemma GrowingRound(st: State, need: int, align: bool)
    requires Wf(st) && OVERHEAD <= need && AllocGuard(st, need, align)
    requires FirstFit(st.index, st.regions, need, align) == |st.index|
    ensures var g := Grown(st, need);
      && GrowGuard(st, need)
      && Wf(g) && AllocGuard(g, need, align)
      && Shortfall(g.regions, need, align) < Shortfall(st.regions, need, align)
      && Allocated(st, need, align) ==
           var o := Allocated(g, need, align); Outcome(o.state, o.block, o.rounds + 1)
  {
    GrownStep(st, need, align);
  }

  /** alloc keeps the heap well formed; the live blocks are the old ones and a new one that is big enough and
      inside the heap. */
  lemma {:induction false} AllocatedGood(st: State, need: int, align: bool)
    requires Wf(st) && OVERHEAD <= need && AllocGuard(st, need, align)
    ensures GoodOutcome(st, Allocated(st, need, align), need)
    decreases Shortfall(st.regions, need, align)
  {
    var k := FirstFit(st.index, st.regions, need, align);
    if k < |st.index| {
      Found(st, need, align);
      PlacedGood(st, k, need, align);
    } else {
      GrowingRound(st, need, align);
      AllocatedGood(Grown(st, need), need, align);
      GrownGood(st, Allocated(Grown(st, need), need, align), need, align);
    }
  }

  /** Each round of growing gets the heap at most as far as all of them. */
  lemma RoundsEnd(st: State, need: int, align: bool)
    requires AllocReady(st, need, align) && FirstFit(st.index, st.regions, need, align) == |st.index|
    ensures st.end <= Grown(st, need).end && AllocReady(Grown(st, need), need, align)
    ensures Grown(st, need).end <= AllocOutcome(st, need, align).state.end
    ensures AllocOutcome(st, need, align).state == AllocOutcome(Grown(st, need), need, align).state
  {
    GrowingRound(st, need, align);
    GrownStep(st, need, align);
    AllocatedGood(Grown(st, need), need, align);
  }

  /** An aligned request gets a page-aligned payload. */
  lemma {:induction false} AllocatedAligned(st: State, need: int)
    requires Wf(st) && OVERHEAD <= need && AllocGuard(st, need, true)
    ensures (Allocated(st, need, true).block.start + HEADER) % PAGE == 0
    decreases Shortfall(st.regions, need, true)
  {
    hide Grown, FirstFit, PlaceParts, Tiles, Lists;
    var k := FirstFit(st.index, st.regions, need, true);
    if k < |st.index| {
      Found(st, need, true);
      PlacedBlocks(st, k, need, true);
    } else {
      GrowingRound(st, need, true);
      AllocatedAligned(Grown(st, need), need);
    }
  }

  /** The recursion in alloc is shallow: one expansion at most, two when the payload must be page aligned. */
  lemma {:induction false} AllocatedRounds(st: State, need: int, align: bool)
    requires Wf(st) && OVERHEAD <= need && AllocGuard(st, need, align)
    ensures Allocated(st, need, align).rounds <= if align then 2 else 1
    ensures need <= LastHole(st.regions) ==> Allocated(st, need, align).rounds <= if align then 1 else 0
    ensures need + PAGE <= LastHole(st.regions) ==> Allocated(st, need, align).rounds == 0
    decreases Shortfall(st.regions, need, align)
  {
    hide Grown, FirstFit, LastHole, Wf, GrowGuard;
    if FirstFit(st.index, st.regions, need, align) == |st.index| {
      GrownStep(st, need, align);
      LastHoleNotNegative(st);
      AllocatedRounds(Grown(st, need), need, align);
    }
  }

  lemma LastHoleNotNegative(st: State)
    requires Wf(st)
    ensures 0 <= LastHole(st.regions)
  {
    if EndsInHole(st.regions) { TilesAt(st.regions, st.start, st.end, |st.regions| - 1); }
  }
}
