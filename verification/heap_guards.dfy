/** Every guard of the heap can fail: a request or a short run from create_heap violates it (kernel/libc/memory.c). */
module HeapGuards {
  import opened OrderedArrays
  import opened HeapModel
  import opened HeapOps
  import opened HeapLaws
  import opened HeapAlloc
  import opened HeapFree

  const SIZE: int := BOOT_END - BOOT_START

  /** The kernel heap as create_heap makes it when the machine boots, with the one page table it has. */
  function Fresh(): State {
    With([Region(BOOT_START, SIZE, true)], [BOOT_START])
  }

  function With(rs: seq<Region>, idx: seq<int>): State {
    State(BOOT_START, BOOT_END, BOOT_MAX, BOOT_CAPACITY, {BOOT_TABLE}, rs, idx)
  }

  lemma FreshIs()
    ensures Wf(Fresh())
  {
    assert [Region(BOOT_START, SIZE, true)][1..] == [];
    assert HoleStarts(Fresh().regions) == [BOOT_START];
  }

  /** An aligned request that takes all of the first hole but 4 bytes. */
  lemma PlaceGuardFails()
    ensures var need := SIZE - AlignOffset(BOOT_START) - 4;
      && Wf(Fresh()) && FirstFit(Fresh().index, Fresh().regions, need, true) == 0
      && !PlaceGuard(HoleAt(Fresh(), 0), need, true)
      && !Tiles(PlaceParts(HoleAt(Fresh(), 0), need, true), BOOT_START, BOOT_END)
  {
    FreshIs();
    var need := SIZE - AlignOffset(BOOT_START) - 4;
    assert Where(Fresh().regions, BOOT_START) == 0;
    assert TailSize(HoleAt(Fresh(), 0), need, true) == 4;
    PlacePartsTile(HoleAt(Fresh(), 0), need, true);
  }

  /** One block in front, the rest still a hole. */
  function Split(need: int): State {
    With([Region(BOOT_START, need, false), Region(BOOT_START + need, SIZE - need, true)], [BOOT_START + need])
  }

  /** Two blocks and no hole. */
  function Full(need: int): State {
    With([Region(BOOT_START, need, false), Region(BOOT_START + need, SIZE - need, false)], [])
  }

  /** A hole in front of a block. */
  function Hollow(need: int): State {
    With([Region(BOOT_START, need, true), Region(BOOT_START + need, SIZE - need, false)], [BOOT_START])
  }

  /** A request without alignment that is ready and makes t of st. */
  ghost predicate Makes(st: State, need: int, t: State) {
    AllocReady(st, need, false) && AllocOutcome(st, need, false).state == t
  }

  /** The heap after a block has been cut out of the hole at its end. */
  function AfterCut(st: State, pre: seq<Region>, h: Region, need: int): State {
    st.(regions := pre + [Region(h.start, need, false)]
                   + if need < h.size then [Region(h.start + need, h.size - need, true)] else [],
        index := if need < h.size then [h.start + need] else [])
  }

  /** The one hole at the end of the heap, and a request that leaves nothing of it, or room for tags. */
  ghost predicate EndHole(st: State, pre: seq<Region>, h: Region, need: int) {
    && Wf(st) && st.regions == pre + [h] && st.index == [h.start] && h.hole && 2 < st.capacity
    && OVERHEAD <= need <= h.size && (need < h.size ==> need + OVERHEAD <= h.size)
  }

  lemma EndHoleFits(st: State, pre: seq<Region>, h: Region, need: int)
    requires EndHole(st, pre, h, need)
    ensures Where(st.regions, h.start) == |pre| && FirstFit(st.index, st.regions, need, false) == 0
  {
    WhereIs(st.regions, st.start, st.end, |pre|);
  }

  lemma EndCut(st: State, pre: seq<Region>, h: Region, need: int)
    requires EndHole(st, pre, h, need)
    ensures Where(st.regions, h.start) == |pre| && Placed(st, 0, need, false) == AfterCut(st, pre, h, need)
  {
    EndHoleFits(st, pre, h, need);
    hide Wf, FirstFit;
    assert st.regions[..|pre|] == pre && st.regions[|pre| + 1..] == [];
    assert RemovedAt(st.index, 0) == [];
    assert PlaceParts(h, need, false) ==
      [Region(h.start, need, false)] + if need < h.size then [Region(h.start + need, h.size - need, true)] else [];
  }

  lemma TakesEnd(st: State, pre: seq<Region>, h: Region, need: int)
    requires EndHole(st, pre, h, need)
    ensures Makes(st, need, AfterCut(st, pre, h, need)) && Wf(AfterCut(st, pre, h, need))
  {
    EndHoleFits(st, pre, h, need);
    EndCut(st, pre, h, need);
    hide Wf, Placed, AfterCut;
    AllocatedGood(st, need, false);
  }

  lemma FirstBlock(need: int)
    requires OVERHEAD <= need && need + OVERHEAD <= SIZE
    ensures Makes(Fresh(), need, Split(need)) && Wf(Split(need))
  {
    hide Wf, Makes;
    FreshIs();
    assert AfterCut(Fresh(), [], Region(BOOT_START, SIZE, true), need) == Split(need);
    TakesEnd(Fresh(), [], Region(BOOT_START, SIZE, true), need);
  }

  lemma SecondBlock(need: int)
    requires OVERHEAD <= need && need + OVERHEAD <= SIZE
    ensures Makes(Split(need), SIZE - need, Full(need)) && Wf(Full(need))
  {
    hide Wf, Makes;
    FirstBlock(need);
    var pre, h := [Region(BOOT_START, need, false)], Region(BOOT_START + need, SIZE - need, true);
    assert AfterCut(Split(need), pre, h, SIZE - need) == Full(need);
    TakesEnd(Split(need), pre, h, SIZE - need);
  }

  lemma FreedFirst(need: int)
    requires OVERHEAD <= need && need + OVERHEAD <= SIZE
    ensures IsBlock(Full(need), 0) && FreeGuard(Full(need), 0)
    ensures Freed(Full(need), 0) == Hollow(need) && Wf(Hollow(need))
  {
    SecondBlock(need);
    FreedFirstRegions(need);
    FreedWf(Full(need), 0);
  }

  lemma FreedFirstRegions(need: int)
    ensures FreedParts(Full(need), 0) == if need == 0 then [] else [Region(BOOT_START, need, true)]
    ensures need != 0 ==> Freed(Full(need), 0) == Hollow(need)
  {
    var st := Full(need);
    assert Merged(st.regions, 0) == Region(BOOT_START, need, true);
    if need != 0 { assert Freed(st, 0).regions == Hollow(need).regions; }
  }

  lemma HollowCannotGrow()
    ensures var st := Hollow(0x1000);
      && FirstFit(st.index, st.regions, 0x2000, false) == |st.index|
      && st.start + NewLength(st, 0x2000) <= st.max && !GrowGuard(st, 0x2000)
      && !Tiles(Grown(st, 0x2000).regions, st.start, Grown(st, 0x2000).end)
  {
    FreedFirst(0x1000);
    var st := Hollow(0x1000);
    assert Where(st.regions, BOOT_START) == 0;
    GrowTiles(st.regions, st.index, BOOT_START, BOOT_END, NewLength(st, 0x2000) - st.Length());
  }

  /** Allocate a page, allocate the rest, free the page: a request for two pages now gives the new bytes to the hole in
      front, which runs into the block behind it. */
  lemma GrowGuardFails()
    ensures Makes(Fresh(), 0x1000, Split(0x1000)) && Makes(Split(0x1000), SIZE - 0x1000, Full(0x1000))
    ensures IsBlock(Full(0x1000), 0) && FreeGuard(Full(0x1000), 0)
    ensures var st := Freed(Full(0x1000), 0);
      && Wf(st) && FirstFit(st.index, st.regions, 0x2000, false) == |st.index|
      && st.start + NewLength(st, 0x2000) <= st.max && !GrowGuard(st, 0x2000)
      && !Tiles(Grown(st, 0x2000).regions, st.start, Grown(st, 0x2000).end)
  {
    FirstBlock(0x1000);
    SecondBlock(0x1000);
    FreedFirst(0x1000);
    HollowCannotGrow();
  }

  lemma FourBytesLeft()
    ensures var st := Full(0x7_0FFC);
      && IsBlock(st, 1) && Residual(st, 1) == 4 && !FreeGuard(st, 1)
      && !Tiles(Freed(st, 1).regions, st.start, Freed(st, 1).end)
  {
    SecondBlock(0x7_0FFC);
    var st := Full(0x7_0FFC);
    assert Merged(st.regions, 1) == Region(BOOT_START + 0x7_0FFC, SIZE - 0x7_0FFC, true);
    FreedTiles(st, 1);
  }

  /** Allocate up to 4 bytes below a page boundary, allocate the rest, free that: contraction leaves 4 bytes of the
      hole, no room for its tags. */
  lemma FreeGuardFails()
    ensures Makes(Fresh(), 0x7_0FFC, Split(0x7_0FFC)) && Makes(Split(0x7_0FFC), SIZE - 0x7_0FFC, Full(0x7_0FFC))
    ensures var st := Full(0x7_0FFC);
      && IsBlock(st, 1) && Residual(st, 1) == 4 && !FreeGuard(st, 1)
      && !Tiles(Freed(st, 1).regions, st.start, Freed(st, 1).end)
  {
    FirstBlock(0x7_0FFC);
    SecondBlock(0x7_0FFC);
    FourBytesLeft();
  }
}
