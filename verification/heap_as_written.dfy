/** Where the allocator as written departs from its comments, and exactly when it does not (kernel/libc/memory.c). */
module HeapAsWritten {
  import opened Bytes
  import opened HeapModel
  import opened HeapOps
  import opened HeapFree
  import opened HeapMemory
  import opened HeapSteps
  import opened HeapGuards

  /** expand: the mask test binds as new_size & 1, so only odd sizes are rounded. */
  function ExpandRounding(n: int): int {
    if n % 2 == 1 then n - n % PAGE + PAGE else n
  }

  /** The rounding in expand reaches the following page boundary exactly for odd sizes and for page multiples. */
  lemma ExpandRoundingRight(n: int)
    requires 0 <= n
    ensures ExpandRounding(n) == RoundUp(n) <==> n % 2 == 1 || n % PAGE == 0
  {
    if n % PAGE == 0 {
      assert n % 2 == 0 by { assert n == n / PAGE * PAGE; }
    }
  }

  /** contract: the size is masked with 0x1000 instead of tested below it. */
  function ContractRounding(n: int): int {
    var r := if n / PAGE % 2 == 1 then 2 * PAGE else n;
    if r < HEAP_MIN_SIZE then HEAP_MIN_SIZE else r
  }

  /** contract keeps everything below the size it was asked to keep exactly when bit 12 is clear or the minimum heap
      size covers it. */
  lemma ContractRoundingKeeps(n: int)
    requires 0 <= n
    ensures n <= ContractRounding(n) <==> n / PAGE % 2 == 0 || n <= HEAP_MIN_SIZE
  {
  }

  /** free, when contraction uses the merged hole up: it looks for the wrong header, and may still insert the hole. */
  function FreedIndexAsWritten(idx: seq<int>, l: seq<int>, r: seq<int>, at: int, less: (int, int) -> bool): seq<int> {
    FreedIndex(idx, l, r, false, at, less)
  }

  /** The index as written after free lists exactly the holes if and only if some of the merged hole is left. */
  lemma FreedIndexAsWrittenRight(st: State, i: nat, less: (int, int) -> bool)
    requires IsBlock(st, i) && FreeGuard(st, i) && |st.index| + 1 < st.capacity
    ensures var rs := st.regions;
      var idx := FreedIndexAsWritten(st.index, LeftStart(rs, i), RightStart(rs, i), Merged(rs, i).start, less);
      Lists(idx, Freed(st, i).regions) <==> Residual(st, i) != 0
  {
    var rs := st.regions;
    var at := Merged(rs, i).start;
    var l, r := LeftStart(rs, i), RightStart(rs, i);
    assert multiset(l) + multiset(r) <= multiset(st.index) by { MergedListed(rs, st.index, i); }
    FreedElements(st.index, l, r, false, at, less);
    FreedElements(st.index, l, r, true, at, less);
    FreedLists(rs, st.index, i, FreedParts(st, i), less);
    assert multiset([at]) != multiset([]) by { assert at in multiset([at]); }
  }

  lemma MergedListed(rs: seq<Region>, idx: seq<int>, i: nat)
    requires Lists(idx, rs) && i < |rs| && !rs[i].hole
    ensures multiset(LeftStart(rs, i)) + multiset(RightStart(rs, i)) <= multiset(idx)
  {
    var lo, hi := MergeFrom(rs, i), MergeTo(rs, i);
    MergedHoleStarts(rs, i);
    MergedSplit(rs, i);
    HoleStartsConcat(rs[..lo] + rs[lo..hi], rs[hi..]);
    HoleStartsConcat(rs[..lo], rs[lo..hi]);
  }

  /**
   * What the assignments of free as written leave where block i and its neighbouring holes were: the header of what is
   * left; when that ends the heap, the footer that line 479 on writes; otherwise the block's own footer if no hole
   * follows, and the untouched footer of the hole that follows if one does.
   */
  ghost predicate LeftAsWritten(m: seq<byte>, n: seq<byte>, st: State, i: nat)
    requires i < |st.regions|
  {
    var rs, h, left := st.regions, Merged(st.regions, i), Residual(st, i);
    && OnlyWithin(m, n, h.start, h.End())
    && (left != 0 ==> HeaderTag(n, h.(size := left)))
    && (if MergeTo(rs, i) == |rs| then left != 0 ==> FooterTag(n, h.(size := left))
        else if MergeTo(rs, i) == i + 1 then FooterTag(n, h)
        else Same(m, n, h.End() - FOOTER, h.End()))
  }

  lemma MergedOver(rs: seq<Region>, i: nat)
    requires i < |rs| && i + 1 < MergeTo(rs, i)
    ensures MergeTo(rs, i) == i + 2 && Merged(rs, i).End() == rs[i + 1].End()
  {
  }

  lemma LeftDone(st: State, i: nat, at: int, size: int, total: int, end: int, m: seq<byte>, m1: seq<byte>, n: seq<byte>)
    requires IsBlock(st, i) && FreeGuard(st, i) && |st.index| + 1 < st.capacity
    requires Region(at, size, true) == Merged(st.regions, i)
    requires ShrunkTo(st.start, st.end, at, size, total, end)
    requires OnlyWithin(m, m1, at, st.regions[i].End()) && OnlyWithin(m1, n, at, at + size)
    requires MergeTo(st.regions, i) == i + 1 ==> FooterTag(m1, Region(at, size, true))
    requires total != 0 ==> HeaderTag(n, Region(at, total, true))
    requires total != 0 && at + size == st.end ==> FooterTag(n, Region(at, total, true))
    requires at + size != st.end ==> n == m1
    ensures LeftAsWritten(m, n, st, i)
  {
    hide FreeGuard, Tiles, FooterTag, HeaderTag, Lists, NoAdjacentHoles, Residual, MergeFrom, MergeTo, Merged;
    var rs := st.regions;
    ShrinkDone(st, i, at, size, total, end);
    MergedAtEnd(rs, st.start, st.end, i);
    MergedExtent(rs, st.start, st.end, i);
    if i + 1 < MergeTo(rs, i) {
      TilesOrdered(rs, st.start, st.end, i, i + 1);
      TilesAt(rs, st.start, st.end, i + 1);
      MergedOver(rs, i);
    }
  }

  /** free, as written, whole: every tag is right in the end if and only if no hole follows the block, or the heap ends
      with that hole, so that contraction writes the footer after all. */
  lemma TagsAsWrittenRight(st: State, i: nat, m: seq<byte>, n: seq<byte>)
    requires IsBlock(st, i) && FreeGuard(st, i) && |st.index| + 1 < st.capacity
    requires HeapTagged(m, st.regions) && LeftAsWritten(m, n, st, i)
    ensures HeapTagged(n, Freed(st, i).regions) <==>
      MergeTo(st.regions, i) == i + 1 || MergeTo(st.regions, i) == |st.regions|
  {
    var rs := st.regions;
    if MergeTo(rs, i) == i + 1 || MergeTo(rs, i) == |rs| {
      FreedTagged(m, n, rs, st.start, st.end, i, FreedParts(st, i));
    } else {
      StaleFooter(st, i, m, n);
    }
  }

  lemma StaleWord(rs: seq<Region>, s: int, e: int, i: nat, m: seq<byte>, n: seq<byte>)
    requires Tiles(rs, s, e) && HeapTagged(m, rs) && i + 1 < |rs| && MergeTo(rs, i) == i + 2
    requires Same(m, n, Merged(rs, i).End() - FOOTER, Merged(rs, i).End())
    ensures !FooterTag(n, Merged(rs, i))
  {
    var h, r := Merged(rs, i), rs[i + 1];
    MergedExtent(rs, s, e, i);
    TilesOrdered(rs, s, e, i, i + 1);
    TilesAt(rs, s, e, i);
    TilesAt(rs, s, e, i + 1);
    TaggedAt(m, rs, i + 1);
    assert r.End() == h.End() && h.start < r.start;
    StaleLoad(m, n, r, h);
  }

  lemma StaleLoad(m: seq<byte>, n: seq<byte>, r: Region, h: Region)
    requires FooterTag(m, r) && Same(m, n, h.End() - FOOTER, h.End()) && r.End() == h.End() && h.start < r.start
    ensures !FooterTag(n, h)
  {
  }

  lemma OneFooterWrong(n: seq<byte>, front: seq<Region>, h: Region, back: seq<Region>)
    requires !FooterTag(n, h) && back != []
    ensures !HeapTagged(n, front + [h] + back)
  {
    var rs := front + [h] + back;
    assert rs[|front|] == h;
    if Tagged(n, rs) { TaggedAt(n, rs, |front|); }
  }

  /** A merge inside the heap gives nothing back. */
  lemma InsideFreed(st: State, i: nat)
    requires IsBlock(st, i) && MergeTo(st.regions, i) < |st.regions|
    ensures var rs := st.regions;
      Freed(st, i).regions == rs[..MergeFrom(rs, i)] + [Merged(rs, i)] + rs[MergeTo(rs, i)..]
  {
    hide Tiles, Lists, NoAdjacentHoles, FreedIndex, Merged, MergeFrom, MergeTo;
    MergedExtent(st.regions, st.start, st.end, i);
  }

  lemma StaleFooter(st: State, i: nat, m: seq<byte>, n: seq<byte>)
    requires IsBlock(st, i) && HeapTagged(m, st.regions) && LeftAsWritten(m, n, st, i)
    requires i + 1 < MergeTo(st.regions, i) < |st.regions|
    ensures !HeapTagged(n, Freed(st, i).regions)
  {
    var rs, h := st.regions, Merged(st.regions, i);
    InsideFreed(st, i);
    StaleWord(rs, st.start, st.end, i, m, n);
    OneFooterWrong(n, rs[..MergeFrom(rs, i)], h, rs[MergeTo(rs, i)..]);
  }

  // ---- A heap where it fails ----------------------------------------------------------------------------------

  const FIRST: Region := Region(BOOT_START, PAGE, false)
  const SECOND: Region := Region(BOOT_START + PAGE, PAGE, false)
  const THIRD: Region := Region(BOOT_START + 2 * PAGE, SIZE - 2 * PAGE, false)

  function Two(): State {
    With([FIRST, SECOND, THIRD.(hole := true)], [THIRD.start])
  }

  function Three(): State {
    With([FIRST, SECOND, THIRD], [])
  }

  /** A hole between two blocks. */
  function Gap(): State {
    With([FIRST, SECOND.(hole := true), THIRD], [SECOND.start])
  }

  lemma SecondPage()
    ensures Makes(Split(PAGE), PAGE, Two()) && Wf(Two())
  {
    hide Wf, Makes;
    FirstBlock(PAGE);
    TakesEnd(Split(PAGE), [FIRST], Region(SECOND.start, SIZE - PAGE, true), PAGE);
    assert Two() == AfterCut(Split(PAGE), [FIRST], Region(SECOND.start, SIZE - PAGE, true), PAGE);
  }

  lemma ThirdBlock()
    ensures Makes(Two(), THIRD.size, Three()) && Wf(Three())
  {
    hide Wf, Makes;
    SecondPage();
    TakesEnd(Two(), [FIRST, SECOND], THIRD.(hole := true), THIRD.size);
    assert Three() == AfterCut(Two(), [FIRST, SECOND], THIRD.(hole := true), THIRD.size);
  }

  lemma SecondFreed()
    ensures IsBlock(Three(), 1) && FreeGuard(Three(), 1) && Freed(Three(), 1) == Gap() && Wf(Gap())
  {
    hide Wf, Makes;
    ThirdBlock();
    var st := Three();
    assert Merged(st.regions, 1) == SECOND.(hole := true) && MergeTo(st.regions, 1) == 2;
    assert FreedParts(st, 1) == [SECOND.(hole := true)];
    assert Freed(st, 1).regions == Gap().regions;
    FreedWf(st, 1);
  }

  /** Allocate a page, another one, and the rest; free the second one: free of the first leaves the footer of the hole
      behind it stale. */
  lemma StaleFooterRun(m: seq<byte>, n: seq<byte>)
    requires HeapTagged(m, Gap().regions) && LeftAsWritten(m, n, Gap(), 0)
    ensures Makes(Fresh(), PAGE, Split(PAGE)) && Makes(Split(PAGE), PAGE, Two()) && Makes(Two(), THIRD.size, Three())
    ensures IsBlock(Three(), 1) && FreeGuard(Three(), 1) && Freed(Three(), 1) == Gap()
    ensures IsBlock(Gap(), 0) && FreeGuard(Gap(), 0) && !HeapTagged(n, Freed(Gap(), 0).regions)
  {
    FirstBlock(PAGE);
    SecondPage();
    ThirdBlock();
    SecondFreed();
    assert MergeTo(Gap().regions, 0) == 2;
    StaleFooter(Gap(), 0, m, n);
  }
}
