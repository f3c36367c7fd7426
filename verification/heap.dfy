/** The kernel heap over raw memory: create_heap, alloc, free, expand and contract (kernel/libc/memory.c). */
module Heaps {
  import opened Bytes
  import opened OrderedArrays
  import opened Frames
  import opened Pagers
  import opened HeapModel
  import opened HeapOps
  import opened HeapLaws
  import opened HeapAlloc
  import opened HeapAsWritten
  import opened HeapFree
  import opened HeapMemory
  import opened HeapMemoryLaws
  import opened HeapRuns
  import opened HeapSteps

  const HEAP_INDEX_SIZE: nat := BOOT_CAPACITY
  const POINTER_SIZE: nat := 4

  class Heap {
    const mem: array<byte>
    const index: OrderedArray
    const pager: Pager
    const startAddress: int
    const maxAddress: int
    const supervisor: bool
    const readonly: bool
    var endAddress: int
    ghost var regions: seq<Region>

    ghost function Abs(): State
      reads this, index, index.elems
      requires index.Valid()
    {
      State(startAddress, endAddress, maxAddress, index.elems.Length, pager.tables, regions, index.Contents())
    }

    ghost function Snap(): Snapshot
      reads this, mem, index, index.elems
      requires index.Valid()
    {
      Snapshot(mem[..], Abs())
    }

    /** Every page of the range is backed by a frame and present. */
    ghost predicate Mapped(lo: int, hi: int)
      reads pager
    {
      forall n: nat :: lo <= n * PAGE < hi ==> pager.Backed(n)
    }

    /** What alloc_frame makes of an entry: one that has a frame stays, any other gets one and the heap's bits. */
    ghost predicate GivenFrame(was: Page, now: Page) {
      if was.frame != 0 then now == was
      else now == was.(present := true, rw := !readonly, user := !supervisor, frame := now.frame) && now.frame != 0
    }

    /** The pages of the range have been given frames, and no other entry has changed. */
    ghost predicate Backing(was: map<nat, Page>, now: map<nat, Page>, lo: int, hi: int) {
      forall n: nat ::
        if lo <= n * PAGE < hi then GivenFrame(Entry(was, n), Entry(now, n)) else Entry(now, n) == Entry(was, n)
    }

    lemma BackingNothing(pages: map<nat, Page>, end: int)
      ensures Backing(pages, pages, end, end)
    {
    }

    lemma BackingInTurn(was: map<nat, Page>, mid: map<nat, Page>, now: map<nat, Page>, lo: int, m: int, hi: int)
      requires Backing(was, mid, lo, m) && Backing(mid, now, m, hi) && lo <= m <= hi
      ensures Backing(was, now, lo, hi)
    {
    }

    /** Some page from the end up to there has no frame, and there is no frame left for it. */
    ghost predicate Unbacked(target: int)
      reads this, pager, pager.bitmap.words
    {
      pager.bitmap.Full() && exists n: nat :: endAddress <= n * PAGE < target && pager.EntryOf(n).frame == 0
    }

    /** The parts of the heap are separate objects. */
    ghost predicate Separate() {
      && (mem as object) != index.elems && (mem as object) != pager.bitmap.words
      && (index.elems as object) != pager.bitmap.words
    }

    ghost predicate Valid()
      reads this, mem, index, index.elems, pager, pager.bitmap.words
    {
      && Separate() && index.Valid() && pager.Valid()
      && maxAddress <= mem.Length <= WORD_LIMIT
      && Wf(Abs()) && HeapTagged(mem[..], regions)
      && Mapped(startAddress, endAddress)
    }

    /** create_heap: the index goes in front, the rest is one hole without a footer. */
    constructor (mem: array<byte>, pager: Pager, start: int, end: int, max: int, supervisor: bool, readonly: bool)
      requires PAGE <= start && start % PAGE == 0 && end % PAGE == 0
      requires start + POINTER_SIZE * HEAP_INDEX_SIZE + HEAP_MIN_SIZE <= end <= max <= mem.Length <= WORD_LIMIT
      requires pager.Valid() && (mem as object) != pager.bitmap.words
      requires forall n: nat :: start <= n * PAGE < end ==> pager.Backed(n)
      modifies mem
      ensures Valid() && this.mem == mem && this.pager == pager && fresh(index) && fresh(index.elems)
      ensures startAddress == start + POINTER_SIZE * HEAP_INDEX_SIZE && endAddress == end && maxAddress == max
      ensures this.supervisor == supervisor && this.readonly == readonly
      ensures Abs() == State(startAddress, end, max, HEAP_INDEX_SIZE, pager.tables,
                             [Region(startAddress, end - startAddress, true)], [startAddress])
      ensures OnlyWithin(old(mem[..]), mem[..], startAddress, startAddress + HEADER)
    {
      hide Wf, LoadWord, HeaderTag, RegionTag;
      var shifted := start + POINTER_SIZE * HEAP_INDEX_SIZE;
      this.mem := mem;
      this.pager := pager;
      this.index := new OrderedArray(HEAP_INDEX_SIZE);
      this.startAddress := shifted;
      this.endAddress := end;
      this.maxAddress := max;
      this.supervisor := supervisor;
      this.readonly := readonly;
      new;
      regions := [Region(shifted, end - shifted, true)];
      PutFirstHole();
      FreshHeap(shifted, end, max, HEAP_INDEX_SIZE, pager.tables);
      assert Abs() ==
        State(shifted, end, max, HEAP_INDEX_SIZE, pager.tables, [Region(shifted, end - shifted, true)], [shifted]);
      assert HeaderTag(mem[..], regions[0]);
    }

    /** create_heap: the header of the one hole, and its entry. */
    method PutFirstHole()
      requires index.Valid() && index.Contents() == [] && 0 < index.elems.Length && (mem as object) != index.elems
      requires 0 <= startAddress && startAddress + HEADER <= mem.Length <= WORD_LIMIT
      requires 0 <= endAddress - startAddress < WORD_LIMIT
      modifies mem, index`size, index.elems
      ensures index.Valid() && index.Contents() == [startAddress]
      ensures HeaderTag(mem[..], Region(startAddress, endAddress - startAddress, true))
      ensures OnlyWithin(old(mem[..]), mem[..], startAddress, startAddress + HEADER)
    {
      PutHeader(mem, startAddress, endAddress - startAddress, true);
      index.Insert(startAddress, LessInMemory(mem[..]));
    }

    method SizeOf(a: int) returns (size: int)
      requires Valid() && Where(regions, a) < |regions|
      ensures size == SizeAt(regions, a)
    {
      HeaderAt(mem[..], regions, Where(regions, a));
      size := GetWord(mem, a + 8);
    }

    method HeaderFits(header: int, need: int, pageAlign: bool) returns (fits: bool)
      requires Valid() && Where(regions, header) < |regions|
      ensures fits == Fits(regions, header, need, pageAlign)
    {
      var size := SizeOf(header);
      var offset := 0;
      if pageAlign && header + HEADER >= PAGE {
        offset := PAGE - (header + HEADER) % PAGE;
      }
      fits := need <= size - offset;
    }

    /** The body of the search loop. */
    method EntryFits(pos: nat, need: int, pageAlign: bool) returns (fits: bool)
      requires Valid() && pos < index.size
      ensures fits == Fits(regions, index.Contents()[pos], need, pageAlign)
    {
      var header := index.Lookup(pos);
      IndexedHole(index.Contents(), regions, startAddress, endAddress, header);
      fits := HeaderFits(header, need, pageAlign);
    }

    /** find_smallest_hole: position of the first index entry that fits, -1 if none does. */
    method FindSmallestHole(need: int, pageAlign: bool) returns (r: int)
      requires Valid()
      ensures r == -1 <==> !exists i :: 0 <= i < |regions| && regions[i].hole && CanHold(regions[i], need, pageAlign)
      ensures r == -1 ==> FirstFit(index.Contents(), regions, need, pageAlign) == index.size
      ensures r != -1 ==> 0 <= r < index.size && r == FirstFit(index.Contents(), regions, need, pageAlign)
      ensures r != -1 ==>
        var i := Where(regions, index.Contents()[r]); i < |regions| && CanHold(regions[i], need, pageAlign)
    {
      hide Wf, HeapTagged, CanHold, Mapped;
      SearchExact(Abs(), need, pageAlign);
      ghost var idx := index.Contents();
      var pos := 0;
      assert idx[0..] == idx;
      while pos < index.size
        invariant pos <= index.size
        invariant FirstFit(idx, regions, need, pageAlign) == pos + FirstFit(idx[pos..], regions, need, pageAlign)
      {
        FirstFitStep(idx, pos, regions, need, pageAlign);
        var fits := EntryFits(pos, need, pageAlign);
        if fits {
          EntryFitsExactly(Abs(), pos, need, pageAlign);
          return pos;
        }
        pos := pos + 1;
      }
      return -1;
    }

    /** The body of the loop in expand: back the page at offset i, whose table is present. */
    method MapAt(i: int) returns (ok: bool)
      requires Separate() && pager.Valid() && 0 <= startAddress && startAddress % PAGE == 0 && i % PAGE == 0 && 0 <= i
      requires startAddress + i < WORD_LIMIT && HasTable(pager.tables, (startAddress + i) / PAGE)
      modifies pager`pages, pager.bitmap.words
      ensures pager.Valid() && (i + PAGE) % PAGE == 0
      ensures ok ==> Backing(old(pager.pages), pager.pages, startAddress + i, startAddress + i + PAGE)
      ensures ok ==> Mapped(startAddress + i, startAddress + i + PAGE)
      ensures !ok ==> pager.bitmap.Full() && pager.EntryOf((startAddress + i) / PAGE).frame == 0
    {
      PageStep(startAddress, i);
      ok := pager.MapPage((startAddress + i) / PAGE, supervisor, !readonly);
    }

    /** expand: back the pages up to the next page boundary after newSize, then move the end there. A missing page table
        would be allocated from this heap while its end has not moved yet; see HeapReentry. */
    method Expand(newSize: int) returns (ok: bool)
      requires Separate() && pager.Valid() && Mapped(startAddress, endAddress)
      requires 0 <= startAddress <= endAddress && startAddress % PAGE == 0 && endAddress % PAGE == 0
      requires endAddress - startAddress < newSize && startAddress + RoundUp(newSize) <= WORD_LIMIT
      requires TablesPresent(pager.tables, endAddress, startAddress + RoundUp(newSize))
      modifies this`endAddress, pager`pages, pager.bitmap.words
      ensures ok ==> endAddress == startAddress + RoundUp(newSize)
      ensures pager.Valid() && (ok ==> Mapped(startAddress, endAddress))
      ensures ok ==> Backing(old(pager.pages), pager.pages, old(endAddress), endAddress)
      ensures !ok ==> endAddress == old(endAddress) && Unbacked(startAddress + RoundUp(newSize))
    {
      hide RoundUp, TablesPresent, GivenFrame;
      var target := RoundUp(newSize);
      var i := endAddress - startAddress;
      PageSums(endAddress, startAddress);
      while i < target
        invariant 0 <= i <= target && i % PAGE == 0 && endAddress - startAddress <= i
        invariant endAddress == old(endAddress)
        invariant pager.Valid() && Mapped(startAddress, startAddress + i)
        invariant Backing(old(pager.pages), pager.pages, endAddress, startAddress + i)
      {
        PageStep(startAddress, i);
        PageApart(i, target);
        PagePresent(pager.tables, endAddress, startAddress + target, startAddress + i);
        label before:
        ghost var was := pager.pages;
        ok := MapAt(i);
        if !ok {
          return false;
        }
        BackingInTurn(old(pager.pages), was, pager.pages, endAddress, startAddress + i, startAddress + i + PAGE);
        forall n: nat | startAddress <= n * PAGE < startAddress + i + PAGE ensures pager.Backed(n) {
          if n * PAGE < startAddress + i { assert old@before(pager.Backed(n)); }
        }
        i := i + PAGE;
      }
      endAddress := startAddress + target;
      ok := true;
    }

    /** alloc: write the tags of the front hole (if any), of the block, and of the tail hole (if any). */
    method Cut(header: int, size: int, need: int, pageAlign: bool) returns (at: int, keep: bool, tail: seq<int>)
      requires PAGE <= header && header + size <= mem.Length <= WORD_LIMIT
      requires OVERHEAD <= need && OVERHEAD <= size
      requires need <= size - (if pageAlign then AlignOffset(header) else 0)
      requires PlaceGuard(Region(header, size, true), need, pageAlign)
      modifies mem
      ensures at == BlockOf(Region(header, size, true), need, pageAlign).start
      ensures keep == KeepsFront(Region(header, size, true), pageAlign)
      ensures tail == TailStarts(Region(header, size, true), need, pageAlign)
      ensures Tagged(mem[..], PlaceParts(Region(header, size, true), need, pageAlign))
      ensures OnlyWithin(old(mem[..]), mem[..], header, header + size)
    {
      hide Tagged, PlaceParts, TailStarts;
      ghost var h := Region(header, size, true);
      PartsRoom(h, need, pageAlign);
      PartsAre(h, need, pageAlign);
      var taken := if size - need < OVERHEAD then size else need;
      at := header;
      keep := pageAlign && PAGE <= header;
      if keep {
        at := header + FrontSize(header);
      }
      tail := CutAt(header, at, keep, taken, header + size);
    }

    /** The tags of everything between header and end, once it is clear where the block goes. */
    method CutAt(header: int, at: int, keep: bool, taken: int, end: int) returns (tail: seq<int>)
      requires 0 < header && OVERHEAD <= taken && end <= mem.Length <= WORD_LIMIT
      requires if keep then header + OVERHEAD <= at else at == header
      requires end == at + taken || at + taken + OVERHEAD <= end
      modifies mem
      ensures tail == if end != at + taken then [at + taken] else []
      ensures Tagged(mem[..], FrontPart(header, at, keep) + [Region(at, taken, false)]
                              + (if end != at + taken then [Region(at + taken, end - at - taken, true)] else []))
      ensures OnlyWithin(old(mem[..]), mem[..], header, end)
    {
      PutFront(header, at, keep);
      tail := PutBack(header, FrontPart(header, at, keep), at, taken, end);
    }

    /** The tags of the front hole, if the block does not start where the hole did. */
    method PutFront(header: int, at: int, keep: bool)
      requires 0 < header && at <= mem.Length <= WORD_LIMIT && if keep then header + OVERHEAD <= at else at == header
      modifies mem
      ensures Tagged(mem[..], FrontPart(header, at, keep)) && Tiles(FrontPart(header, at, keep), header, at)
      ensures OnlyWithin(old(mem[..]), mem[..], header, at)
    {
      if keep {
        PutRegion(mem, header, at - header, true);
        TilesOne(header, at - header);
        assert FrontPart(header, at, keep)[1..] == [];
      }
    }

    /** The block at a, and behind it a hole for whatever is left before end. */
    method PutBack(ghost s: int, ghost before: seq<Region>, a: int, taken: int, end: int) returns (tail: seq<int>)
      requires 0 < a && OVERHEAD <= taken && end <= mem.Length <= WORD_LIMIT
      requires end == a + taken || a + taken + OVERHEAD <= end
      requires Tagged(mem[..], before) && Tiles(before, s, a)
      modifies mem
      ensures tail == if end != a + taken then [a + taken] else []
      ensures Tagged(mem[..], before + [Region(a, taken, false)]
                              + (if end != a + taken then [Region(a + taken, end - a - taken, true)] else []))
      ensures OnlyWithin(old(mem[..]), mem[..], a, end)
    {
      hide Tagged;
      ghost var m := mem[..];
      PutAfter(s, before, a, taken, false);
      ghost var parts := before + [Region(a, taken, false)];
      tail := [];
      if end - a - taken > 0 {
        PutAfter(s, parts, a + taken, end - a - taken, true);
        tail := [a + taken];
      } else {
        assert parts + [] == parts;
      }
      assert OnlyWithin(m, mem[..], a, end);
    }

    /** Tag one more region behind some that are tagged already. */
    method PutAfter(ghost s: int, ghost before: seq<Region>, a: int, size: int, hole: bool)
      requires 0 < a && OVERHEAD <= size && a + size <= mem.Length <= WORD_LIMIT
      requires Tagged(mem[..], before) && Tiles(before, s, a)
      modifies mem
      ensures Tagged(mem[..], before + [Region(a, size, hole)]) && Tiles(before + [Region(a, size, hole)], s, a + size)
      ensures OnlyWithin(old(mem[..]), mem[..], a, a + size)
    {
      ghost var m := mem[..];
      PutRegion(mem, a, size, hole);
      TaggedAppend(m, mem[..], before, Region(a, size, hole), s, a);
      assert [Region(a, size, hole)][1..] == [];
      TilesConcat(before, [Region(a, size, hole)], s, a, a + size);
    }

    /** alloc: the index entry of the hole goes unless the front hole keeps it; the tail hole is inserted. */
    method Reindex(k: nat, keep: bool, tail: seq<int>, ghost rs: seq<Region>, ghost target: seq<int>)
      requires index.Valid() && (mem as object) != index.elems
      requires k < index.size && index.size + 1 < index.elems.Length && |tail| <= 1
      requires HeapTagged(mem[..], rs) && Tiles(rs, startAddress, endAddress)
      requires target == PlacedIndex(index.Contents(), k, keep, tail, Smaller(rs)) && Lists(target, rs)
      modifies index`size, index.elems
      ensures index.Valid() && index.Contents() == target
    {
      if !keep {
        index.Remove(k);
      }
      if tail != [] {
        SameOrder(mem[..], rs, startAddress, endAddress, index.Contents(), tail[0]);
        index.Insert(tail[0], LessInMemory(mem[..]));
      }
    }

    /** alloc: the tags of the parts, in place of those of the hole at index position k. */
    method CutHole(k: nat, need: int, pageAlign: bool) returns (at: int, keep: bool, tail: seq<int>)
      requires Valid() && PlaceReady(Abs(), k, need, pageAlign)
      modifies mem
      ensures at == BlockOf(HoleAt(Abs(), k), need, pageAlign).start
      ensures keep == KeepsFront(HoleAt(Abs(), k), pageAlign)
      ensures tail == TailStarts(HoleAt(Abs(), k), need, pageAlign)
      ensures HeapTagged(mem[..], Placed(Abs(), k, need, pageAlign).regions)
      ensures KeepsBlocks(old(mem[..]), mem[..], Blocks(regions))
    {
      ghost var st := Abs();
      ghost var i := Where(regions, st.index[k]);
      ghost var m := mem[..];
      PlacedFacts(st, k, need, pageAlign);
      var header := index.Lookup(k);
      var size := SizeOf(header);
      at, keep, tail := Cut(header, size, need, pageAlign);
      PlacedTagged(m, mem[..], regions, startAddress, endAddress, i, PlaceParts(regions[i], need, pageAlign));
    }

    /** alloc, once the hole at index position k has been chosen. The index is not part of the tagged memory, so
        both index updates are made after the tags are written. */
    method Place(k: nat, need: int, pageAlign: bool) returns (p: int)
      requires Valid() && PlaceReady(Abs(), k, need, pageAlign)
      modifies this`regions, mem, index`size, index.elems
      ensures Valid() && Abs() == Placed(old(Abs()), k, need, pageAlign)
      ensures p == BlockOf(old(HoleAt(Abs(), k)), need, pageAlign).start + HEADER
      ensures KeepsBlocks(old(mem[..]), mem[..], Blocks(old(regions)))
    {
      hide Placed, PlaceParts, PlacedIndex, HeapTagged, KeepsBlocks, Lists, Tiles, NoAdjacentHoles;
      ghost var st := Abs();
      ghost var st' := Placed(st, k, need, pageAlign);
      PlacedFacts(st, k, need, pageAlign);
      var at, keep, tail := CutHole(k, need, pageAlign);
      Reindex(k, keep, tail, st'.regions, st'.index);
      regions := st'.regions;
      p := at + HEADER;
      assert Abs() == st';
    }

    /** alloc: the highest entry of the index; 0 when the index is empty. */
    method HighestEntry() returns (value: int)
      requires Valid()
      ensures index.size == 0 ==> value == 0
      ensures index.size != 0 ==> value == Highest(index.Contents())
    {
      ghost var idx := index.Contents();
      var pos := 0;
      value := 0;
      while pos < index.size
        invariant pos <= index.size
        invariant forall j :: 0 <= j < pos ==> idx[j] <= value
        invariant pos == 0 ==> value == 0
        invariant pos != 0 ==> value in idx
      {
        var tmp := index.Lookup(pos);
        EntryBounds(Abs(), pos);
        if tmp > value {
          value := tmp;
        }
        pos := pos + 1;
      }
      if index.size != 0 {
        HighestIs(idx, value);
      }
    }

    /** alloc, after expand: write the tags that give the extra bytes to the last hole. */
    method EnlargeHole(header: int, growth: int, ghost end: int)
      requires 0 < growth && 0 < header && end + growth <= mem.Length <= WORD_LIMIT
      requires EndsInHole(regions) && Tiles(regions, startAddress, end) && HeapTagged(mem[..], regions)
      requires header == regions[|regions| - 1].start
      modifies mem
      ensures Tagged(mem[..], Enlarged(regions, |regions| - 1, growth))
      ensures KeepsBlocks(old(mem[..]), mem[..], Blocks(regions))
    {
      ghost var m := mem[..];
      LastRegion(regions, startAddress, end);
      HeaderAt(m, regions, |regions| - 1);
      AddSize(mem, regions[|regions| - 1], header, growth);
      EnlargedTagged(m, mem[..], regions, startAddress, end, growth);
    }

    /** alloc, after expand of a heap without holes: the new bytes become its only hole. */
    method AppendHole(growth: int, end: int)
      requires index.Valid() && index.size == 0 < index.elems.Length && (mem as object) != index.elems
      requires OVERHEAD <= growth && 0 <= startAddress && 0 < end && end + growth <= mem.Length <= WORD_LIMIT
      requires Tiles(regions, startAddress, end) && HeapTagged(mem[..], regions) && Lists([], regions)
      modifies mem, index`size, index.elems
      ensures index.Valid() && index.Contents() == [end]
      ensures HeapTagged(mem[..], regions + [Region(end, growth, true)])
      ensures KeepsBlocks(old(mem[..]), mem[..], Blocks(regions))
    {
      ghost var m := mem[..];
      NoHoles([], regions);
      PutRegion(mem, end, growth, true);
      AppendedTagged(m, mem[..], regions, startAddress, end, growth);
      index.Insert(end, LessInMemory(mem[..]));
    }

    /** alloc, after expand: the tags and the index entry of the grown heap. */
    method GrowTags(highest: int, growth: int, end: int)
      requires index.Valid() && index.size < index.elems.Length && (mem as object) != index.elems
      requires OVERHEAD <= growth && 0 <= startAddress && 0 < end && end + growth <= mem.Length <= WORD_LIMIT
      requires Tiles(regions, startAddress, end) && HeapTagged(mem[..], regions) && Lists(index.Contents(), regions)
      requires index.size == 0 || EndsInHole(regions)
      requires index.size != 0 ==> highest == Highest(index.Contents()) && 0 < highest
      modifies mem, index`size, index.elems
      ensures index.Valid() && index.Contents() == GrownIndex(old(index.Contents()), end)
      ensures HeapTagged(mem[..], GrownRegions(regions, old(index.Contents()), end, growth))
      ensures KeepsBlocks(old(mem[..]), mem[..], Blocks(regions))
    {
      if index.size == 0 {
        AppendHole(growth, end);
      } else {
        HighestIsLast(regions, index.Contents(), startAddress, end);
        EnlargeHole(highest, growth, end);
      }
    }

    /** alloc: the rest of growing, once expand has moved the end of heap st. */
    method GiveBytes(highest: int, oldEnd: int, ghost st: State, ghost need: int)
      requires index.Valid() && (mem as object) != index.elems && Abs() == st.(end := endAddress) && oldEnd == st.end
      requires Wf(st) && GrowGuard(st, need) && 0 < need && st.max <= mem.Length <= WORD_LIMIT
      requires endAddress == st.start + RoundUp(st.end - st.start + need)
      requires HeapTagged(mem[..], st.regions)
      requires st.index != [] ==> highest == Highest(st.index) && 0 < highest
      modifies this`regions, mem, index`size, index.elems
      ensures index.Valid() && Abs() == Grown(st, need) && Wf(Abs()) && HeapTagged(mem[..], regions)
      ensures KeepsBlocks(old(mem[..]), mem[..], Blocks(st.regions))
    {
      GrowReady(st, need, endAddress);
      GrowTags(highest, endAddress - oldEnd, oldEnd);
      regions := GrownRegions(st.regions, st.index, oldEnd, endAddress - oldEnd);
      GrowDone(st, need, endAddress, regions, index.Contents());
    }

    /** alloc: expand the heap and give the new bytes to its last hole, or to a new one. */
    method Grow(need: int) returns (ok: bool)
      requires Valid() && GrowGuard(Abs(), need) && 0 < need
      modifies this`endAddress, this`regions, mem, index`size, index.elems, pager`pages, pager.bitmap.words
      ensures ok ==> Valid() && Abs() == Grown(old(Abs()), need)
      ensures ok ==> KeepsBlocks(old(mem[..]), mem[..], Blocks(old(regions)))
      ensures ok ==> Backing(old(pager.pages), pager.pages, old(endAddress), endAddress)
      ensures !ok ==> endAddress == old(endAddress) && Unbacked(Grown(old(Abs()), need).end)
    {
      hide HeapTagged, Mapped, Backing, KeepsBlocks, Unbacked, GrownRegions, Lists, NoAdjacentHoles;
      ghost var st := Abs();
      var highest := HighestEntry();
      if index.size != 0 { HighestEntryBounds(st); }
      var oldLength, oldEnd := endAddress - startAddress, endAddress;
      ok := Expand(oldLength + need);
      if !ok {
        return false;
      }
      GiveBytes(highest, oldEnd, st, need);
    }

    /** alloc, when the search has found a hole. */
    method AllocFitting(pos: nat, size: nat, pageAlign: bool) returns (p: int)
      requires Valid() && AllocReady(Abs(), size + OVERHEAD, pageAlign) && pos < index.size
      requires pos == FirstFit(index.Contents(), regions, size + OVERHEAD, pageAlign)
      modifies this`regions, mem, index`size, index.elems
      ensures Valid() && AllocStep(old(Snap()), size, pageAlign, Snap())
      ensures p == AllocOutcome(old(Abs()), size + OVERHEAD, pageAlign).block.start + HEADER
    {
      ghost var before := Snap();
      Found(Abs(), size + OVERHEAD, pageAlign);
      p := Place(pos, size + OVERHEAD, pageAlign);
      AllocStepPlaced(before, size, pageAlign, Snap());
    }

    /** alloc: the payload address; None when some page that the request needs has no frame and there is none left. */
    method Alloc(size: nat, pageAlign: bool) returns (r: Option<int>)
      requires Valid() && AllocReady(Abs(), size + OVERHEAD, pageAlign)
      modifies this`endAddress, this`regions, mem, index`size, index.elems, pager`pages, pager.bitmap.words
      ensures r.Some? ==> Valid() && AllocStep(old(Snap()), size, pageAlign, Snap())
      ensures r.Some? ==> r.value == AllocOutcome(old(Abs()), size + OVERHEAD, pageAlign).block.start + HEADER
      ensures r.Some? ==> Backing(old(pager.pages), pager.pages, old(endAddress), endAddress)
      ensures r == None ==>
        old(endAddress) <= endAddress && Unbacked(AllocOutcome(old(Abs()), size + OVERHEAD, pageAlign).state.end)
      decreases Shortfall(regions, size + OVERHEAD, pageAlign)
    {
      var need := size + OVERHEAD;
      hide Wf, HeapTagged, Mapped, Backing, AllocStep;
      ghost var st, before, pages := Abs(), Snap(), pager.pages;
      var pos := FindSmallestHole(need, pageAlign);
      if pos == -1 {
        GrowingRound(st, need, pageAlign);
        RoundsEnd(st, need, pageAlign);
        var ok := Grow(need);
        if !ok {
          return None;
        }
        ghost var grown, was := Snap(), pager.pages;
        r := Alloc(size, pageAlign);
        if r.Some? {
          AllocStepGrown(before, grown, size, pageAlign, Snap());
          BackingInTurn(pages, was, pager.pages, st.end, grown.st.end, endAddress);
        }
      } else {
        var p := AllocFitting(pos, size, pageAlign);
        BackingNothing(pages, endAddress);
        r := Some(p);
      }
    }

    // ---- free -------------------------------------------------------------------------------------------------

    /** free: the block becomes a hole. */
    method MarkHole(header: int, ghost r: Region)
      requires RegionTag(mem[..], r) && header == r.start && OVERHEAD <= r.size
      modifies mem
      ensures RegionTag(mem[..], r.(hole := true))
      ensures OnlyWithin(old(mem[..]), mem[..], header, header + HEADER)
    {
      mem[header + 4] := 1;
    }

    /** free, unify left: if a footer just below belongs to a hole, the hole takes the bytes from header on. Below
        the first region there is no footer. */
    method UnifyLeft(header: int, size: int, ghost left: seq<Region>) returns (at: int, total: int, found: seq<int>)
      requires OVERHEAD <= size && 0 < header && header + size <= mem.Length <= WORD_LIMIT
      requires RegionTag(mem[..], Region(header, size, true))
      requires header == startAddress <==> left == []
      requires startAddress <= header && |left| <= 1
      requires left != [] ==>
        RegionTag(mem[..], left[0]) && left[0].End() == header && OVERHEAD <= left[0].size && 0 < left[0].start
      modifies mem
      ensures found == if left != [] && left[0].hole then [left[0].start] else []
      ensures at == (if found != [] then left[0].start else header) && at + total == header + size
      ensures RegionTag(mem[..], Region(at, total, true))
      ensures OnlyWithin(old(mem[..]), mem[..], at, header + size)
    {
      at, total, found := header, size, [];
      if header > startAddress {
        var magic := GetWord(mem, header - FOOTER);
        var candidate := GetWord(mem, header - 4);
        if magic == HEAP_MAGIC && mem[candidate + 4] == 1 {
          at, found := candidate, [candidate];
          total := JoinLeft(mem, left[0], Region(header, size, true), at, header + size, size);
        }
      }
    }

    /** free, unify right: if a hole starts just above, it joins the hole at header. Above the last region there is
        no header. The footer is made to point to the merged header, as the source's comment says. */
    method UnifyRight(header: int, size: int, ghost right: seq<Region>) returns (total: int, found: seq<int>)
      requires OVERHEAD <= size && 0 < header && header + size <= mem.Length <= WORD_LIMIT
      requires RegionTag(mem[..], Region(header, size, true))
      requires header + size == endAddress <==> right == []
      requires header + size <= endAddress && |right| <= 1
      requires right != [] ==>
        RegionTag(mem[..], right[0]) && right[0].start == header + size && OVERHEAD <= right[0].size
      modifies mem
      ensures found == if right != [] && right[0].hole then [right[0].start] else []
      ensures total == size + if found != [] then right[0].size else 0
      ensures RegionTag(mem[..], Region(header, total, true))
      ensures OnlyWithin(old(mem[..]), mem[..], header, header + total)
    {
      total, found := size, [];
      var candidate := header + size;
      if candidate < endAddress {
        var magic := GetWord(mem, candidate);
        if magic == HEAP_MAGIC && mem[candidate + 4] != 0 {
          var other := GetWord(mem, candidate + 8);
          total, found := size + other, [candidate];
          AddSize(mem, Region(header, size, true), header, other);
        }
      }
    }

    /** free, unify right, as written: the header takes the hole above, and the footer of that hole stays as it is. */
    method UnifyRightAsWritten(header: int, size: int, ghost right: seq<Region>) returns (total: int, found: seq<int>)
      requires OVERHEAD <= size && 0 < header && header + size <= mem.Length <= WORD_LIMIT
      requires HeaderTag(mem[..], Region(header, size, true))
      requires header + size == endAddress <==> right == []
      requires header + size <= endAddress && |right| <= 1
      requires right != [] ==>
        RegionTag(mem[..], right[0]) && right[0].start == header + size && OVERHEAD <= right[0].size
      modifies mem
      ensures found == if right != [] && right[0].hole then [right[0].start] else []
      ensures total == size + if found != [] then right[0].size else 0
      ensures HeaderTag(mem[..], Region(header, total, true))
      ensures OnlyWithin(old(mem[..]), mem[..], header, header + HEADER)
    {
      total, found := size, [];
      var candidate := header + size;
      if candidate < endAddress {
        var magic := GetWord(mem, candidate);
        if magic == HEAP_MAGIC && mem[candidate + 4] != 0 {
          var other := GetWord(mem, candidate + 8);
          total, found := size + other, [candidate];
          PutSize(mem, Region(header, size, true), header, total);
        }
      }
    }

    /** free: the block becomes a hole, and joins the hole below. */
    method MarkAndUnifyLeft(header: int, ghost b: Region, ghost l: seq<Region>, ghost r: seq<Region>)
      returns (at: int, size: int, left: seq<int>)
      requires RegionTag(mem[..], b) && header == b.start && OVERHEAD <= b.size
      requires 0 < startAddress <= header && b.End() <= mem.Length <= WORD_LIMIT
      requires (header == startAddress <==> l == []) && |l| <= 1 && |r| <= 1
      requires l != [] ==> RegionTag(mem[..], l[0]) && l[0].End() == header && OVERHEAD <= l[0].size
                           && startAddress <= l[0].start
      requires r != [] ==> RegionTag(mem[..], r[0]) && r[0].start == b.End() && OVERHEAD <= r[0].size
      modifies mem
      ensures left == if l != [] && l[0].hole then [l[0].start] else []
      ensures at == (if left != [] then l[0].start else header) && at + size == b.End() && OVERHEAD <= size
      ensures RegionTag(mem[..], Region(at, size, true)) && (r != [] ==> RegionTag(mem[..], r[0]))
      ensures OnlyWithin(old(mem[..]), mem[..], at, b.End())
    {
      ghost var m := mem[..];
      var own := GetWord(mem, header + 8);
      MarkHole(header, b);
      ghost var m1 := mem[..];
      NeighbourTag(m, m1, l, header, header + HEADER);
      NeighbourTag(m, m1, r, header, header + HEADER);
      at, size, left := UnifyLeft(header, own, l);
      NeighbourTag(m1, mem[..], r, at, b.End());
    }

    /** free: the block becomes a hole and swallows the holes next to it; l and r are its neighbours. */
    method Unify(header: int, ghost b: Region, ghost l: seq<Region>, ghost r: seq<Region>)
      returns (at: int, size: int, left: seq<int>, right: seq<int>)
      requires RegionTag(mem[..], b) && header == b.start && OVERHEAD <= b.size
      requires 0 < startAddress <= header && b.End() <= endAddress <= mem.Length <= WORD_LIMIT
      requires (header == startAddress <==> l == []) && (b.End() == endAddress <==> r == []) && |l| <= 1 && |r| <= 1
      requires l != [] ==> RegionTag(mem[..], l[0]) && l[0].End() == header && OVERHEAD <= l[0].size
                           && startAddress <= l[0].start
      requires r != [] ==> RegionTag(mem[..], r[0]) && r[0].start == b.End() && OVERHEAD <= r[0].size
                           && r[0].End() <= endAddress
      modifies mem
      ensures left == if l != [] && l[0].hole then [l[0].start] else []
      ensures right == if r != [] && r[0].hole then [r[0].start] else []
      ensures at == if left != [] then l[0].start else header
      ensures at + size == if right != [] then r[0].End() else b.End()
      ensures RegionTag(mem[..], Region(at, size, true)) && OVERHEAD <= size
      ensures OnlyWithin(old(mem[..]), mem[..], at, at + size)
    {
      at, size, left := MarkAndUnifyLeft(header, b, l, r);
      size, right := UnifyRight(at, size, r);
    }

    /** free, as written: as Unify, but nobody rewrites the footer of a hole above. */
    method UnifyAsWritten(header: int, ghost b: Region, ghost l: seq<Region>, ghost r: seq<Region>)
      returns (at: int, size: int, left: seq<int>, right: seq<int>)
      requires RegionTag(mem[..], b) && header == b.start && OVERHEAD <= b.size
      requires 0 < startAddress <= header && b.End() <= endAddress <= mem.Length <= WORD_LIMIT
      requires (header == startAddress <==> l == []) && (b.End() == endAddress <==> r == []) && |l| <= 1 && |r| <= 1
      requires l != [] ==> RegionTag(mem[..], l[0]) && l[0].End() == header && OVERHEAD <= l[0].size
                           && startAddress <= l[0].start
      requires r != [] ==> RegionTag(mem[..], r[0]) && r[0].start == b.End() && OVERHEAD <= r[0].size
                           && r[0].End() <= endAddress
      modifies mem
      ensures left == if l != [] && l[0].hole then [l[0].start] else []
      ensures right == if r != [] && r[0].hole then [r[0].start] else []
      ensures at == if left != [] then l[0].start else header
      ensures at + size == if right != [] then r[0].End() else b.End()
      ensures HeaderTag(mem[..], Region(at, size, true)) && OVERHEAD <= size
      ensures right == [] ==> FooterTag(mem[..], Region(at, size, true))
      ensures OnlyWithin(old(mem[..]), mem[..], at, b.End())
    {
      hide HeaderTag, FooterTag;
      at, size, left := MarkAndUnifyLeft(header, b, l, r);
      ghost var m, own := mem[..], size;
      size, right := UnifyRightAsWritten(at, size, r);
      FooterStays(m, mem[..], Region(at, own, true), at, at + HEADER);
    }

    /** free, up to the point where the heap may contract. */
    method Coalesce(header: int, ghost i: nat) returns (at: int, size: int, left: seq<int>, right: seq<int>)
      requires Valid() && i < |regions| && !regions[i].hole && header == regions[i].start
      modifies mem
      ensures Region(at, size, true) == Merged(regions, i)
      ensures left == LeftStart(regions, i) && right == RightStart(regions, i)
      ensures RegionTag(mem[..], Merged(regions, i))
      ensures OnlyWithin(old(mem[..]), mem[..], at, at + size)
    {
      ghost var l := if 0 < i then [regions[i - 1]] else [];
      ghost var r := if i + 1 < |regions| then [regions[i + 1]] else [];
      UnifyReady(mem[..], regions, startAddress, endAddress, i, l, r);
      at, size, left, right := Unify(header, regions[i], l, r);
      UnifyIsMerge(regions, i, at, size, left, right, startAddress, endAddress);
    }

    /** The body of the loop in contract: give back the page at offset i. */
    method UnmapAt(i: int)
      requires Separate() && pager.Valid() && 0 <= startAddress && startAddress % PAGE == 0 && i % PAGE == 0 && 0 <= i
      requires forall n: nat :: n * PAGE == startAddress + i ==> pager.Backed(n)
      modifies pager`pages, pager.bitmap.words
      ensures pager.Valid()
      ensures forall n: nat :: startAddress + i <= n * PAGE < startAddress + i + PAGE ==>
        pager.EntryOf(n) == old(pager.EntryOf(n)).(frame := 0)
      ensures forall n: nat :: n * PAGE < startAddress + i || startAddress + i + PAGE <= n * PAGE ==>
        pager.EntryOf(n) == old(pager.EntryOf(n))
      ensures (i - PAGE) % PAGE == 0
    {
      PageStep(startAddress, i);
      var n := (startAddress + i) / PAGE;
      assert pager.Backed(n);
      pager.UnmapPage(n);
    }

    /** The loop of contract, from the last page of the heap downwards. */
    method GiveBackPages(length: int)
      requires Separate() && pager.Valid() && Mapped(startAddress, endAddress)
      requires 0 <= startAddress && startAddress % PAGE == 0 && endAddress % PAGE == 0
      requires 0 <= length <= endAddress - startAddress && length % PAGE == 0
      modifies pager`pages, pager.bitmap.words
      ensures pager.Valid()
      ensures forall n: nat :: n * PAGE <= startAddress + length || endAddress <= n * PAGE ==>
        pager.EntryOf(n) == old(pager.EntryOf(n))
      ensures forall n: nat :: startAddress + length < n * PAGE < endAddress ==>
        pager.EntryOf(n) == old(pager.EntryOf(n)).(frame := 0)
    {
      var oldSize := endAddress - startAddress;
      PageSums(endAddress, startAddress);
      PageSums(oldSize, PAGE);
      var i := oldSize - PAGE;
      while length < i
        invariant (length <= i || i == oldSize - PAGE) && i < oldSize && i % PAGE == 0
        invariant pager.Valid()
        invariant forall n: nat :: n * PAGE < startAddress + i + PAGE || endAddress <= n * PAGE ==>
          pager.EntryOf(n) == old(pager.EntryOf(n))
        invariant forall n: nat :: startAddress + i + PAGE <= n * PAGE < endAddress ==>
          pager.EntryOf(n) == old(pager.EntryOf(n)).(frame := 0)
      {
        PageApart(length, i);
        forall n: nat | n * PAGE == startAddress + i ensures pager.Backed(n) {
          assert old(pager.Backed(n));
        }
        UnmapAt(i);
        i := i - PAGE;
      }
      PageSums(startAddress, length);
      forall n: nat | startAddress + length < n * PAGE < endAddress
        ensures pager.EntryOf(n) == old(pager.EntryOf(n)).(frame := 0)
      {
        PageBehind(startAddress + length, n);
      }
    }

    /** contract: give back the pages above the new length, which is a page boundary and never below the minimum. */
    method Contract(newSize: int) returns (length: int)
      requires Separate() && pager.Valid() && Mapped(startAddress, endAddress)
      requires 0 <= startAddress && startAddress % PAGE == 0 && endAddress % PAGE == 0
      requires 0 <= newSize < endAddress - startAddress && HEAP_MIN_SIZE <= endAddress - startAddress
      modifies this`endAddress, pager`pages, pager.bitmap.words
      ensures length == ContractedLength(newSize) && endAddress == startAddress + length
      ensures endAddress <= old(endAddress)
      ensures pager.Valid() && Mapped(startAddress, endAddress)
      ensures forall n: nat :: n * PAGE <= endAddress || old(endAddress) <= n * PAGE ==>
        pager.EntryOf(n) == old(pager.EntryOf(n))
      ensures forall n: nat :: endAddress < n * PAGE < old(endAddress) ==>
        pager.EntryOf(n) == old(pager.EntryOf(n)).(frame := 0)
    {
      hide RoundUp;
      length := RoundUp(newSize);
      if length < HEAP_MIN_SIZE {
        length := HEAP_MIN_SIZE;
      }
      ContractRoom(startAddress, endAddress - startAddress, newSize);
      GiveBackPages(length);
      endAddress := startAddress + length;
      forall n: nat | startAddress <= n * PAGE < endAddress ensures pager.Backed(n) {
        assert old(pager.Backed(n));
      }
    }

    method Search(a: int) returns (pos: nat)
      requires index.Valid()
      ensures pos == IndexOf(index.Contents(), a)
    {
      ghost var idx := index.Contents();
      pos := 0;
      assert idx[0..] == idx;
      while pos < index.size && index.elems[pos] != a
        invariant pos <= index.size
        invariant IndexOf(idx, a) == pos + IndexOf(idx[pos..], a)
      {
        assert idx[pos..][1..] == idx[pos + 1..];
        pos := pos + 1;
      }
    }

    /** Search for an entry and remove it. */
    method RemoveEntry(a: int)
      requires index.Valid() && index.size < index.elems.Length
      modifies index`size, index.elems
      ensures index.Valid() && index.Contents() == Without(old(index.Contents()), a)
    {
      var pos := Search(a);
      if pos < index.size {
        index.Remove(pos);
      }
    }

    /** free: when the hole at the given address ends the heap, contract and keep only what is left of it. */
    method Shrink(at: int, size: int) returns (total: int)
      requires Separate() && pager.Valid() && Mapped(startAddress, endAddress)
      requires 0 < startAddress && startAddress % PAGE == 0
      requires endAddress % PAGE == 0 && endAddress <= mem.Length <= WORD_LIMIT
      requires HEAP_MIN_SIZE <= endAddress - startAddress
      requires startAddress <= at && at + size <= endAddress && OVERHEAD <= size
      requires HeaderTag(mem[..], Region(at, size, true))
      requires at + size == endAddress ==> RoomAfterContraction(startAddress, at)
      modifies mem, this`endAddress, pager`pages, pager.bitmap.words
      ensures pager.Valid() && Mapped(startAddress, endAddress)
      ensures ShrunkTo(startAddress, old(endAddress), at, size, total, endAddress)
      ensures total != 0 ==> HeaderTag(mem[..], Region(at, total, true))
      ensures total != 0 && at + size == old(endAddress) ==> FooterTag(mem[..], Region(at, total, true))
      ensures at + size != old(endAddress) ==> mem[..] == old(mem[..])
      ensures total != 0 && old(FooterTag(mem[..], Region(at, size, true))) ==>
        FooterTag(mem[..], Region(at, total, true))
      ensures OnlyWithin(old(mem[..]), mem[..], at, at + size)
    {
      total := size;
      if at + size == endAddress {
        var oldLength := endAddress - startAddress;
        var newLength := Contract(at - startAddress);
        total := size - (oldLength - newLength);
        if total > 0 {
          PutSize(mem, Region(at, size, true), at, total);
          CloseRegion(mem, Region(at, total, true), at, at + total);
        }
      }
    }

    /** free: the index entries of the merged neighbours and of the hole that is left. A hole that contraction used up
        leaves the index if a left neighbour had put it there, and is not inserted. */
    method ReindexFreed(at: int, left: seq<int>, right: seq<int>, gone: bool, ghost rs: seq<Region>,
                        ghost target: seq<int>)
      requires index.Valid() && (mem as object) != index.elems && index.size + 1 < index.elems.Length
      requires HeapTagged(mem[..], rs) && Tiles(rs, startAddress, endAddress)
      requires target == FreedIndex(index.Contents(), left, right, gone, at, Smaller(rs)) && Lists(target, rs)
      modifies index`size, index.elems
      ensures index.Valid() && index.Contents() == target
    {
      var doAdd := left == [];
      if right != [] {
        RemoveEntry(right[0]);
      }
      if gone {
        if !doAdd {
          RemoveEntry(at);
        }
        doAdd := false;
      }
      if doAdd {
        SameOrder(mem[..], rs, startAddress, endAddress, index.Contents(), at);
        index.Insert(at, LessInMemory(mem[..]));
      }
    }

    /** free: merge, contract, and the tags of what is left. */
    method FreeTags(header: int, ghost i: nat) returns (at: int, left: seq<int>, right: seq<int>, gone: bool)
      requires Valid() && IsBlock(Abs(), i) && FreeGuard(Abs(), i) && index.size + 1 < index.elems.Length
      requires header == regions[i].start
      modifies this`endAddress, mem, pager`pages, pager.bitmap.words
      ensures at == Merged(regions, i).start && left == LeftStart(regions, i) && right == RightStart(regions, i)
      ensures gone <==> Residual(old(Abs()), i) == 0
      ensures endAddress == Freed(old(Abs()), i).end && pager.Valid() && Mapped(startAddress, endAddress)
      ensures HeapTagged(mem[..], Freed(old(Abs()), i).regions)
      ensures KeepsBlocks(old(mem[..]), mem[..], Blocks(regions) - {regions[i]})
    {
      ghost var st, m := Abs(), mem[..];
      var size;
      at, size, left, right := Coalesce(header, i);
      gone := ShrinkFreed(at, size, st, i, m);
    }

    /** free, once block i of heap st with memory m has become part of the merged hole. */
    method ShrinkFreed(at: int, size: int, ghost st: State, ghost i: nat, ghost m: seq<byte>) returns (gone: bool)
      requires IsBlock(st, i) && FreeGuard(st, i) && |st.index| + 1 < st.capacity && HeapTagged(m, st.regions)
      requires Region(at, size, true) == Merged(st.regions, i)
      requires Separate() && pager.Valid() && Mapped(startAddress, endAddress)
      requires startAddress == st.start && endAddress == st.end && st.max <= mem.Length <= WORD_LIMIT
      requires RegionTag(mem[..], Region(at, size, true)) && OnlyWithin(m, mem[..], at, at + size)
      modifies mem, this`endAddress, pager`pages, pager.bitmap.words
      ensures gone <==> Residual(st, i) == 0
      ensures endAddress == Freed(st, i).end && pager.Valid() && Mapped(startAddress, endAddress)
      ensures HeapTagged(mem[..], Freed(st, i).regions)
      ensures KeepsBlocks(m, mem[..], Blocks(st.regions) - {st.regions[i]})
    {
      ShrinkReady(st, i, at, size);
      ghost var m1 := mem[..];
      var total := Shrink(at, size);
      gone := total == 0;
      FreeTagsDone(st, i, at, size, total, endAddress, m, m1, mem[..]);
    }

    /** free, as written, up to the index: right tags in the end exactly when there is no hole above, or it ended the
        heap. */
    method FreeTagsAsWritten(header: int, ghost i: nat)
      requires Valid() && IsBlock(Abs(), i) && FreeGuard(Abs(), i) && index.size + 1 < index.elems.Length
      requires header == regions[i].start
      modifies this`endAddress, mem, pager`pages, pager.bitmap.words
      ensures LeftAsWritten(old(mem[..]), mem[..], old(Abs()), i)
      ensures HeapTagged(mem[..], Freed(old(Abs()), i).regions) <==>
        MergeTo(regions, i) == i + 1 || MergeTo(regions, i) == |regions|
    {
      ghost var st, m := Abs(), mem[..];
      var at, size := CoalesceAsWritten(header, i);
      ShrinkAsWritten(at, size, st, i, m);
      TagsAsWrittenRight(st, i, m, mem[..]);
    }

    /** free, as written, up to the point where the heap may contract. */
    method CoalesceAsWritten(header: int, ghost i: nat) returns (at: int, size: int)
      requires Valid() && i < |regions| && !regions[i].hole && header == regions[i].start
      modifies mem
      ensures Region(at, size, true) == Merged(regions, i)
      ensures HeaderTag(mem[..], Region(at, size, true))
      ensures MergeTo(regions, i) == i + 1 ==> FooterTag(mem[..], Region(at, size, true))
      ensures OnlyWithin(old(mem[..]), mem[..], at, regions[i].End())
    {
      ghost var l := if 0 < i then [regions[i - 1]] else [];
      ghost var r := if i + 1 < |regions| then [regions[i + 1]] else [];
      UnifyReady(mem[..], regions, startAddress, endAddress, i, l, r);
      var left, right;
      at, size, left, right := UnifyAsWritten(header, regions[i], l, r);
      UnifyIsMerge(regions, i, at, size, left, right, startAddress, endAddress);
    }

    /** free, as written: contraction, once block i of heap st with memory m has become part of the merged hole. */
    method ShrinkAsWritten(at: int, size: int, ghost st: State, ghost i: nat, ghost m: seq<byte>)
      requires IsBlock(st, i) && FreeGuard(st, i) && |st.index| + 1 < st.capacity
      requires Region(at, size, true) == Merged(st.regions, i)
      requires Separate() && pager.Valid() && Mapped(startAddress, endAddress)
      requires startAddress == st.start && endAddress == st.end && st.max <= mem.Length <= WORD_LIMIT
      requires HeaderTag(mem[..], Region(at, size, true)) && OnlyWithin(m, mem[..], at, st.regions[i].End())
      requires MergeTo(st.regions, i) == i + 1 ==> FooterTag(mem[..], Region(at, size, true))
      modifies mem, this`endAddress, pager`pages, pager.bitmap.words
      ensures LeftAsWritten(m, mem[..], st, i)
    {
      ShrinkReady(st, i, at, size);
      ghost var m1 := mem[..];
      var total := Shrink(at, size);
      LeftDone(st, i, at, size, total, endAddress, m, m1, mem[..]);
    }

    /** free. The block's header must be one that alloc made, and contraction must leave room for tags. */
    method Free(p: int)
      requires Valid()
      requires p != 0 ==> IsBlock(Abs(), Where(regions, p - HEADER)) && FreeGuard(Abs(), Where(regions, p - HEADER))
      requires p != 0 ==> index.size + 1 < index.elems.Length
      modifies this`endAddress, this`regions, mem, index`size, index.elems, pager`pages, pager.bitmap.words
      ensures Valid()
      ensures p == 0 ==> Snap() == old(Snap())
      ensures p != 0 ==> FreeStep(old(Snap()), p, Snap())
    {
      if p == 0 {
        return;
      }
      FreeBlock(p - HEADER, Where(regions, p - HEADER));
    }

    /** free of a block. */
    method FreeBlock(header: int, ghost i: nat)
      requires Valid() && IsBlock(Abs(), i) && FreeGuard(Abs(), i) && index.size + 1 < index.elems.Length
      requires header == regions[i].start
      modifies this`endAddress, this`regions, mem, index`size, index.elems, pager`pages, pager.bitmap.words
      ensures Valid() && Abs() == Freed(old(Abs()), i)
      ensures KeepsBlocks(old(mem[..]), mem[..], Blocks(old(regions)) - {old(regions)[i]})
    {
      ghost var st := Abs();
      var at, left, right, gone := FreeTags(header, i);
      Settle(at, left, right, gone, st, i);
    }

    /** free: the index and the list of regions, once the tags of what is left of heap st are written. */
    method Settle(at: int, left: seq<int>, right: seq<int>, gone: bool, ghost st: State, ghost i: nat)
      requires index.Valid() && (mem as object) != index.elems && Abs() == st.(end := endAddress)
      requires IsBlock(st, i) && FreeGuard(st, i) && |st.index| + 1 < st.capacity && endAddress == Freed(st, i).end
      requires HeapTagged(mem[..], Freed(st, i).regions)
      requires at == Merged(st.regions, i).start
      requires left == LeftStart(st.regions, i) && right == RightStart(st.regions, i)
      requires gone <==> Residual(st, i) == 0
      modifies this`regions, index`size, index.elems
      ensures index.Valid() && Abs() == Freed(st, i) && Wf(Abs())
    {
      ghost var st' := Freed(st, i);
      FreedShape(st, i);
      ReindexFreed(at, left, right, gone, st'.regions, st'.index);
      regions := st'.regions;
    }
  }
}
