/** Whole runs of the heap: allocations, frees, and clients writing their own payload (kernel/libc/memory.c). */
module HeapRuns {
  import opened Bytes
  import opened HeapModel
  import opened HeapOps
  import opened HeapLaws
  import opened HeapAlloc
  import opened HeapFree
  import opened HeapMemory
  import opened HeapMemoryLaws

  datatype Snapshot = Snapshot(mem: seq<byte>, st: State)

  datatype Event =
    | AllocEv(size: nat, align: bool)
    | FreeEv(p: int)
    | StoreEv(block: Region, at: int, data: seq<byte>)

  ghost predicate Inv(s: Snapshot) {
    Wf(s.st) && HeapTagged(s.mem, s.st.regions)
  }

  ghost predicate AllocStep(s: Snapshot, size: nat, align: bool, t: Snapshot) {
    && AllocReady(s.st, size + OVERHEAD, align)
    && t.st == AllocOutcome(s.st, size + OVERHEAD, align).state
    && KeepsBlocks(s.mem, t.mem, Blocks(s.st.regions)) && HeapTagged(t.mem, t.st.regions)
  }

  ghost predicate FreeStep(s: Snapshot, p: int, t: Snapshot) {
    var i := Where(s.st.regions, p - HEADER);
    && IsBlock(s.st, i) && FreeGuard(s.st, i) && |s.st.index| + 1 < s.st.capacity
    && t.st == Freed(s.st, i)
    && KeepsBlocks(s.mem, t.mem, Blocks(s.st.regions) - {s.st.regions[i]}) && HeapTagged(t.mem, t.st.regions)
  }

  /** The owner of a block writes between its header and its footer. */
  ghost predicate StoreStep(s: Snapshot, b: Region, at: int, data: seq<byte>, t: Snapshot) {
    && b in Blocks(s.st.regions) && b.start + HEADER <= at && at + |data| <= b.End() - FOOTER
    && t.st == s.st && OnlyWithin(s.mem, t.mem, at, at + |data|)
    && 0 <= at && at + |data| <= |t.mem| && t.mem[at..at + |data|] == data
  }

  ghost predicate Step(s: Snapshot, e: Event, t: Snapshot) {
    match e
    case AllocEv(size, align) => AllocStep(s, size, align, t)
    case FreeEv(p) => FreeStep(s, p, t)
    case StoreEv(b, at, data) => StoreStep(s, b, at, data, t)
  }

  ghost predicate Run(trace: seq<Snapshot>, events: seq<Event>) {
    |trace| == |events| + 1 && forall k :: 0 <= k < |events| ==> Step(trace[k], events[k], trace[k + 1])
  }

  /** An allocation in the heap that one round of growing has made is one in the heap before. */
  lemma AllocStepGrown(s: Snapshot, g: Snapshot, size: nat, align: bool, t: Snapshot)
    requires AllocReady(s.st, size + OVERHEAD, align)
    requires FirstFit(s.st.index, s.st.regions, size + OVERHEAD, align) == |s.st.index|
    requires g.st == Grown(s.st, size + OVERHEAD) && KeepsBlocks(s.mem, g.mem, Blocks(s.st.regions))
    requires AllocStep(g, size, align, t)
    ensures AllocStep(s, size, align, t)
    ensures AllocOutcome(s.st, size + OVERHEAD, align).block == AllocOutcome(g.st, size + OVERHEAD, align).block
  {
    GrowingRound(s.st, size + OVERHEAD, align);
    GrownWf(s.st, size + OVERHEAD);
    KeepsTransitive(s.mem, g.mem, t.mem, Blocks(s.st.regions));
  }

  /** Cutting the block out of the first hole that fits is a whole allocation. */
  lemma AllocStepPlaced(s: Snapshot, size: nat, align: bool, t: Snapshot)
    requires AllocReady(s.st, size + OVERHEAD, align)
    requires FirstFit(s.st.index, s.st.regions, size + OVERHEAD, align) < |s.st.index|
    requires var k := FirstFit(s.st.index, s.st.regions, size + OVERHEAD, align);
      Where(s.st.regions, s.st.index[k]) < |s.st.regions| && t.st == Placed(s.st, k, size + OVERHEAD, align)
    requires KeepsBlocks(s.mem, t.mem, Blocks(s.st.regions)) && HeapTagged(t.mem, t.st.regions)
    ensures AllocStep(s, size, align, t)
    ensures var k := FirstFit(s.st.index, s.st.regions, size + OVERHEAD, align);
      AllocOutcome(s.st, size + OVERHEAD, align).block == BlockOf(HoleAt(s.st, k), size + OVERHEAD, align)
  {
  }

  // ---- Blocks do not overlap ----------------------------------------------------------------------------------

  lemma BlocksApart(st: State, a: Region, b: Region)
    requires Wf(st) && a in Blocks(st.regions) && b in Blocks(st.regions) && a != b
    ensures a.End() <= b.start || b.End() <= a.start
    ensures st.start <= a.start && a.End() <= st.end && OVERHEAD <= a.size
  {
    BlockMember(st.regions, a);
    BlockMember(st.regions, b);
    var i :| 0 <= i < |st.regions| && st.regions[i] == a;
    var j :| 0 <= j < |st.regions| && st.regions[j] == b;
    TilesAt(st.regions, st.start, st.end, i);
    if i < j { TilesOrdered(st.regions, st.start, st.end, i, j); }
    if j < i { TilesOrdered(st.regions, st.start, st.end, j, i); }
  }

  lemma StoreKeepsTag(m: seq<byte>, n: seq<byte>, b: Region, at: int, len: nat)
    requires RegionTag(m, b) && OnlyWithin(m, n, at, at + len)
    requires b.start + HEADER <= at && at + len <= b.End() - FOOTER
    ensures Tagged(n, [b]) && OnlyWithin(m, n, b.start, b.End())
  {
    assert RegionTag(n, b);
    assert [b][1..] == [];
  }

  /** Whatever a client stores in its payload, magic numbers included, no tag is touched. */
  lemma StoreKeepsTags(s: Snapshot, b: Region, at: int, data: seq<byte>, t: Snapshot)
    requires Inv(s) && StoreStep(s, b, at, data, t)
    ensures Inv(t)
  {
    var rs := s.st.regions;
    BlockMember(rs, b);
    var i :| 0 <= i < |rs| && rs[i] == b;
    BlockTagged(s.mem, rs, i);
    TilesAt(rs, s.st.start, s.st.end, i);
    SplitAt(rs, i);
    StoreKeepsTag(s.mem, t.mem, b, at, |data|);
    SpliceTagged(s.mem, t.mem, rs[..i], [b], [b], rs[i + 1..], s.st.start, b.start, b.End(), s.st.end);
  }

  lemma AllocKeepsInv(s: Snapshot, size: nat, align: bool, t: Snapshot)
    requires Inv(s) && AllocStep(s, size, align, t)
    ensures Inv(t) && t.st.start == s.st.start && t.st.max == s.st.max && t.st.tables == s.st.tables
  {
    hide Wf, HeapTagged, KeepsBlocks;
    AllocatedGood(s.st, size + OVERHEAD, align);
  }

  lemma FreeKeepsInv(s: Snapshot, p: int, t: Snapshot)
    requires Inv(s) && FreeStep(s, p, t)
    ensures Inv(t) && t.st.start == s.st.start && t.st.max == s.st.max && t.st.tables == s.st.tables
  {
    hide Wf, HeapTagged, KeepsBlocks;
    FreedWf(s.st, Where(s.st.regions, p - HEADER));
  }

  lemma StoreKeepsInv(s: Snapshot, b: Region, at: int, data: seq<byte>, t: Snapshot)
    requires Inv(s) && StoreStep(s, b, at, data, t)
    ensures Inv(t) && t.st == s.st
  {
    hide Wf, HeapTagged;
    StoreKeepsTags(s, b, at, data, t);
  }

  /** Every step keeps the heap well formed and its tags right. */
  lemma StepKeepsInv(s: Snapshot, e: Event, t: Snapshot)
    requires Inv(s) && Step(s, e, t)
    ensures Inv(t) && t.st.start == s.st.start && t.st.max == s.st.max && t.st.tables == s.st.tables
  {
    hide Inv, AllocStep, FreeStep, StoreStep;
    match e {
      case AllocEv(size, align) => AllocKeepsInv(s, size, align, t);
      case FreeEv(p) => FreeKeepsInv(s, p, t);
      case StoreEv(b, at, data) => StoreKeepsInv(s, b, at, data, t);
    }
  }

  lemma InvWalks(s: Snapshot)
    requires Inv(s)
    ensures Walk(s.mem, s.st.start, s.st.end) == s.st.regions
    ensures TotalSize(s.st.regions, true) + TotalSize(s.st.regions, false) == s.st.Length()
  {
    WalkFindsRegions(s.mem, s.st.regions, s.st.start, s.st.end);
    Conservation(s.st.regions, s.st.start, s.st.end);
  }

  /** In every state of every run the regions tile the heap, the tags agree with them, the index lists the holes, and
      walking the headers in memory finds exactly the regions. */
  lemma {:induction false} RunKeepsInv(trace: seq<Snapshot>, events: seq<Event>, k: nat)
    requires Run(trace, events) && Inv(trace[0]) && k < |trace|
    ensures Inv(trace[k]) && trace[k].st.start == trace[0].st.start && trace[k].st.tables == trace[0].st.tables
    ensures Walk(trace[k].mem, trace[k].st.start, trace[k].st.end) == trace[k].st.regions
    ensures TotalSize(trace[k].st.regions, true) + TotalSize(trace[k].st.regions, false) == trace[k].st.Length()
  {
    hide Inv, Step, Walk, TotalSize;
    if 0 < k {
      RunKeepsInv(trace, events, k - 1);
      StepKeepsInv(trace[k - 1], events[k - 1], trace[k]);
    }
    InvWalks(trace[k]);
  }

  // ---- What a block holds stays there -------------------------------------------------------------------------

  /** The event leaves block b and its bytes alone. */
  predicate Spares(e: Event, b: Region) {
    match e
    case AllocEv(_, _) => true
    case FreeEv(p) => p != b.start + HEADER
    case StoreEv(c, _, _) => c != b
  }

  lemma AllocSpares(s: Snapshot, size: nat, align: bool, t: Snapshot, b: Region)
    requires Inv(s) && AllocStep(s, size, align, t) && b in Blocks(s.st.regions)
    ensures b in Blocks(t.st.regions) && Same(s.mem, t.mem, b.start, b.End())
  {
    AllocatedGood(s.st, size + OVERHEAD, align);
  }

  lemma FreeSpares(s: Snapshot, p: int, t: Snapshot, b: Region)
    requires FreeStep(s, p, t) && b in Blocks(s.st.regions) && p != b.start + HEADER
    ensures b in Blocks(t.st.regions) && Same(s.mem, t.mem, b.start, b.End())
  {
    FreedBlocks(s.st, Where(s.st.regions, p - HEADER));
  }

  lemma StoreSpares(s: Snapshot, c: Region, at: int, data: seq<byte>, t: Snapshot, b: Region)
    requires Inv(s) && StoreStep(s, c, at, data, t) && b in Blocks(s.st.regions) && b != c
    ensures b in Blocks(t.st.regions) && Same(s.mem, t.mem, b.start, b.End())
  {
    BlocksApart(s.st, b, c);
  }

  lemma StepSpares(s: Snapshot, e: Event, t: Snapshot, b: Region)
    requires Inv(s) && Step(s, e, t) && b in Blocks(s.st.regions) && Spares(e, b)
    ensures b in Blocks(t.st.regions) && Same(s.mem, t.mem, b.start, b.End())
  {
    match e {
      case AllocEv(size, align) => AllocSpares(s, size, align, t, b);
      case FreeEv(p) => FreeSpares(s, p, t, b);
      case StoreEv(c, at, data) => StoreSpares(s, c, at, data, t, b);
    }
  }

  /** A block that is not freed stays live, and its bytes change only when its owner stores to it, over any run. */
  lemma {:induction false} RunSpares(trace: seq<Snapshot>, events: seq<Event>, lo: nat, hi: nat, b: Region)
    requires Run(trace, events) && Inv(trace[0]) && lo <= hi < |trace|
    requires b in Blocks(trace[lo].st.regions)
    requires forall k :: lo <= k < hi ==> Spares(events[k], b)
    ensures b in Blocks(trace[hi].st.regions)
    ensures Same(trace[lo].mem, trace[hi].mem, b.start, b.End())
    decreases hi - lo
  {
    if lo < hi {
      RunSpares(trace, events, lo, hi - 1, b);
      RunKeepsInv(trace, events, hi - 1);
      StepSpares(trace[hi - 1], events[hi - 1], trace[hi], b);
    }
  }

  /** What a client stored is what it reads back, however the heap is used by others in between. */
  lemma StoredIsKept(trace: seq<Snapshot>, events: seq<Event>, lo: nat, hi: nat)
    requires Run(trace, events) && Inv(trace[0]) && lo < hi < |trace| && events[lo].StoreEv?
    requires forall k :: lo < k < hi ==> Spares(events[k], events[lo].block)
    ensures var e := events[lo];
      0 <= e.at && e.at + |e.data| <= |trace[hi].mem| && trace[hi].mem[e.at..e.at + |e.data|] == e.data
  {
    hide Inv, Blocks;
    var e := events[lo];
    assert Step(trace[lo], events[lo], trace[lo + 1]);
    RunKeepsInv(trace, events, lo + 1);
    RunSpares(trace, events, lo + 1, hi, e.block);
    var m, n := trace[lo + 1].mem, trace[hi].mem;
    assert Same(m, n, e.block.start, e.block.End());
    assert n[e.at..e.at + |e.data|] == m[e.at..e.at + |e.data|];
  }

  // ---- free undoes alloc --------------------------------------------------------------------------------------

  /** The block of a request that some hole fits, in the list of regions. */
  lemma BlockIsAt(st: State, need: int, align: bool)
    requires AllocReady(st, need, align) && FirstFit(st.index, st.regions, need, align) < |st.index|
    ensures var k := FirstFit(st.index, st.regions, need, align);
      && PlaceReady(st, k, need, align)
      && AllocOutcome(st, need, align).state == Placed(st, k, need, align)
      && var i := Where(st.regions, st.index[k]) + if align then 1 else 0;
         Where(Placed(st, k, need, align).regions, AllocOutcome(st, need, align).block.start) == i
  {
    var k := FirstFit(st.index, st.regions, need, align);
    Found(st, need, align);
    FreeUndoesPlace(st, k, need, align);
    PlacedWf(st, k, need, align);
    var t := Placed(st, k, need, align);
    WhereIs(t.regions, t.start, t.end, Where(st.regions, st.index[k]) + if align then 1 else 0);
  }

  lemma KeptOverBoth(s: seq<byte>, t: seq<byte>, u: seq<byte>, a: set<Region>, b: set<Region>)
    requires KeepsBlocks(s, t, a) && KeepsBlocks(t, u, b) && a <= b
    ensures KeepsBlocks(s, u, a)
  {
    forall r | r in a ensures Same(s, u, r.start, r.End()) {
      assert Same(s, t, r.start, r.End()) && Same(t, u, r.start, r.End());
    }
  }

  lemma RestoredState(st: State, k: nat, need: int, align: bool, t: State, i: nat)
    requires PlaceReady(st, k, need, align) && t == Placed(st, k, need, align)
    requires i == Where(st.regions, st.index[k]) + if align then 1 else 0
    requires IsBlock(t, i) && FreeGuard(t, i) && |t.index| + 1 < t.capacity && Freed(t, i).end == st.end
    ensures Freed(t, i).regions == st.regions && multiset(Freed(t, i).index) == multiset(st.index)
    ensures Blocks(st.regions) <= Blocks(t.regions) - {t.regions[i]}
  {
    hide Wf, BlockOf, FreeGuard, FreedParts, FreedIndex, PlacedRegions, PlacedIndex, LengthAfterFree;
    FreeUndoesPlace(st, k, need, align);
    SameHoles(st, t, i);
    FreedBlock(st, k, need, align, t, i);
  }

  lemma SameHoles(st: State, t: State, i: nat)
    requires Wf(st) && IsBlock(t, i) && FreeGuard(t, i) && |t.index| + 1 < t.capacity
    requires Freed(t, i).regions == st.regions
    ensures multiset(Freed(t, i).index) == multiset(st.index)
  {
    FreedWf(t, i);
  }

  lemma FreedBlock(st: State, k: nat, need: int, align: bool, t: State, i: nat)
    requires PlaceReady(st, k, need, align) && t == Placed(st, k, need, align)
    requires i < |t.regions| && t.regions[i] == BlockOf(HoleAt(st, k), need, align)
    ensures Blocks(st.regions) <= Blocks(t.regions) - {t.regions[i]}
  {
    PlacedBlocks(st, k, need, align);
  }

  lemma FreeStepIs(t: Snapshot, p: int, u: Snapshot, i: nat)
    requires FreeStep(t, p, u) && i == Where(t.st.regions, p - HEADER)
    ensures IsBlock(t.st, i) && FreeGuard(t.st, i) && |t.st.index| + 1 < t.st.capacity && u.st == Freed(t.st, i)
    ensures KeepsBlocks(t.mem, u.mem, Blocks(t.st.regions) - {t.st.regions[i]})
  {
  }

  /** Freeing what was just allocated restores all regions and the set of holes, and no live block notices, unless one
      of the two calls changes the length of the heap. */
  lemma FreeUndoesAlloc(s: Snapshot, size: nat, align: bool, t: Snapshot, u: Snapshot)
    requires AllocStep(s, size, align, t)
    requires FirstFit(s.st.index, s.st.regions, size + OVERHEAD, align) < |s.st.index|
    requires FreeStep(t, AllocOutcome(s.st, size + OVERHEAD, align).block.start + HEADER, u)
    requires u.st.end == s.st.end
    ensures u.st.regions == s.st.regions && multiset(u.st.index) == multiset(s.st.index)
    ensures KeepsBlocks(s.mem, u.mem, Blocks(s.st.regions))
  {
    var need := size + OVERHEAD;
    var k := FirstFit(s.st.index, s.st.regions, need, align);
    BlockIsAt(s.st, need, align);
    var i := Where(s.st.regions, s.st.index[k]) + if align then 1 else 0;
    FreeStepIs(t, AllocOutcome(s.st, need, align).block.start + HEADER, u, i);
    RestoredState(s.st, k, need, align, t.st, i);
    KeptOverBoth(s.mem, t.mem, u.mem, Blocks(s.st.regions), Blocks(t.st.regions) - {t.st.regions[i]});
  }
}
