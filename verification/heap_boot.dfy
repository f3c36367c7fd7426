/** From booting to the kernel's heap (kernel/cpu/paging/paging.c, kernel/libc/memory.c). */
module HeapBoot {
  import opened Bytes
  import opened Frames
  import opened Paging
  import opened BootPaging
  import opened Pagers
  import opened HeapModel
  import opened HeapOps
  import opened HeapLaws
  import opened HeapAlloc
  import opened HeapFree
  import opened HeapRuns
  import opened HeapReentry
  import opened Heaps

  /** The tables a directory has. */
  ghost function TablesOf(dir: PageDirectory): set<nat>
    reads dir.tables
  {
    set i: nat | i < dir.tables.Length && dir.tables[i] != null
  }

  /** The heap that create_heap makes at boot. */
  function BootHeap(tables: set<nat>): State {
    State(BOOT_START, BOOT_END, BOOT_MAX, BOOT_CAPACITY, tables, [Region(BOOT_START, BOOT_END - BOOT_START, true)],
          [BOOT_START])
  }

  /** What booting leaves is what the heap needs: entries, frames and pages. */
  lemma BootedForHeap(kernel: Kernel, dir: PageDirectory, n: nat)
    requires Booted(kernel, dir, n)
    ensures EntriesOf(dir.Flat(), TablesOf(dir))
    ensures BOOT_TABLE in TablesOf(dir) && BOOT_TABLE + 1 !in TablesOf(dir)
    ensures HoldersPresent(dir.Flat())
    ensures forall k: nat :: KHEAP_PAGE <= k < KHEAP_PAGE + KHEAP_PAGES ==>
      Entry(dir.Flat(), k).frame != 0 && Entry(dir.Flat(), k).present
  {
    forall k: nat | k in dir.Flat() && dir.Flat()[k].frame != 0 ensures dir.Flat()[k].present {
      LayoutEntryIs(dir.Flat(), n, KHEAP_PAGES, k);
    }
    forall k: nat | KHEAP_PAGE <= k < KHEAP_PAGE + KHEAP_PAGES
      ensures Entry(dir.Flat(), k).frame != 0 && Entry(dir.Flat(), k).present
    {
      assert NextEntry(dir.Flat(), n, k);
    }
  }

  /** The end of initialise_paging: create_heap over the pages just mapped. The entries of the directory are handed over
      as a map. */
  method CreateKernelHeap(kernel: Kernel, dir: PageDirectory, pages: map<nat, Page>, mem: array<byte>, ghost n: nat)
    returns (heap: Heap)
    requires Booted(kernel, dir, n) && pages == dir.Flat()
    requires BOOT_MAX <= mem.Length <= WORD_LIMIT && (mem as object) != kernel.bitmap.words
    modifies mem
    ensures heap.Valid() && heap.mem == mem && heap.Abs() == BootHeap(TablesOf(dir)) && Inv(heap.Snap())
    ensures heap.pager.bitmap == kernel.bitmap && heap.pager.pages == pages
    ensures BOOT_TABLE in TablesOf(dir) && BOOT_TABLE + 1 !in TablesOf(dir)
  {
    BootedForHeap(kernel, dir, n);
    var pager := new Pager(kernel.bitmap, pages, TablesOf(dir));
    heap := new Heap(mem, pager, KHEAP_START, KHEAP_START + KHEAP_INITIAL_SIZE, BOOT_MAX, false, false);
  }

  /** A heap with the one table that booting makes, and no longer than that. */
  ghost predicate FromBoot(st: State) {
    && st.start == BOOT_START && st.end <= BOOT_TABLE_END
    && BOOT_TABLE in st.tables && BOOT_TABLE + 1 !in st.tables
  }

  /** Growing up to some new end calls for no page table if and only if that end is not beyond the last page of the one
      table there is. */
  lemma TablesFromBoot(st: State, need: int)
    requires Wf(st) && FromBoot(st) && 0 < need
    ensures var end := st.start + NewLength(st, need);
      TablesPresent(st.tables, st.end, end) <==> end <= BOOT_TABLE_END
  {
    Growth(st, need);
    BootTables(st.tables, st.end, st.start + NewLength(st, need));
  }

  lemma GrownFromBoot(st: State, need: int)
    requires Wf(st) && FromBoot(st) && 0 < need && GrowGuard(st, need)
    ensures FromBoot(Grown(st, need))
  {
    TablesFromBoot(st, need);
  }

  lemma {:induction false} AllocatedFromBoot(st: State, need: int, align: bool)
    requires AllocReady(st, need, align) && FromBoot(st)
    ensures FromBoot(AllocOutcome(st, need, align).state)
    decreases Shortfall(st.regions, need, align)
  {
    if FirstFit(st.index, st.regions, need, align) == |st.index| {
      GrowingRound(st, need, align);
      GrownFromBoot(st, need);
      AllocatedFromBoot(Grown(st, need), need, align);
    }
  }

  lemma AllocFromBoot(s: Snapshot, size: nat, align: bool, t: Snapshot)
    requires AllocStep(s, size, align, t) && FromBoot(s.st)
    ensures FromBoot(t.st)
  {
    AllocatedFromBoot(s.st, size + OVERHEAD, align);
  }

  lemma FreeFromBoot(s: Snapshot, p: int, t: Snapshot)
    requires FreeStep(s, p, t) && FromBoot(s.st)
    ensures FromBoot(t.st)
  {
    FreedWf(s.st, Where(s.st.regions, p - HEADER));
  }

  lemma StepFromBoot(s: Snapshot, e: Event, t: Snapshot)
    requires Step(s, e, t) && FromBoot(s.st)
    ensures FromBoot(t.st)
  {
    if e.AllocEv? {
      AllocFromBoot(s, e.size, e.align, t);
    } else if e.FreeEv? {
      FreeFromBoot(s, e.p, t);
    } else {
      assert t.st == s.st;
    }
  }

  /** Over any run from boot the heap never gets beyond its one page table; what would take it there is exactly what
      calls alloc from inside expand. */
  lemma {:induction false} RunFromBoot(trace: seq<Snapshot>, events: seq<Event>, k: nat)
    requires Run(trace, events) && k < |trace| && FromBoot(trace[0].st)
    ensures FromBoot(trace[k].st)
  {
    if 0 < k {
      RunFromBoot(trace, events, k - 1);
      assert Step(trace[k - 1], events[k - 1], trace[k]);
      StepFromBoot(trace[k - 1], events[k - 1], trace[k]);
    }
  }
}
