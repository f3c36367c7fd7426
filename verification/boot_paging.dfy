/** The mapping loops of initialise_paging (kernel/cpu/paging/paging.c). */
module BootPaging {
  import opened Frames
  import opened FrameRuns
  import opened Paging
  import Pagers

  const MEM_END_PAGE: nat := 0x100_0000
  const BOOT_FRAMES: nat := MEM_END_PAGE / PAGE_SIZE
  /** Booting touches no table from this one on, except the heap's. */
  const BOOT_TABLES: nat := 5
  /** The highest start value from which everything fits. */
  const BOOT_LIMIT: nat := 0xEF_6F80
  const KHEAP_START: nat := 0xC000_0000
  const KHEAP_INITIAL_SIZE: nat := 0x10_0000
  const KHEAP_PAGE: nat := KHEAP_START / PAGE_SIZE
  const KHEAP_PAGES: nat := KHEAP_INITIAL_SIZE / PAGE_SIZE

  /** The used frames are exactly those below n. */
  ghost predicate UsedBelow(used: set<nat>, n: nat) {
    forall f: nat :: f in used <==> f < n
  }

  lemma LeastFreeAbove(used: set<nat>, n: nat, f: nat)
    requires UsedBelow(used, n) && LeastFree(f, used)
    ensures f == n
  {
    assert n < f ==> n in used;
  }

  lemma NoneLeft(used: set<nat>, n: nat, limit: nat)
    requires UsedBelow(used, n) && forall f: nat :: f < limit ==> f in used
    ensures limit <= n
  {
    assert n < limit ==> n in used;
  }

  /** Tables still missing among the first t. */
  ghost function Missing(tables: seq<PageTable?>, t: nat): nat
    requires t <= |tables|
  {
    if t == 0 then 0 else (if tables[t - 1] == null then 1 else 0) + Missing(tables, t - 1)
  }

  lemma {:induction false} MissingAfter(a: seq<PageTable?>, b: seq<PageTable?>, t: nat, k: nat)
    requires t <= |a| == |b| && k < |a|
    requires forall i :: 0 <= i < |a| && i != k ==> b[i] == a[i]
    requires b[k] != null
    ensures Missing(b, t) == Missing(a, t) - (if k < t && a[k] == null then 1 else 0)
  {
    if t != 0 {
      MissingAfter(a, b, t - 1, k);
    }
  }

  /** What the bump address pays for the table of a page: nothing if it is there. */
  function Paid(was: nat, there: bool): nat {
    if there then was else AlignUp(was) + PAGE_SIZE
  }

  /** A new table takes less than two pages of address space, and exactly one from a page boundary on. */
  lemma MissingBudget(a: seq<PageTable?>, b: seq<PageTable?>, t: nat, k: nat, was: nat)
    requires t <= |a| == |b| && k < t
    requires (forall i :: 0 <= i < |a| && i != k ==> b[i] == a[i]) && b[k] != null
    ensures var now := Paid(was, a[k] != null);
      && was <= now && now + 2 * PAGE_SIZE * Missing(b, t) <= was + 2 * PAGE_SIZE * Missing(a, t)
      && (was % PAGE_SIZE == 0 ==> now % PAGE_SIZE == 0 && now + PAGE_SIZE * Missing(b, t)
                                     == was + PAGE_SIZE * Missing(a, t))
  {
    MissingAfter(a, b, t, k);
  }

  ghost function MissingIn(dir: PageDirectory, t: nat): nat
    reads dir.tables
    requires t <= dir.tables.Length
  {
    Missing(dir.tables[..], t)
  }

  /** Page k maps to frame k, present, read-only, user visible. */
  ghost predicate IdentityEntry(flat: map<nat, Page>, k: nat) {
    k in flat && flat[k] == Page(true, false, true, false, false, k)
  }

  ghost predicate EmptyEntry(flat: map<nat, Page>, k: nat) {
    k in flat ==> flat[k] == EMPTY_PAGE
  }

  ghost predicate IdentityMapped(flat: map<nat, Page>, n: nat) {
    forall k: nat :: k < n ==> IdentityEntry(flat, k)
  }

  ghost predicate NoFramesFrom(flat: map<nat, Page>, n: nat) {
    forall k: nat :: n <= k ==> EmptyEntry(flat, k)
  }

  /** One more page in the identity mapping. */
  lemma IdentityStep(flat: map<nat, Page>, n: nat, limit: nat, used: set<nat>, flat': map<nat, Page>, used': set<nat>)
    requires EntryAlloc(flat, n, false, false, used, limit, flat', used')
    requires IdentityMapped(flat, n) && NoFramesFrom(flat, n) && UsedBelow(used, n) && n < limit
    ensures IdentityMapped(flat', n + 1) && NoFramesFrom(flat', n + 1) && UsedBelow(used', n + 1)
  {
    assert EmptyEntry(flat, n);
    LeastFreeAbove(used, n, flat'[n].frame);
    forall k: nat | k < n + 1 ensures IdentityEntry(flat', k) {
      assert k < n ==> IdentityEntry(flat, k);
    }
    forall k: nat | n + 1 <= k ensures EmptyEntry(flat', k) {
      assert EmptyEntry(flat, k);
    }
  }

  /** A new table disturbs neither. */
  lemma IdentityWithTable(flat: map<nat, Page>, n: nat, t: nat)
    requires IdentityMapped(flat, n) && NoFramesFrom(flat, n)
    requires forall k: nat :: k < n && k in flat ==> k / ENTRIES != t
    ensures IdentityMapped(flat + NewEntries(t), n) && NoFramesFrom(flat + NewEntries(t), n)
  {
    forall k: nat | k < n ensures IdentityEntry(flat + NewEntries(t), k) {
      assert IdentityEntry(flat, k);
    }
    forall k: nat | n <= k ensures EmptyEntry(flat + NewEntries(t), k) {
      assert EmptyEntry(flat, k);
    }
  }

  /** The state of the identity mapping after n pages. */
  ghost predicate IdentityState(kernel: Kernel, dir: PageDirectory, n: nat)
    reads kernel, kernel.bitmap.words, dir.tables, dir.tablesPhysical, dir.Cells()
  {
    && dir.Valid() && kernel.Apart(dir)
    && IdentityMapped(dir.Flat(), n) && NoFramesFrom(dir.Flat(), n)
    && UsedBelow(kernel.bitmap.Used(), n)
  }

  /** The entries of a directory once table t is there. */
  ghost function WithTable(dir: PageDirectory, t: nat): map<nat, Page>
    reads dir.tables, dir.tablesPhysical, dir.Cells()
    requires dir.Valid() && t < ENTRIES
  {
    if dir.tables[t] == null then dir.Flat() + NewEntries(t) else dir.Flat()
  }

  lemma WithTablePresent(dir: PageDirectory, t: nat)
    requires dir.Valid() && t < ENTRIES && dir.tables[t] != null
    ensures WithTable(dir, t) == dir.Flat()
  {
  }

  lemma IdentityWith(dir: PageDirectory, n: nat)
    requires dir.Valid() && n < PAGE_NUMBERS && IdentityMapped(dir.Flat(), n) && NoFramesFrom(dir.Flat(), n)
    ensures IdentityMapped(WithTable(dir, n / ENTRIES), n) && NoFramesFrom(WithTable(dir, n / ENTRIES), n)
  {
    if dir.tables[n / ENTRIES] == null { IdentityWithTable(dir.Flat(), n, n / ENTRIES); }
  }

  /** get_page and alloc_frame; false when the frames have run out. */
  method AllocAt(kernel: Kernel, dir: PageDirectory, address: nat, ghost p: nat, ghost flat: map<nat, Page>,
                 ghost used: set<nat>)
    returns (ok: bool, ghost flat': map<nat, Page>, ghost used': set<nat>)
    requires dir.Valid() && kernel.Apart(dir) && address / PAGE_SIZE == p < PAGE_NUMBERS
    requires flat == WithTable(dir, p / ENTRIES) && used == kernel.bitmap.Used()
    modifies kernel`freeMemAddr, dir.tables, dir.tablesPhysical, dir.Cells(), kernel.bitmap.words
    ensures dir.Valid() && kernel.Apart(dir) && fresh(dir.Cells() - old(dir.Cells()))
    ensures dir.tables[p / ENTRIES] != null
    ensures forall i :: 0 <= i < ENTRIES && (i != p / ENTRIES || old(dir.tables[i]) != null) ==>
      dir.tables[i] == old(dir.tables[i])
    ensures flat' == dir.Flat() && used' == kernel.bitmap.Used()
    ensures ok ==> EntryAlloc(flat, p, false, false, used, kernel.bitmap.Limit(), flat', used')
    ensures !ok ==> forall f: nat :: f < kernel.bitmap.Limit() ==> f in used
    ensures kernel.freeMemAddr == Paid(old(kernel.freeMemAddr), old(dir.tables[p / ENTRIES]) != null)
    ensures old(dir.tables[p / ENTRIES]) == null ==>
      dir.tables[p / ENTRIES].physical == AlignUp(old(kernel.freeMemAddr))
  {
    var table, pos := kernel.GetPage(address, true, dir);
    assert kernel.bitmap.Used() == used;
    ok := kernel.AllocEntry(table, pos, false, false, dir, p);
    flat', used' := dir.Flat(), kernel.bitmap.Used();
  }

  lemma PageOfAddress(n: nat, t: nat)
    requires n < t * ENTRIES
    ensures n * PAGE_SIZE / PAGE_SIZE == n && n / ENTRIES < t
  {
  }

  /** Only the table of page n may be new, and then it lies at the bump address. */
  ghost predicate OneTable(a: seq<PageTable?>, b: seq<PageTable?>, n: nat, was: nat) {
    && |a| == |b| == ENTRIES && n / ENTRIES < ENTRIES && b[n / ENTRIES] != null
    && (a[n / ENTRIES] == null ==> b[n / ENTRIES].physical == AlignUp(was))
    && forall i :: 0 <= i < ENTRIES && (i != n / ENTRIES || a[i] != null) ==> b[i] == a[i]
  }

  /** One round of the identity mapping; false when the frames have run out, which is when n reaches their number. */
  method MapIdentityPage(kernel: Kernel, dir: PageDirectory, n: nat) returns (ok: bool)
    requires IdentityState(kernel, dir, n) && n <= kernel.bitmap.Limit() && n < PAGE_NUMBERS
    modifies kernel`freeMemAddr, dir.tables, dir.tablesPhysical, dir.Cells(), kernel.bitmap.words
    ensures ok <==> n < kernel.bitmap.Limit()
    ensures ok ==> IdentityState(kernel, dir, n + 1)
    ensures fresh(dir.Cells() - old(dir.Cells()))
    ensures OneTable(old(dir.tables[..]), dir.tables[..], n, old(kernel.freeMemAddr))
    ensures kernel.freeMemAddr == Paid(old(kernel.freeMemAddr), old(dir.tables[n / ENTRIES]) != null)
  {
    ghost var used, flat := kernel.bitmap.Used(), WithTable(dir, n / ENTRIES);
    PageOfAddress(n, ENTRIES);
    IdentityWith(dir, n);
    ghost var flat', used';
    ok, flat', used' := AllocAt(kernel, dir, n * PAGE_SIZE, n, flat, used);
    IdentityTry(flat, n, kernel.bitmap.Limit(), used, flat', used', ok);
  }

  /** An attempt at one more page succeeds exactly while frames are left. */
  lemma IdentityTry(flat: map<nat, Page>, n: nat, limit: nat, used: set<nat>, flat': map<nat, Page>, used': set<nat>,
                    ok: bool)
    requires IdentityMapped(flat, n) && NoFramesFrom(flat, n) && UsedBelow(used, n) && n <= limit
    requires ok ==> EntryAlloc(flat, n, false, false, used, limit, flat', used')
    requires !ok ==> forall f: nat :: f < limit ==> f in used
    ensures ok <==> n < limit
    ensures ok ==> IdentityMapped(flat', n + 1) && NoFramesFrom(flat', n + 1) && UsedBelow(used', n + 1)
  {
    assert EmptyEntry(flat, n);
    assert n !in used;
    if ok {
      LeastFreeAbove(used, n, flat'[n].frame);
      IdentityStep(flat, n, limit, used, flat', used');
    }
  }

  /** It lies on a page of its own, like all others. */
  lemma OneTableOwn(a: seq<PageTable?>, b: seq<PageTable?>, n: nat, from: nat, was: nat)
    requires OneTable(a, b, n, was) && OwnPages(a, from, was)
    ensures OwnPages(b, from, Paid(was, a[n / ENTRIES] != null))
  {
    if a[n / ENTRIES] == null {
      OneMorePage(a, n / ENTRIES, b[n / ENTRIES], from, was);
      assert b == a[n / ENTRIES := b[n / ENTRIES]];
    } else {
      assert b == a;
    }
  }

  /** The tables after pages below n have been mapped. */
  ghost predicate TablesMade(a: seq<PageTable?>, b: seq<PageTable?>, n: nat) {
    && |a| == |b| == ENTRIES
    && forall i :: 0 <= i < ENTRIES ==> if a[i] != null then b[i] == a[i] else b[i] != null <==> i * ENTRIES < n
  }

  lemma TablesMadeStep(a: seq<PageTable?>, b: seq<PageTable?>, c: seq<PageTable?>, n: nat, was: nat)
    requires TablesMade(a, b, n) && OneTable(b, c, n, was)
    ensures TablesMade(a, c, n + 1)
  {
    forall i | 0 <= i < ENTRIES ensures if a[i] != null then c[i] == a[i] else c[i] != null <==> i * ENTRIES < n + 1 {
      assert i * ENTRIES < n + 1 <==> i * ENTRIES < n || i * ENTRIES == n;
      if i * ENTRIES == n { assert n / ENTRIES == i; }
      if i == n / ENTRIES { assert i * ENTRIES <= n; }
    }
  }

  /** The bump address went from was to now while the number of missing tables went from m to k. */
  ghost predicate Spent(was: nat, now: nat, m: nat, k: nat) {
    && was <= now && now + 2 * PAGE_SIZE * k <= was + 2 * PAGE_SIZE * m
    && (was % PAGE_SIZE == 0 ==> now % PAGE_SIZE == 0 && now + PAGE_SIZE * k == was + PAGE_SIZE * m)
  }

  /** The identity mapping of the first pages, against the tables, the bump address and the number of missing tables it
      started with. */
  ghost predicate Mapping(kernel: Kernel, dir: PageDirectory, pages: nat, t: nat, tables: seq<PageTable?>, free: nat,
                          missing: nat)
    reads kernel, kernel.bitmap.words, dir.tables, dir.tablesPhysical, dir.Cells()
  {
    && IdentityState(kernel, dir, pages) && pages <= kernel.bitmap.Limit() && t <= ENTRIES
    && TablesMade(tables, dir.tables[..], pages) && OwnPages(dir.tables[..], DirectoryEnd(dir), kernel.freeMemAddr)
    && Spent(free, kernel.freeMemAddr, missing, MissingIn(dir, t))
  }

  lemma SpentMore(a: seq<PageTable?>, b: seq<PageTable?>, t: nat, n: nat, free: nat, was: nat, missing: nat)
    requires OneTable(a, b, n, was) && n / ENTRIES < t <= ENTRIES && Spent(free, was, missing, Missing(a, t))
    ensures var now := Paid(was, a[n / ENTRIES] != null);
      && Spent(free, now, missing, Missing(b, t))
      && was <= now && now + 2 * PAGE_SIZE * Missing(b, t) <= was + 2 * PAGE_SIZE * Missing(a, t)
  {
    MissingBudget(a, b, t, n / ENTRIES, was);
  }

  /** As far as the bump address can still get while the tables below t are made. */
  ghost function Ceiling(kernel: Kernel, dir: PageDirectory, t: nat): (c: nat)
    reads kernel, dir.tables
    requires t <= dir.tables.Length
    ensures kernel.freeMemAddr <= c
  {
    kernel.freeMemAddr + 2 * PAGE_SIZE * MissingIn(dir, t)
  }

  lemma RoundBound(pages: nat, i: nat, free: nat, t: nat, limit: nat)
    requires i == pages * PAGE_SIZE && pages <= limit < t * ENTRIES && i < free + PAGE_SIZE
    ensures pages < t * ENTRIES && i + PAGE_SIZE == (pages + 1) * PAGE_SIZE < free + 2 * PAGE_SIZE
  {
  }

  /** The body of the identity mapping's loop. */
  method IdentityRound(kernel: Kernel, dir: PageDirectory, n: nat, ghost t: nat, ghost tables: seq<PageTable?>,
                       ghost free: nat, ghost missing: nat) returns (ok: bool)
    requires Mapping(kernel, dir, n, t, tables, free, missing) && n < t * ENTRIES
    modifies kernel`freeMemAddr, dir.tables, dir.tablesPhysical, dir.Cells(), kernel.bitmap.words
    ensures ok <==> n < kernel.bitmap.Limit()
    ensures ok ==> Mapping(kernel, dir, n + 1, t, tables, free, missing)
    ensures fresh(dir.Cells() - old(dir.Cells()))
    ensures old(kernel.freeMemAddr) <= kernel.freeMemAddr
    ensures Ceiling(kernel, dir, t) <= old(Ceiling(kernel, dir, t))
  {
    ghost var before, was := dir.tables[..], kernel.freeMemAddr;
    PageOfAddress(n, t);
    ok := MapIdentityPage(kernel, dir, n);
    SpentMore(before, dir.tables[..], t, n, free, was, missing);
    TablesMadeStep(tables, before, dir.tables[..], n, was);
    OneTableOwn(before, dir.tables[..], n, DirectoryEnd(dir), was);
  }

  /** The identity mapping; false when the frames have run out. The bound moves while the loop runs, because a missing
      table is allocated at free_mem_addr; the measure is the distance to the bound plus two pages for each table still
      missing below t. In the end the ghost results say what had been spent when the loop was left. */
  method IdentityMap(kernel: Kernel, dir: PageDirectory, ghost t: nat)
    returns (ok: bool, pages: nat, ghost free: nat, ghost missing: nat)
    requires IdentityState(kernel, dir, 0) && t <= ENTRIES && kernel.bitmap.Limit() < t * ENTRIES
    requires OwnPages(dir.tables[..], DirectoryEnd(dir), kernel.freeMemAddr)
    modifies kernel`freeMemAddr, dir.tables, dir.tablesPhysical, dir.Cells(), kernel.bitmap.words
    ensures Spent(old(kernel.freeMemAddr), free, old(MissingIn(dir, t)), missing)
    ensures ok ==> free == kernel.freeMemAddr && missing == MissingIn(dir, t)
    ensures ok ==> IdentityState(kernel, dir, pages) && fresh(dir.Cells() - old(dir.Cells()))
    ensures ok ==> free + PAGE_SIZE <= pages * PAGE_SIZE < free + 2 * PAGE_SIZE
    ensures ok ==> pages <= kernel.bitmap.Limit() && TablesMade(old(dir.tables[..]), dir.tables[..], pages)
    ensures ok ==> OwnPages(dir.tables[..], DirectoryEnd(dir), kernel.freeMemAddr)
    ensures !ok ==> kernel.bitmap.Limit() * PAGE_SIZE < free + PAGE_SIZE
  {
    var i := 0;
    pages := 0;
    ghost var tables, free0, missing0 := dir.tables[..], kernel.freeMemAddr, MissingIn(dir, t);
    while i < kernel.freeMemAddr + PAGE_SIZE
      invariant i == pages * PAGE_SIZE
      invariant Mapping(kernel, dir, pages, t, tables, free0, missing0) && fresh(dir.Cells() - old(dir.Cells()))
      invariant i < kernel.freeMemAddr + 2 * PAGE_SIZE
      decreases Ceiling(kernel, dir, t) + 2 * PAGE_SIZE - i
    {
      RoundBound(pages, i, kernel.freeMemAddr, t, kernel.bitmap.Limit());
      free, missing := kernel.freeMemAddr, MissingIn(dir, t);
      ok := IdentityRound(kernel, dir, pages, t, tables, free0, missing0);
      if !ok {
        return;
      }
      i := i + PAGE_SIZE;
      pages := pages + 1;
    }
    free, missing := kernel.freeMemAddr, MissingIn(dir, t);
    ok := true;
  }

  /** The entries of a directory as a system of frame holders. */
  ghost function Holders(flat: map<nat, Page>, used: set<nat>): Sys {
    Sys(used, Pagers.HeldBy(flat))
  }

  /** A page of the heap area maps to the frame as far behind the first n; present, read-only, user visible. */
  ghost predicate NextEntry(flat: map<nat, Page>, n: nat, k: nat) {
    k in flat && KHEAP_PAGE <= k && flat[k] == Page(true, false, true, false, false, n + (k - KHEAP_PAGE))
  }

  ghost predicate Present(flat: map<nat, Page>, k: nat) {
    k in flat
  }

  /** Identity mapping below n, then `count` heap pages with the next frames, and no other frame given out. */
  ghost predicate Layout(flat: map<nat, Page>, n: nat, count: nat) {
    && (forall k: nat :: k < n ==> IdentityEntry(flat, k))
    && (forall k: nat :: KHEAP_PAGE <= k < KHEAP_PAGE + count ==> NextEntry(flat, n, k))
    && (forall k: nat :: n <= k && !(KHEAP_PAGE <= k < KHEAP_PAGE + count) ==> EmptyEntry(flat, k))
    && (forall k: nat :: KHEAP_PAGE <= k < KHEAP_PAGE + KHEAP_PAGES ==> Present(flat, k))
  }

  lemma IdentityLayout(flat: map<nat, Page>, n: nat)
    requires IdentityMapped(flat, n) && NoFramesFrom(flat, n)
    requires forall k: nat :: KHEAP_PAGE <= k < KHEAP_PAGE + KHEAP_PAGES ==> Present(flat, k)
    ensures Layout(flat, n, 0)
  {
  }

  /** The final layout leaves no frame unaccounted for. */
  lemma LayoutExact(flat: map<nat, Page>, used: set<nat>, n: nat, count: nat, limit: nat)
    requires Layout(flat, n, count) && UsedBelow(used, n + count) && 0 < n && n + count <= limit && n <= KHEAP_PAGE
    ensures Exact(Holders(flat, used), limit)
  {
    var s := Holders(flat, used);
    forall k: nat | k in flat && flat[k].frame != 0 ensures LayoutEntry(flat, n, count, k) {
      LayoutEntryIs(flat, n, count, k);
    }
    forall f: nat | f in used ensures f == 0 || exists p :: p in s.held && s.held[p] == f {
      var p := if f < n then f else KHEAP_PAGE + (f - n);
      assert if f < n then IdentityEntry(flat, p) else NextEntry(flat, n, p);
      assert p in s.held && s.held[p] == f;
    }
  }

  ghost predicate LayoutEntry(flat: map<nat, Page>, n: nat, count: nat, k: nat)
    requires k in flat
  {
    || (k < n && IdentityEntry(flat, k))
    || (KHEAP_PAGE <= k < KHEAP_PAGE + count && NextEntry(flat, n, k))
  }

  lemma LayoutEntryIs(flat: map<nat, Page>, n: nat, count: nat, k: nat)
    requires Layout(flat, n, count) && k in flat && flat[k].frame != 0
    ensures LayoutEntry(flat, n, count, k)
  {
    assert k < n ==> IdentityEntry(flat, k);
    assert KHEAP_PAGE <= k < KHEAP_PAGE + count ==> NextEntry(flat, n, k);
    assert n <= k && !(KHEAP_PAGE <= k < KHEAP_PAGE + count) ==> EmptyEntry(flat, k);
  }

  lemma LayoutStep(flat: map<nat, Page>, n: nat, count: nat, limit: nat, used: set<nat>, flat': map<nat, Page>,
                   used': set<nat>)
    requires EntryAlloc(flat, KHEAP_PAGE + count, false, false, used, limit, flat', used')
    requires Layout(flat, n, count) && UsedBelow(used, n + count) && 0 < n <= KHEAP_PAGE && count < KHEAP_PAGES
    ensures n + count < limit && Layout(flat', n, count + 1) && UsedBelow(used', n + count + 1)
  {
    assert EmptyEntry(flat, KHEAP_PAGE + count);
    LeastFreeAbove(used, n + count, flat'[KHEAP_PAGE + count].frame);
    forall k: nat | k < n ensures IdentityEntry(flat', k) {
      assert IdentityEntry(flat, k);
    }
    forall k: nat | KHEAP_PAGE <= k < KHEAP_PAGE + count + 1 ensures NextEntry(flat', n, k) {
      assert k < KHEAP_PAGE + count ==> NextEntry(flat, n, k);
    }
    forall k: nat | n <= k && !(KHEAP_PAGE <= k < KHEAP_PAGE + count + 1) ensures EmptyEntry(flat', k) {
      assert EmptyEntry(flat, k);
    }
    forall k: nat | KHEAP_PAGE <= k < KHEAP_PAGE + KHEAP_PAGES ensures Present(flat', k) {
      assert Present(flat, k);
    }
  }

  /** The address of a page of the heap area; all of them are in one table. */
  function HeapPageAddress(count: nat): (a: nat)
    requires count < KHEAP_PAGES
    ensures a / PAGE_SIZE == KHEAP_PAGE + count < PAGE_NUMBERS
    ensures (KHEAP_PAGE + count) / ENTRIES == KHEAP_PAGE / ENTRIES
  {
    KHEAP_START + count * PAGE_SIZE
  }

  /** One page of the heap area, after the identity mapping; false when the frames have run out. */
  method MapHeapPage(kernel: Kernel, dir: PageDirectory, n: nat, count: nat) returns (ok: bool)
    requires dir.Valid() && kernel.Apart(dir) && count < KHEAP_PAGES && 0 < n <= KHEAP_PAGE
    requires n + count <= kernel.bitmap.Limit()
    requires Layout(dir.Flat(), n, count) && UsedBelow(kernel.bitmap.Used(), n + count)
    requires dir.tables[KHEAP_PAGE / ENTRIES] != null
    modifies kernel`freeMemAddr, dir.tables, dir.tablesPhysical, dir.Cells(), kernel.bitmap.words
    ensures dir.Valid() && kernel.Apart(dir) && fresh(dir.Cells() - old(dir.Cells()))
    ensures ok <==> n + count < kernel.bitmap.Limit()
    ensures ok ==> Layout(dir.Flat(), n, count + 1) && UsedBelow(kernel.bitmap.Used(), n + count + 1)
    ensures dir.tables[..] == old(dir.tables[..])
    ensures kernel.freeMemAddr == old(kernel.freeMemAddr)
  {
    hide Layout, UsedBelow, EntryAlloc, HeapPageAddress, WithTable, dir.Flat;
    var address := HeapPageAddress(count);
    ghost var p := KHEAP_PAGE + count;
    ghost var flat, used := dir.Flat(), kernel.bitmap.Used();
    WithTablePresent(dir, p / ENTRIES);
    ghost var flat', used';
    ok, flat', used' := AllocAt(kernel, dir, address, p, flat, used);
    if ok {
      LayoutStep(flat, n, count, kernel.bitmap.Limit(), used, flat', used');
    } else {
      NoneLeft(used, n + count, kernel.bitmap.Limit());
    }
  }

  /** The tables for the heap area, made before the identity mapping so that nothing is allocated after it. */
  method MakeHeapTables(kernel: Kernel, dir: PageDirectory)
    requires dir.Valid() && kernel.Apart(dir) && forall i :: 0 <= i < ENTRIES ==> dir.tables[i] == null
    modifies kernel`freeMemAddr, dir.tables, dir.tablesPhysical
    ensures dir.Valid() && kernel.Apart(dir) && fresh(dir.Cells())
    ensures forall i :: 0 <= i < ENTRIES ==> (dir.tables[i] != null <==> i == KHEAP_PAGE / ENTRIES)
    ensures dir.Flat() == NewEntries(KHEAP_PAGE / ENTRIES)
    ensures kernel.freeMemAddr == AlignUp(old(kernel.freeMemAddr)) + PAGE_SIZE
    ensures dir.tables[KHEAP_PAGE / ENTRIES].physical == AlignUp(old(kernel.freeMemAddr))
  {
    var i := KHEAP_START;
    assert dir.Flat() == map[];
    while i < KHEAP_START + KHEAP_INITIAL_SIZE
      invariant KHEAP_START <= i && i % PAGE_SIZE == 0
      invariant dir.Valid() && kernel.Apart(dir) && fresh(dir.Cells())
      invariant forall j :: 0 <= j < ENTRIES ==>
        (dir.tables[j] != null <==> i != KHEAP_START && j == KHEAP_PAGE / ENTRIES)
      invariant dir.Flat() == if i == KHEAP_START then map[] else NewEntries(KHEAP_PAGE / ENTRIES)
      invariant kernel.freeMemAddr == Paid(old(kernel.freeMemAddr), i == KHEAP_START)
      invariant i != KHEAP_START ==> dir.tables[KHEAP_PAGE / ENTRIES].physical == AlignUp(old(kernel.freeMemAddr))
    {
      assert i / PAGE_SIZE / ENTRIES == KHEAP_PAGE / ENTRIES;
      var table, pos := kernel.GetPage(i, true, dir);
      i := i + PAGE_SIZE;
    }
  }

  /** The frames of the heap area; false when they have run out. */
  method MapHeap(kernel: Kernel, dir: PageDirectory, n: nat) returns (ok: bool)
    requires dir.Valid() && kernel.Apart(dir) && 0 < n <= KHEAP_PAGE && n <= kernel.bitmap.Limit()
    requires Layout(dir.Flat(), n, 0) && UsedBelow(kernel.bitmap.Used(), n)
    requires dir.tables[KHEAP_PAGE / ENTRIES] != null
    modifies kernel`freeMemAddr, dir.tables, dir.tablesPhysical, dir.Cells(), kernel.bitmap.words
    ensures dir.Valid() && kernel.Apart(dir)
    ensures ok <==> n + KHEAP_PAGES <= kernel.bitmap.Limit()
    ensures ok ==> Layout(dir.Flat(), n, KHEAP_PAGES) && UsedBelow(kernel.bitmap.Used(), n + KHEAP_PAGES)
    ensures kernel.freeMemAddr == old(kernel.freeMemAddr) && dir.tables[..] == old(dir.tables[..])
  {
    for count := 0 to KHEAP_PAGES
      invariant dir.Valid() && kernel.Apart(dir) && fresh(dir.Cells() - old(dir.Cells()))
      invariant n + count <= kernel.bitmap.Limit()
      invariant Layout(dir.Flat(), n, count) && UsedBelow(kernel.bitmap.Used(), n + count)
      invariant dir.tables[..] == old(dir.tables[..])
      invariant kernel.freeMemAddr == old(kernel.freeMemAddr)
    {
      ok := MapHeapPage(kernel, dir, n, count);
      if !ok {
        return;
      }
    }
    ok := true;
  }

  lemma NothingMissing(tables: seq<PageTable?>, t: nat)
    requires t <= |tables| && forall i :: 0 <= i < t ==> tables[i] == null
    ensures Missing(tables, t) == t
  {
  }

  /** The bitmap's 128 bytes, the directory, the heap's table. */
  lemma BootAddress(freeMemAddr: nat)
    ensures AlignUp(AlignUp(freeMemAddr + 128) + DIRECTORY_SIZE) + PAGE_SIZE == AlignUp(freeMemAddr + 128) + 0x4000
  {
  }

  /** The bitmap and an empty directory. */
  method CreateDirectory(freeMemAddr: nat) returns (kernel: Kernel, dir: PageDirectory)
    ensures fresh(kernel) && fresh(kernel.bitmap.words) && fresh(dir.tables) && fresh(dir.tablesPhysical)
    ensures dir.Valid() && kernel.Apart(dir) && forall i :: 0 <= i < ENTRIES ==> dir.tables[i] == null
    ensures kernel.bitmap.Used() == {} && kernel.bitmap.Limit() == BOOT_FRAMES
    ensures kernel.freeMemAddr == AlignUp(freeMemAddr + 128) + DIRECTORY_SIZE == DirectoryEnd(dir)
    ensures dir.physicalAddr == AlignUp(freeMemAddr + 128) + TABLES_PHYSICAL_OFFSET
  {
    hide AlignUp;
    var nframes := BOOT_FRAMES;
    var bitmap := new FrameBitmap(nframes);
    kernel := new Kernel(freeMemAddr, bitmap);
    var frames := kernel.KmallocInt(nframes / 32, false);
    var address := kernel.KmallocInt(DIRECTORY_SIZE, true);
    dir := new PageDirectory(address + TABLES_PHYSICAL_OFFSET);
  }

  /** The bitmap, the directory and the heap's tables. */
  method CreateTables(freeMemAddr: nat) returns (kernel: Kernel, dir: PageDirectory)
    ensures fresh(kernel) && fresh(kernel.bitmap.words)
    ensures fresh(dir.tables) && fresh(dir.tablesPhysical) && fresh(dir.Cells())
    ensures IdentityState(kernel, dir, 0) && kernel.bitmap.Limit() == BOOT_FRAMES
    ensures dir.tables[KHEAP_PAGE / ENTRIES] != null && MissingIn(dir, BOOT_TABLES) == BOOT_TABLES
    ensures dir.Flat() == NewEntries(KHEAP_PAGE / ENTRIES)
    ensures forall i :: 0 <= i < ENTRIES ==> (dir.tables[i] != null <==> i == KHEAP_PAGE / ENTRIES)
    ensures kernel.freeMemAddr == AlignUp(freeMemAddr + 128) + 0x4000
    ensures dir.physicalAddr == AlignUp(freeMemAddr + 128) + TABLES_PHYSICAL_OFFSET
    ensures OwnPages(dir.tables[..], DirectoryEnd(dir), kernel.freeMemAddr)
  {
    hide AlignUp;
    kernel, dir := CreateDirectory(freeMemAddr);
    MakeHeapTables(kernel, dir);
    BootAddress(freeMemAddr);
    NothingMissing(dir.tables[..], BOOT_TABLES);
  }

  /** Tables missing among the first five after the identity mapping. */
  lemma MissingTables(a: seq<PageTable?>, b: seq<PageTable?>, pages: nat)
    requires TablesMade(a, b, pages) && pages <= BOOT_FRAMES
    requires forall i :: 0 <= i < BOOT_TABLES ==> a[i] == null
    ensures Missing(b, BOOT_TABLES) == BOOT_TABLES - (pages + ENTRIES - 1) / ENTRIES
  {
    assert b[4] == null;
    assert b[3] != null <==> 3 * ENTRIES < pages;
    assert b[2] != null <==> 2 * ENTRIES < pages;
    assert b[1] != null <==> ENTRIES < pages;
    assert b[0] != null <==> 0 < pages;
    assert Missing(b, 5) == 1 + Missing(b, 4);
    assert Missing(b, 4) == (if b[3] == null then 1 else 0) + Missing(b, 3);
    assert Missing(b, 3) == (if b[2] == null then 1 else 0) + Missing(b, 2);
    assert Missing(b, 2) == (if b[1] == null then 1 else 0) + Missing(b, 1);
    assert Missing(b, 1) == (if b[0] == null then 1 else 0) + Missing(b, 0);
  }

  /** The heap still finds its frames behind the identity mapping exactly for these start values. */
  lemma FitsExactly(freeMemAddr: nat, free: nat, pages: nat)
    requires pages <= BOOT_FRAMES && free + PAGE_SIZE <= pages * PAGE_SIZE < free + 2 * PAGE_SIZE
    requires Spent(AlignUp(freeMemAddr + 128) + 0x4000, free, BOOT_TABLES,
      BOOT_TABLES - (pages + ENTRIES - 1) / ENTRIES)
    ensures pages + KHEAP_PAGES <= BOOT_FRAMES <==> freeMemAddr <= BOOT_LIMIT
  {
    var first, c := AlignUp(freeMemAddr + 128), (pages + ENTRIES - 1) / ENTRIES;
    assert free == first + 0x4000 + PAGE_SIZE * c;
    var x := first / PAGE_SIZE;
    assert first == PAGE_SIZE * x;
    assert pages == x + 5 + c;
    assert c <= 4 && (3 * ENTRIES < pages ==> c == 4);
    assert first <= 0xEF_7000 <==> freeMemAddr <= BOOT_LIMIT;
    assert x <= 3831 <==> first <= 0xEF_7000;
  }

  lemma FitsNot(freeMemAddr: nat, free: nat, m: nat)
    requires BOOT_FRAMES * PAGE_SIZE < free + PAGE_SIZE
    requires Spent(AlignUp(freeMemAddr + 128) + 0x4000, free, BOOT_TABLES, m)
    ensures freeMemAddr > BOOT_LIMIT
  {
  }

  /** initialise_paging up to the creation of the heap; false when the frames run out, which happens exactly for start
      values above BOOT_LIMIT. */
  method InitialisePaging(freeMemAddr: nat) returns (ok: bool, kernel: Kernel, dir: PageDirectory, pages: nat)
    ensures ok <==> freeMemAddr <= BOOT_LIMIT
    ensures ok ==> Booted(kernel, dir, pages)
    ensures ok ==> kernel.freeMemAddr + PAGE_SIZE <= pages * PAGE_SIZE < kernel.freeMemAddr + 2 * PAGE_SIZE
    ensures ok ==> dir.physicalAddr == AlignUp(freeMemAddr + 128) + TABLES_PHYSICAL_OFFSET
    ensures ok ==> OwnPages(dir.tables[..], DirectoryEnd(dir), kernel.freeMemAddr)
  {
    hide Layout, Booted, AlignUp, OwnPages;
    kernel, dir := CreateTables(freeMemAddr);
    ghost var tables := dir.tables[..];
    ghost var free, missing;
    ok, pages, free, missing := IdentityMap(kernel, dir, BOOT_TABLES);
    if !ok {
      FitsNot(freeMemAddr, free, missing);
      return;
    }
    MissingTables(tables, dir.tables[..], pages);
    FitsExactly(freeMemAddr, kernel.freeMemAddr, pages);
    ok := FinishBoot(kernel, dir, pages, tables);
  }

  /** The directory that booting leaves: page k on frame k below n, the heap's pages on the next frames, no frame
      unaccounted for, and no other table than those it takes. */
  ghost predicate Booted(kernel: Kernel, dir: PageDirectory, n: nat)
    reads kernel.bitmap.words, dir.tables, dir.tablesPhysical, dir.Cells()
  {
    && dir.Valid() && 0 < n <= KHEAP_PAGE && kernel.bitmap.Limit() == BOOT_FRAMES
    && Exact(Holders(dir.Flat(), kernel.bitmap.Used()), BOOT_FRAMES)
    && Layout(dir.Flat(), n, KHEAP_PAGES) && UsedBelow(kernel.bitmap.Used(), n + KHEAP_PAGES)
    && forall i :: 0 <= i < ENTRIES ==> (dir.tables[i] != null <==> i * ENTRIES < n || i == KHEAP_PAGE / ENTRIES)
  }

  /** initialise_paging from the identity mapping on. */
  method FinishBoot(kernel: Kernel, dir: PageDirectory, n: nat, ghost tables: seq<PageTable?>) returns (ok: bool)
    requires IdentityState(kernel, dir, n) && 0 < n <= kernel.bitmap.Limit() == BOOT_FRAMES
    requires TablesMade(tables, dir.tables[..], n)
    requires forall i :: 0 <= i < ENTRIES ==> (tables[i] != null <==> i == KHEAP_PAGE / ENTRIES)
    modifies kernel`freeMemAddr, dir.tables, dir.tablesPhysical, dir.Cells(), kernel.bitmap.words
    ensures ok <==> n + KHEAP_PAGES <= BOOT_FRAMES
    ensures ok ==> Booted(kernel, dir, n)
    ensures kernel.freeMemAddr == old(kernel.freeMemAddr) && dir.tables[..] == old(dir.tables[..])
  {
    assert dir.tables[KHEAP_PAGE / ENTRIES] != null;
    forall k: nat | KHEAP_PAGE <= k < KHEAP_PAGE + KHEAP_PAGES ensures Present(dir.Flat(), k) {
      assert HeapPageAddress(k - KHEAP_PAGE) / PAGE_SIZE == k;
    }
    IdentityLayout(dir.Flat(), n);
    ok := MapHeap(kernel, dir, n);
    if ok {
      LayoutExact(dir.Flat(), kernel.bitmap.Used(), n, KHEAP_PAGES, BOOT_FRAMES);
    }
  }
}
