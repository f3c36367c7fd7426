/** Page directories with two levels of tables (kernel/cpu/paging/paging.c). */
module Paging {
  import opened Frames

  const TABLE_FLAGS: nat := 0x7
  const DIRECTORY_SIZE: nat := 8196
  const TABLES_PHYSICAL_OFFSET: nat := 4096

  class PageTable {
    const pages: array<Page>
    const physical: nat

    /** A table fresh from kmalloc_ap and memset. */
    constructor (physical: nat)
      ensures fresh(pages) && pages.Length == ENTRIES && this.physical == physical
      ensures forall j :: 0 <= j < ENTRIES ==> pages[j] == EMPTY_PAGE
    {
      this.pages := new Page[ENTRIES](_ => EMPTY_PAGE);
      this.physical := physical;
    }
  }

  class PageDirectory {
    const tables: array<PageTable?>
    const tablesPhysical: array<nat>
    const physicalAddr: nat

    constructor (physicalAddr: nat)
      ensures Valid() && fresh(tables) && fresh(tablesPhysical) && this.physicalAddr == physicalAddr
      ensures forall i :: 0 <= i < ENTRIES ==> tables[i] == null && tablesPhysical[i] == 0
    {
      this.tables := new PageTable?[ENTRIES](_ => null);
      this.tablesPhysical := new nat[ENTRIES](_ => 0);
      this.physicalAddr := physicalAddr;
    }

    /** Different slots hold different tables, and the addresses for the hardware agree with the pointers: a slot
        without a table is not present. */
    ghost predicate Valid()
      reads tables, tablesPhysical
    {
      && (tables as object) != tablesPhysical && (tables as object) !in Cells()
           && (tablesPhysical as object) !in Cells()
      && tables.Length == ENTRIES && tablesPhysical.Length == ENTRIES
      && (forall i :: 0 <= i < ENTRIES && tables[i] != null ==>
            tables[i].pages.Length == ENTRIES && tablesPhysical[i] == tables[i].physical + TABLE_FLAGS)
      && (forall i :: 0 <= i < ENTRIES && tables[i] == null ==> tablesPhysical[i] == 0)
      && (forall i, j :: 0 <= i < j < ENTRIES && tables[i] != null && tables[j] != null ==>
            tables[i].pages != tables[j].pages)
    }

    /** The arrays that hold the entries of this directory. */
    ghost function Cells(): set<object>
      reads tables
    {
      set i | 0 <= i < tables.Length && tables[i] != null :: tables[i].pages
    }

    /** The directory as a flat map from page number to entry. */
    ghost function Flat(): map<nat, Page>
      reads tables, tablesPhysical, Cells()
      requires Valid()
    {
      map n: nat | n < PAGE_NUMBERS && tables[n / ENTRIES] != null :: tables[n / ENTRIES].pages[n % ENTRIES]
    }
  }

  /** The first page boundary from address a on. */
  function AlignUp(a: nat): (r: nat)
    ensures r % PAGE_SIZE == 0 && a <= r < a + PAGE_SIZE
  {
    if a % PAGE_SIZE == 0 then a else a - a % PAGE_SIZE + PAGE_SIZE
  }

  /** Behind the directory itself. */
  function DirectoryEnd(dir: PageDirectory): nat {
    dir.physicalAddr + (DIRECTORY_SIZE - TABLES_PHYSICAL_OFFSET)
  }

  /** Each table lies on a page of its own between two addresses. */
  ghost predicate OwnPages(tables: seq<PageTable?>, from: nat, to: nat) {
    && from <= to
    && (forall i :: 0 <= i < |tables| && tables[i] != null ==>
          tables[i].physical % PAGE_SIZE == 0 && from <= tables[i].physical && tables[i].physical + PAGE_SIZE <= to)
    && (forall i, j :: 0 <= i < j < |tables| && tables[i] != null && tables[j] != null ==>
          tables[i].physical != tables[j].physical)
  }

  /** So does one more that is taken from the bump address. */
  lemma OneMorePage(a: seq<PageTable?>, k: nat, table: PageTable, from: nat, to: nat)
    requires OwnPages(a, from, to) && k < |a| && table.physical == AlignUp(to)
    ensures OwnPages(a[k := table], from, AlignUp(to) + PAGE_SIZE)
  {
  }

  lemma OwnOneMore(a: seq<PageTable?>, table: PageTable?, from: nat, was: nat, now: nat)
    requires OwnPages(a, from, was)
    requires if table == null then now == was else table.physical == AlignUp(was) && now == table.physical + PAGE_SIZE
    ensures OwnPages(a + [table], from, now)
  {
  }

  predicate InTable(n: nat, t: nat) {
    n / ENTRIES == t
  }

  /** Storing through the pointer that get_page returned. */
  method PutEntry(table: PageTable, pos: nat, e: Page, ghost dir: PageDirectory, ghost n: nat)
    requires dir.Valid() && n < PAGE_NUMBERS && table == dir.tables[n / ENTRIES] && pos == n % ENTRIES
    modifies table.pages
    ensures dir.Valid() && dir.Flat() == old(dir.Flat())[n := e]
  {
    table.pages[pos] := e;
    forall m: nat | m < PAGE_NUMBERS && dir.tables[m / ENTRIES] != null && m != n
      ensures dir.tables[m / ENTRIES].pages[m % ENTRIES] == old(dir.tables[m / ENTRIES].pages[m % ENTRIES])
    {
      assert m == m / ENTRIES * ENTRIES + m % ENTRIES && n == n / ENTRIES * ENTRIES + n % ENTRIES;
    }
  }

  /** The entries a new table adds. */
  ghost function NewEntries(t: nat): map<nat, Page> {
    map n: nat | n < PAGE_NUMBERS && InTable(n, t) :: EMPTY_PAGE
  }

  /** Distinct page numbers never share an entry. */
  lemma EntriesApart(dir: PageDirectory, m: nat, n: nat)
    requires dir.Valid() && m in dir.Flat() && n in dir.Flat() && m != n
    ensures dir.tables[m / ENTRIES].pages != dir.tables[n / ENTRIES].pages || m % ENTRIES != n % ENTRIES
  {
    if m / ENTRIES == n / ENTRIES {
      assert m == m / ENTRIES * ENTRIES + m % ENTRIES;
    }
  }

  class Kernel {
    var freeMemAddr: nat
    const bitmap: FrameBitmap

    constructor (freeMemAddr: nat, bitmap: FrameBitmap)
      ensures this.freeMemAddr == freeMemAddr && this.bitmap == bitmap
    {
      this.freeMemAddr := freeMemAddr;
      this.bitmap := bitmap;
    }

    /** The bitmap is not one of the arrays of the directory. */
    ghost predicate Apart(dir: PageDirectory)
      reads dir.tables
    {
      (bitmap.words as object) !in {dir.tables as object, dir.tablesPhysical as object} + dir.Cells()
    }

    /** kmalloc_int before the heap exists: bump the address, from a page boundary when asked. */
    method KmallocInt(size: nat, pageAlign: bool) returns (addr: nat)
      modifies this`freeMemAddr
      ensures addr == (if pageAlign then AlignUp(old(freeMemAddr)) else old(freeMemAddr)) && freeMemAddr == addr + size
    {
      if pageAlign && freeMemAddr % PAGE_SIZE != 0 {
        freeMemAddr := freeMemAddr - freeMemAddr % PAGE_SIZE;
        freeMemAddr := freeMemAddr + PAGE_SIZE;
      }
      addr := freeMemAddr;
      freeMemAddr := freeMemAddr + size;
    }

    /** The entry for an address, as its table and the position in it; a missing table is made on demand. */
    method GetPage(address: nat, make: bool, dir: PageDirectory) returns (table: PageTable?, pos: nat)
      requires dir.Valid() && address / PAGE_SIZE < PAGE_NUMBERS
      modifies this`freeMemAddr, dir.tables, dir.tablesPhysical
      ensures dir.Valid() && table == dir.tables[address / PAGE_SIZE / ENTRIES] && pos == address / PAGE_SIZE % ENTRIES
      ensures forall i :: 0 <= i < ENTRIES && i != address / PAGE_SIZE / ENTRIES ==> dir.tables[i] == old(dir.tables[i])
      ensures old(dir.tables[address / PAGE_SIZE / ENTRIES]) != null || !make ==>
        table == old(dir.tables[address / PAGE_SIZE / ENTRIES]) && freeMemAddr == old(freeMemAddr)
        && dir.Flat() == old(dir.Flat())
      ensures old(dir.tables[address / PAGE_SIZE / ENTRIES]) == null && make ==>
        table != null && fresh(table) && fresh(table.pages)
        && table.physical == AlignUp(old(freeMemAddr)) && freeMemAddr == table.physical + PAGE_SIZE
        && dir.tablesPhysical[address / PAGE_SIZE / ENTRIES] == AlignUp(old(freeMemAddr)) + TABLE_FLAGS
        && dir.Flat() == old(dir.Flat()) + NewEntries(address / PAGE_SIZE / ENTRIES)
    {
      var n := address / PAGE_SIZE;
      var tableIdx := n / ENTRIES;
      pos := n % ENTRIES;
      table := dir.tables[tableIdx];
      if table == null && make {
        var tmp := KmallocInt(PAGE_SIZE, true);
        table := new PageTable(tmp);
        dir.tables[tableIdx] := table;
        dir.tablesPhysical[tableIdx] := tmp + TABLE_FLAGS;
        assert dir.Valid();
      }
    }

    /** alloc_frame on an entry of the directory; false when the frames have run out. */
    method AllocEntry(table: PageTable, pos: nat, isKernel: bool, isWriteable: bool, ghost dir: PageDirectory,
                      ghost n: nat)
      returns (ok: bool)
      requires dir.Valid() && Apart(dir)
      requires n < PAGE_NUMBERS && table == dir.tables[n / ENTRIES] && pos == n % ENTRIES
      modifies table.pages, bitmap.words
      ensures dir.Valid() && Apart(dir)
      ensures ok ==> EntryAlloc(old(dir.Flat()), n, isKernel, isWriteable, old(bitmap.Used()), bitmap.Limit(),
                               dir.Flat(), bitmap.Used())
      ensures !ok ==>
        old(table.pages[pos].frame) == 0 && forall f: nat :: f < bitmap.Limit() ==> f in old(bitmap.Used())
    {
      assert dir.Flat()[n] == table.pages[pos];
      var r := bitmap.AllocFrame(table.pages[pos], isKernel, isWriteable);
      ok := r.Some?;
      if ok {
        PutEntry(table, pos, r.value, dir, n);
      }
    }
  }

  ghost predicate LeastFree(f: nat, used: set<nat>) {
    f !in used && forall g: nat :: g < f ==> g in used
  }

  /** What alloc_frame does to the entry of page n and to the bitmap. */
  ghost predicate EntryAlloc(flat: map<nat, Page>, n: nat, isKernel: bool, isWriteable: bool, used: set<nat>,
                             limit: nat, flat': map<nat, Page>, used': set<nat>) {
    && n in flat && n in flat' && flat' == flat[n := flat'[n]]
    && (flat[n].frame != 0 ==> flat'[n] == flat[n] && used' == used)
    && (flat[n].frame == 0 ==>
          && flat'[n] == flat[n].(present := true, rw := isWriteable, user := !isKernel, frame := flat'[n].frame)
          && LeastFree(flat'[n].frame, used) && flat'[n].frame < limit
          && used' == used + {flat'[n].frame})
  }
}
