/** The page entries behind the kernel heap, as a flat map from page number to entry (kernel/cpu/paging/paging.c). */
module Pagers {
  import opened Frames
  import opened FrameRuns

  /** Exactly the pages whose table is present have an entry. */
  ghost predicate EntriesOf(pages: map<nat, Page>, tables: set<nat>) {
    forall n: nat :: n in pages <==> n < PAGE_NUMBERS && HasTable(tables, n)
  }

  /** The frame that each entry holds. */
  ghost function HeldBy(pages: map<nat, Page>): map<nat, nat> {
    map p | p in pages :: pages[p].frame
  }

  function Entry(pages: map<nat, Page>, n: nat): Page {
    if n in pages then pages[n] else EMPTY_PAGE
  }

  /** The processor can use every entry that holds a frame. */
  ghost predicate HoldersPresent(pages: map<nat, Page>) {
    forall n: nat :: n in pages && pages[n].frame != 0 ==> pages[n].present
  }

  lemma HeldUpdate(pages: map<nat, Page>, n: nat, e: Page)
    requires n in pages
    ensures HeldBy(pages[n := e]) == HeldBy(pages)[n := e.frame]
    ensures pages[n].frame == e.frame ==> HeldBy(pages[n := e]) == HeldBy(pages)
  {
  }

  class Pager {
    const bitmap: FrameBitmap
    /** The second-level tables of the kernel directory. */
    ghost const tables: set<nat>
    var pages: map<nat, Page>

    ghost function Abs(): Sys
      reads this, bitmap.words
    {
      Sys(bitmap.Used(), HeldBy(pages))
    }

    /** The bitmap is exactly frame 0 and the frames held, no frame is held twice, whatever holds a frame is present,
        and the entries are those of the tables. */
    ghost predicate Valid()
      reads this, bitmap.words
    {
      Exact(Abs(), bitmap.Limit()) && HoldersPresent(pages) && EntriesOf(pages, tables)
    }

    constructor (bitmap: FrameBitmap, pages: map<nat, Page>, ghost tables: set<nat>)
      requires Exact(Sys(bitmap.Used(), HeldBy(pages)), bitmap.Limit())
      requires HoldersPresent(pages) && EntriesOf(pages, tables)
      ensures this.bitmap == bitmap && this.pages == pages && this.tables == tables && Valid()
    {
      this.bitmap := bitmap;
      this.pages := pages;
      this.tables := tables;
    }

    function EntryOf(n: nat): Page
      reads this
    {
      Entry(pages, n)
    }

    /** Page n has a frame, and its entry says so to the processor. */
    ghost predicate Backed(n: nat)
      reads this
    {
      EntryOf(n).frame != 0 && EntryOf(n).present
    }

    /** alloc_frame(get_page(n, 1, kernel_directory), ...) for a page whose table is present; false when the frames have
        run out. An entry that has a frame is left as it is. */
    method MapPage(n: nat, isKernel: bool, isWriteable: bool) returns (ok: bool)
      requires Valid() && n < PAGE_NUMBERS && HasTable(tables, n)
      modifies this`pages, bitmap.words
      ensures ok <==> old(EntryOf(n).frame != 0 || !bitmap.Full())
      ensures Valid() && Abs() == Taken(old(Abs()), n, bitmap.Limit())
      ensures pages == old(pages)[n := EntryOf(n)]
      ensures !ok || old(EntryOf(n)).frame != 0 ==> pages == old(pages)
      ensures ok && old(EntryOf(n)).frame == 0 ==>
        && EntryOf(n).frame !in old(bitmap.Used()) && EntryOf(n).frame != 0
        && EntryOf(n) ==
             old(EntryOf(n)).(present := true, rw := isWriteable, user := !isKernel, frame := EntryOf(n).frame)
      ensures !ok ==> bitmap.Full()
    {
      ghost var was, limit := Abs(), bitmap.Limit();
      var entry := pages[n];
      var r := bitmap.AllocFrame(entry, isKernel, isWriteable);
      if r == None {
        assert FirstFree(was.used, 0, limit) == limit;
        return false;
      }
      if entry.frame != 0 {
        assert Abs() == was;
        return true;
      }
      TakenExact(was, n, limit);
      HeldUpdate(pages, n, r.value);
      pages := pages[n := r.value];
      assert FirstFree(was.used, 0, limit) == r.value.frame;
      return true;
    }

    /** free_frame(get_page(n, 0, kernel_directory)). */
    method UnmapPage(n: nat)
      requires Valid() && n in pages
      modifies this`pages, bitmap.words
      ensures Valid() && Abs() == Dropped(old(Abs()), n)
      ensures pages == old(pages)[n := old(pages[n]).(frame := 0)]
    {
      ghost var was := Abs();
      assert was.Holds(n) == pages[n].frame;
      DroppedExact(was, n, bitmap.Limit());
      var entry := bitmap.FreeFrame(pages[n]);
      HeldUpdate(pages, n, entry);
      pages := pages[n := entry];
    }
  }
}
