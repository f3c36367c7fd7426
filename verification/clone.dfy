/** Cloning page directories: kernel tables are shared, all others are copied deeply (kernel/cpu/paging/paging.c). */
module Cloning {
  import opened Bytes
  import opened Frames
  import opened FrameRuns
  import opened Paging

  type FrameData = d: seq<byte> | |d| == PAGE_SIZE witness seq(PAGE_SIZE, _ => 0)

  /** Entry c stands for entry s: nothing for nothing, otherwise a frame that was free, with the same bytes and bits. */
  ghost predicate CopyOf(s: Page, c: Page, used0: set<nat>, used: set<nat>, phys0: seq<FrameData>,
                         phys: seq<FrameData>) {
    if s.frame == 0 then c == EMPTY_PAGE
    else
      && c == Page(true, s.rw, true, s.accessed, s.dirty, c.frame)
      && c.frame != 0 && c.frame !in used0 && c.frame in used
      && s.frame < |phys0| && c.frame < |phys| && phys[c.frame] == phys0[s.frame]
  }

  /** Frames that were in use keep their bytes. */
  ghost predicate OldFramesKept(used0: set<nat>, phys0: seq<FrameData>, phys: seq<FrameData>) {
    |phys| == |phys0| && forall f: nat :: f in used0 && f < |phys0| ==> phys[f] == phys0[f]
  }

  lemma KeptInTurn(used0: set<nat>, used: set<nat>, phys0: seq<FrameData>, phys: seq<FrameData>, phys': seq<FrameData>)
    requires used0 <= used && OldFramesKept(used0, phys0, phys) && OldFramesKept(used, phys, phys')
    ensures OldFramesKept(used0, phys0, phys') && |phys0| == |phys|
  {
  }

  /** Every frame the entries name is in use. */
  ghost predicate FramesUsed(pages: seq<Page>, used: set<nat>, limit: nat) {
    forall j :: 0 <= j < |pages| && pages[j].frame != 0 ==> pages[j].frame in used && pages[j].frame < limit
  }

  ghost predicate DistinctFrames(pages: seq<Page>) {
    forall j, k :: 0 <= j < |pages| && 0 <= k < |pages| && pages[j].frame != 0 && pages[j].frame == pages[k].frame ==>
      j == k
  }

  ghost predicate Copies(src: seq<Page>, dst: seq<Page>, n: nat, used0: set<nat>, used: set<nat>, phys0: seq<FrameData>,
                         phys: seq<FrameData>) {
    && |src| == |dst| == ENTRIES && n <= ENTRIES
    && (forall j :: 0 <= j < n ==> CopyOf(src[j], dst[j], used0, used, phys0, phys))
    && (forall j :: n <= j < ENTRIES ==> dst[j] == EMPTY_PAGE)
    && DistinctFrames(dst)
  }

  /** A frame taken later, and written to, disturbs no earlier copy. */
  lemma CopyStays(s: Page, c: Page, used0: set<nat>, used: set<nat>, used': set<nat>, phys0: seq<FrameData>,
                  phys: seq<FrameData>, phys': seq<FrameData>)
    requires CopyOf(s, c, used0, used, phys0, phys) && used <= used' && OldFramesKept(used, phys, phys')
    ensures CopyOf(s, c, used0, used', phys0, phys')
  {
  }

  /** One more entry copied. */
  lemma CopiesStep(src: seq<Page>, dst: seq<Page>, n: nat, used0: set<nat>, used: set<nat>, used': set<nat>,
                   phys0: seq<FrameData>, phys: seq<FrameData>, phys': seq<FrameData>, c: Page)
    requires Copies(src, dst, n, used0, used, phys0, phys) && n < ENTRIES
    requires used <= used' && OldFramesKept(used, phys, phys')
    requires CopyOf(src[n], c, used0, used', phys0, phys') && (c.frame != 0 ==> c.frame !in used)
    ensures Copies(src, dst[n := c], n + 1, used0, used', phys0, phys')
  {
    forall j | 0 <= j < n ensures CopyOf(src[j], dst[j], used0, used', phys0, phys') {
      CopyStays(src[j], dst[j], used0, used, used', phys0, phys, phys');
    }
  }

  lemma CopiesStay(src: seq<Page>, dst: seq<Page>, used0: set<nat>, used: set<nat>, used': set<nat>,
                   phys0: seq<FrameData>, phys: seq<FrameData>, phys': seq<FrameData>)
    requires Copies(src, dst, ENTRIES, used0, used, phys0, phys) && used <= used' && OldFramesKept(used, phys, phys')
    ensures Copies(src, dst, ENTRIES, used0, used', phys0, phys')
  {
    forall j | 0 <= j < ENTRIES ensures CopyOf(src[j], dst[j], used0, used', phys0, phys') {
      CopyStays(src[j], dst[j], used0, used, used', phys0, phys, phys');
    }
  }

  /** A copy made later is also a copy with respect to the start. */
  lemma CopiesFromStart(src: seq<Page>, dst: seq<Page>, used0: set<nat>, used1: set<nat>, used: set<nat>,
                        phys0: seq<FrameData>, phys1: seq<FrameData>, phys: seq<FrameData>)
    requires Copies(src, dst, ENTRIES, used1, used, phys1, phys)
    requires used0 <= used1 && OldFramesKept(used0, phys0, phys1) && FramesUsed(src, used0, |phys0|)
    ensures Copies(src, dst, ENTRIES, used0, used, phys0, phys)
  {
    forall j | 0 <= j < ENTRIES ensures CopyOf(src[j], dst[j], used0, used, phys0, phys) {
      assert CopyOf(src[j], dst[j], used1, used, phys1, phys);
    }
  }

  // ---- How many frames a copy takes ---------------------------------------------------------------------------

  /** The entries that have a frame. */
  function FramesNeeded(pages: seq<Page>): nat {
    if pages == [] then 0
    else FramesNeeded(pages[..|pages| - 1]) + if pages[|pages| - 1].frame != 0 then 1 else 0
  }

  lemma NeededNext(pages: seq<Page>, i: nat)
    requires i < |pages|
    ensures FramesNeeded(pages[..i + 1]) == FramesNeeded(pages[..i]) + if pages[i].frame != 0 then 1 else 0
  {
    assert pages[..i + 1][..i] == pages[..i];
  }

  lemma {:induction false} NeededMonotone(pages: seq<Page>, i: nat)
    requires i <= |pages|
    ensures FramesNeeded(pages[..i]) <= FramesNeeded(pages)
    decreases |pages| - i
  {
    if i < |pages| {
      NeededNext(pages, i);
      NeededMonotone(pages, i + 1);
    } else {
      assert pages[..i] == pages;
    }
  }

  /** The frames that entries name. */
  ghost function FramesOf(pages: seq<Page>): set<nat> {
    set e | e in pages && e.frame != 0 :: e.frame
  }

  /** The frames of a table when an empty entry is filled. */
  lemma FramesOfFilled(pages: seq<Page>, i: nat, e: Page)
    requires i < |pages| && pages[i].frame == 0
    ensures FramesOf(pages[i := e]) == FramesOf(pages) + if e.frame != 0 then {e.frame} else {}
  {
    var now := pages[i := e];
    forall f | f in FramesOf(pages) ensures f in FramesOf(now) {
      var j :| 0 <= j < |pages| && pages[j].frame == f;
      assert now[j] in now;
    }
    assert now[i] in now;
    forall f | f in FramesOf(now) && f != e.frame ensures f in FramesOf(pages) {
      var j :| 0 <= j < |now| && now[j].frame == f;
      assert pages[j] in pages;
    }
  }

  /** The bitmap after i entries have been copied, and the frames that are left. */
  ghost predicate Charged(src: seq<Page>, dst: seq<Page>, i: nat, used0: set<nat>, used: set<nat>, limit: nat)
    requires i <= |src|
  {
    && used == used0 + FramesOf(dst)
    && FreeFrames(used, limit) + FramesNeeded(src[..i]) == FreeFrames(used0, limit)
  }

  lemma NothingCopied(src: seq<Page>, dst: seq<Page>, used: set<nat>, phys: seq<FrameData>, limit: nat)
    requires |src| == |dst| == ENTRIES && forall j :: 0 <= j < |dst| ==> dst[j] == EMPTY_PAGE
    ensures Copies(src, dst, 0, used, used, phys, phys) && Charged(src, dst, 0, used, used, limit)
    ensures OldFramesKept(used, phys, phys)
  {
    assert FramesOf(dst) == {} && src[..0] == [];
  }

  lemma AllCopied(src: seq<Page>, dst: seq<Page>, used0: set<nat>, used: set<nat>, limit: nat)
    requires |src| == ENTRIES && Charged(src, dst, ENTRIES, used0, used, limit)
    ensures used == used0 + FramesOf(dst)
    ensures FreeFrames(used, limit) + FramesNeeded(src) == FreeFrames(used0, limit)
  {
    assert src[..ENTRIES] == src;
  }

  /** One more entry copied and charged. */
  lemma EntryCopied(src: seq<Page>, dst: seq<Page>, n: nat, used0: set<nat>, used: set<nat>, used': set<nat>,
                    phys0: seq<FrameData>, phys: seq<FrameData>, phys': seq<FrameData>, limit: nat, c: Page)
    requires Copies(src, dst, n, used0, used, phys0, phys) && n < ENTRIES && Charged(src, dst, n, used0, used, limit)
    requires used0 <= used && OldFramesKept(used0, phys0, phys) && OldFramesKept(used, phys, phys')
    requires FramesUsed(src, used0, |phys0|) && |phys0| == limit
    requires CopyOf(src[n], c, used, used', phys, phys')
    requires used' == used + if src[n].frame == 0 then {} else {c.frame}
    ensures Copies(src, dst[n := c], n + 1, used0, used', phys0, phys')
    ensures Charged(src, dst[n := c], n + 1, used0, used', limit) && OldFramesKept(used0, phys0, phys')
  {
    CopiesStep(src, dst, n, used0, used, used', phys0, phys, phys', c);
    ChargedStep(src, dst, n, used0, used, limit, c, used');
  }

  lemma ChargedStep(src: seq<Page>, dst: seq<Page>, i: nat, used0: set<nat>, used: set<nat>, limit: nat, c: Page,
                    used': set<nat>)
    requires i < |src| && i < |dst| && dst[i].frame == 0 && Charged(src, dst, i, used0, used, limit)
    requires c.frame != 0 <==> src[i].frame != 0
    requires used' == used + if c.frame != 0 then {c.frame} else {}
    requires c.frame != 0 ==> c.frame !in used && c.frame < limit
    ensures Charged(src, dst[i := c], i + 1, used0, used', limit)
  {
    NeededNext(src, i);
    FramesOfFilled(dst, i, c);
    if c.frame != 0 {
      OneFrameLess(used, limit, c.frame);
    } else {
      assert used' == used;
    }
  }

  /** A copy that gives up at entry i needs more frames than there were. */
  lemma ChargedOut(src: seq<Page>, dst: seq<Page>, i: nat, used0: set<nat>, used: set<nat>, limit: nat)
    requires i < |src| && Charged(src, dst, i, used0, used, limit) && src[i].frame != 0
    requires forall f: nat :: f < limit ==> f in used
    ensures FreeFrames(used0, limit) < FramesNeeded(src)
  {
    NoFreeFrame(used, limit);
    NeededNext(src, i);
    NeededMonotone(src, i + 1);
  }

  ghost predicate NoSharedFrame(a: seq<Page>, b: seq<Page>) {
    forall j, k :: 0 <= j < |a| && 0 <= k < |b| && a[j].frame != 0 ==> a[j].frame != b[k].frame
  }

  /** Copies made before and after a point in time share no frame. */
  lemma CopiesApart(s: seq<Page>, a: seq<Page>, t: seq<Page>, b: seq<Page>, used0: set<nat>, used: set<nat>,
                    used': set<nat>, phys0: seq<FrameData>, phys: seq<FrameData>, phys': seq<FrameData>)
    requires Copies(s, a, ENTRIES, used0, used, phys0, phys) && Copies(t, b, ENTRIES, used, used', phys, phys')
    ensures NoSharedFrame(a, b)
  {
    forall j, k | 0 <= j < |a| && 0 <= k < |b| && a[j].frame != 0 ensures a[j].frame != b[k].frame {
      assert CopyOf(s[j], a[j], used0, used, phys0, phys);
      assert CopyOf(t[k], b[k], used, used', phys, phys');
    }
  }

  ghost function Entries(t: PageTable?): seq<Page>
    reads if t == null then {} else {t.pages}
  {
    if t == null then [] else t.pages[..]
  }

  /** Slot i of src holds a table that the kernel does not have in the same slot. */
  ghost predicate Private(kernelDir: PageDirectory, src: PageDirectory, i: nat)
    reads kernelDir.tables, src.tables
    requires i < kernelDir.tables.Length && i < src.tables.Length
  {
    src.tables[i] != null && kernelDir.tables[i] != src.tables[i]
  }

  /** Copies in different slots below n share no frame. */
  ghost predicate PrivateFramesApart(kernelDir: PageDirectory, src: PageDirectory, dir: PageDirectory, n: nat)
    reads kernelDir.tables, src.tables, dir.tables, dir.Cells()
    requires n <= kernelDir.tables.Length && n <= src.tables.Length && n <= dir.tables.Length
  {
    forall i, k :: 0 <= i < n && 0 <= k < n && i != k && Private(kernelDir, src, i) && Private(kernelDir, src, k) ==>
      NoSharedFrame(Entries(dir.tables[i]), Entries(dir.tables[k]))
  }

  lemma OneMoreApart(kernelDir: PageDirectory, src: PageDirectory, dir: PageDirectory, n: nat)
    requires n < kernelDir.tables.Length && n < src.tables.Length && n < dir.tables.Length
    requires PrivateFramesApart(kernelDir, src, dir, n)
    requires forall j :: 0 <= j < n && Private(kernelDir, src, j) && Private(kernelDir, src, n) ==>
      NoSharedFrame(Entries(dir.tables[j]), Entries(dir.tables[n]))
    ensures PrivateFramesApart(kernelDir, src, dir, n + 1)
  {
    forall i, k | 0 <= i < n + 1 && 0 <= k < n + 1 && i != k && Private(kernelDir, src, i) && Private(kernelDir, src, k)
      ensures NoSharedFrame(Entries(dir.tables[i]), Entries(dir.tables[k]))
    {
      if i == n { assert NoSharedFrame(Entries(dir.tables[k]), Entries(dir.tables[n])); }
    }
  }

  function Sum(s: seq<nat>): nat {
    if s == [] then 0 else Sum(s[..|s| - 1]) + s[|s| - 1]
  }

  lemma SumNext(s: seq<nat>, i: nat)
    requires i < |s|
    ensures Sum(s[..i + 1]) == Sum(s[..i]) + s[i]
  {
    assert s[..i + 1][..i] == s[..i];
  }

  lemma {:induction false} SumMonotone(s: seq<nat>, i: nat)
    requires i <= |s|
    ensures Sum(s[..i]) <= Sum(s)
    decreases |s| - i
  {
    if i < |s| {
      SumNext(s, i);
      SumMonotone(s, i + 1);
    } else {
      assert s[..i] == s;
    }
  }

  /** The frames that cloning slot i takes. */
  ghost function SlotCost(kernelDir: PageDirectory, src: PageDirectory, i: nat): nat
    reads kernelDir.tables, src.tables, src.Cells()
    requires i < kernelDir.tables.Length && i < src.tables.Length
  {
    if Private(kernelDir, src, i) then FramesNeeded(Entries(src.tables[i])) else 0
  }

  ghost function Costs(kernelDir: PageDirectory, src: PageDirectory, n: nat): (s: seq<nat>)
    reads kernelDir.tables, src.tables, src.Cells()
    requires n <= kernelDir.tables.Length && n <= src.tables.Length
    ensures |s| == n && forall i :: 0 <= i < n ==> s[i] == SlotCost(kernelDir, src, i)
  {
    if n == 0 then [] else Costs(kernelDir, src, n - 1) + [SlotCost(kernelDir, src, n - 1)]
  }

  /** One frame for each page with a frame in a table that the kernel does not have. */
  ghost function CloneCost(kernelDir: PageDirectory, src: PageDirectory): nat
    reads kernelDir.tables, src.tables, src.Cells()
    requires kernelDir.tables.Length == src.tables.Length == ENTRIES
  {
    Sum(Costs(kernelDir, src, ENTRIES))
  }

  /** The frames that slot i of the clone names, if its table is not shared. */
  ghost function SlotFrames(kernelDir: PageDirectory, src: PageDirectory, dir: PageDirectory, i: nat): set<nat>
    reads kernelDir.tables, src.tables, dir.tables, dir.Cells()
    requires i < kernelDir.tables.Length && i < src.tables.Length && i < dir.tables.Length
  {
    if Private(kernelDir, src, i) then FramesOf(Entries(dir.tables[i])) else {}
  }

  ghost function CloneFrames(kernelDir: PageDirectory, src: PageDirectory, dir: PageDirectory, n: nat):
    (s: seq<set<nat>>)
    reads kernelDir.tables, src.tables, dir.tables, dir.Cells()
    requires n <= kernelDir.tables.Length && n <= src.tables.Length && n <= dir.tables.Length
    ensures |s| == n && forall i :: 0 <= i < n ==> s[i] == SlotFrames(kernelDir, src, dir, i)
  {
    if n == 0 then [] else CloneFrames(kernelDir, src, dir, n - 1) + [SlotFrames(kernelDir, src, dir, n - 1)]
  }

  function Union(s: seq<set<nat>>): set<nat> {
    if s == [] then {} else Union(s[..|s| - 1]) + s[|s| - 1]
  }

  lemma UnionNext(s: seq<set<nat>>, x: set<nat>)
    ensures Union(s + [x]) == Union(s) + x
  {
    assert (s + [x])[..|s|] == s;
  }

  lemma {:induction false} UnionMember(s: seq<set<nat>>, f: nat)
    requires f in Union(s)
    ensures exists i :: 0 <= i < |s| && f in s[i]
  {
    if f !in s[|s| - 1] {
      UnionMember(s[..|s| - 1], f);
      var i :| 0 <= i < |s| - 1 && f in s[..|s| - 1][i];
      assert f in s[i];
    }
  }

  /** The tables that the clone has for itself in the first n slots. */
  ghost function OwnTables(kernelDir: PageDirectory, src: PageDirectory, dir: PageDirectory, n: nat):
    (s: seq<PageTable?>)
    reads kernelDir.tables, src.tables, dir.tables
    requires n <= kernelDir.tables.Length && n <= src.tables.Length && n <= dir.tables.Length
    ensures |s| == n && forall i :: 0 <= i < n ==> s[i] == if Private(kernelDir, src, i) then dir.tables[i] else null
  {
    if n == 0 then []
    else
      OwnTables(kernelDir, src, dir, n - 1) + [if Private(kernelDir, src, n - 1) then dir.tables[n - 1] else null]
  }

  lemma ListsNext(kernelDir: PageDirectory, src: PageDirectory, dir: PageDirectory, n: nat)
    requires n < kernelDir.tables.Length && n < src.tables.Length && n < dir.tables.Length
    ensures CloneFrames(kernelDir, src, dir, n + 1) ==
      CloneFrames(kernelDir, src, dir, n) + [SlotFrames(kernelDir, src, dir, n)]
    ensures OwnTables(kernelDir, src, dir, n + 1) ==
      OwnTables(kernelDir, src, dir, n) + [if Private(kernelDir, src, n) then dir.tables[n] else null]
  {
  }

  class Cloner {
    const kernel: Kernel
    const phys: array<FrameData>

    constructor (kernel: Kernel, phys: array<FrameData>)
      ensures this.kernel == kernel && this.phys == phys
    {
      this.kernel := kernel;
      this.phys := phys;
    }

    ghost predicate Ready()
      reads kernel.bitmap.words
    {
      && (phys as object) != kernel.bitmap.words && phys.Length == kernel.bitmap.Limit()
      && 0 in kernel.bitmap.Used()
    }

    method CopyPagePhysical(src: nat, dst: nat)
      requires src / PAGE_SIZE < phys.Length && dst / PAGE_SIZE < phys.Length
      modifies phys
      ensures phys[..] == old(phys[..])[dst / PAGE_SIZE := old(phys[src / PAGE_SIZE])]
    {
      phys[dst / PAGE_SIZE] := phys[src / PAGE_SIZE];
    }

    ghost function Free(): nat
      reads kernel.bitmap.words
    {
      FreeFrames(kernel.bitmap.Used(), kernel.bitmap.Limit())
    }

    /** The frames that were taken are exactly these, as many as it cost. */
    ghost predicate Paid(cost: nat, taken: set<nat>, was: set<nat>, now: set<nat>) {
      && now == was + taken
      && FreeFrames(now, kernel.bitmap.Limit()) + cost == FreeFrames(was, kernel.bitmap.Limit())
    }

    /** The body of the loop of clone_table; None exactly when the entry needs a frame and there is none left. */
    method CloneEntry(s: Page) returns (r: Option<Page>)
      requires Ready() && (s.frame != 0 ==> s.frame in kernel.bitmap.Used() && s.frame < phys.Length)
      modifies kernel.bitmap.words, phys
      ensures Ready() && (r == None <==> s.frame != 0 && old(kernel.bitmap.Full()))
      ensures r.Some? ==>
        && CopyOf(s, r.value, old(kernel.bitmap.Used()), kernel.bitmap.Used(), old(phys[..]), phys[..])
        && OldFramesKept(old(kernel.bitmap.Used()), old(phys[..]), phys[..])
        && kernel.bitmap.Used() == old(kernel.bitmap.Used()) + if s.frame == 0 then {} else {r.value.frame}
    {
      if s.frame == 0 {
        return Some(EMPTY_PAGE);
      }
      r := kernel.bitmap.AllocFrame(EMPTY_PAGE, false, false);
      if r == None {
        return None;
      }
      var page := r.value;
      if s.present { page := page.(present := true); }
      if s.rw { page := page.(rw := true); }
      if s.user { page := page.(user := true); }
      if s.accessed { page := page.(accessed := true); }
      if s.dirty { page := page.(dirty := true); }
      assert s.frame * PAGE_SIZE / PAGE_SIZE == s.frame && page.frame * PAGE_SIZE / PAGE_SIZE == page.frame;
      CopyPagePhysical(s.frame * PAGE_SIZE, page.frame * PAGE_SIZE);
      r := Some(page);
    }

    /** clone_table; null exactly when its entries need more frames than are left. Otherwise the frames taken are those
        that the copy names, and the table lies at the bump address. */
    method CloneTable(src: PageTable) returns (table: PageTable?)
      requires Ready() && src.pages.Length == ENTRIES
      requires (src.pages as object) != phys && (src.pages as object) != kernel.bitmap.words
      requires FramesUsed(src.pages[..], kernel.bitmap.Used(), phys.Length)
      modifies kernel`freeMemAddr, kernel.bitmap.words, phys
      ensures Ready() && (table != null <==> FramesNeeded(src.pages[..]) <= old(Free()))
      ensures table != null ==> fresh(table) && fresh(table.pages) && table.pages.Length == ENTRIES
      ensures table != null ==>
        Copies(src.pages[..], table.pages[..], ENTRIES, old(kernel.bitmap.Used()), kernel.bitmap.Used(), old(phys[..]),
               phys[..])
      ensures table != null ==> OldFramesKept(old(kernel.bitmap.Used()), old(phys[..]), phys[..])
      ensures table != null ==> kernel.bitmap.Used() == old(kernel.bitmap.Used()) + FramesOf(table.pages[..])
      ensures table != null ==> Free() + FramesNeeded(src.pages[..]) == old(Free())
      ensures table != null ==>
        table.physical == AlignUp(old(kernel.freeMemAddr)) && kernel.freeMemAddr == table.physical + PAGE_SIZE
    {
      hide FramesNeeded, FramesOf, FreeFrames, AlignUp, Copies, Charged, CopyOf, OldFramesKept;
      ghost var used0, phys0, limit := kernel.bitmap.Used(), phys[..], kernel.bitmap.Limit();
      var physical := kernel.KmallocInt(PAGE_SIZE, true);
      table := new PageTable(physical);
      NothingCopied(src.pages[..], table.pages[..], used0, phys0, limit);
      var i := 0;
      while i < ENTRIES
        invariant i <= ENTRIES && Ready() && fresh(table) && fresh(table.pages) && table.pages.Length == ENTRIES
        invariant used0 <= kernel.bitmap.Used() && OldFramesKept(used0, phys0, phys[..])
        invariant Copies(src.pages[..], table.pages[..], i, used0, kernel.bitmap.Used(), phys0, phys[..])
        invariant Charged(src.pages[..], table.pages[..], i, used0, kernel.bitmap.Used(), limit)
        invariant kernel.freeMemAddr == physical + PAGE_SIZE
      {
        ghost var used, before := kernel.bitmap.Used(), phys[..];
        ghost var dst := table.pages[..];
        var r := CloneEntry(src.pages[i]);
        if r == None {
          ChargedOut(src.pages[..], dst, i, used0, used, limit);
          return null;
        }
        EntryCopied(src.pages[..], dst, i, used0, used, kernel.bitmap.Used(), phys0, before, phys[..], limit, r.value);
        table.pages[i] := r.value;
        assert table.pages[..] == dst[i := r.value];
        i := i + 1;
      }
      AllCopied(src.pages[..], table.pages[..], used0, kernel.bitmap.Used(), limit);
    }

    ghost predicate ApartFrom(dir: PageDirectory)
      reads dir.tables
    {
      {phys as object, kernel.bitmap.words as object} !!
        {dir.tables as object, dir.tablesPhysical as object} + dir.Cells()
    }

    ghost predicate DirectoryFramesUsed(dir: PageDirectory, used: set<nat>)
      reads dir.tables, dir.tablesPhysical, dir.Cells()
    {
      && dir.Valid()
      && forall i :: 0 <= i < ENTRIES && dir.tables[i] != null ==> FramesUsed(Entries(dir.tables[i]), used, phys.Length)
    }

    /** Slot i of the clone: empty for an empty slot, the very same table for a kernel table, otherwise a copy. */
    ghost predicate SlotCloned(kernelDir: PageDirectory, src: PageDirectory, dir: PageDirectory, i: nat,
                               used0: set<nat>, phys0: seq<FrameData>)
      reads kernelDir.tables, src.tables, dir.tables, src.Cells(), dir.Cells(), phys, kernel.bitmap.words
      requires i < kernelDir.tables.Length && i < src.tables.Length && i < dir.tables.Length
    {
      var s, d := src.tables[i], dir.tables[i];
      if s == null then d == null
      else if kernelDir.tables[i] == s then d == s
      else d != null && Copies(Entries(s), Entries(d), ENTRIES, used0, kernel.bitmap.Used(), phys0, phys[..])
    }

    /** The directories are well formed and share no array they should not share. */
    ghost predicate Arranged(kernelDir: PageDirectory, src: PageDirectory, dir: PageDirectory)
      reads kernelDir.tables, kernelDir.tablesPhysical, src.tables, src.tablesPhysical, dir.tables, dir.tablesPhysical,
            kernel.bitmap.words
    {
      && Ready() && kernelDir.Valid() && src.Valid() && dir.Valid()
      && ApartFrom(src) && ApartFrom(kernelDir) && ApartFrom(dir)
      && {dir.tables as object, dir.tablesPhysical as object} !!
           {src.tables as object, src.tablesPhysical, kernelDir.tables, kernelDir.tablesPhysical} + src.Cells()
    }

    /** The first n slots are cloned, the others empty. The clone's own tables are none of the source's. */
    ghost predicate SlotsCloned(kernelDir: PageDirectory, src: PageDirectory, dir: PageDirectory, n: nat,
                                used0: set<nat>, phys0: seq<FrameData>)
      reads kernelDir.tables, src.tables, dir.tables, src.Cells(), dir.Cells(), phys, kernel.bitmap.words
      requires n <= ENTRIES == kernelDir.tables.Length == src.tables.Length == dir.tables.Length
    {
      && (forall j :: n <= j < ENTRIES ==> dir.tables[j] == null)
      && (forall j :: 0 <= j < n ==> SlotCloned(kernelDir, src, dir, j, used0, phys0))
      && (forall j :: 0 <= j < n && Private(kernelDir, src, j) ==>
            dir.tables[j] != null && (dir.tables[j].pages as object) !in src.Cells())
      && PrivateFramesApart(kernelDir, src, dir, n)
    }

    ghost predicate FramesKept(src: PageDirectory, used0: set<nat>, phys0: seq<FrameData>)
      reads src.tables, src.tablesPhysical, src.Cells(), phys, kernel.bitmap.words
    {
      DirectoryFramesUsed(src, used0) && used0 <= kernel.bitmap.Used() && OldFramesKept(used0, phys0, phys[..])
    }

    /** The state of clone_directory after n slots. */
    ghost predicate Progress(kernelDir: PageDirectory, src: PageDirectory, dir: PageDirectory, n: nat, used0: set<nat>,
                             phys0: seq<FrameData>)
      reads kernelDir.tables, kernelDir.tablesPhysical, src.tables, src.tablesPhysical, dir.tables, dir.tablesPhysical,
            src.Cells(), dir.Cells(), phys, kernel.bitmap.words
    {
      && n <= ENTRIES && Arranged(kernelDir, src, dir) && FramesKept(src, used0, phys0)
      && SlotsCloned(kernelDir, src, dir, n, used0, phys0)
    }

    /** Put a table into slot n of the clone. */
    method SetSlot(kernelDir: PageDirectory, src: PageDirectory, dir: PageDirectory, n: nat, table: PageTable,
                   physical: nat, ghost used0: set<nat>, ghost phys0: seq<FrameData>)
      requires Arranged(kernelDir, src, dir) && n < ENTRIES && SlotsCloned(kernelDir, src, dir, n, used0, phys0)
      requires table.pages.Length == ENTRIES && physical == table.physical + TABLE_FLAGS
      requires (table.pages as object) !in {phys as object, kernel.bitmap.words, dir.tables, dir.tablesPhysical}
      requires forall j :: 0 <= j < n && dir.tables[j] != null ==> dir.tables[j].pages != table.pages
      modifies dir.tables, dir.tablesPhysical
      ensures Arranged(kernelDir, src, dir) && dir.tables[n] == table
      ensures forall j :: 0 <= j < ENTRIES && j != n ==>
        dir.tables[j] == old(dir.tables[j]) && Entries(dir.tables[j]) == old(Entries(dir.tables[j]))
      ensures forall j :: 0 <= j < ENTRIES ==> Entries(src.tables[j]) == old(Entries(src.tables[j]))
      ensures Entries(table) == old(Entries(table))
    {
      forall j | 0 <= j < ENTRIES && dir.tables[j] != null
        ensures (dir.tables[j].pages as object) !in {dir.tables as object, dir.tablesPhysical as object}
      {
        assert (dir.tables[j].pages as object) in dir.Cells();
      }
      forall j | 0 <= j < ENTRIES && src.tables[j] != null
        ensures (src.tables[j].pages as object) !in {dir.tables as object, dir.tablesPhysical as object}
      {
        assert (src.tables[j].pages as object) in src.Cells();
      }
      dir.tables[n] := table;
      dir.tablesPhysical[n] := physical;
    }

    /** A slot with a table of the kernel. */
    method ShareSlot(kernelDir: PageDirectory, src: PageDirectory, dir: PageDirectory, n: nat, ghost used0: set<nat>,
                     ghost phys0: seq<FrameData>)
      requires Arranged(kernelDir, src, dir) && n < ENTRIES && SlotsCloned(kernelDir, src, dir, n, used0, phys0)
      requires src.tables[n] != null && kernelDir.tables[n] == src.tables[n]
      modifies dir.tables, dir.tablesPhysical
      ensures Arranged(kernelDir, src, dir) && SlotsCloned(kernelDir, src, dir, n + 1, used0, phys0)
      ensures forall j :: 0 <= j < ENTRIES && j != n ==>
        dir.tables[j] == old(dir.tables[j]) && Entries(dir.tables[j]) == old(Entries(dir.tables[j]))
      ensures forall j :: 0 <= j < ENTRIES ==> Entries(src.tables[j]) == old(Entries(src.tables[j]))
    {
      hide Copies, NoSharedFrame;
      assert (src.tables[n].pages as object) in src.Cells();
      forall j | 0 <= j < n && dir.tables[j] != null ensures dir.tables[j].pages != src.tables[n].pages {
        assert SlotCloned(kernelDir, src, dir, j, used0, phys0);
      }
      SetSlot(kernelDir, src, dir, n, src.tables[n], src.tablesPhysical[n], used0, phys0);
      forall j | 0 <= j < n + 1 ensures SlotCloned(kernelDir, src, dir, j, used0, phys0) {
        if j < n { assert old(SlotCloned(kernelDir, src, dir, j, used0, phys0)); }
      }
    }

    /** clone_table on slot n changes no entry of either directory. */
    method MakeCopy(kernelDir: PageDirectory, src: PageDirectory, dir: PageDirectory, n: nat)
      returns (table: PageTable?)
      requires Arranged(kernelDir, src, dir) && n < ENTRIES && src.tables[n] != null
      requires FramesUsed(Entries(src.tables[n]), kernel.bitmap.Used(), phys.Length)
      modifies kernel`freeMemAddr, kernel.bitmap.words, phys
      ensures Ready() && (table != null <==> old(FramesNeeded(Entries(src.tables[n])) <= Free()))
      ensures table != null ==> fresh(table) && fresh(table.pages) && table.pages.Length == ENTRIES
      ensures table != null ==>
        Copies(Entries(src.tables[n]), table.pages[..], ENTRIES, old(kernel.bitmap.Used()), kernel.bitmap.Used(),
               old(phys[..]), phys[..])
      ensures table != null ==> OldFramesKept(old(kernel.bitmap.Used()), old(phys[..]), phys[..])
      ensures table != null ==> Paid(old(FramesNeeded(Entries(src.tables[n]))), FramesOf(table.pages[..]),
                                     old(kernel.bitmap.Used()), kernel.bitmap.Used())
      ensures table != null ==>
        table.physical == AlignUp(old(kernel.freeMemAddr)) && kernel.freeMemAddr == table.physical + PAGE_SIZE
      ensures forall j :: 0 <= j < ENTRIES ==>
        Entries(src.tables[j]) == old(Entries(src.tables[j])) && Entries(dir.tables[j]) == old(Entries(dir.tables[j]))
    {
      hide Copies, FramesUsed, FramesNeeded, FramesOf, FreeFrames, AlignUp, OldFramesKept;
      forall j | 0 <= j < ENTRIES && src.tables[j] != null ensures (src.tables[j].pages as object) in src.Cells() {
      }
      forall j | 0 <= j < ENTRIES && dir.tables[j] != null ensures (dir.tables[j].pages as object) in dir.Cells() {
      }
      table := CloneTable(src.tables[n]);
    }

    /** Making the copy of a table disturbs no earlier slot. */
    method CopyTable(kernelDir: PageDirectory, src: PageDirectory, dir: PageDirectory, n: nat, ghost used0: set<nat>,
                     ghost phys0: seq<FrameData>) returns (table: PageTable?)
      requires Arranged(kernelDir, src, dir) && n < ENTRIES && SlotsCloned(kernelDir, src, dir, n, used0, phys0)
      requires FramesKept(src, used0, phys0) && src.tables[n] != null
      modifies kernel`freeMemAddr, kernel.bitmap.words, phys
      ensures table != null ==> Ready() && used0 <= kernel.bitmap.Used()
      ensures table != null ==> fresh(table) && fresh(table.pages) && table.pages.Length == ENTRIES
      ensures table != null ==> FramesKept(src, used0, phys0)
      ensures table != null ==> SlotsCloned(kernelDir, src, dir, n, used0, phys0)
      ensures table != null ==>
        Copies(Entries(src.tables[n]), table.pages[..], ENTRIES, used0, kernel.bitmap.Used(), phys0, phys[..])
      ensures table != null ==> forall j :: 0 <= j < n && Private(kernelDir, src, j) ==>
        NoSharedFrame(Entries(dir.tables[j]), table.pages[..])
      ensures table != null <==> old(FramesNeeded(Entries(src.tables[n])) <= Free())
      ensures table != null ==> Paid(old(FramesNeeded(Entries(src.tables[n]))), FramesOf(table.pages[..]),
                                     old(kernel.bitmap.Used()), kernel.bitmap.Used())
      ensures table != null ==>
        table.physical == AlignUp(old(kernel.freeMemAddr)) && kernel.freeMemAddr == table.physical + PAGE_SIZE
      ensures forall j :: 0 <= j < ENTRIES ==>
        Entries(src.tables[j]) == old(Entries(src.tables[j])) && Entries(dir.tables[j]) == old(Entries(dir.tables[j]))
    {
      hide Copies, NoSharedFrame, FramesNeeded, FramesOf, FreeFrames, AlignUp, OldFramesKept;
      ghost var used, before := kernel.bitmap.Used(), phys[..];
      table := MakeCopy(kernelDir, src, dir, n);
      if table != null {
        ghost var now, after := kernel.bitmap.Used(), phys[..];
        KeptInTurn(used0, used, phys0, before, after);
        CopiesFromStart(Entries(src.tables[n]), table.pages[..], used0, used, now, phys0, before, after);
        forall j | 0 <= j < n
          ensures SlotCloned(kernelDir, src, dir, j, used0, phys0)
          ensures Private(kernelDir, src, j) ==> NoSharedFrame(Entries(dir.tables[j]), table.pages[..])
        {
          assert old(SlotCloned(kernelDir, src, dir, j, used0, phys0));
          if Private(kernelDir, src, j) {
            var s, d := Entries(src.tables[j]), Entries(dir.tables[j]);
            CopiesApart(s, d, Entries(src.tables[n]), table.pages[..], used0, used, now, phys0, before, after);
            CopiesStay(s, d, used0, used, now, phys0, before, after);
          }
        }
        assert PrivateFramesApart(kernelDir, src, dir, n) by {
          assert old(PrivateFramesApart(kernelDir, src, dir, n));
        }
      }
    }

    /** A slot with a table of its own; false when the frames have run out. */
    method CopySlot(kernelDir: PageDirectory, src: PageDirectory, dir: PageDirectory, n: nat, ghost used0: set<nat>,
                    ghost phys0: seq<FrameData>) returns (ok: bool)
      requires Progress(kernelDir, src, dir, n, used0, phys0) && n < ENTRIES && Private(kernelDir, src, n)
      modifies dir.tables, dir.tablesPhysical, kernel`freeMemAddr, kernel.bitmap.words, phys
      ensures ok ==> Progress(kernelDir, src, dir, n + 1, used0, phys0)
      ensures ok ==> dir.tables[n] != null && fresh(dir.tables[n].pages)
      ensures forall j :: 0 <= j < ENTRIES && j != n ==>
        dir.tables[j] == old(dir.tables[j]) && Entries(dir.tables[j]) == old(Entries(dir.tables[j]))
      ensures forall j :: 0 <= j < ENTRIES ==> Entries(src.tables[j]) == old(Entries(src.tables[j]))
      ensures ok <==> old(FramesNeeded(Entries(src.tables[n])) <= Free())
      ensures ok ==> Paid(old(FramesNeeded(Entries(src.tables[n]))), FramesOf(Entries(dir.tables[n])),
                          old(kernel.bitmap.Used()), kernel.bitmap.Used())
      ensures ok ==> dir.tables[n].physical == AlignUp(old(kernel.freeMemAddr))
                     && kernel.freeMemAddr == dir.tables[n].physical + PAGE_SIZE
    {
      hide FramesNeeded, FramesOf, FreeFrames, AlignUp, Paid, NoSharedFrame, Copies, OldFramesKept, FramesUsed,
        SlotsCloned;
      var table := CopyTable(kernelDir, src, dir, n, used0, phys0);
      if table == null {
        return false;
      }
      AddCopy(kernelDir, src, dir, n, table, used0, phys0);
      ok := true;
    }

    /** Put the copy of a table into its slot: every slot so far is cloned. */
    method PutCopy(kernelDir: PageDirectory, src: PageDirectory, dir: PageDirectory, n: nat, table: PageTable,
                   ghost used0: set<nat>, ghost phys0: seq<FrameData>)
      requires Arranged(kernelDir, src, dir) && n < ENTRIES && SlotsCloned(kernelDir, src, dir, n, used0, phys0)
      requires Private(kernelDir, src, n)
      requires (table.pages as object) !in {phys as object, kernel.bitmap.words, dir.tables, dir.tablesPhysical}
      requires (table.pages as object) !in dir.Cells()
      requires Copies(Entries(src.tables[n]), Entries(table), ENTRIES, used0, kernel.bitmap.Used(), phys0, phys[..])
      modifies dir.tables, dir.tablesPhysical
      ensures Arranged(kernelDir, src, dir) && dir.tables[n] == table
      ensures forall j :: 0 <= j < n + 1 ==> SlotCloned(kernelDir, src, dir, j, used0, phys0)
      ensures forall j :: 0 <= j < ENTRIES && j != n ==>
        dir.tables[j] == old(dir.tables[j]) && Entries(dir.tables[j]) == old(Entries(dir.tables[j]))
      ensures forall j :: 0 <= j < ENTRIES ==> Entries(src.tables[j]) == old(Entries(src.tables[j]))
      ensures Entries(table) == old(Entries(table))
    {
      hide CopyOf, DistinctFrames, NoSharedFrame, FramesUsed;
      forall j | 0 <= j < n && dir.tables[j] != null ensures dir.tables[j].pages != table.pages {
        assert (dir.tables[j].pages as object) in dir.Cells();
      }
      SetSlot(kernelDir, src, dir, n, table, table.physical + TABLE_FLAGS, used0, phys0);
      forall j | 0 <= j < n + 1 ensures SlotCloned(kernelDir, src, dir, j, used0, phys0) {
        if j < n { assert old(SlotCloned(kernelDir, src, dir, j, used0, phys0)); }
      }
    }

    /** A slot with a copy that shares no frame with those before it. */
    method AddCopy(kernelDir: PageDirectory, src: PageDirectory, dir: PageDirectory, n: nat, table: PageTable,
                   ghost used0: set<nat>, ghost phys0: seq<FrameData>)
      requires Arranged(kernelDir, src, dir) && n < ENTRIES && SlotsCloned(kernelDir, src, dir, n, used0, phys0)
      requires Private(kernelDir, src, n)
      requires (table.pages as object) !in {phys as object, kernel.bitmap.words, dir.tables, dir.tablesPhysical}
      requires (table.pages as object) !in src.Cells() + dir.Cells()
      requires Copies(Entries(src.tables[n]), Entries(table), ENTRIES, used0, kernel.bitmap.Used(), phys0, phys[..])
      requires forall j :: 0 <= j < n && Private(kernelDir, src, j) ==>
        NoSharedFrame(Entries(dir.tables[j]), Entries(table))
      modifies dir.tables, dir.tablesPhysical
      ensures Arranged(kernelDir, src, dir) && dir.tables[n] == table
      ensures SlotsCloned(kernelDir, src, dir, n + 1, used0, phys0)
      ensures forall j :: 0 <= j < ENTRIES ==> Entries(src.tables[j]) == old(Entries(src.tables[j]))
      ensures forall j :: 0 <= j < ENTRIES && j != n ==>
        dir.tables[j] == old(dir.tables[j]) && Entries(dir.tables[j]) == old(Entries(dir.tables[j]))
      ensures Entries(table) == old(Entries(table))
    {
      hide Copies, NoSharedFrame, SlotCloned, FramesUsed, CopyOf, ApartFrom;
      PutCopy(kernelDir, src, dir, n, table, used0, phys0);
      assert PrivateFramesApart(kernelDir, src, dir, n) by {
        assert old(PrivateFramesApart(kernelDir, src, dir, n));
      }
      OneMoreApart(kernelDir, src, dir, n);
    }

    /** The body of the loop of clone_directory; false when the frames have run out. */
    method CloneSlot(kernelDir: PageDirectory, src: PageDirectory, dir: PageDirectory, n: nat, ghost used0: set<nat>,
                     ghost phys0: seq<FrameData>) returns (ok: bool)
      requires Progress(kernelDir, src, dir, n, used0, phys0) && n < ENTRIES
      modifies dir.tables, dir.tablesPhysical, kernel`freeMemAddr, kernel.bitmap.words, phys
      ensures ok ==> Progress(kernelDir, src, dir, n + 1, used0, phys0)
      ensures ok && Private(kernelDir, src, n) ==>
        dir.tables[n] != null && fresh(dir.tables[n].pages)
      ensures forall j :: 0 <= j < ENTRIES && j != n ==>
        dir.tables[j] == old(dir.tables[j]) && Entries(dir.tables[j]) == old(Entries(dir.tables[j]))
      ensures forall j :: 0 <= j < ENTRIES ==> Entries(src.tables[j]) == old(Entries(src.tables[j]))
      ensures ok <==> old(SlotCost(kernelDir, src, n) <= Free())
      ensures ok ==> Paid(old(SlotCost(kernelDir, src, n)), SlotFrames(kernelDir, src, dir, n),
                          old(kernel.bitmap.Used()), kernel.bitmap.Used())
      ensures ok && Private(kernelDir, src, n) ==> dir.tables[n].physical == AlignUp(old(kernel.freeMemAddr))
                                                   && kernel.freeMemAddr == dir.tables[n].physical + PAGE_SIZE
      ensures !Private(kernelDir, src, n) ==> kernel.freeMemAddr == old(kernel.freeMemAddr)
    {
      ok := true;
      if src.tables[n] != null {
        if kernelDir.tables[n] == src.tables[n] {
          ShareSlot(kernelDir, src, dir, n, used0, phys0);
        } else {
          ok := CopySlot(kernelDir, src, dir, n, used0, phys0);
        }
      }
    }

    /** clone_directory, before its loop: the hardware gets the address of the directory's table of physical
        addresses. */
    method EmptyClone(kernelDir: PageDirectory, src: PageDirectory) returns (d: PageDirectory)
      requires Ready() && kernelDir.Valid() && ApartFrom(src) && ApartFrom(kernelDir)
      requires DirectoryFramesUsed(src, kernel.bitmap.Used())
      modifies kernel`freeMemAddr
      ensures fresh(d) && fresh(d.tables) && fresh(d.tablesPhysical)
      ensures d.physicalAddr == AlignUp(old(kernel.freeMemAddr)) + TABLES_PHYSICAL_OFFSET
      ensures kernel.freeMemAddr == DirectoryEnd(d)
      ensures Progress(kernelDir, src, d, 0, kernel.bitmap.Used(), phys[..])
    {
      hide FramesUsed, SlotCloned, AlignUp, Copies, NoSharedFrame;
      var physical := kernel.KmallocInt(DIRECTORY_SIZE, true);
      d := new PageDirectory(physical + TABLES_PHYSICAL_OFFSET);
    }

    /** clone_directory; null exactly when the pages to copy need more frames than are left. Otherwise every frame taken
        is named by a table of the clone's own, and these tables and the directory lie on pages of their own. */
    method CloneDirectory(kernelDir: PageDirectory, src: PageDirectory) returns (dir: PageDirectory?)
      requires Ready() && kernelDir.Valid() && ApartFrom(src) && ApartFrom(kernelDir)
      requires DirectoryFramesUsed(src, kernel.bitmap.Used())
      modifies kernel`freeMemAddr, kernel.bitmap.words, phys
      ensures dir != null <==> old(CloneCost(kernelDir, src) <= Free())
      ensures dir != null ==> Ready() && fresh(dir) && dir.Valid()
      ensures dir != null ==> dir.physicalAddr == AlignUp(old(kernel.freeMemAddr)) + TABLES_PHYSICAL_OFFSET
      ensures dir != null ==> OldFramesKept(old(kernel.bitmap.Used()), old(phys[..]), phys[..])
      ensures dir != null ==> SlotsCloned(kernelDir, src, dir, ENTRIES, old(kernel.bitmap.Used()), old(phys[..]))
      ensures dir != null ==> forall i :: 0 <= i < ENTRIES && Private(kernelDir, src, i) ==>
        fresh(dir.tables[i].pages)
      ensures dir != null ==>
        kernel.bitmap.Used() == old(kernel.bitmap.Used()) + Union(CloneFrames(kernelDir, src, dir, ENTRIES))
      ensures dir != null ==> Free() + old(CloneCost(kernelDir, src)) == old(Free())
      ensures dir != null ==>
        OwnPages(OwnTables(kernelDir, src, dir, ENTRIES), DirectoryEnd(dir), kernel.freeMemAddr)
    {
      hide AlignUp, Sum, FreeFrames, SlotCloned, OwnPages, Union;
      ghost var used0, phys0, costs := kernel.bitmap.Used(), phys[..], Costs(kernelDir, src, ENTRIES);
      var d := EmptyClone(kernelDir, src);
      var ok := CloneSlots(kernelDir, src, d, used0, phys0, costs);
      if !ok {
        return null;
      }
      dir := d;
    }

    /** The accounts after n slots: every frame taken is named by a table of the clone's own, as many as these slots
        cost, and these tables lie on pages of their own. */
    ghost predicate Accounted(kernelDir: PageDirectory, src: PageDirectory, d: PageDirectory, n: nat, used0: set<nat>,
                              costs: seq<nat>)
      reads kernelDir.tables, src.tables, src.Cells(), d.tables, d.Cells(), kernel, kernel.bitmap.words
      requires n <= ENTRIES == |costs| == kernelDir.tables.Length == src.tables.Length == d.tables.Length
    {
      && (forall j :: 0 <= j < ENTRIES ==> SlotCost(kernelDir, src, j) == costs[j])
      && Paid(Sum(costs[..n]), Union(CloneFrames(kernelDir, src, d, n)), used0, kernel.bitmap.Used())
      && OwnPages(OwnTables(kernelDir, src, d, n), DirectoryEnd(d), kernel.freeMemAddr)
    }

    lemma PaidTwice(a: nat, b: nat, s: set<nat>, t: set<nat>, used0: set<nat>, used1: set<nat>, used: set<nat>)
      requires Paid(a, s, used0, used1) && Paid(b, t, used1, used)
      ensures Paid(a + b, s + t, used0, used)
    {
    }

    lemma NothingAccounted(kernelDir: PageDirectory, src: PageDirectory, d: PageDirectory, used0: set<nat>,
                           costs: seq<nat>)
      requires ENTRIES == kernelDir.tables.Length == src.tables.Length == d.tables.Length
      requires used0 == kernel.bitmap.Used() && costs == Costs(kernelDir, src, ENTRIES)
      requires kernel.freeMemAddr == DirectoryEnd(d)
      ensures Accounted(kernelDir, src, d, 0, used0, costs)
    {
      assert costs[..0] == [];
    }

    lemma FreeSoFar(kernelDir: PageDirectory, src: PageDirectory, d: PageDirectory, n: nat, used0: set<nat>,
                    costs: seq<nat>)
      requires n <= ENTRIES == |costs| == kernelDir.tables.Length == src.tables.Length == d.tables.Length
      requires Accounted(kernelDir, src, d, n, used0, costs)
      ensures Free() + Sum(costs[..n]) == FreeFrames(used0, kernel.bitmap.Limit())
    {
    }

    lemma AccountedNext(kernelDir: PageDirectory, src: PageDirectory, d: PageDirectory, n: nat, used0: set<nat>,
                        used: set<nat>, free: nat, costs: seq<nat>)
      requires n < ENTRIES == |costs| == kernelDir.tables.Length == src.tables.Length == d.tables.Length
      requires forall j :: 0 <= j < ENTRIES ==> SlotCost(kernelDir, src, j) == costs[j]
      requires Paid(Sum(costs[..n]), Union(CloneFrames(kernelDir, src, d, n)), used0, used)
      requires Paid(costs[n], SlotFrames(kernelDir, src, d, n), used, kernel.bitmap.Used())
      requires OwnPages(OwnTables(kernelDir, src, d, n), DirectoryEnd(d), free)
      requires if Private(kernelDir, src, n) then d.tables[n] != null && d.tables[n].physical == AlignUp(free)
                 && kernel.freeMemAddr == d.tables[n].physical + PAGE_SIZE
               else kernel.freeMemAddr == free
      ensures Accounted(kernelDir, src, d, n + 1, used0, costs)
    {
      hide Sum, FreeFrames, AlignUp, Union, Paid, OwnPages, CloneFrames, OwnTables, SlotFrames, SlotCost;
      ListsNext(kernelDir, src, d, n);
      UnionNext(CloneFrames(kernelDir, src, d, n), SlotFrames(kernelDir, src, d, n));
      SumNext(costs, n);
      PaidTwice(Sum(costs[..n]), costs[n], Union(CloneFrames(kernelDir, src, d, n)), SlotFrames(kernelDir, src, d, n),
        used0, used, kernel.bitmap.Used());
      OwnOneMore(OwnTables(kernelDir, src, d, n), if Private(kernelDir, src, n) then d.tables[n] else null,
        DirectoryEnd(d), free, kernel.freeMemAddr);
    }

    /** One round of clone_directory's loop, with the accounts. */
    method CloneNext(kernelDir: PageDirectory, src: PageDirectory, d: PageDirectory, n: nat, ghost used0: set<nat>,
                     ghost phys0: seq<FrameData>, ghost costs: seq<nat>) returns (ok: bool)
      requires |costs| == ENTRIES && n < ENTRIES && Progress(kernelDir, src, d, n, used0, phys0)
      requires Accounted(kernelDir, src, d, n, used0, costs)
      modifies d.tables, d.tablesPhysical, kernel`freeMemAddr, kernel.bitmap.words, phys
      ensures ok <==> costs[n] <= old(Free())
      ensures ok ==> Progress(kernelDir, src, d, n + 1, used0, phys0)
      ensures ok ==> Accounted(kernelDir, src, d, n + 1, used0, costs)
      ensures ok && Private(kernelDir, src, n) ==> d.tables[n] != null && fresh(d.tables[n].pages)
      ensures forall j :: 0 <= j < ENTRIES && j != n ==> d.tables[j] == old(d.tables[j])
    {
      hide FramesKept, SlotsCloned, Sum, FreeFrames, FramesNeeded, FramesOf, AlignUp, Union, Paid, OwnPages, Copies;
      ghost var used, frames, own := kernel.bitmap.Used(), CloneFrames(kernelDir, src, d, n),
        OwnTables(kernelDir, src, d, n);
      ghost var free := kernel.freeMemAddr;
      ok := CloneSlot(kernelDir, src, d, n, used0, phys0);
      if ok {
        forall j | 0 <= j < ENTRIES ensures SlotCost(kernelDir, src, j) == costs[j] {
          assert old(SlotCost(kernelDir, src, j)) == costs[j];
        }
        assert CloneFrames(kernelDir, src, d, n) == frames;
        assert OwnTables(kernelDir, src, d, n) == own;
        AccountedNext(kernelDir, src, d, n, used0, used, free, costs);
      }
    }

    /** The loop of clone_directory. */
    method CloneSlots(kernelDir: PageDirectory, src: PageDirectory, d: PageDirectory, ghost used0: set<nat>,
                      ghost phys0: seq<FrameData>, ghost costs: seq<nat>) returns (ok: bool)
      requires Progress(kernelDir, src, d, 0, used0, phys0) && used0 == kernel.bitmap.Used()
      requires costs == Costs(kernelDir, src, ENTRIES) && kernel.freeMemAddr == DirectoryEnd(d)
      modifies d.tables, d.tablesPhysical, kernel`freeMemAddr, kernel.bitmap.words, phys
      ensures ok <==> Sum(costs) <= old(Free())
      ensures ok ==> Progress(kernelDir, src, d, ENTRIES, used0, phys0)
      ensures ok ==> forall j :: 0 <= j < ENTRIES && Private(kernelDir, src, j) ==>
        fresh(d.tables[j].pages)
      ensures ok ==> Accounted(kernelDir, src, d, ENTRIES, used0, costs)
      ensures ok ==> Free() + Sum(costs) == old(Free())
    {
      hide FramesKept, SlotsCloned, FreeFrames, FramesNeeded, FramesOf, AlignUp, Accounted, Sum, Costs;
      assert costs[..ENTRIES] == costs;
      NothingAccounted(kernelDir, src, d, used0, costs);
      for i := 0 to ENTRIES
        invariant Progress(kernelDir, src, d, i, used0, phys0)
        invariant forall j :: 0 <= j < i && Private(kernelDir, src, j) ==>
          d.tables[j] != null && fresh(d.tables[j].pages)
        invariant Accounted(kernelDir, src, d, i, used0, costs)
      {
        SumNext(costs, i);
        SumMonotone(costs, i + 1);
        FreeSoFar(kernelDir, src, d, i, used0, costs);
        ok := CloneNext(kernelDir, src, d, i, used0, phys0, costs);
        if !ok {
          return false;
        }
      }
      FreeSoFar(kernelDir, src, d, ENTRIES, used0, costs);
      ok := true;
    }

    /** What an address means in the clone: an unmapped page stays unmapped; a page of a kernel table is the very same
        entry; any other page has the same bits and bytes in a frame nobody held before. */
    lemma CloneKeepsMeaning(kernelDir: PageDirectory, src: PageDirectory, dir: PageDirectory, n: nat, used0: set<nat>,
                            phys0: seq<FrameData>)
      requires kernelDir.Valid() && src.Valid() && dir.Valid() && n < PAGE_NUMBERS
      requires SlotsCloned(kernelDir, src, dir, ENTRIES, used0, phys0)
      ensures n in dir.Flat() <==> n in src.Flat()
      ensures n in src.Flat() && !Private(kernelDir, src, n / ENTRIES) ==>
        dir.tables[n / ENTRIES] == src.tables[n / ENTRIES] && dir.Flat()[n] == src.Flat()[n]
      ensures n in src.Flat() && Private(kernelDir, src, n / ENTRIES) ==>
        CopyOf(src.Flat()[n], dir.Flat()[n], used0, kernel.bitmap.Used(), phys0, phys[..])
    {
      assert SlotCloned(kernelDir, src, dir, n / ENTRIES, used0, phys0);
    }

    /** Two private pages never share a frame in the clone. */
    lemma CloneFramesApart(kernelDir: PageDirectory, src: PageDirectory, dir: PageDirectory, m: nat, n: nat,
                           used0: set<nat>, phys0: seq<FrameData>)
      requires kernelDir.Valid() && src.Valid() && dir.Valid() && m != n
      requires SlotsCloned(kernelDir, src, dir, ENTRIES, used0, phys0)
      requires m in src.Flat() && Private(kernelDir, src, m / ENTRIES)
      requires n in src.Flat() && Private(kernelDir, src, n / ENTRIES)
      ensures m in dir.Flat() && n in dir.Flat()
      ensures dir.Flat()[m].frame != 0 ==> dir.Flat()[m].frame != dir.Flat()[n].frame
    {
      assert SlotCloned(kernelDir, src, dir, m / ENTRIES, used0, phys0);
      assert SlotCloned(kernelDir, src, dir, n / ENTRIES, used0, phys0);
      var a, b := Entries(dir.tables[m / ENTRIES]), Entries(dir.tables[n / ENTRIES]);
      assert dir.Flat()[m] == a[m % ENTRIES] && dir.Flat()[n] == b[n % ENTRIES];
      assert m == m / ENTRIES * ENTRIES + m % ENTRIES && n == n / ENTRIES * ENTRIES + n % ENTRIES;
      if m / ENTRIES == n / ENTRIES {
        assert DistinctFrames(a);
      } else {
        assert NoSharedFrame(a, b);
      }
    }

    /** The pages of the clone's own tables as holders of frames, numbered from some base on. */
    ghost function CloneHolders(kernelDir: PageDirectory, src: PageDirectory, dir: PageDirectory, base: nat)
      : map<nat, nat>
      reads kernelDir.tables, src.tables, dir.tables, dir.tablesPhysical, dir.Cells()
      requires ENTRIES == kernelDir.tables.Length == src.tables.Length && dir.Valid()
    {
      map p: nat | base <= p < base + PAGE_NUMBERS && IsHolder(kernelDir, src, dir, base, p) ::
        dir.Flat()[p - base].frame
    }

    /** Number p stands for a page of a table of the clone's own. */
    ghost predicate IsHolder(kernelDir: PageDirectory, src: PageDirectory, dir: PageDirectory, base: nat, p: nat)
      reads kernelDir.tables, src.tables, dir.tables, dir.tablesPhysical, dir.Cells()
      requires ENTRIES == kernelDir.tables.Length == src.tables.Length && dir.Valid()
    {
      base <= p < base + PAGE_NUMBERS && p - base in dir.Flat() && Private(kernelDir, src, (p - base) / ENTRIES)
    }

    lemma HolderAt(kernelDir: PageDirectory, src: PageDirectory, dir: PageDirectory, base: nat, i: nat, k: nat)
      requires ENTRIES == kernelDir.tables.Length == src.tables.Length && dir.Valid() && i < ENTRIES && k < ENTRIES
      requires Private(kernelDir, src, i) && dir.tables[i] != null
      ensures var p, held := base + (i * ENTRIES + k), CloneHolders(kernelDir, src, dir, base);
        p in held && held[p] == dir.tables[i].pages[k].frame
    {
      var n := i * ENTRIES + k;
      assert n / ENTRIES == i && n % ENTRIES == k && n < PAGE_NUMBERS;
      assert n in dir.Flat();
    }

    lemma HolderIs(kernelDir: PageDirectory, src: PageDirectory, dir: PageDirectory, base: nat, p: nat)
      requires ENTRIES == kernelDir.tables.Length == src.tables.Length && dir.Valid()
      requires p in CloneHolders(kernelDir, src, dir, base)
      ensures base <= p && (p - base) / ENTRIES < ENTRIES && p - base in dir.Flat()
      ensures Private(kernelDir, src, (p - base) / ENTRIES)
      ensures CloneHolders(kernelDir, src, dir, base)[p] == dir.Flat()[p - base].frame
    {
    }

    lemma CloneHolderFacts(kernelDir: PageDirectory, src: PageDirectory, dir: PageDirectory, base: nat, p: nat,
                           used0: set<nat>, phys0: seq<FrameData>)
      requires Ready() && kernelDir.Valid() && src.Valid() && dir.Valid()
      requires SlotsCloned(kernelDir, src, dir, ENTRIES, used0, phys0)
      requires p in CloneHolders(kernelDir, src, dir, base)
      ensures var f := CloneHolders(kernelDir, src, dir, base)[p];
        f != 0 ==> f !in used0 && f in kernel.bitmap.Used() && f < kernel.bitmap.Limit()
      ensures p - base in src.Flat()
    {
      hide CloneHolders, SlotsCloned;
      HolderIs(kernelDir, src, dir, base, p);
      CloneKeepsMeaning(kernelDir, src, dir, p - base, used0, phys0);
    }

    lemma CloneHoldersApart(kernelDir: PageDirectory, src: PageDirectory, dir: PageDirectory, base: nat, p: nat, q: nat,
                            used0: set<nat>, phys0: seq<FrameData>)
      requires Ready() && kernelDir.Valid() && src.Valid() && dir.Valid()
      requires SlotsCloned(kernelDir, src, dir, ENTRIES, used0, phys0)
      requires p in CloneHolders(kernelDir, src, dir, base) && q in CloneHolders(kernelDir, src, dir, base) && p != q
      ensures var held := CloneHolders(kernelDir, src, dir, base); held[p] != 0 ==> held[p] != held[q]
    {
      hide CloneHolders, SlotsCloned;
      HolderIs(kernelDir, src, dir, base, p);
      HolderIs(kernelDir, src, dir, base, q);
      CloneHolderFacts(kernelDir, src, dir, base, p, used0, phys0);
      CloneHolderFacts(kernelDir, src, dir, base, q, used0, phys0);
      CloneFramesApart(kernelDir, src, dir, p - base, q - base, used0, phys0);
    }

    /** Every frame that the clone took is held by one of its pages. */
    lemma CloneFrameHeld(kernelDir: PageDirectory, src: PageDirectory, dir: PageDirectory, base: nat, f: nat)
      requires ENTRIES == kernelDir.tables.Length == src.tables.Length && dir.Valid()
      requires f in Union(CloneFrames(kernelDir, src, dir, ENTRIES))
      ensures var held := CloneHolders(kernelDir, src, dir, base); exists p :: p in held && held[p] == f
    {
      UnionMember(CloneFrames(kernelDir, src, dir, ENTRIES), f);
      var i :| 0 <= i < ENTRIES && f in SlotFrames(kernelDir, src, dir, i);
      var pages := Entries(dir.tables[i]);
      var k :| 0 <= k < |pages| && pages[k].frame == f;
      HolderAt(kernelDir, src, dir, base, i, k);
    }

    /** If the bitmap was exactly frame 0 and the frames that some pages hold, then it is now frame 0, those frames and
        the frames that the clone's own pages hold. */
    lemma CloneExact(kernelDir: PageDirectory, src: PageDirectory, dir: PageDirectory, held0: map<nat, nat>, base: nat,
                     used0: set<nat>, phys0: seq<FrameData>)
      requires Ready() && kernelDir.Valid() && src.Valid() && dir.Valid()
      requires SlotsCloned(kernelDir, src, dir, ENTRIES, used0, phys0)
      requires kernel.bitmap.Used() == used0 + Union(CloneFrames(kernelDir, src, dir, ENTRIES))
      requires Exact(Sys(used0, held0), kernel.bitmap.Limit()) && forall p :: p in held0 ==> p < base
      ensures Exact(Sys(kernel.bitmap.Used(), held0 + CloneHolders(kernelDir, src, dir, base)), kernel.bitmap.Limit())
    {
      var held := CloneHolders(kernelDir, src, dir, base);
      var was, now := Sys(used0, held0), Sys(kernel.bitmap.Used(), held0 + held);
      hide SlotsCloned, CloneHolders, Union;
      forall p: nat, q: nat | now.Holds(p) != 0 && now.Holds(p) == now.Holds(q) ensures p == q {
        if p in held { CloneHolderFacts(kernelDir, src, dir, base, p, used0, phys0); }
        if q in held { CloneHolderFacts(kernelDir, src, dir, base, q, used0, phys0); }
        if p in held && q in held && p != q { CloneHoldersApart(kernelDir, src, dir, base, p, q, used0, phys0); }
        if p !in held { assert was.Holds(p) == now.Holds(p); }
        if q !in held { assert was.Holds(q) == now.Holds(q); }
      }
      forall p: nat | now.Holds(p) != 0 ensures now.Holds(p) in now.used && now.Holds(p) < kernel.bitmap.Limit() {
        if p in held {
          CloneHolderFacts(kernelDir, src, dir, base, p, used0, phys0);
        } else {
          assert was.Holds(p) == now.Holds(p);
        }
      }
      forall f: nat | f in now.used && f != 0 ensures exists p :: p in now.held && now.held[p] == f {
        if f in used0 {
          var p :| p in held0 && held0[p] == f;
          KeysBehind(kernelDir, src, dir, base, p);
          assert now.held[p] == f;
        } else {
          CloneFrameHeld(kernelDir, src, dir, base, f);
          var p :| p in held && held[p] == f;
          assert now.held[p] == f;
        }
      }
    }

    lemma KeysBehind(kernelDir: PageDirectory, src: PageDirectory, dir: PageDirectory, base: nat, p: nat)
      requires ENTRIES == kernelDir.tables.Length == src.tables.Length && dir.Valid() && p < base
      ensures p !in CloneHolders(kernelDir, src, dir, base)
    {
    }
  }
}
