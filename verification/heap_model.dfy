/** The kernel heap (kernel/libc/memory.c) as regions that tile an address range, plus the index of holes. */
module HeapModel {
  const PAGE: int := 0x1000
  const HEADER: int := 12
  const FOOTER: int := 8
  const OVERHEAD: int := HEADER + FOOTER
  const HEAP_MIN_SIZE: int := 0x70000

  /** The kernel's heap as it is created at boot, behind its index, with the one page table it has. */
  const BOOT_START: int := 0xC008_0000
  const BOOT_END: int := 0xC010_0000
  const BOOT_MAX: int := 0xCFFF_F000
  const BOOT_CAPACITY: nat := 0x2_0000
  const BOOT_TABLE: nat := 768

  /** One hole or block, header and footer included. */
  datatype Region = Region(start: int, size: int, hole: bool) {
    function End(): int {
      start + size
    }
  }

  datatype State = State(start: int, end: int, max: int, capacity: nat, tables: set<nat>,
                         regions: seq<Region>, index: seq<int>) {
    function Length(): int {
      end - start
    }
  }

  // ---- Tiling -------------------------------------------------------------------------------------------------

  /** Walking the sizes from s lands exactly on e, and every region has room for its header and footer. */
  ghost predicate Tiles(rs: seq<Region>, s: int, e: int) {
    if rs == [] then s == e
    else rs[0].start == s && OVERHEAD <= rs[0].size && Tiles(rs[1..], rs[0].End(), e)
  }

  function EndOf(rs: seq<Region>, s: int): int {
    if rs == [] then s else rs[|rs| - 1].End()
  }

  lemma {:induction false} TilesConcat(a: seq<Region>, b: seq<Region>, s: int, m: int, e: int)
    requires Tiles(a, s, m) && Tiles(b, m, e)
    ensures Tiles(a + b, s, e)
  {
    if a == [] {
      assert a + b == b;
    } else {
      TilesConcat(a[1..], b, a[0].End(), m, e);
      assert (a + b)[1..] == a[1..] + b;
    }
  }

  lemma {:induction false} TilesSplit(a: seq<Region>, b: seq<Region>, s: int, e: int)
    requires Tiles(a + b, s, e)
    ensures Tiles(a, s, EndOf(a, s)) && Tiles(b, EndOf(a, s), e)
  {
    if a == [] {
      assert a + b == b;
    } else {
      assert (a + b)[1..] == a[1..] + b;
      TilesSplit(a[1..], b, a[0].End(), e);
      assert EndOf(a, s) == EndOf(a[1..], a[0].End());
    }
  }

  /** The i-th region lies in [s, e], between the regions before it and those after it. */
  lemma TilesAt(rs: seq<Region>, s: int, e: int, i: nat)
    requires Tiles(rs, s, e) && i < |rs|
    ensures Tiles(rs[..i], s, rs[i].start) && Tiles(rs[i + 1..], rs[i].End(), e)
    ensures OVERHEAD <= rs[i].size
    ensures s <= rs[i].start && rs[i].End() <= e
  {
    assert rs == rs[..i] + rs[i..];
    TilesSplit(rs[..i], rs[i..], s, e);
    TilesExtent(rs[..i], s, rs[i].start);
    TilesExtent(rs[i + 1..], rs[i].End(), e);
  }

  lemma {:induction false} TilesExtent(rs: seq<Region>, s: int, e: int)
    requires Tiles(rs, s, e)
    ensures s <= e && e == EndOf(rs, s)
    ensures e - s >= OVERHEAD * |rs|
  {
    if rs != [] {
      TilesExtent(rs[1..], rs[0].End(), e);
    }
  }

  /** Regions do not overlap: an earlier one ends before a later one starts. */
  lemma TilesOrdered(rs: seq<Region>, s: int, e: int, i: nat, j: nat)
    requires Tiles(rs, s, e) && i < j < |rs|
    ensures rs[i].End() <= rs[j].start
    ensures j == i + 1 ==> rs[i].End() == rs[j].start
  {
    TilesAt(rs, s, e, j);
    TilesAt(rs[..j], s, rs[j].start, i);
    if j == i + 1 {
      assert rs[..j][i + 1..] == [];
    }
  }

  lemma LastRegion(rs: seq<Region>, s: int, e: int)
    requires Tiles(rs, s, e) && rs != []
    ensures rs[|rs| - 1].End() == e && OVERHEAD <= rs[|rs| - 1].size && s <= rs[|rs| - 1].start
  {
    TilesExtent(rs, s, e);
    TilesAt(rs, s, e, |rs| - 1);
  }

  /** Bytes held by holes, or by blocks. */
  function TotalSize(rs: seq<Region>, hole: bool): int {
    if rs == [] then 0
    else (if rs[0].hole == hole then rs[0].size else 0) + TotalSize(rs[1..], hole)
  }

  /** Conservation: no byte of the heap is lost or counted twice. */
  lemma {:induction false} Conservation(rs: seq<Region>, s: int, e: int)
    requires Tiles(rs, s, e)
    ensures TotalSize(rs, true) + TotalSize(rs, false) == e - s
  {
    if rs != [] {
      Conservation(rs[1..], rs[0].End(), e);
    }
  }

  // ---- Finding regions, and the index of holes ----------------------------------------------------------------

  /** Position of the region that starts at address a, |rs| if there is none. */
  function Where(rs: seq<Region>, a: int): (i: nat)
    ensures i <= |rs|
    ensures i < |rs| ==> rs[i].start == a
  {
    if rs == [] then 0
    else if rs[0].start == a then 0
    else 1 + Where(rs[1..], a)
  }

  lemma {:induction false} WhereIs(rs: seq<Region>, s: int, e: int, i: nat)
    requires Tiles(rs, s, e) && i < |rs|
    ensures Where(rs, rs[i].start) == i
  {
    if 0 < i {
      TilesOrdered(rs, s, e, 0, i);
      WhereIs(rs[1..], rs[0].End(), e, i - 1);
    }
  }

  /** The size field of the header at address a. */
  function SizeAt(rs: seq<Region>, a: int): int {
    if Where(rs, a) < |rs| then rs[Where(rs, a)].size else 0
  }

  /** header_t_less_than. */
  function Smaller(rs: seq<Region>): (int, int) -> bool {
    (a, b) => SizeAt(rs, a) < SizeAt(rs, b)
  }

  function HoleStarts(rs: seq<Region>): seq<int> {
    if rs == [] then []
    else (if rs[0].hole then [rs[0].start] else []) + HoleStarts(rs[1..])
  }

  lemma {:induction false} HoleStartsConcat(a: seq<Region>, b: seq<Region>)
    ensures HoleStarts(a + b) == HoleStarts(a) + HoleStarts(b)
  {
    if a == [] {
      assert a + b == b;
    } else {
      assert (a + b)[1..] == a[1..] + b;
      HoleStartsConcat(a[1..], b);
      var first := if a[0].hole then [a[0].start] else [];
      assert first + (HoleStarts(a[1..]) + HoleStarts(b)) == first + HoleStarts(a[1..]) + HoleStarts(b);
    }
  }

  lemma {:induction false} HoleIsStart(rs: seq<Region>, i: nat)
    requires i < |rs| && rs[i].hole
    ensures rs[i].start in HoleStarts(rs)
  {
    if 0 < i {
      HoleIsStart(rs[1..], i - 1);
    }
  }

  lemma {:induction false} StartIsHole(rs: seq<Region>, s: int, e: int, a: int)
    requires Tiles(rs, s, e) && a in HoleStarts(rs)
    ensures Where(rs, a) < |rs| && rs[Where(rs, a)].hole
  {
    if rs != [] && rs[0].start != a {
      StartIsHole(rs[1..], rs[0].End(), e, a);
    } else if rs != [] && !rs[0].hole {
      HoleStartsBound(rs[1..], rs[0].End(), e);
    }
  }

  /** Hole addresses strictly increase along the regions. */
  lemma {:induction false} HoleStartsBound(rs: seq<Region>, s: int, e: int)
    requires Tiles(rs, s, e)
    ensures forall k :: 0 <= k < |HoleStarts(rs)| ==> s <= HoleStarts(rs)[k] < e
    ensures forall i, j :: 0 <= i < j < |HoleStarts(rs)| ==> HoleStarts(rs)[i] < HoleStarts(rs)[j]
  {
    if rs != [] {
      TilesExtent(rs[1..], rs[0].End(), e);
      HoleStartsBound(rs[1..], rs[0].End(), e);
    }
  }

  ghost predicate NoAdjacentHoles(rs: seq<Region>) {
    2 <= |rs| ==> !(rs[0].hole && rs[1].hole) && NoAdjacentHoles(rs[1..])
  }

  lemma {:induction false} NotAdjacent(rs: seq<Region>, i: nat)
    requires NoAdjacentHoles(rs) && i + 1 < |rs|
    ensures !(rs[i].hole && rs[i + 1].hole)
  {
    if 0 < i {
      NotAdjacent(rs[1..], i - 1);
    }
  }

  lemma {:induction false} NoAdjacentConcat(a: seq<Region>, b: seq<Region>)
    ensures NoAdjacentHoles(a + b) <==>
      NoAdjacentHoles(a) && NoAdjacentHoles(b) && (a != [] && b != [] ==> !(a[|a| - 1].hole && b[0].hole))
  {
    if a == [] {
      assert a + b == b;
    } else {
      assert (a + b)[1..] == a[1..] + b;
      NoAdjacentConcat(a[1..], b);
    }
  }

  /** The index holds the address of every hole. */
  ghost predicate Lists(idx: seq<int>, rs: seq<Region>) {
    multiset(idx) == multiset(HoleStarts(rs))
  }

  /** The heap is well formed. */
  ghost predicate Wf(st: State) {
    && PAGE <= st.start && st.start % PAGE == 0 && st.end % PAGE == 0
    && HEAP_MIN_SIZE <= st.Length() && st.end <= st.max
    && Tiles(st.regions, st.start, st.end)
    && NoAdjacentHoles(st.regions)
    && Lists(st.index, st.regions)
    && 2 <= st.capacity && |st.index| < st.capacity
  }

  lemma InIndex(idx: seq<int>, rs: seq<Region>, i: nat)
    requires Lists(idx, rs) && i < |rs| && rs[i].hole
    ensures rs[i].start in idx
  {
    HoleIsStart(rs, i);
    assert rs[i].start in multiset(idx);
  }

  /** An index entry leads to its hole. */
  lemma IndexedHole(idx: seq<int>, rs: seq<Region>, s: int, e: int, a: int)
    requires Lists(idx, rs) && Tiles(rs, s, e) && a in idx
    ensures Where(rs, a) < |rs| && rs[Where(rs, a)].hole
  {
    assert a in multiset(HoleStarts(rs));
    StartIsHole(rs, s, e, a);
  }

  /** The index lists the address of every hole exactly once, and nothing else. */
  lemma IndexExact(st: State)
    requires Wf(st)
    ensures forall a :: a in st.index <==>
      exists i :: 0 <= i < |st.regions| && st.regions[i] == Region(a, st.regions[i].size, true)
    ensures forall i, j :: 0 <= i < j < |st.index| ==> st.index[i] != st.index[j]
  {
    var rs := st.regions;
    forall a ensures a in st.index <==> exists i :: 0 <= i < |rs| && rs[i] == Region(a, rs[i].size, true) {
      if a in st.index {
        IndexedHole(st.index, rs, st.start, st.end, a);
        assert rs[Where(rs, a)] == Region(a, rs[Where(rs, a)].size, true);
      }
      if i :| 0 <= i < |rs| && rs[i] == Region(a, rs[i].size, true) {
        InIndex(st.index, rs, i);
      }
    }
    HoleStartsBound(rs, st.start, st.end);
    NoDuplicates(st.index, HoleStarts(rs));
  }

  lemma NoDuplicates(s: seq<int>, t: seq<int>)
    requires multiset(s) == multiset(t)
    requires forall i, j :: 0 <= i < j < |t| ==> t[i] < t[j]
    ensures forall i, j :: 0 <= i < j < |s| ==> s[i] != s[j]
  {
    forall i, j | 0 <= i < j < |s| ensures s[i] != s[j] {
      if s[i] == s[j] {
        assert s == s[..i] + [s[i]] + s[i + 1..j] + [s[j]] + s[j + 1..];
        assert multiset(s)[s[i]] >= 2;
        AtMostOnce(t, s[i]);
      }
    }
  }

  lemma {:induction false} AtMostOnce(t: seq<int>, a: int)
    requires forall i, j :: 0 <= i < j < |t| ==> t[i] < t[j]
    ensures multiset(t)[a] <= 1
  {
    if t != [] {
      assert t == [t[0]] + t[1..];
      AtMostOnce(t[1..], a);
      if t[0] == a {
        assert a !in t[1..];
      }
    }
  }
}
