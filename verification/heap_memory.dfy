/** Headers and footers in memory, and what they say about the regions (kernel/libc/memory.h). */
module HeapMemory {
  import opened Bytes
  import opened HeapModel

  const HEAP_MAGIC: nat := 0x1238_90AB

  /** Header layout: magic at 0, is_hole at 4, size at 8. */
  ghost predicate HeaderTag(m: seq<byte>, r: Region) {
    && 0 <= r.start && r.start + HEADER <= |m|
    && LoadWord(m, r.start) == HEAP_MAGIC
    && m[r.start + 4] == (if r.hole then 1 else 0)
    && LoadWord(m, r.start + 8) == r.size
  }

  /** Footer layout: magic at 0, header address at 4. */
  ghost predicate FooterTag(m: seq<byte>, r: Region) {
    && 0 <= r.End() - FOOTER && r.End() <= |m| && 0 <= r.start
    && LoadWord(m, r.End() - FOOTER) == HEAP_MAGIC
    && LoadWord(m, r.End() - 4) == r.start
  }

  ghost predicate RegionTag(m: seq<byte>, r: Region) {
    HeaderTag(m, r) && FooterTag(m, r)
  }

  ghost predicate Tagged(m: seq<byte>, rs: seq<Region>) {
    rs == [] || (RegionTag(m, rs[0]) && Tagged(m, rs[1..]))
  }

  /** Every region carries both tags; only a heap that is one hole may still lack the footer. */
  ghost predicate HeapTagged(m: seq<byte>, rs: seq<Region>) {
    Tagged(m, rs) || (|rs| == 1 && rs[0].hole && HeaderTag(m, rs[0]))
  }

  lemma {:induction false} TaggedConcat(m: seq<byte>, a: seq<Region>, b: seq<Region>)
    ensures Tagged(m, a + b) <==> Tagged(m, a) && Tagged(m, b)
  {
    if a == [] {
      assert a + b == b;
    } else {
      assert (a + b)[1..] == a[1..] + b;
      TaggedConcat(m, a[1..], b);
    }
  }

  lemma {:induction false} TaggedAt(m: seq<byte>, rs: seq<Region>, i: nat)
    requires Tagged(m, rs) && i < |rs|
    ensures RegionTag(m, rs[i])
  {
    if 0 < i {
      TaggedAt(m, rs[1..], i - 1);
    }
  }

  lemma TagFrame(m: seq<byte>, n: seq<byte>, r: Region)
    requires RegionTag(m, r) && Same(m, n, r.start, r.End()) && OVERHEAD <= r.size
    ensures RegionTag(n, r)
  {
  }

  /** Tags survive as long as the bytes under their regions do. */
  lemma {:induction false} TaggedFrame(m: seq<byte>, n: seq<byte>, rs: seq<Region>, s: int, e: int)
    requires Tagged(m, rs) && Tiles(rs, s, e) && Same(m, n, s, e)
    ensures Tagged(n, rs)
  {
    if rs != [] {
      TilesExtent(rs[1..], rs[0].End(), e);
      TagFrame(m, n, rs[0]);
      TaggedFrame(m, n, rs[1..], rs[0].End(), e);
    }
  }

  /** The size field that header_t_less_than reads. */
  function SizeField(m: seq<byte>, a: int): int {
    if 0 <= a && a + HEADER <= |m| then LoadWord(m, a + 8) else 0
  }

  function LessInMemory(m: seq<byte>): (int, int) -> bool {
    (a, b) => SizeField(m, a) < SizeField(m, b)
  }

  lemma SizeFieldRight(m: seq<byte>, rs: seq<Region>, a: int)
    requires HeapTagged(m, rs) && Where(rs, a) < |rs|
    ensures SizeField(m, a) == SizeAt(rs, a)
  {
    if Tagged(m, rs) {
      TaggedAt(m, rs, Where(rs, a));
    }
  }

  /** The regions found by walking header sizes from s up to e. */
  ghost function Walk(m: seq<byte>, s: int, e: int): seq<Region>
    decreases e - s
  {
    if s < 0 || e <= s || |m| < s + HEADER || LoadWord(m, s + 8) == 0 then []
    else [Region(s, LoadWord(m, s + 8), m[s + 4] == 1)] + Walk(m, s + LoadWord(m, s + 8), e)
  }

  /** The header sizes in memory determine the regions: the walk finds all of them and ends exactly on e. */
  lemma {:induction false} WalkFindsRegions(m: seq<byte>, rs: seq<Region>, s: int, e: int)
    requires HeapTagged(m, rs) && Tiles(rs, s, e)
    ensures Walk(m, s, e) == rs
  {
    if rs != [] {
      TilesExtent(rs[1..], rs[0].End(), e);
      assert HeaderTag(m, rs[0]);
      if |rs| == 1 {
        assert rs[1..] == [];
        assert Walk(m, e, e) == [];
        assert rs == [rs[0]];
      } else {
        WalkFindsRegions(m, rs[1..], rs[0].End(), e);
      }
    }
  }

  // ---- Writing tags -------------------------------------------------------------------------------------------

  method PutHeader(m: array<byte>, a: int, size: int, hole: bool)
    requires 0 <= a && a + HEADER <= m.Length && 0 <= size < WORD_LIMIT
    modifies m
    ensures HeaderTag(m[..], Region(a, size, hole))
    ensures OnlyWithin(old(m[..]), m[..], a, a + HEADER)
  {
    PutWord(m, a, HEAP_MAGIC);
    m[a + 4] := if hole then 1 else 0;
    PutWord(m, a + 8, size);
  }

  /** The footer goes into the last 8 bytes before end. */
  method PutFooter(m: array<byte>, a: int, end: int)
    requires 0 <= a && 0 <= end - FOOTER && end <= m.Length <= WORD_LIMIT && a < m.Length
    modifies m
    ensures LoadWord(m[..], end - FOOTER) == HEAP_MAGIC && LoadWord(m[..], end - 4) == a
    ensures OnlyWithin(old(m[..]), m[..], end - FOOTER, end)
  {
    PutWord(m, end - FOOTER, HEAP_MAGIC);
    PutWord(m, end - 4, a);
  }

  method PutRegion(m: array<byte>, a: int, size: int, hole: bool)
    requires 0 < a && OVERHEAD <= size && a + size <= m.Length <= WORD_LIMIT
    modifies m
    ensures RegionTag(m[..], Region(a, size, hole))
    ensures OnlyWithin(old(m[..]), m[..], a, a + size)
  {
    PutHeader(m, a, size, hole);
    PutFooter(m, a, a + size);
  }

  /** Changes only the size field of a header. */
  method PutSize(m: array<byte>, ghost r: Region, a: int, size: int)
    requires HeaderTag(m[..], r) && a == r.start && 0 <= size < WORD_LIMIT
    modifies m
    ensures HeaderTag(m[..], r.(size := size))
    ensures OnlyWithin(old(m[..]), m[..], a, a + HEADER)
  {
    PutWord(m, a + 8, size);
  }

  /** A header that already has its final size gets a footer at its new end. */
  method CloseRegion(m: array<byte>, ghost r: Region, a: int, end: int)
    requires HeaderTag(m[..], r) && OVERHEAD <= r.size && r.End() <= m.Length <= WORD_LIMIT
    requires a == r.start && end == r.End()
    modifies m
    ensures RegionTag(m[..], r)
    ensures OnlyWithin(old(m[..]), m[..], end - FOOTER, end)
  {
    PutFooter(m, a, end);
  }

  /** A word that was not written to. */
  lemma WordStays(m: seq<byte>, n: seq<byte>, a: nat, lo: int, hi: int)
    requires OnlyWithin(m, n, lo, hi) && a + 4 <= |m| && (a + 4 <= lo || hi <= a)
    ensures LoadWord(n, a) == LoadWord(m, a)
  {
  }

  lemma HeaderStays(m: seq<byte>, n: seq<byte>, r: Region, lo: int, hi: int)
    requires OnlyWithin(m, n, lo, hi) && HeaderTag(m, r) && r.start + HEADER <= lo
    ensures HeaderTag(n, r)
  {
  }

  lemma FooterStays(m: seq<byte>, n: seq<byte>, r: Region, lo: int, hi: int)
    requires OnlyWithin(m, n, lo, hi) && FooterTag(m, r) && hi <= r.End() - FOOTER
    ensures FooterTag(n, r)
  {
  }

  /** The footer at end gets a new header address, then that header gets the joint size. */
  method JoinLeft(m: array<byte>, ghost l: Region, ghost r: Region, a: int, end: int, size: int) returns (total: int)
    requires RegionTag(m[..], l) && RegionTag(m[..], r) && l.hole
    requires a == l.start && l.End() == r.start && end == r.End() && size == r.size
    requires OVERHEAD <= l.size && OVERHEAD <= r.size
    requires 0 < a && end <= m.Length <= WORD_LIMIT
    modifies m
    ensures total == l.size + r.size
    ensures RegionTag(m[..], Region(a, total, true))
    ensures OnlyWithin(old(m[..]), m[..], a, end)
  {
    ghost var was := m[..];
    PutWord(m, end - 4, a);
    ghost var mid := m[..];
    HeaderStays(was, mid, l, end - 4, end);
    WordStays(was, mid, end - 8, end - 4, end);
    var own := GetWord(m, a + 8);
    total := own + size;
    PutSize(m, l, a, total);
    WordStays(mid, m[..], end - 8, a, a + HEADER);
    WordStays(mid, m[..], end - 4, a, a + HEADER);
  }

  /** The size field grows, and a footer goes to the new end. */
  method AddSize(m: array<byte>, ghost r: Region, a: int, growth: int)
    requires HeaderTag(m[..], r) && 0 < a == r.start && OVERHEAD <= r.size && 0 < growth
    requires r.End() + growth <= m.Length <= WORD_LIMIT
    modifies m
    ensures RegionTag(m[..], Region(r.start, r.size + growth, r.hole))
    ensures OnlyWithin(old(m[..]), m[..], r.start, r.End() + growth)
  {
    ghost var grown := Region(r.start, r.size + growth, r.hole);
    assert r.(size := r.size + growth) == grown;
    var size := GetWord(m, a + 8);
    PutSize(m, r, a, size + growth);
    CloseRegion(m, grown, a, a + size + growth);
  }
}
