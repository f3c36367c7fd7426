/** The frame bitmap, and alloc_frame and free_frame on page entries (kernel/cpu/paging/paging.c). */
module Frames {

  const PAGE_SIZE: nat := 0x1000
  const ENTRIES: nat := 1024
  const PAGE_NUMBERS: nat := 0x10_0000

  /** The table for page n is one of these. */
  predicate HasTable(tables: set<nat>, n: nat) {
    n / ENTRIES in tables
  }

  datatype Page = Page(present: bool, rw: bool, user: bool, accessed: bool, dirty: bool, frame: nat)

  const EMPTY_PAGE: Page := Page(false, false, false, false, false, 0)

  datatype Option<T> = None | Some(value: T)

  // ---- Counting frames ----------------------------------------------------------------------------------------

  /** How many of the first `limit` frames are not used. */
  ghost function FreeFrames(used: set<nat>, limit: nat): nat {
    |set f: nat | f < limit && f !in used|
  }

  lemma NoFreeFrame(used: set<nat>, limit: nat)
    ensures FreeFrames(used, limit) == 0 <==> forall f: nat :: f < limit ==> f in used
  {
    var free := set f: nat | f < limit && f !in used;
    if f: nat :| f < limit && f !in used { assert f in free; }
    if free != {} { var f :| f in free; }
  }

  lemma OneFrameLess(used: set<nat>, limit: nat, f: nat)
    requires f < limit && f !in used
    ensures FreeFrames(used + {f}, limit) == FreeFrames(used, limit) - 1
  {
    var free := set g: nat | g < limit && g !in used;
    assert (set g: nat | g < limit && g !in used + {f}) == free - {f};
  }

  // ---- Bits of a word -----------------------------------------------------------------------------------------

  function Mask(j: nat): bv32
    requires j < 32
  {
    (1 as bv32) << j
  }

  predicate Bit(w: bv32, j: nat)
    requires j < 32
  {
    w & Mask(j) != 0
  }

  lemma OrAnd(w: bv32, a: bv32, b: bv32)
    ensures (w | a) & b == (w & b) | (a & b)
  {
  }

  lemma AndNotApart(w: bv32, a: bv32, b: bv32)
    requires a & b == 0
    ensures (w & !a) & b == w & b
  {
  }

  lemma AndNotSame(w: bv32, a: bv32)
    ensures (w & !a) & a == 0
  {
  }

  lemma MasksApart(i: nat, j: nat)
    requires i < 32 && j < 32
    ensures Mask(i) != 0
    ensures i != j ==> Mask(i) & Mask(j) == 0
  {
  }

  lemma BitSet(w: bv32, i: nat, j: nat)
    requires i < 32 && j < 32
    ensures Bit(w | Mask(i), j) <==> i == j || Bit(w, j)
  {
    OrAnd(w, Mask(i), Mask(j));
    MasksApart(i, j);
  }

  lemma BitCleared(w: bv32, i: nat)
    requires i < 32
    ensures !Bit(w & !Mask(i), i)
  {
    AndNotSame(w, Mask(i));
  }

  lemma BitKept(w: bv32, i: nat, j: nat)
    requires i < 32 && j < 32 && i != j
    ensures Bit(w & !Mask(i), j) <==> Bit(w, j)
  {
    MasksApart(i, j);
    AndNotApart(w, Mask(i), Mask(j));
  }

  lemma BitOfFull(j: nat)
    requires j < 32
    ensures Bit(0xFFFF_FFFF, j)
  {
  }

  // ---- The bitmap ---------------------------------------------------------------------------------------------

  class FrameBitmap {
    const words: array<bv32>

    /** Number of frames the bitmap covers. */
    function Limit(): nat {
      32 * words.Length
    }

    ghost predicate IsUsed(f: nat)
      reads words
    {
      f < Limit() && Bit(words[f / 32], f % 32)
    }

    /** The frames whose bit is set. */
    ghost function Used(): set<nat>
      reads words
    {
      set f: nat | f < Limit() && IsUsed(f)
    }

    ghost predicate Full()
      reads words
    {
      forall f: nat :: f < Limit() ==> f in Used()
    }

    constructor (nframes: nat)
      ensures fresh(words) && words.Length == nframes / 32 && Used() == {}
    {
      words := new bv32[nframes / 32](_ => 0);
    }

    method SetFrame(frameAddr: nat)
      requires frameAddr / PAGE_SIZE < Limit()
      modifies words
      ensures Used() == old(Used()) + {frameAddr / PAGE_SIZE}
    {
      hide Bit, Mask;
      var frame := frameAddr / PAGE_SIZE;
      var idx, off := frame / 32, frame % 32;
      var w := words[idx];
      words[idx] := w | Mask(off);
      forall f: nat | f < Limit() ensures IsUsed(f) <==> old(IsUsed(f)) || f == frame {
        if f / 32 == idx {
          BitSet(w, off, f % 32);
        }
      }
    }

    method ClearFrame(frameAddr: nat)
      requires frameAddr / PAGE_SIZE < Limit()
      modifies words
      ensures Used() == old(Used()) - {frameAddr / PAGE_SIZE}
    {
      hide Bit, Mask;
      var frame := frameAddr / PAGE_SIZE;
      var idx, off := frame / 32, frame % 32;
      var w := words[idx];
      words[idx] := w & !Mask(off);
      forall f: nat | f < Limit() ensures IsUsed(f) <==> old(IsUsed(f)) && f != frame {
        if f == frame {
          BitCleared(w, off);
        } else if f / 32 == idx {
          BitKept(w, off, f % 32);
        }
      }
    }

    method TestFrame(frameAddr: nat) returns (r: bv32)
      requires frameAddr / PAGE_SIZE < Limit()
      ensures r != 0 <==> frameAddr / PAGE_SIZE in Used()
    {
      var frame := frameAddr / PAGE_SIZE;
      r := words[frame / 32] & Mask(frame % 32);
      assert IsUsed(frame) <==> r != 0;
    }

    /** The least free frame, -1 when there is none. */
    method FirstFrame() returns (r: int)
      ensures r == -1 || 0 <= r < Limit()
      ensures r == -1 <==> Full()
      ensures r != -1 ==> r !in Used() && forall f: nat :: f < r ==> f in Used()
    {
      var i := 0;
      while i < words.Length
        invariant i <= words.Length
        invariant forall f: nat :: f < 32 * i ==> IsUsed(f)
      {
        if words[i] != 0xFFFF_FFFF {
          var j := 0;
          while j < 32
            invariant j <= 32
            invariant forall f: nat :: f < 32 * i + j ==> IsUsed(f)
          {
            assert (32 * i + j) / 32 == i && (32 * i + j) % 32 == j;
            if words[i] & Mask(j) == 0 {
              assert !IsUsed(32 * i + j) && 32 * i + j !in Used();
              return i * 4 * 8 + j;
            }
            j := j + 1;
          }
        } else {
          forall f: nat | f < 32 * (i + 1) ensures IsUsed(f) {
            if 32 * i <= f { BitOfFull(f % 32); }
          }
        }
        i := i + 1;
      }
      return -1;
    }

    /** An entry that already has a frame is left alone. Running out of frames halts the machine: None. */
    method AllocFrame(page: Page, isKernel: bool, isWriteable: bool) returns (r: Option<Page>)
      modifies words
      ensures page.frame != 0 ==> r == Some(page) && Used() == old(Used())
      ensures page.frame == 0 && r.Some? ==>
        && r.value == page.(present := true, rw := isWriteable, user := !isKernel, frame := r.value.frame)
        && r.value.frame < Limit() && r.value.frame !in old(Used())
        && (forall f: nat :: f < r.value.frame ==> f in old(Used()))
        && Used() == old(Used()) + {r.value.frame}
      ensures r == None <==> page.frame == 0 && old(Full())
      ensures r == None ==> Used() == old(Used())
    {
      if page.frame != 0 {
        return Some(page);
      }
      var idx := FirstFrame();
      assert Used() == old(Used());
      if idx == -1 {
        return None;
      }
      assert idx * PAGE_SIZE / PAGE_SIZE == idx;
      SetFrame(idx * PAGE_SIZE);
      return Some(page.(present := true, rw := isWriteable, user := !isKernel, frame := idx));
    }

    /** free_frame as written: it hands the frame number to clear_frame, which expects an address. */
    method FreeFrameAsWritten(page: Page) returns (r: Page)
      requires page.frame < Limit()
      modifies words
      ensures r == page.(frame := 0)
      ensures Used() == if page.frame == 0 then old(Used()) else old(Used()) - {page.frame / PAGE_SIZE}
    {
      if page.frame == 0 {
        return page;
      }
      assert page.frame / PAGE_SIZE <= page.frame;
      ClearFrame(page.frame);
      return page.(frame := 0);
    }

    /** free_frame with the address of the frame: the repaired form. */
    method FreeFrame(page: Page) returns (r: Page)
      requires page.frame < Limit()
      modifies words
      ensures r == page.(frame := 0)
      ensures Used() == if page.frame == 0 then old(Used()) else old(Used()) - {page.frame}
    {
      if page.frame == 0 {
        return page;
      }
      assert page.frame * PAGE_SIZE / PAGE_SIZE == page.frame;
      ClearFrame(page.frame * PAGE_SIZE);
      return page.(frame := 0);
    }
  }
}
