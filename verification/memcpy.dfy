/** memcpy with its mixed 8, 4, 2 and 1 byte steps (kernel/libc/memory.c). */
module Memcpys {
  import opened Bytes

  /** Memory m with the n bytes at src also at dest, as they were before. */
  function Copied(m: seq<byte>, dest: nat, src: nat, n: nat): (r: seq<byte>)
    requires dest + n <= |m| && src + n <= |m|
    ensures |r| == |m|
  {
    seq(|m|, (k: nat) requires k < |m| => if dest <= k < dest + n then m[src + (k - dest)] else m[k])
  }

  /** The width of the next step when n bytes are left. */
  function Width(n: nat): (w: nat)
    requires 0 < n
    ensures 0 < w <= n
  {
    if n % 8 == 0 then 8 else if n % 4 == 0 then 4 else if n % 2 == 0 then 2 else 1
  }

  /** Copying chunk by chunk, upwards. */
  function ChunkCopy(m: seq<byte>, dest: nat, src: nat, n: nat): (r: seq<byte>)
    requires dest + n <= |m| && src + n <= |m|
    ensures |r| == |m|
    decreases n
  {
    if n == 0 then m
    else
      var w := Width(n);
      ChunkCopy(Copied(m, dest, src, w), dest + w, src + w, n - w)
  }

  /** Copying byte by byte, upwards. */
  function ByteCopy(m: seq<byte>, dest: nat, src: nat, n: nat): (r: seq<byte>)
    requires dest + n <= |m| && src + n <= |m|
    ensures |r| == |m|
    decreases n
  {
    if n == 0 then m else ByteCopy(m[dest := m[src]], dest + 1, src + 1, n - 1)
  }

  function Steps(n: nat): nat {
    if n == 0 then 0 else 1 + Steps(n - Width(n))
  }

  /** The ranges are disjoint, or the destination is not above the source. */
  predicate SafeOverlap(dest: nat, src: nat, n: nat) {
    dest <= src || src + n <= dest
  }

  lemma SplitCopy(m: seq<byte>, dest: nat, src: nat, n: nat, w: nat)
    requires dest + n <= |m| && src + n <= |m| && w <= n && SafeOverlap(dest, src, n)
    ensures Copied(Copied(m, dest, src, w), dest + w, src + w, n - w) == Copied(m, dest, src, n)
  {
    var m1 := Copied(m, dest, src, w);
    var a, b := Copied(m1, dest + w, src + w, n - w), Copied(m, dest, src, n);
    forall k | 0 <= k < |m| ensures a[k] == b[k] {
      if dest + w <= k < dest + n {
        assert a[k] == m1[src + w + (k - dest - w)];
      }
    }
  }

  /** In chunks or byte by byte, the source bytes arrive as they were, unless the destination starts inside the
      source. */
  lemma {:induction false} ChunkCopyRight(m: seq<byte>, dest: nat, src: nat, n: nat)
    requires dest + n <= |m| && src + n <= |m| && SafeOverlap(dest, src, n)
    ensures ChunkCopy(m, dest, src, n) == Copied(m, dest, src, n)
    decreases n
  {
    hide Width, Copied;
    if n == 0 {
      NothingCopied(m, dest, src);
    } else {
      var w := Width(n);
      ChunkCopyRight(Copied(m, dest, src, w), dest + w, src + w, n - w);
      SplitCopy(m, dest, src, n, w);
    }
  }

  lemma ByteCopied(m: seq<byte>, dest: nat, src: nat)
    requires dest < |m| && src < |m|
    ensures Copied(m, dest, src, 1) == m[dest := m[src]]
  {
  }

  lemma NothingCopied(m: seq<byte>, dest: nat, src: nat)
    requires dest <= |m| && src <= |m|
    ensures Copied(m, dest, src, 0) == m
  {
  }

  lemma {:induction false} ByteCopyRight(m: seq<byte>, dest: nat, src: nat, n: nat)
    requires dest + n <= |m| && src + n <= |m| && SafeOverlap(dest, src, n)
    ensures ByteCopy(m, dest, src, n) == Copied(m, dest, src, n)
    decreases n
  {
    hide Copied;
    if n == 0 {
      NothingCopied(m, dest, src);
    } else {
      var m1 := Copied(m, dest, src, 1);
      ByteCopied(m, dest, src);
      ByteCopyRight(m1, dest + 1, src + 1, n - 1);
      SplitCopy(m, dest, src, n, 1);
    }
  }

  /** The destination does not start inside the source, or the whole copy is at most one load and one store. */
  predicate CopiesRight(dest: nat, src: nat, n: nat) {
    SafeOverlap(dest, src, n) || n == 0 || Width(n) == n
  }

  /** Memory of n bytes that are all zero. */
  function Zeros(n: nat): (m: seq<byte>)
    ensures |m| == n
  {
    seq(n, _ => 0)
  }

  lemma ZerosStay(l: nat, dest: nat, src: nat, w: nat)
    requires dest + w <= l && src + w <= l
    ensures Copied(Zeros(l), dest, src, w) == Zeros(l)
  {
  }

  lemma {:induction false} ZerosCopied(l: nat, dest: nat, src: nat, n: nat)
    requires dest + n <= l && src + n <= l
    ensures ChunkCopy(Zeros(l), dest, src, n) == Zeros(l)
    decreases n
  {
    hide Width, Copied, Zeros;
    if n != 0 {
      var w := Width(n);
      ZerosStay(l, dest, src, w);
      ZerosCopied(l, dest + w, src + w, n - w);
    }
  }

  lemma FirstChunkZeros(l: nat, dest: nat, src: nat, w: nat, at: nat)
    requires dest + w <= l && src + w <= l && dest <= at < dest + w && src + w <= at
    ensures Copied(Zeros(l)[at := 1], dest, src, w) == Zeros(l)
  {
  }

  /** The first chunk lands on a byte that is still to be copied, before it is read. */
  lemma ByteLost(l: nat, dest: nat, src: nat, n: nat) returns (m: seq<byte>)
    requires dest + n <= l && src + n <= l && 0 < n && !SafeOverlap(dest, src, n) && Width(n) < n
    ensures |m| == l && ChunkCopy(m, dest, src, n) != Copied(m, dest, src, n)
  {
    var w, d := Width(n), dest - src;
    var x := if w < d then d else w;
    m := Zeros(l)[src + x := 1];
    FirstChunkZeros(l, dest, src, w, src + x);
    ZerosCopied(l, dest + w, src + w, n - w);
    assert Copied(m, dest, src, n)[dest + x] == 1;
  }

  lemma OneChunk(m: seq<byte>, dest: nat, src: nat, n: nat)
    requires dest + n <= |m| && src + n <= |m| && (n == 0 || Width(n) == n)
    ensures ChunkCopy(m, dest, src, n) == Copied(m, dest, src, n)
  {
    if n == 0 {
      assert Copied(m, dest, src, 0) == m;
    } else {
      assert ChunkCopy(Copied(m, dest, src, n), dest + n, src + n, 0) == Copied(m, dest, src, n);
    }
  }

  /** The exact condition: the chunked copy is right for every content if and only if CopiesRight holds. */
  lemma ChunkCopyExactly(l: nat, dest: nat, src: nat, n: nat)
    requires dest + n <= l && src + n <= l
    ensures (forall m: seq<byte> :: |m| == l ==> ChunkCopy(m, dest, src, n) == Copied(m, dest, src, n))
      <==> CopiesRight(dest, src, n)
  {
    if CopiesRight(dest, src, n) {
      forall m: seq<byte> | |m| == l ensures ChunkCopy(m, dest, src, n) == Copied(m, dest, src, n) {
        if SafeOverlap(dest, src, n) {
          ChunkCopyRight(m, dest, src, n);
        } else {
          OneChunk(m, dest, src, n);
        }
      }
    } else {
      var m := ByteLost(l, dest, src, n);
    }
  }

  /** A destination just above the source: three bytes already come out wrong. */
  lemma OverlapWrong()
    ensures ChunkCopy([1, 2, 3, 4], 1, 0, 3) == [1, 1, 1, 3]
    ensures Copied([1, 2, 3, 4], 1, 0, 3) == [1, 1, 2, 3]
  {
    var m: seq<byte> := [1, 2, 3, 4];
    assert Copied(m, 1, 0, 1) == [1, 1, 3, 4];
    assert Copied([1, 1, 3, 4], 2, 1, 2) == [1, 1, 1, 3];
    assert ChunkCopy([1, 1, 1, 3], 4, 3, 0) == [1, 1, 1, 3];
    assert Width(3) == 1 && Width(2) == 2;
    assert ChunkCopy([1, 1, 3, 4], 2, 1, 2) == ChunkCopy([1, 1, 1, 3], 4, 3, 0);
  }

  lemma Mod8(n: nat, q: nat, r: nat)
    requires n == 8 * q + r && r < 8
    ensures n % 8 == r
  {
  }

  lemma Mod4(n: nat, q: nat, r: nat)
    requires n == 4 * q + r && r < 4
    ensures n % 4 == r
  {
  }

  lemma Mod2(n: nat, q: nat, r: nat)
    requires n == 2 * q + r && r < 2
    ensures n % 2 == r
  {
  }

  /** The width depends on the number of bytes left modulo 8 only. */
  lemma WidthOfRest(q: nat, r: nat)
    requires r < 8 && 0 < 8 * q + r
    ensures Width(8 * q + r) == if r == 0 then 8 else if r == 4 then 4 else if r == 2 || r == 6 then 2 else 1
  {
    var n := 8 * q + r;
    var d := if r >= 4 then 1 else 0;
    var e := if r - 4 * d >= 2 then 1 else 0;
    Mod8(n, q, r);
    Mod4(n, 2 * q + d, r - 4 * d);
    Mod2(n, 4 * q + 2 * d + e, r - 4 * d - 2 * e);
  }

  /** Set bits of a number below 8. */
  function Bits(r: nat): nat
    requires r < 8
  {
    (if r >= 4 then 1 else 0) + (if r == 2 || r == 3 || r == 6 || r == 7 then 1 else 0) + (if r % 2 == 1 then 1 else 0)
  }

  lemma {:induction false} StepsOf(q: nat, r: nat)
    requires r < 8
    ensures Steps(8 * q + r) == q + Bits(r)
    decreases q, r
  {
    if 0 < 8 * q + r {
      WidthOfRest(q, r);
      var w := Width(8 * q + r);
      if r == 0 {
        StepsOf(q - 1, 0);
        assert 8 * q - 8 == 8 * (q - 1);
      } else {
        StepsOf(q, r - w);
        assert 8 * q + r - w == 8 * q + (r - w);
      }
    }
  }

  /** One step for each full 8 bytes and one for each set bit of the rest. */
  lemma StepCount(n: nat)
    ensures Steps(n) == n / 8 + Bits(n % 8)
  {
    StepsOf(n / 8, n % 8);
  }

  /** A load and a store of w bytes. */
  method CopyChunk(m: array<byte>, dest: nat, src: nat, w: nat)
    requires dest + w <= m.Length && src + w <= m.Length
    modifies m
    ensures m[..] == Copied(old(m[..]), dest, src, w)
  {
    var chunk := m[src..src + w];
    forall k | 0 <= k < w {
      m[dest + k] := chunk[k];
    }
    assert m[..] == Copied(old(m[..]), dest, src, w);
  }

  lemma ChunkStep(m: seq<byte>, dest: nat, src: nat, n: nat)
    requires 0 < n && dest + n <= |m| && src + n <= |m|
    ensures var w := Width(n);
      && ChunkCopy(m, dest, src, n) == ChunkCopy(Copied(m, dest, src, w), dest + w, src + w, n - w)
      && Steps(n) == 1 + Steps(n - w)
  {
  }

  /** The widest step that the number of bytes left allows. */
  method CopyStep(m: array<byte>, dest: nat, src: nat, sz: nat) returns (w: nat)
    requires 0 < sz && dest + sz <= m.Length && src + sz <= m.Length
    modifies m
    ensures 0 < w <= sz && Steps(sz) == 1 + Steps(sz - w)
    ensures ChunkCopy(old(m[..]), dest, src, sz) == ChunkCopy(m[..], dest + w, src + w, sz - w)
  {
    ChunkStep(m[..], dest, src, sz);
    if sz % 8 == 0 {
      w := 8;
    } else if sz % 4 == 0 {
      w := 4;
    } else if sz % 2 == 0 {
      w := 2;
    } else {
      w := 1;
    }
    assert w == Width(sz);
    CopyChunk(m, dest, src, w);
  }

  lemma NothingLeft(m: seq<byte>, dest: nat, src: nat)
    requires dest <= |m| && src <= |m|
    ensures ChunkCopy(m, dest, src, 0) == m && Steps(0) == 0
  {
  }

  lemma CopyOutcome(m: seq<byte>, dest: nat, src: nat, n: nat)
    requires dest + n <= |m| && src + n <= |m|
    ensures CopiesRight(dest, src, n) ==> ChunkCopy(m, dest, src, n) == Copied(m, dest, src, n)
  {
    ChunkCopyExactly(|m|, dest, src, n);
  }

  /** The number of loads and stores comes out as a second result. */
  method Memcpy(m: array<byte>, dest: nat, src: nat, n: nat) returns (steps: nat)
    requires dest + n <= m.Length && src + n <= m.Length
    modifies m
    ensures m[..] == ChunkCopy(old(m[..]), dest, src, n)
    ensures CopiesRight(dest, src, n) ==> m[..] == Copied(old(m[..]), dest, src, n)
    ensures steps == Steps(n)
  {
    hide Copied, Width, CopiesRight, ChunkCopy, Steps;
    NothingLeft(m[..], dest, src);
    CopyOutcome(m[..], dest, src, n);
    steps := 0;
    if n <= 0 {
      return;
    }
    var sz := n;
    var i := 0;
    ghost var target, total := ChunkCopy(m[..], dest, src, n), Steps(n);
    ghost var d, s := dest, src;
    while i < n
      invariant i + sz == n && d == dest + i && s == src + i
      invariant ChunkCopy(m[..], d, s, sz) == target
      invariant steps + Steps(sz) == total
    {
      var w := CopyStep(m, dest + i, src + i, sz);
      d, s := d + w, s + w;
      sz := sz - w;
      i := i + (w - 1);
      i := i + 1;
      steps := steps + 1;
    }
    NothingLeft(m[..], d, s);
  }
}
