/** memset with its mixed 8, 4, 2 and 1 byte steps (kernel/libc/memory.c). */
module Memsets {
  import opened Bytes
  import opened Memcpys

  /** What memset is meant to do. */
  function Filled(m: seq<byte>, dest: nat, c: byte, n: nat): (r: seq<byte>)
    requires dest + n <= |m|
    ensures |r| == |m|
  {
    seq(|m|, (k: nat) requires k < |m| => if dest <= k < dest + n then c else m[k])
  }

  /** One store of w bytes: c is widened to the full width, so only its lowest byte holds c. */
  function Stored(m: seq<byte>, dest: nat, c: byte, w: nat): (r: seq<byte>)
    requires 0 < w && dest + w <= |m|
    ensures |r| == |m|
  {
    seq(|m|, (k: nat) requires k < |m| => if k == dest then c else if dest < k < dest + w then 0 else m[k])
  }

  function ChunkSet(m: seq<byte>, dest: nat, c: byte, n: nat): (r: seq<byte>)
    requires dest + n <= |m|
    ensures |r| == |m|
    decreases n
  {
    if n == 0 then m
    else
      var w := Width(n);
      ChunkSet(Stored(m, dest, c, w), dest + w, c, n - w)
  }

  lemma {:induction false} ChunkSetBefore(m: seq<byte>, dest: nat, c: byte, n: nat, k: nat)
    requires dest + n <= |m| && k < dest
    ensures ChunkSet(m, dest, c, n)[k] == m[k]
    decreases n
  {
    if n != 0 {
      var w := Width(n);
      ChunkSetBefore(Stored(m, dest, c, w), dest + w, c, n - w, k);
    }
  }

  lemma {:induction false} ChunkSetZero(m: seq<byte>, dest: nat, n: nat)
    requires dest + n <= |m|
    ensures ChunkSet(m, dest, 0, n) == Filled(m, dest, 0, n)
    decreases n
  {
    if n == 0 {
      assert Filled(m, dest, 0, 0) == m;
    } else {
      var w := Width(n);
      var m1 := Stored(m, dest, 0, w);
      ChunkSetZero(m1, dest + w, n - w);
      assert Filled(m1, dest + w, 0, n - w) == Filled(m, dest, 0, n);
    }
  }

  /** From two bytes on, some store is wider than a byte, and its second byte is zero. */
  lemma {:induction false} ChunkSetHole(m: seq<byte>, dest: nat, c: byte, n: nat) returns (k: nat)
    requires dest + n <= |m| && 2 <= n
    ensures dest < k < dest + n && ChunkSet(m, dest, c, n)[k] == 0
    decreases n
  {
    var w := Width(n);
    var m1 := Stored(m, dest, c, w);
    if w == 1 {
      assert n != 2;
      k := ChunkSetHole(m1, dest + 1, c, n - 1);
    } else {
      k := dest + 1;
      ChunkSetBefore(m1, dest + w, c, n - w, k);
    }
  }

  /** memset fills the range exactly when the byte is 0 or there is at most one byte to fill. */
  lemma ChunkSetRight(m: seq<byte>, dest: nat, c: byte, n: nat)
    requires dest + n <= |m|
    ensures ChunkSet(m, dest, c, n) == Filled(m, dest, c, n) <==> c == 0 || n <= 1
  {
    if c == 0 {
      ChunkSetZero(m, dest, n);
    } else if n == 0 {
      assert Filled(m, dest, c, 0) == m;
    } else if n == 1 {
      assert Width(1) == 1;
      assert ChunkSet(m, dest, c, 1) == Stored(m, dest, c, 1);
      assert Stored(m, dest, c, 1) == Filled(m, dest, c, 1);
    } else {
      var k := ChunkSetHole(m, dest, c, n);
      assert Filled(m, dest, c, n)[k] == c;
    }
  }

  method StoreChunk(m: array<byte>, dest: nat, c: byte, w: nat)
    requires 0 < w && dest + w <= m.Length
    modifies m
    ensures m[..] == Stored(old(m[..]), dest, c, w)
  {
    forall k | 0 <= k < w {
      m[dest + k] := if k == 0 then c else 0;
    }
    assert m[..] == Stored(old(m[..]), dest, c, w);
  }

  method SetStep(m: array<byte>, dest: nat, c: byte, sz: nat) returns (w: nat)
    requires 0 < sz && dest + sz <= m.Length
    modifies m
    ensures 0 < w <= sz
    ensures ChunkSet(old(m[..]), dest, c, sz) == ChunkSet(m[..], dest + w, c, sz - w)
  {
    if sz % 8 == 0 {
      w := 8;
    } else if sz % 4 == 0 {
      w := 4;
    } else if sz % 2 == 0 {
      w := 2;
    } else {
      w := 1;
    }
    assert w == Width(sz);
    StoreChunk(m, dest, c, w);
  }

  method Memset(m: array<byte>, dest: nat, c: byte, n: nat)
    requires dest + n <= m.Length
    modifies m
    ensures m[..] == ChunkSet(old(m[..]), dest, c, n)
    ensures c == 0 || n <= 1 ==> m[..] == Filled(old(m[..]), dest, c, n)
  {
    ChunkSetRight(m[..], dest, c, n);
    if n <= 0 {
      return;
    }
    var sz := n;
    var i := 0;
    ghost var target := ChunkSet(m[..], dest, c, n);
    ghost var d := dest;
    while i < n
      invariant i + sz == n && d == dest + i
      invariant ChunkSet(m[..], d, c, sz) == target
    {
      var w := SetStep(m, dest + i, c, sz);
      d := d + w;
      sz := sz - w;
      i := i + (w - 1);
      i := i + 1;
    }
    assert sz == 0;
  }
}
