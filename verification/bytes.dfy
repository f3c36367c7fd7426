/** Raw memory: bytes, little-endian 32-bit words, and the idea of a write that stays inside a range. */
module Bytes {

  type byte = x: int | 0 <= x < 0x100

  const WORD_LIMIT: nat := 0x1_0000_0000

  /** The 32-bit word stored at address a, least significant byte first. */
  function LoadWord(m: seq<byte>, a: nat): (v: nat)
    requires a + 4 <= |m|
    ensures v < WORD_LIMIT
  {
    (m[a] as int) + 0x100 * (m[a + 1] as int) + 0x1_0000 * (m[a + 2] as int) + 0x100_0000 * (m[a + 3] as int)
  }

  /** The four bytes of a word. */
  function WordBytes(v: nat): (bs: seq<byte>)
    requires v < WORD_LIMIT
    ensures |bs| == 4
    ensures LoadWord(bs, 0) == v
  {
    BytesAdd(v);
    [v % 0x100, v / 0x100 % 0x100, v / 0x1_0000 % 0x100, v / 0x100_0000]
  }

  lemma BytesAdd(v: nat)
    requires v < WORD_LIMIT
    ensures v / 0x100_0000 < 0x100
    ensures v == v % 0x100 + 0x100 * (v / 0x100 % 0x100) + 0x1_0000 * (v / 0x1_0000 % 0x100)
                 + 0x100_0000 * (v / 0x100_0000)
  {
    var w := v / 0x100;
    var x := w / 0x100;
    assert v / 0x1_0000 == x && v / 0x100_0000 == x / 0x100;
    assert x == x % 0x100 + 0x100 * (x / 0x100);
  }

  /** Memories m and n hold the same bytes on [lo, hi). */
  ghost predicate Same(m: seq<byte>, n: seq<byte>, lo: int, hi: int) {
    && |m| == |n|
    && forall k :: lo <= k < hi && 0 <= k < |m| ==> m[k] == n[k]
  }

  /** Going from m to n changed nothing outside [lo, hi). */
  ghost predicate OnlyWithin(m: seq<byte>, n: seq<byte>, lo: int, hi: int) {
    && |m| == |n|
    && forall k :: 0 <= k < |m| && !(lo <= k < hi) ==> m[k] == n[k]
  }

  method PutWord(m: array<byte>, a: nat, v: nat)
    requires a + 4 <= m.Length && v < WORD_LIMIT
    modifies m
    ensures LoadWord(m[..], a) == v
    ensures OnlyWithin(old(m[..]), m[..], a, a + 4)
  {
    var bs := WordBytes(v);
    m[a] := bs[0];
    m[a + 1] := bs[1];
    m[a + 2] := bs[2];
    m[a + 3] := bs[3];
  }

  method GetWord(m: array<byte>, a: nat) returns (v: nat)
    requires a + 4 <= m.Length
    ensures v == LoadWord(m[..], a)
  {
    v := (m[a] as int) + 0x100 * (m[a + 1] as int) + 0x1_0000 * (m[a + 2] as int) + 0x100_0000 * (m[a + 3] as int);
  }
}
