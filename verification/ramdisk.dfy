/** The layout of the initial ramdisk, and packing it (tools/initrd_creator/init_rd_creator.c). */
module Ramdisk {
  import opened Bytes

  const MAGIC: byte := 0xBF
  const MAX_HEADERS: nat := 64
  const HEADER_SIZE: nat := 76
  const NAME_AT: nat := 1
  const NAME_SIZE: nat := 64
  const OFFSET_AT: nat := 68
  const LENGTH_AT: nat := 72
  const FIRST_OFFSET: nat := MAX_HEADERS * HEADER_SIZE + 4

  datatype File = File(name: seq<byte>, data: seq<byte>)

  /** A name fits its field with its terminator and does not contain one. */
  predicate GoodName(name: seq<byte>) {
    |name| < NAME_SIZE && forall k :: 0 <= k < |name| ==> name[k] != 0
  }

  /** Where the contents of file i start in the image. */
  function Offset(files: seq<File>, i: nat): (o: nat)
    requires i <= |files|
    ensures FIRST_OFFSET <= o
  {
    if i == 0 then FIRST_OFFSET else Offset(files, i - 1) + |files[i - 1].data|
  }

  lemma {:induction false} OffsetMonotone(files: seq<File>, i: nat, j: nat)
    requires i <= j <= |files|
    ensures Offset(files, i) <= Offset(files, j)
    ensures i < j ==> Offset(files, i) + |files[i].data| <= Offset(files, j)
    decreases j
  {
    if i < j {
      OffsetMonotone(files, i, j - 1);
    }
  }

  predicate Packable(files: seq<File>) {
    && |files| <= MAX_HEADERS && Offset(files, |files|) < WORD_LIMIT
    && forall i :: 0 <= i < |files| ==> GoodName(files[i].name)
  }

  ghost predicate StringAt(m: seq<byte>, a: nat, s: seq<byte>) {
    a + |s| < |m| && m[a..a + |s|] == s && m[a + |s|] == 0
  }

  /** The header at address a describes file f with its contents at the given offset. */
  ghost predicate HeaderIs(m: seq<byte>, a: nat, f: File, offset: nat) {
    && a + HEADER_SIZE <= |m| && m[a] == MAGIC && StringAt(m, a + NAME_AT, f.name)
    && LoadWord(m, a + OFFSET_AT) == offset && LoadWord(m, a + LENGTH_AT) == |f.data|
  }

  function HeaderAt(i: nat): nat {
    4 + HEADER_SIZE * i
  }

  /** Header i of the image at base describes file i, its offset shifted by delta. */
  ghost predicate Described(m: seq<byte>, base: nat, files: seq<File>, i: nat, delta: nat)
    requires i < |files|
  {
    HeaderIs(m, base + HeaderAt(i), files[i], Offset(files, i) + delta)
  }

  /** Headers [from, to) of the image at base describe their files. */
  ghost predicate HeadersAre(m: seq<byte>, base: nat, files: seq<File>, from: nat, to: nat, delta: nat) {
    to <= |files| && forall i :: from <= i < to ==> Described(m, base, files, i, delta)
  }

  /** The contents of a file at address a. */
  ghost predicate DataAt(m: seq<byte>, a: nat, data: seq<byte>) {
    a + |data| <= |m| && m[a..a + |data|] == data
  }

  /** The contents of file i are where its offset says, in an image at base. */
  ghost predicate FileAt(m: seq<byte>, base: nat, files: seq<File>, i: nat)
    requires i < |files|
  {
    DataAt(m, base + Offset(files, i), files[i].data)
  }

  ghost predicate ContentsAre(m: seq<byte>, base: nat, files: seq<File>, n: nat) {
    n <= |files| && forall i :: 0 <= i < n ==> FileAt(m, base, files, i)
  }

  ghost predicate IsImage(image: seq<byte>, files: seq<File>) {
    && Packable(files) && |image| == Offset(files, |files|)
    && LoadWord(image, 0) == |files|
    && HeadersAre(image, 0, files, 0, |files|, 0)
    && ContentsAre(image, 0, files, |files|)
  }

  lemma HeaderKept(m: seq<byte>, n: seq<byte>, a: nat, f: File, offset: nat)
    requires HeaderIs(m, a, f, offset) && GoodName(f.name)
    requires a + HEADER_SIZE <= |n| && forall k :: a <= k < a + HEADER_SIZE ==> n[k] == m[k]
    ensures HeaderIs(n, a, f, offset)
  {
    assert n[a + NAME_AT..a + NAME_AT + |f.name|] == m[a + NAME_AT..a + NAME_AT + |f.name|];
  }

  method PutString(m: array<byte>, a: nat, s: seq<byte>)
    requires a + |s| < m.Length
    modifies m
    ensures StringAt(m[..], a, s)
    ensures OnlyWithin(old(m[..]), m[..], a, a + |s| + 1)
  {
    var k := 0;
    while k < |s|
      invariant k <= |s|
      invariant forall j :: 0 <= j < k ==> m[a + j] == s[j]
      invariant OnlyWithin(old(m[..]), m[..], a, a + k)
    {
      m[a + k] := s[k];
      k := k + 1;
    }
    m[a + |s|] := 0;
    assert m[..][a..a + |s|] == s;
  }

  /** One header. The bytes behind the name and the padding stay whatever they were. */
  method PutHeader(m: array<byte>, a: nat, f: File, offset: nat)
    requires a + HEADER_SIZE <= m.Length && GoodName(f.name) && offset < WORD_LIMIT && |f.data| < WORD_LIMIT
    modifies m
    ensures HeaderIs(m[..], a, f, offset)
    ensures OnlyWithin(old(m[..]), m[..], a, a + HEADER_SIZE)
  {
    PutString(m, a + NAME_AT, f.name);
    ghost var m1 := m[..];
    PutWord(m, a + OFFSET_AT, offset);
    PutWord(m, a + LENGTH_AT, |f.data|);
    m[a] := MAGIC;
    assert m[..][a + NAME_AT..a + NAME_AT + |f.name|] == m1[a + NAME_AT..a + NAME_AT + |f.name|];
  }

  /** Entry i of the header table that main keeps on its stack. */
  ghost predicate EntryFilled(m: seq<byte>, files: seq<File>, i: nat)
    requires i < |files|
  {
    HeaderIs(m, HEADER_SIZE * i, files[i], Offset(files, i))
  }

  /** The offsets loop of main: headers starts out as whatever was on the stack. */
  method FillHeaders(headers: array<byte>, files: seq<File>)
    requires headers.Length == MAX_HEADERS * HEADER_SIZE && Packable(files)
    modifies headers
    ensures forall i :: 0 <= i < |files| ==> EntryFilled(headers[..], files, i)
  {
    var offset := HEADER_SIZE * MAX_HEADERS + 4;
    var i := 0;
    while i < |files|
      invariant i <= |files| && offset == Offset(files, i)
      invariant forall j :: 0 <= j < i ==> EntryFilled(headers[..], files, j)
    {
      ghost var before := headers[..];
      OffsetMonotone(files, i, |files|);
      PutHeader(headers, HEADER_SIZE * i, files[i], offset);
      assert EntryFilled(headers[..], files, i);
      forall j | 0 <= j < i ensures EntryFilled(headers[..], files, j) {
        assert EntryFilled(before, files, j);
        HeaderKept(before, headers[..], HEADER_SIZE * j, files[j], Offset(files, j));
      }
      offset := offset + |files[i].data|;
      i := i + 1;
    }
  }

  /** The contents loop of main. */
  method AppendContents(front: seq<byte>, files: seq<File>) returns (image: seq<byte>)
    requires |front| == FIRST_OFFSET
    ensures |image| == Offset(files, |files|) && front <= image && ContentsAre(image, 0, files, |files|)
  {
    image := front;
    var i := 0;
    while i < |files|
      invariant i <= |files| && |image| == Offset(files, i) && front <= image
      invariant ContentsAre(image, 0, files, i)
    {
      var next := image + files[i].data;
      ContentsGrow(front, image, next, files, i);
      image := next;
      i := i + 1;
    }
  }

  /** Writing the count, the header table and the contents, in that order. */
  method Pack(files: seq<File>, headers: array<byte>) returns (image: seq<byte>)
    requires headers.Length == MAX_HEADERS * HEADER_SIZE && Packable(files)
    modifies headers
    ensures IsImage(image, files)
  {
    hide Offset, DataAt;
    FillHeaders(headers, files);
    image := WordBytes(|files|) + headers[..];
    ghost var front := image;
    assert LoadWord(front, 0) == |files|;
    forall i | 0 <= i < |files| ensures HeaderIs(front, HeaderAt(i), files[i], Offset(files, i)) {
      assert EntryFilled(headers[..], files, i);
      ShiftHeader(headers[..], front, HEADER_SIZE * i, files[i], Offset(files, i));
    }
    image := AppendContents(image, files);
    forall i | 0 <= i < |files| ensures Described(image, 0, files, i, 0) {
      HeaderKept(front, image, HeaderAt(i), files[i], Offset(files, i));
    }
  }

  lemma ShiftHeader(m: seq<byte>, n: seq<byte>, a: nat, f: File, offset: nat)
    requires HeaderIs(m, a, f, offset) && GoodName(f.name) && |n| == |m| + 4 && n[4..] == m
    ensures HeaderIs(n, a + 4, f, offset)
  {
    assert forall k :: 0 <= k < |m| ==> n[k + 4] == m[k];
    assert n[a + 4 + NAME_AT..a + 4 + NAME_AT + |f.name|] == m[a + NAME_AT..a + NAME_AT + |f.name|];
  }

  lemma DataKept(m: seq<byte>, n: seq<byte>, a: nat, data: seq<byte>)
    requires DataAt(m, a, data) && a + |data| <= |n| && forall k :: a <= k < a + |data| ==> n[k] == m[k]
    ensures DataAt(n, a, data)
  {
    assert n[a..a + |data|] == m[a..a + |data|];
  }

  lemma DataAppended(m: seq<byte>, data: seq<byte>)
    ensures DataAt(m + data, |m|, data)
  {
  }

  lemma DataBefore(m: seq<byte>, more: seq<byte>, a: nat, data: seq<byte>)
    requires DataAt(m, a, data)
    ensures DataAt(m + more, a, data)
  {
    DataKept(m, m + more, a, data);
  }

  lemma ContentsGrow(front: seq<byte>, m: seq<byte>, n: seq<byte>, files: seq<File>, i: nat)
    requires i < |files| && |m| == Offset(files, i) && ContentsAre(m, 0, files, i) && front <= m
    requires n == m + files[i].data
    ensures |n| == Offset(files, i + 1) && ContentsAre(n, 0, files, i + 1) && front <= n
  {
    DataAppended(m, files[i].data);
    assert FileAt(n, 0, files, i);
    forall j | 0 <= j < i ensures FileAt(n, 0, files, j) {
      assert FileAt(m, 0, files, j);
      DataBefore(m, files[i].data, Offset(files, j), files[j].data);
    }
  }
}
