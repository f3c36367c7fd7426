/** The mounted initial ramdisk (kernel/filesystem/initrd.c) over an image made by the packer. */
module Initrd {
  import opened Bytes
  import opened Frames
  import opened Memcpys
  import opened Ramdisk

  const FS_FILE: nat := 1

  datatype Node = Node(name: seq<byte>, length: nat, inode: nat, flags: nat)

  /** What a node pointer can point at. */
  datatype Ref = Root | Dev | Entry(i: nat)

  datatype Dirent = Dirent(name: seq<byte>, ino: nat)

  /** "dev" */
  const DEV: seq<byte> := [100, 101, 118]

  /** How many bytes a read takes: 32-bit arithmetic as written. */
  function ReadSize(length: nat, offset: nat, size: nat): nat {
    if offset > length then 0
    else if (offset + size) % WORD_LIMIT > length then length - offset
    else size
  }

  /** The part of a file that a read of (offset, size) is meant to give. */
  function Slice(data: seq<byte>, offset: nat, size: nat): (r: seq<byte>) {
    if offset > |data| then []
    else if offset + size > |data| then data[offset..]
    else data[offset..offset + size]
  }

  /** It starts at the offset, goes on as far as the file and the size allow, and a long enough read is the file. */
  lemma SliceBytes(data: seq<byte>, offset: nat, size: nat)
    ensures var s := Slice(data, offset, size); var rest := if offset <= |data| then |data| - offset else 0;
      && |s| == (if rest < size then rest else size)
      && forall k :: 0 <= k < |s| ==> s[k] == data[offset + k]
    ensures |data| <= size ==> Slice(data, 0, size) == data
  {
  }

  predicate NoWrap(length: nat, offset: nat, size: nat) {
    offset > length || offset + size < WORD_LIMIT
  }

  /** The clipping is right exactly when the end of the read does not wrap, or the read starts behind the file. */
  lemma ReadSizeRight(data: seq<byte>, offset: nat, size: nat)
    requires |data| < WORD_LIMIT && offset < WORD_LIMIT && size < WORD_LIMIT
    ensures ReadSize(|data|, offset, size) == |Slice(data, offset, size)| <==> NoWrap(|data|, offset, size)
  {
    if offset + size >= WORD_LIMIT {
      assert (offset + size) % WORD_LIMIT == offset + size - WORD_LIMIT;
    }
  }

  /** What successive reads give, each one starting where the last one ended. */
  function Successive(data: seq<byte>, offset: nat, sizes: seq<nat>): (r: seq<byte>)
    decreases |sizes|
  {
    if sizes == [] then []
    else
      var part := Slice(data, offset, sizes[0]);
      part + Successive(data, offset + |part|, sizes[1..])
  }

  function Total(sizes: seq<nat>): nat {
    if sizes == [] then 0 else sizes[0] + Total(sizes[1..])
  }

  lemma SlicesJoin(data: seq<byte>, offset: nat, a: nat, b: nat)
    requires offset <= |data|
    ensures Slice(data, offset, a) + Slice(data, offset + |Slice(data, offset, a)|, b) == Slice(data, offset, a + b)
  {
  }

  lemma NothingRead(data: seq<byte>, offset: nat)
    ensures Slice(data, offset, 0) == []
  {
  }

  /** Successive reads, however they are cut, give the file up to the total asked for, and all of it in the end. */
  lemma {:induction false} SuccessiveReads(data: seq<byte>, offset: nat, sizes: seq<nat>)
    requires offset <= |data|
    ensures Successive(data, offset, sizes) == Slice(data, offset, Total(sizes))
    decreases |sizes|
  {
    hide Slice;
    if sizes == [] {
      NothingRead(data, offset);
    } else {
      SliceIs(data, offset, sizes[0]);
      var next := offset + |Slice(data, offset, sizes[0])|;
      SuccessiveReads(data, next, sizes[1..]);
      SlicesJoin(data, offset, sizes[0], Total(sizes[1..]));
    }
  }

  /** Node i is the file node of file i. */
  predicate NodeIs(node: Node, f: File, i: nat) {
    node == Node(f.name, |f.data|, i, FS_FILE)
  }

  ghost predicate NodesAre(nodes: seq<Node>, files: seq<File>) {
    |nodes| <= |files| && forall i :: 0 <= i < |nodes| ==> NodeIs(nodes[i], files[i], i)
  }

  /** The image in memory at base, with the offsets of the first n headers already turned into addresses. */
  ghost predicate Rebased(m: seq<byte>, base: nat, files: seq<File>, n: nat) {
    && Packable(files) && n <= |files| && base + Offset(files, |files|) <= |m|
    && base + Offset(files, |files|) < WORD_LIMIT
    && LoadWord(m, base) == |files|
    && HeadersAre(m, base, files, 0, n, base)
    && HeadersAre(m, base, files, n, |files|, 0)
    && ContentsAre(m, base, files, |files|)
  }

  /** The image was loaded at base. */
  ghost predicate LoadedAt(m: seq<byte>, base: nat, image: seq<byte>) {
    base + |image| <= |m| && forall k :: 0 <= k < |image| ==> m[base + k] == image[k]
  }

  lemma LoadedHeader(m: seq<byte>, base: nat, image: seq<byte>, a: nat, f: File, offset: nat)
    requires LoadedAt(m, base, image) && HeaderIs(image, a, f, offset)
    ensures HeaderIs(m, base + a, f, offset)
  {
    var at := a + NAME_AT;
    assert m[base + at..base + at + |f.name|] == image[at..at + |f.name|];
  }

  lemma LoadedData(m: seq<byte>, base: nat, image: seq<byte>, a: nat, data: seq<byte>)
    requires LoadedAt(m, base, image) && DataAt(image, a, data)
    ensures DataAt(m, base + a, data)
  {
    assert m[base + a..base + a + |data|] == image[a..a + |data|];
  }

  /** A packed image that was loaded at base is ready to be mounted. */
  lemma LoadedIsRebased(m: seq<byte>, base: nat, image: seq<byte>, files: seq<File>)
    requires LoadedAt(m, base, image) && IsImage(image, files) && base + |image| < WORD_LIMIT
    ensures Rebased(m, base, files, 0)
  {
    forall i | 0 <= i < |files| ensures Described(m, base, files, i, 0) {
      assert Described(image, 0, files, i, 0);
      LoadedHeader(m, base, image, HeaderAt(i), files[i], Offset(files, i));
    }
    forall i | 0 <= i < |files| ensures FileAt(m, base, files, i) {
      assert FileAt(image, 0, files, i);
      LoadedData(m, base, image, Offset(files, i), files[i].data);
    }
  }

  lemma HeadersKept(m: seq<byte>, n: seq<byte>, base: nat, files: seq<File>, from: nat, to: nat, delta: nat, lo: nat,
                    hi: nat)
    requires OnlyWithin(m, n, lo, hi) && HeadersAre(m, base, files, from, to, delta)
    requires forall i :: 0 <= i < |files| ==> GoodName(files[i].name)
    requires base + HeaderAt(to) <= lo || hi <= base + HeaderAt(from)
    ensures HeadersAre(n, base, files, from, to, delta)
  {
    forall i | from <= i < to ensures Described(n, base, files, i, delta) {
      assert Described(m, base, files, i, delta);
      HeaderKept(m, n, base + HeaderAt(i), files[i], Offset(files, i) + delta);
    }
  }

  lemma ContentsKept(m: seq<byte>, n: seq<byte>, base: nat, files: seq<File>, lo: nat, hi: nat)
    requires OnlyWithin(m, n, lo, hi) && ContentsAre(m, base, files, |files|)
    requires hi <= base + FIRST_OFFSET || base + Offset(files, |files|) <= lo
    ensures ContentsAre(n, base, files, |files|)
  {
    forall i | 0 <= i < |files| ensures FileAt(n, base, files, i) {
      assert FileAt(m, base, files, i);
      OffsetMonotone(files, i, |files|);
      DataKept(m, n, base + Offset(files, i), files[i].data);
    }
  }

  /** Adding the base to the offset word of header i. */
  lemma DescribedBumped(m: seq<byte>, n: seq<byte>, base: nat, files: seq<File>, i: nat)
    requires i < |files| && Described(m, base, files, i, 0) && GoodName(files[i].name)
    requires OnlyWithin(m, n, base + HeaderAt(i) + OFFSET_AT, base + HeaderAt(i) + OFFSET_AT + 4)
    requires LoadWord(n, base + HeaderAt(i) + OFFSET_AT) == Offset(files, i) + base
    ensures Described(n, base, files, i, base)
  {
    var at := base + HeaderAt(i) + NAME_AT;
    assert n[at..at + |files[i].name|] == m[at..at + |files[i].name|];
  }

  lemma HeadersSplit(m: seq<byte>, base: nat, files: seq<File>, i: nat)
    requires HeadersAre(m, base, files, i, |files|, 0) && i < |files|
    ensures HeadersAre(m, base, files, i + 1, |files|, 0)
  {
  }

  lemma HeadersJoin(m: seq<byte>, base: nat, files: seq<File>, i: nat)
    requires i < |files| && HeadersAre(m, base, files, 0, i, base) && Described(m, base, files, i, base)
    ensures HeadersAre(m, base, files, 0, i + 1, base)
  {
  }

  /** One round of the mounting loop. */
  lemma RebasedOne(m: seq<byte>, n: seq<byte>, base: nat, files: seq<File>, i: nat)
    requires Rebased(m, base, files, i) && i < |files|
    requires var a := base + HeaderAt(i) + OFFSET_AT;
      OnlyWithin(m, n, a, a + 4) && LoadWord(n, a) == Offset(files, i) + base
    ensures Rebased(n, base, files, i + 1)
  {
    var a := base + HeaderAt(i) + OFFSET_AT;
    assert Described(m, base, files, i, 0);
    DescribedBumped(m, n, base, files, i);
    HeadersSplit(m, base, files, i);
    HeadersKept(m, n, base, files, 0, i, base, a, a + 4);
    HeadersKept(m, n, base, files, i + 1, |files|, 0, a, a + 4);
    HeadersJoin(n, base, files, i);
    ContentsKept(m, n, base, files, a, a + 4);
  }

  /** A write behind or before the image leaves it mounted. */
  lemma RebasedKept(m: seq<byte>, n: seq<byte>, base: nat, files: seq<File>, lo: nat, hi: nat)
    requires Rebased(m, base, files, |files|) && OnlyWithin(m, n, lo, hi)
    requires lo <= hi && Clear(base, files, lo, hi - lo)
    ensures Rebased(n, base, files, |files|)
  {
    OffsetMonotone(files, 0, |files|);
    HeadersKept(m, n, base, files, 0, |files|, base, lo, hi);
    ContentsKept(m, n, base, files, lo, hi);
  }

  lemma DataByte(m: seq<byte>, a: nat, data: seq<byte>, k: nat)
    requires DataAt(m, a, data) && k < |data|
    ensures m[a + k] == data[k]
  {
    assert m[a..a + |data|][k] == m[a + k];
  }

  /** A read as a memcpy. */
  lemma SliceCopied(m: seq<byte>, n: seq<byte>, a: nat, data: seq<byte>, offset: nat, size: nat, buffer: nat)
    requires DataAt(m, a, data) && offset + size <= |data| && buffer + size <= |m|
    requires n == Copied(m, buffer, a + offset, size)
    ensures n[buffer..buffer + size] == data[offset..offset + size]
    ensures OnlyWithin(m, n, buffer, buffer + size)
  {
    var part := n[buffer..buffer + size];
    forall k | 0 <= k < size ensures part[k] == data[offset + k] {
      DataByte(m, a, data, offset + k);
    }
  }

  /** The n bytes at buffer are clear of the image. */
  predicate Clear(base: nat, files: seq<File>, buffer: nat, n: nat) {
    buffer + n <= base || base + Offset(files, |files|) <= buffer
  }

  /** What a mounted header says. */
  lemma HeaderReady(m: seq<byte>, base: nat, files: seq<File>, i: nat)
    requires Rebased(m, base, files, |files|) && i < |files|
    ensures base + HeaderAt(i) + HEADER_SIZE <= |m|
    ensures LoadWord(m, base + HeaderAt(i) + OFFSET_AT) == Offset(files, i) + base
    ensures LoadWord(m, base + HeaderAt(i) + LENGTH_AT) == |files[i].data| < WORD_LIMIT
  {
    assert Described(m, base, files, i, base);
  }

  /** Where a file is, and that the buffer does not overlap it the wrong way. */
  lemma DataReady(m: seq<byte>, base: nat, files: seq<File>, i: nat, offset: nat, n: nat, buffer: nat)
    requires Rebased(m, base, files, |files|) && i < |files|
    requires Clear(base, files, buffer, n) && offset + n <= |files[i].data|
    ensures DataAt(m, Offset(files, i) + base, files[i].data)
    ensures SafeOverlap(buffer, Offset(files, i) + base + offset, n)
  {
    assert FileAt(m, base, files, i);
    OffsetMonotone(files, i, |files|);
  }

  /** What the memcpy of a read leaves behind. */
  lemma Fetched(m: seq<byte>, n: seq<byte>, base: nat, files: seq<File>, i: nat, offset: nat, size: nat, buffer: nat)
    requires Rebased(m, base, files, |files|) && i < |files| && offset + size <= |files[i].data|
    requires buffer + size <= |m| && Clear(base, files, buffer, size) && Offset(files, i) + base + offset + size <= |m|
    requires n == Copied(m, buffer, Offset(files, i) + base + offset, size)
    ensures n[buffer..buffer + size] == files[i].data[offset..offset + size]
    ensures OnlyWithin(m, n, buffer, buffer + size) && Rebased(n, base, files, |files|)
  {
    DataReady(m, base, files, i, offset, size, buffer);
    SliceCopied(m, n, Offset(files, i) + base, files[i].data, offset, size, buffer);
    RebasedKept(m, n, base, files, buffer, buffer + size);
  }

  lemma SliceIs(data: seq<byte>, offset: nat, size: nat)
    requires offset <= |data|
    ensures var n := |Slice(data, offset, size)|;
      offset + n <= |data| && Slice(data, offset, size) == data[offset..offset + n]
  {
  }

  /** A read whose end does not wrap, into a buffer clear of the image. */
  lemma ReadIsRight(m: seq<byte>, n: seq<byte>, base: nat, files: seq<File>, i: nat, offset: nat, size: nat,
                    buffer: nat, count: nat)
    requires Rebased(m, base, files, |files|) && i < |files| && |files[i].data| < WORD_LIMIT
    requires offset < WORD_LIMIT && size < WORD_LIMIT && NoWrap(|files[i].data|, offset, size)
    requires count == ReadSize(|files[i].data|, offset, size) && Clear(base, files, buffer, count)
    requires offset <= |files[i].data| ==>
      && buffer + count <= |m| && Offset(files, i) + base + offset + count <= |m|
      && n == ChunkCopy(m, buffer, Offset(files, i) + base + offset, count)
    requires offset > |files[i].data| ==> n == m
    ensures offset <= |files[i].data| || buffer <= |m| ==>
      && buffer + count <= |n| && OnlyWithin(m, n, buffer, buffer + count) && Rebased(n, base, files, |files|)
      && n[buffer..buffer + count] == Slice(files[i].data, offset, size)
  {
    var data := files[i].data;
    ReadSizeRight(data, offset, size);
    if offset <= |data| {
      SliceIs(data, offset, size);
      DataReady(m, base, files, i, offset, count, buffer);
      ChunkCopyRight(m, buffer, Offset(files, i) + base + offset, count);
      Fetched(m, n, base, files, i, offset, count, buffer);
    }
  }

  /** strcpy of a name out of a header. */
  method ReadString(m: array<byte>, a: nat, ghost s: seq<byte>) returns (r: seq<byte>)
    requires StringAt(m[..], a, s) && forall k :: 0 <= k < |s| ==> s[k] != 0
    ensures r == s
  {
    r := [];
    assert s != [] ==> m[..][a..a + |s|][0] == m[a];
    while m[a + |r|] != 0
      invariant |r| <= |s| && r == s[..|r|]
      decreases |s| - |r|
    {
      assert m[..][a..a + |s|][|r|] == m[a + |r|];
      r := r + [m[a + |r|]];
    }
  }

  /** The clipping of initrd_read. */
  method Clip(length: nat, offset: nat, size: nat) returns (n: nat)
    requires offset <= length
    ensures n == ReadSize(length, offset, size)
  {
    n := size;
    if (offset + size) % WORD_LIMIT > length {
      n := length - offset;
    }
  }

  /** The ramdisk in memory, the nodes that mounting made for it, and the shared directory entry. */
  class Disk {
    const mem: array<byte>
    const location: nat
    var nodes: seq<Node>
    var dirent: Dirent
    ghost const files: seq<File>

    ghost predicate Valid()
      reads this, mem
    {
      && Rebased(mem[..], location, files, |files|)
      && |nodes| == |files| && NodesAre(nodes, files)
    }

    /** initialise_initrd */
    constructor (mem: array<byte>, location: nat, ghost image: seq<byte>, ghost files: seq<File>)
      requires LoadedAt(mem[..], location, image) && IsImage(image, files) && location + |image| < WORD_LIMIT
      modifies mem
      ensures Valid() && this.mem == mem && this.location == location && this.files == files
      ensures OnlyWithin(old(mem[..]), mem[..], location, location + FIRST_OFFSET)
    {
      this.mem, this.location, this.files := mem, location, files;
      nodes := [];
      dirent := Dirent([], 0);
      new;
      LoadedIsRebased(mem[..], location, image, files);
      OffsetMonotone(files, 0, |files|);
      var count := GetWord(mem, location);
      var i := 0;
      while i < count
        invariant i <= count == |files| == |this.files| && Rebased(mem[..], location, this.files, i)
        invariant |nodes| == i && NodesAre(nodes, this.files)
        invariant OnlyWithin(old(mem[..]), mem[..], location, location + FIRST_OFFSET)
      {
        var node := Rebase(i);
        nodes := nodes + [node];
        i := i + 1;
      }
    }

    /** The body of the mounting loop: the offset becomes an address and the node is filled in. */
    method Rebase(i: nat) returns (node: Node)
      requires Rebased(mem[..], location, files, i) && i < |files|
      modifies mem
      ensures Rebased(mem[..], location, files, i + 1) && NodeIs(node, files[i], i)
      ensures OnlyWithin(old(mem[..]), mem[..], location, location + FIRST_OFFSET)
    {
      var header := location + HeaderAt(i);
      assert Described(mem[..], location, files, i, 0);
      OffsetMonotone(files, i, |files|);
      var offset := GetWord(mem, header + OFFSET_AT);
      var length := GetWord(mem, header + LENGTH_AT);
      var name := ReadString(mem, header + NAME_AT, files[i].name);
      PutWord(mem, header + OFFSET_AT, offset + location);
      RebasedOne(old(mem[..]), mem[..], location, files, i);
      node := Node(name, length, i, FS_FILE);
    }

    /** Where the contents of a file are. */
    ghost function AddressOf(inode: nat): nat
      requires inode <= |files|
    {
      Offset(files, inode) + location
    }

    /** initrd_read of the node with this inode, as written. The buffer lies in the same memory. What the caller gets
        is right if the end of the read does not wrap and the buffer is outside the image. */
    method Read(inode: nat, offset: nat, size: nat, buffer: nat) returns (n: nat)
      requires Valid() && inode < |files| && offset < WORD_LIMIT && size < WORD_LIMIT
      requires offset <= |files[inode].data| ==>
        var count := ReadSize(|files[inode].data|, offset, size);
        buffer + count <= mem.Length && AddressOf(inode) + offset + count <= mem.Length
      modifies mem
      ensures n == ReadSize(|files[inode].data|, offset, size)
      ensures mem[..] ==
        if offset <= |files[inode].data| then ChunkCopy(old(mem[..]), buffer, AddressOf(inode) + offset, n)
        else old(mem[..])
      ensures NoWrap(|files[inode].data|, offset, size) && Clear(location, files, buffer, n) && buffer <= mem.Length ==>
        ReadRight(old(mem[..]), inode, offset, size, buffer, n)
    {
      hide ChunkCopy, LoadWord;
      var header := location + HeaderAt(inode);
      HeaderReady(mem[..], location, files, inode);
      var address := GetWord(mem, header + OFFSET_AT);
      var length := GetWord(mem, header + LENGTH_AT);
      if offset > length {
        n := 0;
      } else {
        n := Clip(length, offset, size);
        var steps := Memcpy(mem, buffer, address + offset, n);
      }
      if NoWrap(length, offset, size) && Clear(location, files, buffer, n) {
        ReadIsRight(old(mem[..]), mem[..], location, files, inode, offset, size, buffer, n);
      }
    }

    /** The disk stays mounted, the buffer holds the slice asked for, and nothing else was written. */
    ghost predicate ReadRight(was: seq<byte>, inode: nat, offset: nat, size: nat, buffer: nat, n: nat)
      reads this, mem
      requires inode < |files|
    {
      && Valid() && buffer + n <= mem.Length && OnlyWithin(was, mem[..], buffer, buffer + n)
      && mem[buffer..buffer + n] == Slice(files[inode].data, offset, size)
    }

    /** initrd_readdir: the entry is left in dirent. */
    method Readdir(node: Ref, index: nat) returns (found: bool)
      requires Valid() && index < WORD_LIMIT
      modifies this`dirent
      ensures found == Listed(files, node, index).Some?
      ensures dirent == if found then Listed(files, node, index).value else old(dirent)
    {
      if node == Root && index == 0 {
        dirent := Dirent(DEV, 0);
        return true;
      }
      if (index - 1) % WORD_LIMIT >= |nodes| {
        return false;
      }
      assert NodeIs(nodes[index - 1], files[index - 1], index - 1);
      dirent := Dirent(nodes[index - 1].name, nodes[index - 1].inode);
      return true;
    }

    /** initrd_finddir */
    method Finddir(node: Ref, name: seq<byte>) returns (r: Option<Ref>)
      requires Valid()
      ensures r == FirstNamed(files, node, name)
    {
      if node == Root && name == DEV {
        return Some(Dev);
      }
      var i := 0;
      while i < |nodes|
        invariant i <= |nodes| && FirstFrom(files, name, 0) == FirstFrom(files, name, i)
      {
        assert NodeIs(nodes[i], files[i], i);
        if name == nodes[i].name {
          return Some(Entry(i));
        }
        i := i + 1;
      }
      return None;
    }
  }

  /** What readdir lists at an index. */
  function Listed(files: seq<File>, node: Ref, index: nat): Option<Dirent> {
    if node == Root && index == 0 then Some(Dirent(DEV, 0))
    else if 1 <= index <= |files| then Some(Dirent(files[index - 1].name, index - 1))
    else None
  }

  function FirstFrom(files: seq<File>, name: seq<byte>, i: nat): Option<Ref>
    decreases |files| - i
  {
    if i >= |files| then None
    else if files[i].name == name then Some(Entry(i))
    else FirstFrom(files, name, i + 1)
  }

  /** What finddir finds. */
  function FirstNamed(files: seq<File>, node: Ref, name: seq<byte>): Option<Ref> {
    if node == Root && name == DEV then Some(Dev) else FirstFrom(files, name, 0)
  }

  /** The node that the entry at an index stands for. */
  function ListedRef(index: nat): Ref {
    if index == 0 then Dev else Entry(index - 1)
  }

  predicate DistinctNames(files: seq<File>) {
    && (forall i :: 0 <= i < |files| ==> files[i].name != DEV)
    && (forall i, j :: 0 <= i < j < |files| ==> files[i].name != files[j].name)
  }

  /** finddir gives the first file of that name, and nothing when there is none. */
  lemma {:induction false} FirstFromIs(files: seq<File>, name: seq<byte>, i: nat)
    ensures FirstFrom(files, name, i) == None <==> forall j :: i <= j < |files| ==> files[j].name != name
    ensures FirstFrom(files, name, i).Some? ==>
      var r := FirstFrom(files, name, i).value;
      r.Entry? && i <= r.i < |files| && files[r.i].name == name && forall j :: i <= j < r.i ==> files[j].name != name
    decreases |files| - i
  {
    if i < |files| && files[i].name != name {
      FirstFromIs(files, name, i + 1);
    }
  }

  ghost predicate FindsItself(files: seq<File>, index: nat)
    requires index <= |files|
  {
    FirstNamed(files, Root, Listed(files, Root, index).value.name) == Some(ListedRef(index))
  }

  lemma FindsItselfIs(files: seq<File>, i: nat)
    requires i < |files|
    ensures FindsItself(files, i + 1) <==>
      files[i].name != DEV && forall j :: 0 <= j < i ==> files[j].name != files[i].name
  {
    FirstFromIs(files, files[i].name, 0);
  }

  /**
   * Every name that readdir of the root lists leads finddir to the node it stands for exactly when the names are
   * distinct and none is "dev".
   */
  lemma ListingIsFaithful(files: seq<File>)
    ensures (forall index :: 0 <= index <= |files| ==> FindsItself(files, index)) <==> DistinctNames(files)
  {
    forall i | 0 <= i < |files|
      ensures FindsItself(files, i + 1) <==>
        files[i].name != DEV && forall j :: 0 <= j < i ==> files[j].name != files[i].name
    {
      FindsItselfIs(files, i);
    }
    assert FindsItself(files, 0);
  }

  /** The inode of what a node pointer points at. */
  function InodeOf(r: Ref): nat {
    match r
    case Root => 0
    case Dev => 0
    case Entry(i) => i
  }

  /** The listed inode is the inode of the node that finddir finds under the listed name, if and only if that is the
      node the entry stands for; a first file called "dev" has the inode of the directory of that name. */
  lemma ListedInode(files: seq<File>, index: nat)
    requires index <= |files|
    ensures var e := Listed(files, Root, index).value; var r := FirstNamed(files, Root, e.name);
      && r.Some?
      && (e.ino == InodeOf(r.value) <==> FindsItself(files, index) || (index == 1 && files[0].name == DEV))
  {
    if 0 < index { FirstFromIs(files, files[index - 1].name, 0); }
  }

  /** readdir of the root visits "dev" and every file, each at one index, and stops there. */
  lemma ListingIsComplete(files: seq<File>, name: seq<byte>)
    ensures Listed(files, Root, |files| + 1) == None
    ensures FirstNamed(files, Root, name).Some? <==>
      exists index :: 0 <= index <= |files| && Listed(files, Root, index).value.name == name
    ensures DistinctNames(files) ==>
      forall i, j :: 0 <= i < j <= |files| ==> Listed(files, Root, i).value.name != Listed(files, Root, j).value.name
  {
    FirstFromIs(files, name, 0);
    if FirstFrom(files, name, 0).Some? {
      var k := FirstFrom(files, name, 0).value.i;
      assert Listed(files, Root, k + 1).value.name == name;
    } else {
      assert Listed(files, Root, 0).value.name == DEV;
    }
  }
}
