/** The ramdisk from the packer to the reader (tools/initrd_creator/init_rd_creator.c, kernel/filesystem/initrd.c). */
module RamdiskRoundTrip {
  import opened Bytes
  import opened Ramdisk
  import opened Initrd

  /** The loader puts the image into memory. */
  method Load(mem: array<byte>, location: nat, image: seq<byte>)
    requires location + |image| <= mem.Length
    modifies mem
    ensures LoadedAt(mem[..], location, image) && OnlyWithin(old(mem[..]), mem[..], location, location + |image|)
  {
    forall k | 0 <= k < |image| {
      mem[location + k] := image[k];
    }
    forall k | 0 <= k < |image| ensures mem[..][location + k] == image[k] {
    }
  }

  /** What is packed, loaded anywhere, mounted, and read is the slice of the file that was asked for; the disk says
      which names it has, and where. */
  method PackMountRead(files: seq<File>, headers: array<byte>, mem: array<byte>, location: nat, inode: nat, offset: nat,
                       size: nat, buffer: nat) returns (disk: Disk, n: nat)
    requires headers.Length == MAX_HEADERS * HEADER_SIZE && Packable(files) && headers != mem
    requires location + Offset(files, |files|) <= mem.Length && location + Offset(files, |files|) < WORD_LIMIT
    requires inode < |files| && offset < WORD_LIMIT && size < WORD_LIMIT && NoWrap(|files[inode].data|, offset, size)
    requires Clear(location, files, buffer, |Slice(files[inode].data, offset, size)|)
    requires buffer + |Slice(files[inode].data, offset, size)| <= mem.Length
    modifies headers, mem
    ensures disk.Valid() && disk.files == files && fresh(disk)
    ensures n == |Slice(files[inode].data, offset, size)|
    ensures mem[buffer..buffer + n] == Slice(files[inode].data, offset, size)
  {
    var image := Pack(files, headers);
    Load(mem, location, image);
    disk := new Disk(mem, location, image, files);
    Enough(files, inode, offset, size);
    n := disk.Read(inode, offset, size, buffer);
  }

  lemma Enough(files: seq<File>, inode: nat, offset: nat, size: nat)
    requires Packable(files) && inode < |files| && offset < WORD_LIMIT && size < WORD_LIMIT
    requires NoWrap(|files[inode].data|, offset, size)
    ensures ReadSize(|files[inode].data|, offset, size) == |Slice(files[inode].data, offset, size)|
    ensures offset <= |files[inode].data| ==>
      Offset(files, inode) + offset + ReadSize(|files[inode].data|, offset, size) <= Offset(files, |files|)
  {
    OffsetMonotone(files, inode, |files|);
    OffsetMonotone(files, 0, inode);
    ReadSizeRight(files[inode].data, offset, size);
  }
}
