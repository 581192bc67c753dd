/** The MP7 classes: disk, file system and open file, updated in place. Each method is proved against
    its definition in FileSystemSpec. */
module FileSystemClasses {
  import opened DiskFormat
  import Spec = FileSystemSpec

  /** A disk of 512-byte blocks; reading and writing are exact block copies. */
  class SimpleDisk {
    const blocks: array<Block>

    constructor (n: nat)
      ensures blocks.Length == n && fresh(blocks)
    {
      blocks := new Block[n](_ => seq(BLOCK_SIZE, _ => 0));
    }

    method Read(no: nat, buf: array<Byte>, off: nat)
      requires no < blocks.Length && off + BLOCK_SIZE <= buf.Length
      modifies buf
      ensures forall k | 0 <= k < buf.Length ::
                buf[k] == if off <= k < off + BLOCK_SIZE then blocks[no][k - off] else old(buf[k])
    {
      for i := 0 to BLOCK_SIZE
        invariant forall k | 0 <= k < buf.Length ::
                    buf[k] == if off <= k < off + i then blocks[no][k - off] else old(buf[k])
      {
        buf[off + i] := blocks[no][i];
      }
    }

    method Write(no: nat, buf: array<Byte>, off: nat)
      requires no < blocks.Length && off + BLOCK_SIZE <= buf.Length
      modifies blocks
      ensures blocks[..] == old(blocks[..])[no := buf[off..off + BLOCK_SIZE]]
    {
      blocks[no] := buf[off..off + BLOCK_SIZE];
    }
  }

  /** What a formatted disk holds: 16 unused inodes in block 0; in block 1 the bitmap with the first two
      blocks used, and the number of blocks. */
  lemma FormatImage(disk: seq<Block>, size: Word)
    requires 2 <= |disk|
    ensures var image := Spec.FormatDisk(disk, size);
            && |image| == |disk| && forall b | 2 <= b < |disk| :: image[b] == disk[b]
    ensures var image := Spec.FormatDisk(disk, size);
            && (forall i | 0 <= i < 16 :: InodeAt(image[0], i) == Inode(-1, [-1, -1, -1, -1], -1, 0, 0))
            && (forall b | 0 <= b < 508 :: image[1][b] == if b < 2 && b < size / 512 then 1 else 0)
            && WordAt(image[1], 508) == size / 512
  {
    hide InodeAt, WordAt, InodesBlock;
    CountRoundTrip(Spec.ReservedOnly(size / BLOCK_SIZE));
    forall i | 0 <= i < 16
      ensures InodeAt(InodesBlock(Spec.BlankInodes()), i) == Inode(-1, [-1, -1, -1, -1], -1, 0, 0)
    {
      InodeRoundTrip(Spec.BlankInodes(), i);
    }
  }

  class FileSystem {
    /** The address of this object, as stored in the inodes' back pointers. */
    const self: Word
    var disk: SimpleDisk?
    var inodes: array?<Inode>
    var free_blocks: array?<Byte>
    var num_blocks: nat

    ghost predicate Valid()
      reads this, disk, inodes, free_blocks
    {
      && disk != null && inodes != null && free_blocks != null
      && inodes.Length == MAX_INODES && num_blocks == free_blocks.Length
      && 2 <= disk.blocks.Length && num_blocks <= disk.blocks.Length && num_blocks < 0x8000_0000
    }

    /** The value of the mounted file system. */
    ghost function State(): (s: Spec.Fs)
      requires Valid()
      reads this, disk, inodes, free_blocks, if disk == null then {} else {disk.blocks}
      ensures Spec.Shape(s)
    {
      Spec.Fs(self, free_blocks[..], inodes[..], disk.blocks[..])
    }

    constructor (address: Word)
      ensures self == address && disk == null && inodes == null && free_blocks == null && num_blocks == 0
    {
      self := address;
      disk, inodes, free_blocks, num_blocks := null, null, null, 0;
    }

    method SaveInodes()
      requires Valid()
      modifies disk.blocks
      ensures Valid() && State() == Spec.SaveInodes(old(State()))
    {
      var buf := new Byte[BLOCK_SIZE](_ => 0);
      for i := 0 to BLOCK_SIZE
        modifies buf
        invariant forall k | 0 <= k < i :: buf[k] == RawByte(inodes[..], k)
      {
        buf[i] := RawByte(inodes[..], i);
      }
      assert buf[0..BLOCK_SIZE] == InodesBlock(inodes[..]);
      disk.Write(INODES_BLOCK, buf, 0);
      assert inodes[..] == old(inodes[..]) && free_blocks[..] == old(free_blocks[..]);
    }

    method LoadInodes()
      requires disk != null && inodes != null && inodes.Length == MAX_INODES && 0 < disk.blocks.Length
      modifies inodes
      ensures forall i | 0 <= i < MAX_INODES :: inodes[i] == InodeAt(disk.blocks[INODES_BLOCK], i)
    {
      hide InodeAt;
      var buf := new Byte[BLOCK_SIZE];
      disk.Read(INODES_BLOCK, buf, 0);
      var image: Block := buf[..];
      assert image == disk.blocks[INODES_BLOCK];
      for i := 0 to MAX_INODES
        modifies inodes
        invariant forall k | 0 <= k < i :: inodes[k] == InodeAt(disk.blocks[INODES_BLOCK], k)
      {
        inodes[i] := InodeAt(image, i);
      }
    }

    method SaveFreeBlocks()
      requires Valid()
      modifies disk.blocks
      ensures Valid() && State() == Spec.SaveFreeList(old(State()))
    {
      var buf := new Byte[BLOCK_SIZE](_ => 0);
      var bytes := if num_blocks > BITMAP_BYTES then BITMAP_BYTES else num_blocks;
      for i := 0 to bytes
        modifies buf
        invariant forall k | 0 <= k < BLOCK_SIZE :: buf[k] == if k < i then free_blocks[k] else 0
      {
        buf[i] := free_blocks[i];
      }
      for b := 0 to 4
        modifies buf
        invariant forall k | 0 <= k < BLOCK_SIZE ::
                    buf[k] == if BITMAP_BYTES <= k < BITMAP_BYTES + b then ByteOf(num_blocks, k - BITMAP_BYTES)
                              else if k < bytes then free_blocks[k] else 0
      {
        buf[BITMAP_BYTES + b] := ByteOf(num_blocks, b);
      }
      assert buf[0..BLOCK_SIZE] == FreeListBlock(free_blocks[..]);
      disk.Write(FREELIST_BLOCK, buf, 0);
      assert inodes[..] == old(inodes[..]) && free_blocks[..] == old(free_blocks[..]);
    }

    method LoadFreeBlocks()
      requires disk != null && 2 <= disk.blocks.Length
      modifies this`num_blocks, this`free_blocks
      ensures free_blocks != null && fresh(free_blocks) && num_blocks == free_blocks.Length
      ensures LoadsTo(disk.blocks[FREELIST_BLOCK], free_blocks[..])
    {
      hide WordAt;
      var buf := new Byte[BLOCK_SIZE];
      disk.Read(FREELIST_BLOCK, buf, 0);
      ghost var image := disk.blocks[FREELIST_BLOCK];
      assert buf[..] == image;
      num_blocks := WordAt(buf[..], BITMAP_BYTES);
      var bits := new Byte[num_blocks];
      free_blocks := bits;
      CopyPrefix(buf, bits, if num_blocks > BITMAP_BYTES then BITMAP_BYTES else num_blocks);
    }

    /** The copying loop of load_free_blocks. */
    static method CopyPrefix(buf: array<Byte>, bits: array<Byte>, bytes: nat)
      requires buf != bits && bytes <= buf.Length && bytes <= bits.Length
      modifies bits
      ensures forall k | 0 <= k < bytes :: bits[k] == buf[k]
    {
      for i := 0 to bytes
        invariant forall k | 0 <= k < i :: bits[k] == buf[k]
      {
        bits[i] := buf[i];
      }
    }

    method GetFreeBlock() returns (r: int)
      requires Valid()
      modifies free_blocks, disk.blocks
      ensures Valid() && (State(), r) == Spec.TakeBlock(old(State()))
      ensures r == -1 <==> 0 !in old(free_blocks[..])
      ensures r == -1 ==> free_blocks[..] == old(free_blocks[..]) && disk.blocks[..] == old(disk.blocks[..])
      ensures r != -1 ==>
                && 0 <= r < free_blocks.Length && old(free_blocks[r]) == 0
                && (forall b | 0 <= b < r :: old(free_blocks[b]) != 0)
                && free_blocks[..] == old(free_blocks[..])[r := 1]
                && disk.blocks[..] == old(disk.blocks[..])[1 := FreeListBlock(free_blocks[..])]
    {
      hide FreeListBlock;
      var i := 0;
      while i < num_blocks
        invariant 0 <= i <= num_blocks
        invariant forall k | 0 <= k < i :: free_blocks[k] != 0
        invariant State() == old(State()) && Valid()
      {
        if free_blocks[i] == 0 {
          free_blocks[i] := 1;
          SaveFreeBlocks();
          assert Spec.FirstIndex(old(State()).free, 0) == i;
          return i;
        }
        i := i + 1;
      }
      return -1;
    }

    method GetFreeInode() returns (r: int)
      requires Valid()
      ensures r == Spec.Lookup(State(), -1)
    {
      var i := 0;
      while i < MAX_INODES
        invariant 0 <= i <= MAX_INODES
        invariant forall k | 0 <= k < i :: inodes[k].id != -1
      {
        if inodes[i].id == -1 {
          assert State().inodes[i].id == -1;
          return i;
        }
        i := i + 1;
      }
      return -1;
    }

    method LookupFile(id: Int32) returns (r: int)
      requires Valid()
      ensures r == Spec.Lookup(State(), id)
    {
      var i := 0;
      while i < MAX_INODES
        invariant 0 <= i <= MAX_INODES
        invariant forall k | 0 <= k < i :: inodes[k].id != id
      {
        if inodes[i].id == id {
          assert State().inodes[i].id == id;
          return i;
        }
        i := i + 1;
      }
      return -1;
    }

    method CreateFile(id: Int32) returns (ok: bool)
      requires Valid()
      modifies inodes, disk.blocks
      ensures Valid() && (State(), ok) == Spec.CreateFile(old(State()), id)
    {
      var found := LookupFile(id);
      if found >= 0 {
        return false;
      }
      var i := GetFreeInode();
      if i < 0 {
        return false;
      }
      inodes[i] := Inode(id, NO_BLOCKS, -1, 0, self);
      SaveInodes();
      return true;
    }

    /** The part of DeleteFile that clears the direct blocks, the listed blocks and the table itself. */
    method FreeNamedBlocks(i: nat)
      requires Valid() && i < MAX_INODES
      modifies free_blocks
      ensures free_blocks[..] == Spec.Cleared(old(free_blocks[..]), Spec.NamedBlocks(old(State()), inodes[i]))
    {
      var node := inodes[i];
      ghost var free0 := free_blocks[..];
      for d := 0 to MAX_DIRECT
        invariant free_blocks[..] == Spec.Cleared(free0, node.block_no[..d])
      {
        if node.block_no[d] >= 0 && node.block_no[d] < num_blocks {
          free_blocks[node.block_no[d]] := 0;
        }
        assert node.block_no[..d + 1] == node.block_no[..d] + [node.block_no[d]];
      }
      var ib := node.indirect_block_no;
      if ib >= 0 && ib < num_blocks {
        FreeListed(ib, node.block_no, free0);
        free_blocks[ib] := 0;
      }
    }

    method FreeListed(ib: nat, ghost before: seq<int>, ghost free0: seq<Byte>)
      requires Valid() && ib < num_blocks && free_blocks[..] == Spec.Cleared(free0, before)
      modifies free_blocks
      ensures free_blocks[..] == Spec.Cleared(free0, before + TableOf(disk.blocks[ib]))
    {
      hide IntAt;
      var ibuf := new Byte[BLOCK_SIZE];
      disk.Read(ib, ibuf, 0);
      var image: Block := ibuf[..];
      assert image == disk.blocks[ib];
      ghost var table := TableOf(image);
      for p := 0 to PTRS_PER_INDIRECT
        modifies free_blocks
        invariant free_blocks[..] == Spec.Cleared(free0, before + table[..p])
      {
        var blk := IntAt(image, 4 * p);
        assert blk == table[p];
        if blk >= 0 && blk < num_blocks {
          free_blocks[blk] := 0;
        }
        assert before + table[..p + 1] == before + table[..p] + [blk];
      }
      assert table[..PTRS_PER_INDIRECT] == table;
    }

    method DeleteFile(id: Int32) returns (ok: bool)
      requires Valid()
      modifies inodes, free_blocks, disk.blocks
      ensures Valid() && (State(), ok) == Spec.DeleteFile(old(State()), id)
    {
      var i := LookupFile(id);
      if i < 0 {
        return false;
      }
      FreeNamedBlocks(i);
      SaveFreeBlocks();
      inodes[i] := Inode(-1, NO_BLOCKS, -1, 0, inodes[i].fs);
      assert inodes[..] == old(inodes[..])[i := Spec.Blank(-1, old(inodes[i].fs))];
      hide InodesBlock, FreeListBlock, Spec.NamedBlocks, Spec.Cleared;
      SaveInodes();
      return true;
    }

    /** Byte `b` of blank inode `i`. */
    static lemma BlankByte(i: nat, b: nat)
      requires i < MAX_INODES && b < INODE_SIZE
      ensures RawByte(Spec.BlankInodes(), INODE_SIZE * i + b) == RawByte([Inode(-1, NO_BLOCKS, -1, 0, 0)], b)
    {
      assert (INODE_SIZE * i + b) / INODE_SIZE == i && (INODE_SIZE * i + b) % INODE_SIZE == b;
      assert (INODE_SIZE * i + b) % 4 == b % 4;
    }

    /** The part of Format that builds and writes the inode table. */
    static method FormatInodes(disk: SimpleDisk)
      requires 2 <= disk.blocks.Length
      modifies disk.blocks
      ensures disk.blocks[..] == old(disk.blocks[..])[INODES_BLOCK := InodesBlock(Spec.BlankInodes())]
    {
      hide RawByte;
      var inode_buf := new Byte[BLOCK_SIZE](_ => 0);
      var blank := Inode(-1, NO_BLOCKS, -1, 0, 0);
      for i := 0 to MAX_INODES
        modifies inode_buf
        invariant forall k | 0 <= k < INODE_SIZE * i :: inode_buf[k] == RawByte(Spec.BlankInodes(), k)
      {
        var off := i * INODE_SIZE;
        for b := 0 to INODE_SIZE
          modifies inode_buf
          invariant forall k | 0 <= k < off + b :: inode_buf[k] == RawByte(Spec.BlankInodes(), k)
        {
          BlankByte(i, b);
          inode_buf[off + b] := RawByte([blank], b);
        }
      }
      assert inode_buf[0..BLOCK_SIZE] == InodesBlock(Spec.BlankInodes());
      disk.Write(INODES_BLOCK, inode_buf, 0);
    }

    /** The part of Format that builds and writes the free list. */
    static method FormatFreeList(disk: SimpleDisk, n: nat)
      requires 2 <= disk.blocks.Length && n < 0x1_0000_0000
      modifies disk.blocks
      ensures disk.blocks[..] == old(disk.blocks[..])[FREELIST_BLOCK := FreeListBlock(Spec.ReservedOnly(n))]
    {
      var fl_buf := new Byte[BLOCK_SIZE](_ => 0);
      var bytes := if n > BITMAP_BYTES then BITMAP_BYTES else n;
      for i := 0 to bytes
        modifies fl_buf
        invariant forall k | 0 <= k < BLOCK_SIZE :: fl_buf[k] == if k < i && k < 2 then 1 else 0
      {
        fl_buf[i] := if i < 2 then 1 else 0;
      }
      for b := 0 to 4
        modifies fl_buf
        invariant forall k | 0 <= k < BLOCK_SIZE ::
                    fl_buf[k] == if BITMAP_BYTES <= k < BITMAP_BYTES + b then ByteOf(n, k - BITMAP_BYTES)
                                 else if k < bytes && k < 2 then 1 else 0
      {
        fl_buf[BITMAP_BYTES + b] := ByteOf(n, b);
      }
      assert fl_buf[0..BLOCK_SIZE] == FreeListBlock(Spec.ReservedOnly(n));
      disk.Write(FREELIST_BLOCK, fl_buf, 0);
    }

    /** Installs an empty file system of `size` bytes. */
    static method Format(disk: SimpleDisk, size: Word)
      requires 2 <= disk.blocks.Length
      modifies disk.blocks
      ensures disk.blocks[..] == Spec.FormatDisk(old(disk.blocks[..]), size)
    {
      hide FreeListBlock, InodesBlock;
      FormatInodes(disk);
      FormatFreeList(disk, size / BLOCK_SIZE);
    }

    /** Attaches a disk. The outcome is a mounted file system if the disk has the blocks it records. */
    method Mount(d: SimpleDisk)
      requires 2 <= d.blocks.Length
      modifies this
      ensures disk == d && fresh(inodes) && fresh(free_blocks)
      ensures inodes.Length == MAX_INODES && num_blocks == free_blocks.Length
      ensures LoadsTo(d.blocks[FREELIST_BLOCK], free_blocks[..])
      ensures forall i | 0 <= i < MAX_INODES :: inodes[i] == InodeAt(d.blocks[INODES_BLOCK], i).(fs := self)
      ensures WordAt(d.blocks[FREELIST_BLOCK], BITMAP_BYTES) <= d.blocks.Length < 0x8000_0000 ==>
                Valid() && Spec.Mounts(d.blocks[..], self, State())
    {
      hide InodeAt, WordAt;
      disk := d;
      inodes := new Inode[MAX_INODES](_ => Inode(0, NO_BLOCKS, 0, 0, 0));
      LoadFreeBlocks();
      LoadInodes();
      for i := 0 to MAX_INODES
        modifies inodes
        invariant forall k | 0 <= k < i :: inodes[k] == InodeAt(d.blocks[INODES_BLOCK], k).(fs := self)
        invariant forall k | i <= k < MAX_INODES :: inodes[k] == InodeAt(d.blocks[INODES_BLOCK], k)
      {
        inodes[i] := inodes[i].(fs := self);
      }
    }

    /** The destructor of a mounted file system. */
    method Unmount()
      requires Valid()
      modifies disk.blocks
      ensures Valid() && State() == Spec.Unmount(old(State()))
    {
      SaveInodes();
      SaveFreeBlocks();
    }
  }
}
