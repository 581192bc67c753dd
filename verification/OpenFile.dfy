/** The MP7 class File: a write-back cache over the blocks of one inode. */
module OpenFileClass {
  import opened DiskFormat
  import opened FileSystemClasses
  import opened FileSystemGrowth
  import Spec = FileSystemSpec

  lemma TableEntry(b: Block, p: nat)
    requires p < PTRS_PER_INDIRECT
    ensures TableOf(b)[p] == IntAt(b, 4 * p)
  {
    hide IntAt;
  }

  /** One more chunk behind the bytes already stored. */
  lemma ChunkAppends(c0: seq<Byte>, pos: nat, data: seq<Byte>, w: nat, chunk: nat, c1: seq<Byte>, c2: seq<Byte>)
    requires w + chunk <= |data| && pos + w + chunk <= |c0|
    requires c1 == c0[..pos] + data[..w] + c0[pos + w..]
    requires c2 == c1[..pos + w] + data[w..w + chunk] + c1[pos + w + chunk..]
    ensures c2 == c0[..pos] + data[..w + chunk] + c0[pos + w + chunk..]
  {
  }

  class File {
    const fs: FileSystem
    /** Index of the inode in the table, -1 when the file does not exist. */
    var inode: int
    var current_position: nat
    const block_map: array<Int32>
    const multi_block_cache: array<Byte>

    ghost predicate Valid()
      reads this, block_map, multi_block_cache, fs, fs.disk, fs.inodes, fs.free_blocks
    {
      && fs.Valid() && multi_block_cache != fs.free_blocks
      && -1 <= inode < MAX_INODES
      && block_map.Length == MAX_FILE_BLOCKS && multi_block_cache.Length == MAX_FILE_SIZE
      && current_position <= MAX_FILE_SIZE
    }

    ghost function Handle(): (h: Spec.Handle)
      requires Valid()
      reads this, block_map, multi_block_cache, fs, fs.disk, fs.inodes, fs.free_blocks
      ensures Spec.HandleShape(h)
    {
      Spec.Handle(block_map[..], multi_block_cache[..], current_position)
    }

    /** Opens file `id`; every block its inode names must exist. */
    constructor (system: FileSystem, id: Int32)
      requires system.Valid()
      requires var i := Spec.Lookup(system.State(), id);
               0 <= i ==>
                 && system.State().inodes[i].indirect_block_no < |system.State().disk|
                 && Spec.OnDisk(Spec.OpenMap(system.State(), i), system.State().disk)
      ensures Valid() && fs == system && fresh(block_map) && fresh(multi_block_cache)
      ensures fs.State() == old(system.State()) && inode == Spec.Lookup(fs.State(), id)
      ensures 0 <= inode ==> Handle() == Spec.OpenFile(fs.State(), inode)
      ensures inode < 0 ==> current_position == 0
    {
      hide IntAt, TableOf, Spec.LoadCache;
      fs := system;
      inode := -1;
      current_position := 0;
      block_map := new Int32[MAX_FILE_BLOCKS](_ => -1);
      multi_block_cache := new Byte[MAX_FILE_SIZE](_ => 0);
      new;
      inode := system.LookupFile(id);
      if inode < 0 {
        return;
      }
      LoadDirect();
      LoadIndirectBlock();
      assert block_map[..] == Spec.OpenMap(fs.State(), inode);
      LoadBlocks();
    }

    /** The constructor's loop over the direct entries. */
    method LoadDirect()
      requires Valid() && 0 <= inode
      modifies block_map
      ensures block_map[..] == fs.inodes[inode].block_no + old(block_map[MAX_DIRECT..])
    {
      var node := fs.inodes[inode];
      for d := 0 to MAX_DIRECT
        invariant forall a | 0 <= a < MAX_FILE_BLOCKS ::
                    block_map[a] == if a < d then node.block_no[a] else old(block_map[a])
      {
        block_map[d] := node.block_no[d];
      }
    }

    /** The constructor's loop that reads every allocated block into the zeroed cache. */
    method LoadBlocks()
      requires Valid() && Spec.OnDisk(block_map[..], fs.disk.blocks[..])
      requires forall o | 0 <= o < MAX_FILE_SIZE :: multi_block_cache[o] == 0
      modifies multi_block_cache
      ensures multi_block_cache[..] == Spec.LoadCache(fs.disk.blocks[..], block_map[..])
    {
      ghost var (d, m) := (fs.disk.blocks[..], block_map[..]);
      for lb := 0 to MAX_FILE_BLOCKS
        invariant forall o | 0 <= o < MAX_FILE_SIZE ::
                    multi_block_cache[o] == if o < lb * BLOCK_SIZE then Spec.CachedByte(d, m, o) else 0
      {
        assert block_map[lb] == m[lb] < |d|;
        label L:
        if block_map[lb] >= 0 {
          fs.disk.Read(block_map[lb], multi_block_cache, lb * BLOCK_SIZE);
        }
        forall o | 0 <= o < MAX_FILE_SIZE
          ensures multi_block_cache[o] == if o < (lb + 1) * BLOCK_SIZE then Spec.CachedByte(d, m, o) else 0
        {
          if lb * BLOCK_SIZE <= o < (lb + 1) * BLOCK_SIZE {
            assert o / BLOCK_SIZE == lb && o % BLOCK_SIZE == o - lb * BLOCK_SIZE;
          } else {
            assert multi_block_cache[o] == old@L(multi_block_cache[o]);
          }
        }
      }
    }

    method LoadIndirectBlock()
      requires Valid() && 0 <= inode && fs.inodes[inode].indirect_block_no < fs.disk.blocks.Length
      modifies block_map
      ensures block_map[..] == old(block_map[..MAX_DIRECT]) +
                               if fs.inodes[inode].indirect_block_no < 0 then old(block_map[MAX_DIRECT..])
                               else TableOf(fs.disk.blocks[fs.inodes[inode].indirect_block_no])
    {
      var ib := fs.inodes[inode].indirect_block_no;
      if ib < 0 {
        return;
      }
      var ibuf := new Byte[BLOCK_SIZE];
      fs.disk.Read(ib, ibuf, 0);
      assert ibuf[..] == fs.disk.blocks[ib];
      DecodePointers(ibuf[..]);
    }

    /** The loop of load_indirect_block. */
    method DecodePointers(image: Block)
      requires Valid()
      modifies block_map
      ensures block_map[..] == old(block_map[..MAX_DIRECT]) + TableOf(image)
    {
      hide IntAt, TableOf;
      ghost var (table, m0) := (TableOf(image), block_map[..]);
      for p := 0 to PTRS_PER_INDIRECT
        invariant forall k | 0 <= k < MAX_FILE_BLOCKS ::
                    block_map[k] == if MAX_DIRECT <= k < MAX_DIRECT + p then table[k - MAX_DIRECT] else m0[k]
      {
        block_map[MAX_DIRECT + p] := IntAt(image, 4 * p);
        TableEntry(image, p);
      }
    }

    method GetOrAllocBlock(a: nat) returns (r: int)
      requires Valid()
      modifies block_map, fs.free_blocks, fs.disk.blocks
      ensures Valid()
      ensures a >= MAX_FILE_BLOCKS ==> r == -1 && Handle() == old(Handle()) && fs.State() == old(fs.State())
      ensures a < MAX_FILE_BLOCKS && 0 <= old(block_map[a]) ==>
                r == old(block_map[a]) && Handle() == old(Handle()) && fs.State() == old(fs.State())
      ensures a < MAX_FILE_BLOCKS && old(block_map[a]) < 0 ==>
                && (fs.State(), r) == Spec.TakeBlock(old(fs.State()))
                && block_map[..] == if r < 0 then old(block_map[..]) else old(block_map[..])[a := r]
    {
      if a >= MAX_FILE_BLOCKS {
        return -1;
      }
      if block_map[a] >= 0 {
        return block_map[a];
      }
      var blk := fs.GetFreeBlock();
      if blk < 0 {
        return -1;
      }
      block_map[a] := blk;
      return blk;
    }

    /** Copies the next bytes of the file into `buf`. */
    method Read(n: nat, buf: array<Byte>) returns (r: nat)
      requires Valid() && n <= buf.Length && buf != multi_block_cache && buf != fs.free_blocks
      requires 0 <= inode ==> fs.inodes[inode].file_size <= MAX_FILE_SIZE
      modifies this`current_position, buf
      ensures Valid() && fs.State() == old(fs.State())
      ensures r == if inode < 0 then 0 else Spec.ReadCount(fs.inodes[inode].file_size, old(Handle()), n)
      ensures Handle() == old(Handle()).(pos := old(current_position) + r)
      ensures buf[..] == old(multi_block_cache[current_position..][..r]) + old(buf[r..])
    {
      if inode < 0 || current_position >= fs.inodes[inode].file_size {
        return 0;
      }
      var bytes_left := fs.inodes[inode].file_size - current_position;
      r := if n < bytes_left then n else bytes_left;
      for i := 0 to r
        modifies buf
        invariant forall k | 0 <= k < buf.Length ::
                    buf[k] == if k < i then multi_block_cache[current_position + k] else old(buf[k])
      {
        buf[i] := multi_block_cache[current_position + i];
      }
      current_position := current_position + r;
    }

    method Reset()
      requires Valid()
      modifies this`current_position
      ensures Valid() && Handle() == old(Handle()).(pos := 0) && fs.State() == old(fs.State())
    {
      current_position := 0;
    }

    method EoF() returns (r: bool)
      requires Valid()
      ensures r <==> inode < 0 || fs.inodes[inode].file_size <= current_position
    {
      if inode < 0 {
        return true;
      }
      return current_position >= fs.inodes[inode].file_size;
    }

    /** Copies `chunk` bytes of `buf` from `w` on into the cache behind the cursor. */
    method CopyChunk(buf: array<Byte>, w: nat, chunk: nat)
      requires Valid() && buf != multi_block_cache
      requires w + chunk <= buf.Length && current_position + w + chunk <= MAX_FILE_SIZE
      modifies multi_block_cache
      ensures multi_block_cache[..] ==
              old(multi_block_cache[..current_position + w]) + buf[w..w + chunk] +
              old(multi_block_cache[current_position + w + chunk..])
    {
      for i := 0 to chunk
        invariant forall o | 0 <= o < MAX_FILE_SIZE ::
                    multi_block_cache[o] ==
                    if current_position + w <= o < current_position + w + i then buf[o - current_position]
                    else old(multi_block_cache[o])
      {
        multi_block_cache[current_position + (w + i)] := buf[w + i];
      }
    }

    /** The same, on a cache that has the first `w` bytes of `data` stored at `pos` of `cache` already. */
    method AppendChunk(buf: array<Byte>, w: nat, chunk: nat, ghost cache: seq<Byte>, ghost data: seq<Byte>)
      requires Valid() && buf != multi_block_cache && |cache| == MAX_FILE_SIZE
      requires w + chunk <= |data| <= buf.Length && data == buf[..|data|] && current_position + |data| <= MAX_FILE_SIZE
      requires multi_block_cache[..] == cache[..current_position] + data[..w] + cache[current_position + w..]
      modifies multi_block_cache
      ensures multi_block_cache[..] ==
              cache[..current_position] + data[..w + chunk] + cache[current_position + w + chunk..]
    {
      ghost var c1 := multi_block_cache[..];
      CopyChunk(buf, w, chunk);
      assert data[w..w + chunk] == buf[w..w + chunk];
      ChunkAppends(cache, current_position, data, w, chunk, c1, multi_block_cache[..]);
    }

    /** The first `w` bytes of `data` are stored at the cursor of the handle `h` that was opened on `s`. */
    ghost predicate Stored(s: Spec.Fs, h: Spec.Handle, data: seq<Byte>, w: nat)
      requires Valid() && Spec.Shape(s) && Spec.HandleShape(h)
      reads this, block_map, multi_block_cache, fs, fs.disk, fs.inodes, fs.free_blocks,
            if fs.disk == null then {} else {fs.disk.blocks}
    {
      && current_position == h.pos && w <= |data| && h.pos + w <= MAX_FILE_SIZE
      && fs.State().inodes == s.inodes
      && Spec.Grows(s, h.block_map, fs.State(), block_map[..])
      && multi_block_cache[..] == h.cache[..h.pos] + data[..w] + h.cache[h.pos + w..]
      && Touched(h.block_map, block_map[..], h.pos, h.pos + w)
    }

    /** No block is free, and the one for the byte `w` behind the cursor is missing. */
    ghost predicate Stuck(w: nat)
      requires Valid() && current_position + w < MAX_FILE_SIZE
      reads this, block_map, multi_block_cache, fs, fs.disk, fs.inodes, fs.free_blocks,
            if fs.disk == null then {} else {fs.disk.blocks}
    {
      0 !in fs.State().free && block_map[(current_position + w) / BLOCK_SIZE] < 0
    }

    /** The block for the next byte of a write that has grown the map from `m` on `s` so far. */
    method AllocateFor(a: nat, ghost s: Spec.Fs, ghost m: seq<Int32>) returns (r: int)
      requires Valid() && a < MAX_FILE_BLOCKS && Spec.Shape(s) && |m| == MAX_FILE_BLOCKS
      requires Spec.Grows(s, m, fs.State(), block_map[..]) && forall x | a < x < MAX_FILE_BLOCKS :: block_map[x] == m[x]
      modifies block_map, fs.free_blocks, fs.disk.blocks
      ensures Valid() && Spec.Grows(s, m, fs.State(), block_map[..])
      ensures r < 0 ==> block_map[..] == old(block_map[..]) && block_map[a] < 0 && 0 !in fs.State().free
      ensures 0 <= r ==> 0 <= block_map[a] && block_map[..] == old(block_map[..])[a := block_map[a]]
    {
      ghost var (s1, m1) := (fs.State(), block_map[..]);
      r := GetOrAllocBlock(a);
      if 0 <= r && m1[a] < 0 {
        GrowsOnce(s, m, s1, m1, a, fs.State(), r);
      }
    }

    /** One round of the Write loop: a block for the next byte, then bytes up to the end of that block. */
    method WriteChunk(to_write: nat, buf: array<Byte>, w: nat, ghost s: Spec.Fs, ghost h: Spec.Handle,
                      ghost data: seq<Byte>)
      returns (w1: int)
      requires Valid() && buf != multi_block_cache && buf != fs.free_blocks && w < to_write <= buf.Length
      requires data == buf[..to_write] && current_position + to_write <= MAX_FILE_SIZE
      requires Spec.Shape(s) && Spec.HandleShape(h) && Stored(s, h, data, w)
      modifies block_map, multi_block_cache, fs.free_blocks, fs.disk.blocks
      ensures Valid() && data == buf[..to_write]
      ensures w1 < 0 ==> Stored(s, h, data, w) && Stuck(w)
      ensures 0 <= w1 ==> w < w1 <= to_write && Stored(s, h, data, w1)
    {
      hide Spec.Grows, Spec.Meets, Touched, FreeListBlock;
      var a := (current_position + w) / BLOCK_SIZE;
      ghost var m1 := block_map[..];
      UntouchedAbove(h.block_map, m1, h.pos, w);
      var blk := AllocateFor(a, s, h.block_map);
      if blk < 0 {
        return -1;
      }
      w1 := StoreChunk(to_write, buf, w, s, h, data, m1);
    }

    /** The bytes of one round, after a block for the first of them was entered into the map `m1`. */
    method StoreChunk(to_write: nat, buf: array<Byte>, w: nat, ghost s: Spec.Fs, ghost h: Spec.Handle,
                      ghost data: seq<Byte>, ghost m1: seq<Int32>)
      returns (w1: nat)
      requires Valid() && buf != multi_block_cache && w < to_write <= buf.Length
      requires data == buf[..to_write] && current_position + to_write <= MAX_FILE_SIZE
      requires Spec.Shape(s) && Spec.HandleShape(h) && current_position == h.pos && fs.State().inodes == s.inodes
      requires Spec.Grows(s, h.block_map, fs.State(), block_map[..])
      requires multi_block_cache[..] == h.cache[..h.pos] + data[..w] + h.cache[h.pos + w..]
      requires Touched(h.block_map, m1, h.pos, h.pos + w) && |m1| == MAX_FILE_BLOCKS
      requires var a := (h.pos + w) / BLOCK_SIZE; 0 <= block_map[a] && block_map[..] == m1[a := block_map[a]]
      modifies multi_block_cache
      ensures Valid() && data == buf[..to_write] && w < w1 <= to_write && Stored(s, h, data, w1)
    {
      hide Spec.Grows, Spec.Meets, Touched, FreeListBlock;
      ghost var m2 := block_map[..];
      var space_in_block := BLOCK_SIZE - (current_position + w) % BLOCK_SIZE;
      var chunk := if to_write - w < space_in_block then to_write - w else space_in_block;
      AppendChunk(buf, w, chunk, h.cache, data);
      assert block_map[..] == m2;
      TouchedOneMore(h.block_map, m1, m2, h.pos, w, chunk, (h.pos + w) / BLOCK_SIZE);
      w1 := w + chunk;
    }

    /** The loop of Write. */
    method WriteAll(to_write: nat, buf: array<Byte>) returns (r: nat)
      requires Valid() && buf != multi_block_cache && buf != fs.free_blocks && to_write <= buf.Length
      requires current_position + to_write <= MAX_FILE_SIZE
      modifies block_map, multi_block_cache, fs.free_blocks, fs.disk.blocks
      ensures Valid() && r <= to_write
      ensures Stored(old(fs.State()), old(Handle()), old(buf[..to_write]), r)
      ensures r < to_write ==> current_position + r < MAX_FILE_SIZE && Stuck(r)
    {
      ghost var (s, h, data) := (fs.State(), Handle(), buf[..to_write]);
      assert block_map[..] == h.block_map && h.cache == h.cache[..h.pos] + data[..0] + h.cache[h.pos + 0..];
      GrowsRefl(s, h.block_map);
      assert Stored(s, h, data, 0);
      hide Stored, Spec.Grows, Spec.Meets, Stuck;
      r := 0;
      ghost var full := false;
      while r < to_write
        invariant Valid() && r <= to_write && data == buf[..to_write] && !full
        invariant Stored(s, h, data, r)
        invariant current_position + to_write <= MAX_FILE_SIZE && current_position == h.pos
      {
        var w := WriteChunk(to_write, buf, r, s, h, data);
        if w < 0 {
          full := true;
          break;
        }
        r := w;
      }
      assert full || r == to_write;
    }

    /** Stores the first `r` bytes of `buf` at the cursor; `r` is smaller than asked for only at the
        size limit or when the disk is full. */
    method Write(n: nat, buf: array<Byte>) returns (r: nat)
      requires Valid() && n <= buf.Length && buf != multi_block_cache && buf != fs.free_blocks
      modifies this`current_position, block_map, multi_block_cache, fs.inodes, fs.free_blocks, fs.disk.blocks
      ensures Valid()
      ensures inode < 0 ==> r == 0 && fs.State() == old(fs.State()) && Handle() == old(Handle())
      ensures 0 <= inode ==>
                Spec.Writes(old(fs.State()), inode, old(Handle()), old(buf[..n]), r, fs.State(), Handle())
    {
      hide Spec.Writes, Spec.Grows, Touched, Stored;
      if inode < 0 {
        return 0;
      }
      ghost var (s, h, data) := (fs.State(), Handle(), buf[..n]);
      var space_left := MAX_FILE_SIZE - current_position;
      var to_write := if n < space_left then n else space_left;
      assert buf[..to_write] == data[..to_write];
      r := WriteAll(to_write, buf);
      ghost var s2 := fs.State();
      StoredIs(s, h, data, to_write, r);
      Advance(r);
      WritesFrom(s, inode, h, data, r, s2, fs.State(), Handle());
    }

    lemma StoredIs(s: Spec.Fs, h: Spec.Handle, data: seq<Byte>, to_write: nat, r: nat)
      requires Valid() && Spec.Shape(s) && Spec.HandleShape(h) && to_write <= |data|
      requires Stored(s, h, data[..to_write], r)
      ensures r <= to_write && current_position == h.pos && h.pos + r <= MAX_FILE_SIZE && fs.State().inodes == s.inodes
      ensures Spec.Grows(s, h.block_map, fs.State(), block_map[..])
      ensures multi_block_cache[..] == h.cache[..h.pos] + data[..r] + h.cache[h.pos + r..]
      ensures Touched(h.block_map, block_map[..], h.pos, h.pos + r)
    {
      hide Spec.Grows, Touched;
      assert data[..to_write][..r] == data[..r];
    }

    /** The end of Write: the cursor moves behind the bytes stored, and the file may have become longer. */
    method Advance(r: nat)
      requires Valid() && 0 <= inode && current_position + r <= MAX_FILE_SIZE
      modifies this`current_position, fs.inodes
      ensures Valid() && Handle() == old(Handle()).(pos := old(current_position) + r)
      ensures var (s, size) := (old(fs.State()), old(fs.inodes[inode].file_size));
              fs.State() == s.(inodes := s.inodes[inode := s.inodes[inode].(
                              file_size := if size < current_position then current_position else size)])
    {
      current_position := current_position + r;
      if current_position > fs.inodes[inode].file_size {
        fs.inodes[inode] := fs.inodes[inode].(file_size := current_position);
      }
    }

    /** The loop of save_indirect_block that looks for an indirect slot in use. */
    method AnyIndirect() returns (any_indirect: bool)
      requires Valid()
      ensures any_indirect <==> Spec.UsesIndirect(block_map[..])
    {
      any_indirect := false;
      var p := 0;
      while p < PTRS_PER_INDIRECT && !any_indirect
        invariant 0 <= p <= PTRS_PER_INDIRECT
        invariant any_indirect ==> Spec.UsesIndirect(block_map[..])
        invariant !any_indirect ==> forall a | MAX_DIRECT <= a < MAX_DIRECT + p :: block_map[a] < 0
      {
        if block_map[MAX_DIRECT + p] >= 0 {
          assert 0 <= block_map[..][MAX_DIRECT + p];
          any_indirect := true;
        }
        p := p + 1;
      }
    }

    /** Writes the pointer table, taking a block for it if it has none; false if it needs one and none
        is free. */
    method SaveIndirectBlock() returns (saved: bool)
      requires Valid() && 0 <= inode && fs.inodes[inode].indirect_block_no < fs.disk.blocks.Length
      modifies fs.inodes, fs.free_blocks, fs.disk.blocks
      ensures Valid() && (fs.State(), saved) == Spec.SavePointers(old(fs.State()), inode, block_map[..])
    {
      hide Spec.UsesIndirect, TableBlock, FreeListBlock;
      var any_indirect := AnyIndirect();
      if !any_indirect {
        return true;
      }
      saved := EnsurePointerBlock();
      if !saved {
        return;
      }
      ghost var s1 := fs.State();
      var ibuf := SerialisePointers();
      assert block_map[MAX_DIRECT..] == block_map[..][MAX_DIRECT..];
      fs.disk.Write(fs.inodes[inode].indirect_block_no, ibuf, 0);
      assert fs.State() ==
             s1.(disk := s1.disk[s1.inodes[inode].indirect_block_no := TableBlock(block_map[MAX_DIRECT..])]);
    }

    /** Takes a block for the pointer table unless there is one; false if none is free. */
    method EnsurePointerBlock() returns (ok: bool)
      requires Valid() && 0 <= inode && fs.inodes[inode].indirect_block_no < fs.disk.blocks.Length
      modifies fs.inodes, fs.free_blocks, fs.disk.blocks
      ensures Valid() && -1 <= inode < fs.inodes.Length
      ensures ok ==> 0 <= fs.inodes[inode].indirect_block_no < fs.disk.blocks.Length
      ensures var s := old(fs.State());
              var have := s.inodes[inode].indirect_block_no;
              var (s1, b) := if have < 0 then Spec.TakeBlock(s) else (s, have);
              && (ok <==> 0 <= b)
              && (if b < 0 then fs.State() == s
                  else b < 0x8000_0000
                       && fs.State() == s1.(inodes := s1.inodes[inode := s1.inodes[inode].(indirect_block_no := b)]))
    {
      ok := true;
      if fs.inodes[inode].indirect_block_no < 0 {
        var ib := fs.GetFreeBlock();
        if ib < 0 {
          return false;
        }
        fs.inodes[inode] := fs.inodes[inode].(indirect_block_no := ib);
      } else {
        assert fs.inodes[..] ==
                 fs.inodes[..][inode := fs.inodes[inode].(indirect_block_no := fs.inodes[inode].indirect_block_no)];
      }
    }

    /** The buffer holding the upper half of the block map. */
    method SerialisePointers() returns (ibuf: array<Byte>)
      requires Valid()
      ensures fresh(ibuf) && ibuf.Length == BLOCK_SIZE && ibuf[0..BLOCK_SIZE] == TableBlock(block_map[MAX_DIRECT..])
    {
      ibuf := new Byte[BLOCK_SIZE](_ => 0);
      for p := 0 to PTRS_PER_INDIRECT
        invariant forall j | 0 <= j < 4 * p :: ibuf[j] == ByteOf(block_map[MAX_DIRECT + j / 4], j % 4)
      {
        var blk := block_map[MAX_DIRECT + p];
        for b := 0 to 4
          invariant forall j | 0 <= j < 4 * p + b :: ibuf[j] == ByteOf(block_map[MAX_DIRECT + j / 4], j % 4)
        {
          ibuf[4 * p + b] := ByteOf(blk, b);
          assert (4 * p + b) / 4 == p && (4 * p + b) % 4 == b;
        }
      }
    }

    /** The first loop of the destructor: every allocated block goes back to the disk. */
    method WriteBack()
      requires Valid() && Spec.OnDisk(block_map[..], fs.disk.blocks[..])
      modifies fs.disk.blocks
      ensures fs.disk.blocks[..] ==
              Spec.Flush(old(fs.disk.blocks[..]), block_map[..], multi_block_cache[..], MAX_FILE_BLOCKS)
    {
      ghost var (d, m, c) := (fs.disk.blocks[..], block_map[..], multi_block_cache[..]);
      for lb := 0 to MAX_FILE_BLOCKS
        invariant fs.disk.blocks[..] == Spec.Flush(d, m, c, lb)
      {
        assert block_map[lb] == m[lb] < |d|;
        if block_map[lb] >= 0 {
          assert multi_block_cache[lb * BLOCK_SIZE..lb * BLOCK_SIZE + BLOCK_SIZE] == Spec.CacheBlock(c, lb);
          fs.disk.Write(block_map[lb], multi_block_cache, lb * BLOCK_SIZE);
        }
      }
    }

    /** The destructor. The result says whether the pointers of the indirect blocks were kept. */
    method Close() returns (saved: bool)
      requires Valid()
      requires 0 <= inode ==>
                 fs.inodes[inode].indirect_block_no < fs.disk.blocks.Length
                 && Spec.OnDisk(block_map[..], fs.disk.blocks[..])
      modifies fs.inodes, fs.free_blocks, fs.disk.blocks
      ensures Valid()
      ensures inode < 0 ==> saved && fs.State() == Spec.SaveInodes(old(fs.State()))
      ensures 0 <= inode ==> (fs.State(), saved) == Spec.CloseFile(old(fs.State()), inode, old(Handle()))
    {
      saved := true;
      if 0 <= inode {
        ghost var s0 := fs.State();
        WriteBack();
        ghost var s1 := fs.State();
        assert s1 == s0.(disk := Spec.Flush(s0.disk, block_map[..], multi_block_cache[..], MAX_FILE_BLOCKS));
        hide Spec.Flush, Spec.SavePointers;
        saved := SaveIndirectBlock();
        ghost var s2 := fs.State();
        var node := fs.inodes[inode];
        fs.inodes[inode] := node.(block_no := block_map[..MAX_DIRECT]);
        assert fs.State() ==
               s2.(inodes := s2.inodes[inode := s2.inodes[inode].(block_no := block_map[..][..MAX_DIRECT])]);
      }
      hide InodesBlock;
      fs.SaveInodes();
    }
  }
}
