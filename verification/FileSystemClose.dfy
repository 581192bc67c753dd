/** Closing a file: its bytes reach the disk and can be read back by any later handle. */
module FileSystemClose {
  import opened DiskFormat
  import opened FileSystemSpec
  import opened FileSystemRun
  import opened FileSystemSafety

  /** Allocated slots of a block map are pairwise different. */
  ghost predicate Injective(m: seq<Int32>) {
    forall a, b | 0 <= a < b < |m| && 0 <= m[a] :: m[a] != m[b]
  }

  lemma {:induction false} FlushAt(disk: seq<Block>, m: seq<Int32>, cache: seq<Byte>, k: nat, a: nat)
    requires |m| == MAX_FILE_BLOCKS && |cache| == MAX_FILE_SIZE && OnDisk(m, disk) && a < k <= MAX_FILE_BLOCKS
    requires Injective(m) && 0 <= m[a]
    ensures Flush(disk, m, cache, k)[m[a]] == CacheBlock(cache, a)
  {
    if a < k - 1 {
      FlushAt(disk, m, cache, k - 1, a);
    }
  }

  lemma {:induction false} FlushElsewhere(disk: seq<Block>, m: seq<Int32>, cache: seq<Byte>, k: nat, b: nat)
    requires |m| == MAX_FILE_BLOCKS && |cache| == MAX_FILE_SIZE && OnDisk(m, disk) && k <= MAX_FILE_BLOCKS
    requires b < |disk| && b !in m
    ensures Flush(disk, m, cache, k)[b] == disk[b]
  {
    if k > 0 {
      FlushElsewhere(disk, m, cache, k - 1, b);
    }
  }

  lemma MapInjective(w: World, i: nat)
    requires Inv(w) && i in w.open
    ensures Injective(w.open[i].block_map)
    ensures forall a | 0 <= a < MAX_FILE_BLOCKS && w.open[i].block_map[a] != -1 ::
              && 2 <= w.open[i].block_map[a] < |w.fs.free| && w.fs.free[w.open[i].block_map[a]] != 0
              && w.open[i].block_map[a] != w.fs.inodes[i].indirect_block_no
  {
    hide InodeAt, InodesBlock, TableOf, FreeListBlock, SlotOk, Owned, Matrix;
    var m := w.open[i].block_map;
    assert forall a | 0 <= a < MAX_FILE_BLOCKS :: Slots(w, i)[a] == m[a];
    forall a | 0 <= a < MAX_FILE_BLOCKS && m[a] != -1
      ensures 2 <= m[a] < |w.fs.free| && w.fs.free[m[a]] != 0 && m[a] != Slots(w, i)[SLOTS - 1]
    {
      SlotRange(w, i, a);
      if m[a] == Slots(w, i)[SLOTS - 1] {
        SlotsDisjoint(w, i, a, i, SLOTS - 1);
      }
    }
    forall a, b | 0 <= a < b < |m| && 0 <= m[a]
      ensures m[a] != m[b]
    {
      if m[a] == m[b] {
        SlotsDisjoint(w, i, a, i, b);
      }
    }
  }

  /** Block `b` is the lowest free one. */
  ghost predicate Lowest(free: seq<Byte>, b: nat)
    requires b < |free|
  {
    free[b] == 0 && forall c | 0 <= c < b :: free[c] != 0
  }

  /** What the File destructor does to the tables: the direct blocks go into the inode, and a pointer
      block may be taken from the free ones. */
  ghost predicate CloseTables(w: World, i: nat, saved: bool, w1: World)
    requires Sound(w) && i in w.open
  {
    var (s, s1) := (w.fs, w1.fs);
    var ib := s.inodes[i].indirect_block_no;
    && Shape(s1) && |s1.disk| == |s.disk| && |s1.free| == |s.free| && w1.open == w.open - {i}
    && var ib1 := s1.inodes[i].indirect_block_no;
    && s1.inodes == s.inodes[i := s.inodes[i].(block_no := w.open[i].block_map[..MAX_DIRECT], indirect_block_no := ib1)]
    && ((ib1 == ib && s1.free == s.free) ||
        (saved && ib == -1 && 2 <= ib1 < |s.free| && Lowest(s.free, ib1) && s1.free == s.free[ib1 := 1]))
    && (!saved ==> ib1 == -1)
    && (ib1 != ib ==> UsesIndirect(w.open[i].block_map))
    && (saved && ib1 == -1 ==> !UsesIndirect(w.open[i].block_map))
    && s1.disk[INODES_BLOCK] == InodesBlock(s1.inodes)
    && s1.disk[FREELIST_BLOCK] == FreeListBlock(s1.free)
  }

  /** What it does to the data blocks: cached blocks are written, and the pointer table if it is in use. */
  ghost predicate CloseData(w: World, i: nat, w1: World)
    requires Sound(w) && i in w.open
  {
    var (s, h, s1) := (w.fs, w.open[i], w1.fs);
    && |s1.inodes| == MAX_INODES && |s1.disk| == |s.disk|
    && var ib1 := s1.inodes[i].indirect_block_no;
    && ib1 < |s.disk|
    && (0 <= ib1 ==>
          s1.disk[ib1] == if UsesIndirect(h.block_map) then TableBlock(h.block_map[MAX_DIRECT..]) else s.disk[ib1])
    && (forall a | 0 <= a < MAX_FILE_BLOCKS && h.block_map[a] != -1 ::
          0 <= h.block_map[a] && s1.disk[h.block_map[a]] == CacheBlock(h.cache, a))
    && (forall b | 2 <= b < |s.disk| && b !in h.block_map && b != ib1 :: s1.disk[b] == s.disk[b])
  }

  /** A close loses the pointers exactly when it needs a pointer block and there is none. */
  ghost predicate PointersFit(w: World, i: nat)
    requires Sound(w) && i in w.open
  {
    !UsesIndirect(w.open[i].block_map) || w.fs.inodes[i].indirect_block_no != -1 || 0 in w.fs.free
  }

  lemma FreeAboveTables(w: World)
    requires Inv(w)
    ensures forall b | 0 <= b < |w.fs.free| && w.fs.free[b] == 0 :: 2 <= b
  {
  }

  lemma FlushFacts(w: World, i: nat, f: seq<Block>)
    requires Inv(w) && i in w.open
    requires f == Flush(w.fs.disk, w.open[i].block_map, w.open[i].cache, MAX_FILE_BLOCKS)
    ensures f[FREELIST_BLOCK] == FreeListBlock(w.fs.free)
    ensures forall a | 0 <= a < MAX_FILE_BLOCKS && w.open[i].block_map[a] != -1 ::
              && 2 <= w.open[i].block_map[a] < |w.fs.free| && w.fs.free[w.open[i].block_map[a]] != 0
              && w.open[i].block_map[a] != w.fs.inodes[i].indirect_block_no
              && f[w.open[i].block_map[a]] == CacheBlock(w.open[i].cache, a)
    ensures forall b | 2 <= b < |w.fs.disk| && b !in w.open[i].block_map :: f[b] == w.fs.disk[b]
  {
    MapInjective(w, i);
    hide InodesBlock, FreeListBlock, TableBlock, InodeAt, SlotOk, Owned, Matrix, Flush, Injective, CacheBlock,
         Slots, OpenMap;
    var s, h := w.fs, w.open[i];
    var m := h.block_map;
    FlushElsewhere(s.disk, m, h.cache, MAX_FILE_BLOCKS, FREELIST_BLOCK);
    forall a | 0 <= a < MAX_FILE_BLOCKS && m[a] != -1
      ensures f[m[a]] == CacheBlock(h.cache, a)
    {
      FlushAt(s.disk, m, h.cache, MAX_FILE_BLOCKS, a);
    }
    forall b | 2 <= b < |s.disk| && b !in m
      ensures f[b] == s.disk[b]
    {
      FlushElsewhere(s.disk, m, h.cache, MAX_FILE_BLOCKS, b);
    }
  }

  lemma CloseHasEffect(w: World, i: nat, r: Result, w1: World)
    requires Inv(w) && i in w.open && CloseStep(w, i, r, w1)
    ensures r.Done? && CloseTables(w, i, r.ok, w1) && CloseData(w, i, w1)
    ensures r.ok <==> PointersFit(w, i)
  {
    hide Flush, CacheBlock, FreeListBlock, CloseTables, CloseData, PointersFit, CloseStep, Inv, Sound;
    InvSound(w);
    OpenFits(w, i);
    var f := Flush(w.fs.disk, w.open[i].block_map, w.open[i].cache, MAX_FILE_BLOCKS);
    FlushFacts(w, i, f);
    FreeAboveTables(w);
    if w.fs.inodes[i].indirect_block_no != -1 {
      PointerRange(w, i);
      assert w.fs.inodes[i].indirect_block_no !in w.open[i].block_map;
    }
    CloseFromFlush(w, i, f, r, w1);
  }

  lemma CloseFromFlush(w: World, i: nat, f: seq<Block>, r: Result, w1: World)
    requires Sound(w) && i in w.open && CloseStep(w, i, r, w1)
    requires f == Flush(w.fs.disk, w.open[i].block_map, w.open[i].cache, MAX_FILE_BLOCKS)
    requires w.fs.inodes[i].indirect_block_no == -1 || 2 <= w.fs.inodes[i].indirect_block_no < |w.fs.free|
    requires w.fs.inodes[i].indirect_block_no != -1 ==> w.fs.inodes[i].indirect_block_no !in w.open[i].block_map
    requires forall b | 0 <= b < |w.fs.free| && w.fs.free[b] == 0 :: 2 <= b
    requires f[FREELIST_BLOCK] == FreeListBlock(w.fs.free)
    requires forall a | 0 <= a < MAX_FILE_BLOCKS && w.open[i].block_map[a] != -1 ::
               && 2 <= w.open[i].block_map[a] < |w.fs.free| && w.fs.free[w.open[i].block_map[a]] != 0
               && w.open[i].block_map[a] != w.fs.inodes[i].indirect_block_no
               && f[w.open[i].block_map[a]] == CacheBlock(w.open[i].cache, a)
    requires forall b | 2 <= b < |w.fs.disk| && b !in w.open[i].block_map :: f[b] == w.fs.disk[b]
    ensures r.Done? && CloseTables(w, i, r.ok, w1) && CloseData(w, i, w1)
    ensures r.ok <==> PointersFit(w, i)
  {
    hide InodesBlock, FreeListBlock, TableBlock, Flush, UsesIndirect, CacheBlock, OpenMap;
    if UsesIndirect(w.open[i].block_map) && w.fs.inodes[i].indirect_block_no == -1 {
      var b := FirstIndex(w.fs.free, 0);
      if b == -1 {
        assert 0 !in w.fs.free;
      } else {
        assert w.fs.free[b] in w.fs.free;
      }
    }
  }

  // ---------------------------------------------------------------- what a later open finds

  /** The block map a later open finds: the handle's, or only its direct part if the pointers were lost. */
  function KeptMap(m: seq<Int32>, saved: bool): (r: seq<Int32>)
    requires |m| == MAX_FILE_BLOCKS
    ensures |r| == MAX_FILE_BLOCKS
  {
    if saved then m else m[..MAX_DIRECT] + NoPointers()
  }

  /** What is left of `c` when every block beyond the direct ones is lost. */
  function DirectOnly(c: seq<Byte>): (r: seq<Byte>)
    ensures |r| == |c|
  {
    seq(|c|, o requires 0 <= o < |c| => if o < MAX_DIRECT * BLOCK_SIZE then c[o] else 0)
  }

  function KeptBytes(c: seq<Byte>, saved: bool): (r: seq<Byte>)
    ensures |r| == |c|
  {
    if saved then c else DirectOnly(c)
  }

  lemma UnusedTable(w: World, i: nat)
    requires Inv(w) && i in w.open && !UsesIndirect(w.open[i].block_map)
    ensures forall a | MAX_DIRECT <= a < MAX_FILE_BLOCKS ::
              w.open[i].block_map[a] == -1 && OpenMap(w.fs, i)[a] == -1
  {
    hide InodeAt, InodesBlock, FreeListBlock, OpenMap;
    NamedBlocksAboveTables(w);
    assert SlotOk(w, i);
    assert forall a | MAX_DIRECT <= a < MAX_FILE_BLOCKS :: Slots(w, i)[a] == w.open[i].block_map[a];
  }

  /** The indirect half of the map a later open finds. */
  lemma CloseTable(w: World, i: nat, w1: World)
    requires Inv(w) && i in w.open && CloseData(w, i, w1)
    requires 0 <= w1.fs.inodes[i].indirect_block_no
    requires UsesIndirect(w.open[i].block_map) || w1.fs.inodes[i].indirect_block_no == w.fs.inodes[i].indirect_block_no
    ensures w1.fs.inodes[i].indirect_block_no < |w1.fs.disk|
    ensures TableOf(w1.fs.disk[w1.fs.inodes[i].indirect_block_no]) == w.open[i].block_map[MAX_DIRECT..]
  {
    hide TableBlock, TableOf, Inv, Sound, UsesIndirect, OpenMap, CacheBlock;
    InvSound(w);
    OpenFits(w, i);
    if UsesIndirect(w.open[i].block_map) {
      TableRoundTrip(w.open[i].block_map[MAX_DIRECT..]);
    } else {
      CloseOldTable(w, i, w1);
    }
  }

  /** A table that the close does not write holds what it held. */
  lemma CloseOldTable(w: World, i: nat, w1: World)
    requires Inv(w) && i in w.open && CloseData(w, i, w1)
    requires 0 <= w1.fs.inodes[i].indirect_block_no == w.fs.inodes[i].indirect_block_no
    requires !UsesIndirect(w.open[i].block_map)
    ensures w1.fs.inodes[i].indirect_block_no < |w1.fs.disk|
    ensures TableOf(w1.fs.disk[w1.fs.inodes[i].indirect_block_no]) == w.open[i].block_map[MAX_DIRECT..]
  {
    hide TableBlock, TableOf, Inv, Sound, UsesIndirect, CacheBlock, OpenMap;
    InvSound(w);
    OpenFits(w, i);
    UnusedTable(w, i);
    OldTable(w, i);
    assert w1.fs.disk[w1.fs.inodes[i].indirect_block_no] == w.fs.disk[w.fs.inodes[i].indirect_block_no];
  }

  lemma OldTable(w: World, i: nat)
    requires Sound(w) && i < MAX_INODES && 0 <= w.fs.inodes[i].indirect_block_no
    ensures w.fs.inodes[i].indirect_block_no < |w.fs.disk|
    ensures OpenMap(w.fs, i)[MAX_DIRECT..] == TableOf(w.fs.disk[w.fs.inodes[i].indirect_block_no])
  {
    hide TableOf, OnDisk;
  }

  lemma CloseMap(w: World, i: nat, saved: bool, w1: World)
    requires Inv(w) && i in w.open && CloseTables(w, i, saved, w1) && CloseData(w, i, w1)
    ensures w1.fs.inodes[i].indirect_block_no < |w1.fs.disk|
    ensures OpenMap(w1.fs, i) == KeptMap(w.open[i].block_map, saved)
    ensures OnDisk(OpenMap(w1.fs, i), w1.fs.disk)
  {
    hide InodesBlock, FreeListBlock, TableOf, OpenMap, UsesIndirect, Inv, CloseData, KeptMap;
    InvSound(w);
    if w.fs.inodes[i].indirect_block_no != -1 {
      PointerRange(w, i);
    }
    var m := w.open[i].block_map;
    var ib1 := w1.fs.inodes[i].indirect_block_no;
    var rest := KeptPointers(m, saved);
    if 0 <= ib1 {
      CloseTable(w, i, w1);
    } else if saved {
      UnusedTable(w, i);
      assert rest == NoPointers();
    }
    OpenMapIs(w1.fs, i, m[..MAX_DIRECT], rest);
    KeptMapOnDisk(w, i, saved);
  }

  function KeptPointers(m: seq<Int32>, saved: bool): seq<Int32>
    requires |m| == MAX_FILE_BLOCKS
  {
    if saved then m[MAX_DIRECT..] else NoPointers()
  }

  lemma KeptMapOnDisk(w: World, i: nat, saved: bool)
    requires Sound(w) && i in w.open
    ensures KeptMap(w.open[i].block_map, saved) ==
              w.open[i].block_map[..MAX_DIRECT] + KeptPointers(w.open[i].block_map, saved)
    ensures OnDisk(KeptMap(w.open[i].block_map, saved), w.fs.disk)
  {
  }

  lemma OpenMapIs(s: Fs, i: nat, direct: BlockNumbers, rest: seq<Int32>)
    requires Shape(s) && i < MAX_INODES && s.inodes[i].indirect_block_no < |s.disk| && s.inodes[i].block_no == direct
    requires rest == if s.inodes[i].indirect_block_no < 0 then NoPointers()
                     else TableOf(s.disk[s.inodes[i].indirect_block_no])
    ensures OpenMap(s, i) == direct + rest
  {
  }

  /** Once every allocated block holds its part of the cache, loading them gives the cache back. */
  lemma CacheReloads(h: Handle, disk: seq<Block>, saved: bool)
    requires HandleShape(h) && OnDisk(h.block_map, disk) && OnDisk(KeptMap(h.block_map, saved), disk)
    requires forall a | 0 <= a < MAX_FILE_BLOCKS && 0 <= h.block_map[a] ::
               disk[h.block_map[a]] == CacheBlock(h.cache, a)
    requires forall o | 0 <= o < MAX_FILE_SIZE && h.block_map[o / BLOCK_SIZE] < 0 :: h.cache[o] == 0
    ensures LoadCache(disk, KeptMap(h.block_map, saved)) == KeptBytes(h.cache, saved)
  {
    forall o | 0 <= o < MAX_FILE_SIZE
      ensures CachedByte(disk, KeptMap(h.block_map, saved), o) == KeptBytes(h.cache, saved)[o]
    {
      var a := o / BLOCK_SIZE;
      assert a < MAX_DIRECT <==> o < MAX_DIRECT * BLOCK_SIZE;
      if 0 <= h.block_map[a] {
        assert disk[h.block_map[a]][o % BLOCK_SIZE] == CacheBlock(h.cache, a)[o % BLOCK_SIZE] == h.cache[o];
      }
    }
  }

  lemma CloseBytes(w: World, i: nat, saved: bool, w1: World)
    requires Inv(w) && i in w.open && CloseData(w, i, w1)
    requires OnDisk(KeptMap(w.open[i].block_map, saved), w1.fs.disk)
    ensures LoadCache(w1.fs.disk, KeptMap(w.open[i].block_map, saved)) == KeptBytes(w.open[i].cache, saved)
  {
    assert SlotOk(w, i);
    hide InodesBlock, FreeListBlock, InodeAt, Owned, Matrix, TableBlock, TableOf, OpenMap, Slots, KeptMap, KeptBytes,
         LoadCache, CacheBlock, UsesIndirect;
    CacheReloads(w.open[i], w1.fs.disk, saved);
  }

  // ---------------------------------------------------------------- the whole step

  /** No block of another inode is in a slot of inode `i`. */
  lemma ForeignBlock(w: World, i: nat, j: nat, a: nat)
    requires Inv(w) && i < MAX_INODES && j < MAX_INODES && j != i && a < SLOTS && Slots(w, j)[a] != -1
    ensures Slots(w, j)[a] !in MapOf(w, i) && Slots(w, j)[a] != w.fs.inodes[i].indirect_block_no
  {
    hide InodeAt, Slots, SlotOk;
    forall d | 0 <= d < SLOTS
      ensures Slots(w, i)[d] != Slots(w, j)[a]
    {
      assert Matrix(w)[i][d] == Slots(w, i)[d] && Matrix(w)[j][a] == Slots(w, j)[a];
    }
    SlotsAreMap(w, i);
  }

  lemma SlotsAreMap(w: World, i: nat)
    requires Sound(w) && i < MAX_INODES
    ensures forall a | 0 <= a < MAX_FILE_BLOCKS :: MapOf(w, i)[a] == Slots(w, i)[a]
    ensures Slots(w, i)[SLOTS - 1] == w.fs.inodes[i].indirect_block_no
  {
  }

  lemma CloseConfined(w: World, i: nat, saved: bool, w1: World)
    requires Inv(w) && i in w.open && CloseTables(w, i, saved, w1) && CloseData(w, i, w1)
    ensures Confined(w, w1, i)
  {
    hide InodesBlock, FreeListBlock, InodeAt, Owned, Matrix, TableBlock, TableOf, SlotOk, OpenMap, Slots,
         UsesIndirect, CacheBlock;
    forall j, a | 0 <= j < MAX_INODES && j != i && 0 <= a < SLOTS && 0 <= Slots(w, j)[a] < |w.fs.disk|
      ensures w1.fs.disk[Slots(w, j)[a]] == w.fs.disk[Slots(w, j)[a]]
    {
      SlotRange(w, j, a);
      ForeignBlock(w, i, j, a);
    }
  }

  lemma CloseOwnership(w: World, i: nat, saved: bool, w1: World, row: Row)
    requires Inv(w) && i in w.open && CloseTables(w, i, saved, w1)
    requires row == KeptMap(w.open[i].block_map, saved) + [w1.fs.inodes[i].indirect_block_no]
    ensures Owned(w1.fs.free, Matrix(w)[i := row])
  {
    hide InodesBlock, FreeListBlock, Owned, UsesIndirect, Matrix, Slots, Inv, Sound;
    InvSound(w);
    OwnedMatrix(w);
    OpenSlots(w, i);
    if saved {
      OwnedAfterGrowth(w.fs.free, Matrix(w), w1.fs.free, i, row);
    } else {
      OwnedAfterDrop(w.fs.free, Matrix(w), w1.fs.free, i, row);
    }
  }

  lemma OwnedMatrix(w: World)
    requires Inv(w)
    ensures Owned(w.fs.free, Matrix(w))
  {
  }

  lemma CloseSound(w: World, i: nat, saved: bool, w1: World)
    requires Inv(w) && i in w.open && CloseTables(w, i, saved, w1) && CloseData(w, i, w1)
    ensures Sound(w1) && ViewOf(w, i).Used?
  {
    hide InodesBlock, FreeListBlock, UsesIndirect, KeptMap, CloseData, Inv, OpenMap, Confined;
    InvSound(w);
    CloseMap(w, i, saved, w1);
    CloseConfined(w, i, saved, w1);
    SoundAfter(w, w1, i);
    CursorInside(w, i);
  }

  /** The slots of inode `i` after its close: the map that is kept, and the pointer block. */
  ghost predicate Reslotted(w: World, i: nat, saved: bool, w1: World)
    requires Sound(w) && Sound(w1) && i in w.open
  {
    && i < MAX_INODES && |w.open[i].block_map| == MAX_FILE_BLOCKS && |w1.fs.inodes| == MAX_INODES
    && Slots(w1, i) == KeptMap(w.open[i].block_map, saved) + [w1.fs.inodes[i].indirect_block_no]
  }

  lemma CloseSlots(w: World, i: nat, saved: bool, w1: World)
    requires Sound(w) && Sound(w1) && i in w.open
    requires Inv(w) && CloseTables(w, i, saved, w1) && CloseData(w, i, w1)
    ensures Reslotted(w, i, saved, w1)
  {
    hide CloseData, KeptMap, OpenMap, InodesBlock, FreeListBlock, UsesIndirect, Inv, OnDisk;
    OpenFits(w, i);
    CloseMap(w, i, saved, w1);
  }

  lemma CloseSlotOk(w: World, i: nat, saved: bool, w1: World)
    requires Inv(w) && i in w.open && CloseTables(w, i, saved, w1) && Sound(w1)
    ensures SlotOk(w1, i)
  {
    hide InodesBlock, FreeListBlock, InodeAt, OpenMap, UsesIndirect, Inv, Sound;
    InvSound(w);
    InvSlotOk(w, i);
    CursorInside(w, i);
    InodesSaved(w1.fs.inodes);
  }

  lemma KeptPrefix(c: seq<Byte>, n: nat, saved: bool)
    requires n <= |c|
    ensures KeptBytes(c, saved)[..n] == KeptBytes(c[..n], saved)
  {
  }

  lemma CloseView(w: World, i: nat, saved: bool, w1: World)
    requires Inv(w) && i in w.open && CloseTables(w, i, saved, w1) && CloseData(w, i, w1) && Sound(w1)
    ensures ViewOf(w, i).Used?
    ensures ViewOf(w1, i) == Used(ViewOf(w, i).id, File(KeptBytes(ViewOf(w, i).file.content, saved), Closed))
  {
    hide OpenMap, LoadCache, KeptMap, Inv, Sound, KeptBytes, CloseData, InodesBlock, FreeListBlock, UsesIndirect;
    InvSound(w);
    OpenFits(w, i);
    CloseMap(w, i, saved, w1);
    CloseBytes(w, i, saved, w1);
    CursorInside(w, i);
    KeptPrefix(w.open[i].cache, w.fs.inodes[i].file_size, saved);
  }

  /** Close keeps everything, and keeps the bytes unless a pointer block was needed and none was free;
      then exactly the bytes beyond the direct blocks read as zero from now on. */
  lemma CloseMoves(w: World, i: nat, r: Result, w1: World)
    requires Inv(w) && i in w.open && CloseStep(w, i, r, w1)
    ensures ViewOf(w, i).Used? && r.Done? && (r.ok <==> PointersFit(w, i))
    ensures Moves(w, w1, i, ViewOf(w, i).(file := File(KeptBytes(ViewOf(w, i).file.content, r.ok), Closed)))
  {
    hide InodesBlock, FreeListBlock, OpenMap, Owned, UsesIndirect, CloseData, PointersFit, Slots, ViewOf, SlotOk,
         KeptBytes, KeptMap, Matrix, Confined, CloseStep, Inv, Sound;
    InvSound(w);
    OpenFits(w, i);
    CloseHasEffect(w, i, r, w1);
    CloseSound(w, i, r.ok, w1);
    CloseSlots(w, i, r.ok, w1);
    CloseSlotOk(w, i, r.ok, w1);
    CloseView(w, i, r.ok, w1);
    CloseConfined(w, i, r.ok, w1);
    CloseOwnership(w, i, r.ok, w1, Slots(w1, i));
    Rebuild(w, w1, i);
  }
}
