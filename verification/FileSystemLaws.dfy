/** Laws of the MP7 file system over its reachable states: the disk image on its own is safe, a fresh
    mount rebuilds the tables, deletion frees exactly what the file owned, no block leaks, and what
    was written is what is read back. */
module FileSystemLaws {
  import opened DiskFormat
  import opened FileSystemSpec
  import opened FileSystemRun
  import opened FileSystemSafety
  import opened FileSystemClose
  import opened FileSystemRefinement

  // ---------------------------------------------------------------- the disk image

  /** The blocks named by inode `i` of a disk image: four direct ones, the table, the pointer block. */
  function DiskRow(disk: seq<Block>, i: nat): Row
    requires 2 <= |disk| && i < MAX_INODES && InodeAt(disk[INODES_BLOCK], i).indirect_block_no < |disk|
  {
    var n := InodeAt(disk[INODES_BLOCK], i);
    n.block_no + (if n.indirect_block_no < 0 then NoPointers() else TableOf(disk[n.indirect_block_no])) +
    [n.indirect_block_no]
  }

  /** Read off the image alone: every block named on disk is marked used on disk and named once. */
  ghost predicate ImageSafe(disk: seq<Block>) {
    && 2 <= |disk| && WordAt(disk[FREELIST_BLOCK], BITMAP_BYTES) <= BITMAP_BYTES
    && (forall i | 0 <= i < MAX_INODES :: InodeAt(disk[INODES_BLOCK], i).indirect_block_no < |disk|)
    && (forall i, a | 0 <= i < MAX_INODES && 0 <= a < SLOTS && DiskRow(disk, i)[a] != -1 ::
          && 2 <= DiskRow(disk, i)[a] < WordAt(disk[FREELIST_BLOCK], BITMAP_BYTES)
          && disk[FREELIST_BLOCK][DiskRow(disk, i)[a]] != 0)
    && (forall i, a, j, b | 0 <= i < MAX_INODES && 0 <= a < SLOTS && 0 <= j < MAX_INODES && 0 <= b < SLOTS ::
          DiskRow(disk, i)[a] == DiskRow(disk, j)[b] && DiskRow(disk, i)[a] != -1 ==> i == j && a == b)
  }

  /** What the disk names is part of what memory names, even while files are open. */
  lemma DiskRowInSlots(w: World, i: nat)
    requires Inv(w) && i < MAX_INODES
    ensures InodeAt(w.fs.disk[INODES_BLOCK], i).indirect_block_no < |w.fs.disk|
    ensures forall a | 0 <= a < SLOTS ::
              DiskRow(w.fs.disk, i)[a] == -1 || DiskRow(w.fs.disk, i)[a] == Slots(w, i)[a]
  {
    hide InodeAt, TableOf, FreeListBlock, Owned;
    assert SlotOk(w, i);
    assert DiskRow(w.fs.disk, i) == OpenMap(w.fs, i) + [w.fs.inodes[i].indirect_block_no];
  }

  lemma ImageNames(w: World, i: nat, a: nat)
    requires Inv(w) && |w.fs.free| <= BITMAP_BYTES && i < MAX_INODES && a < SLOTS
    ensures InodeAt(w.fs.disk[INODES_BLOCK], i).indirect_block_no < |w.fs.disk|
    ensures DiskRow(w.fs.disk, i)[a] != -1 ==>
              && 2 <= DiskRow(w.fs.disk, i)[a] < |w.fs.free| && DiskRow(w.fs.disk, i)[a] == Slots(w, i)[a]
              && w.fs.disk[FREELIST_BLOCK][DiskRow(w.fs.disk, i)[a]] != 0
  {
    hide InodeAt, DiskRow, Slots, Owned, FreeListBlock, Inv, Sound;
    InvSound(w);
    DiskRowInSlots(w, i);
    if DiskRow(w.fs.disk, i)[a] != -1 {
      SlotRange(w, i, a);
      StoredBit(w.fs.free, DiskRow(w.fs.disk, i)[a]);
      FreeListStored(w);
    }
  }

  lemma FreeListStored(w: World)
    requires Inv(w)
    ensures w.fs.disk[FREELIST_BLOCK] == FreeListBlock(w.fs.free)
    ensures WordAt(w.fs.disk[FREELIST_BLOCK], BITMAP_BYTES) == |w.fs.free|
  {
    CountRoundTrip(w.fs.free);
    hide WordAt, FreeListBlock;
  }

  lemma ImageNamesOnce(w: World, i: nat, a: nat, j: nat, b: nat)
    requires Inv(w) && |w.fs.free| <= BITMAP_BYTES && i < MAX_INODES && a < SLOTS && j < MAX_INODES && b < SLOTS
    requires InodeAt(w.fs.disk[INODES_BLOCK], i).indirect_block_no < |w.fs.disk|
    requires InodeAt(w.fs.disk[INODES_BLOCK], j).indirect_block_no < |w.fs.disk|
    requires DiskRow(w.fs.disk, i)[a] == DiskRow(w.fs.disk, j)[b] != -1
    ensures i == j && a == b
  {
    hide InodeAt, DiskRow, Slots, Inv, Sound;
    InvSound(w);
    ImageNames(w, i, a);
    ImageNames(w, j, b);
    SlotsDisjoint(w, i, a, j, b);
  }

  /** At every operation boundary the disk image is safe by itself. */
  lemma ImageAlwaysSafe(w: World)
    requires Inv(w) && |w.fs.free| <= BITMAP_BYTES
    ensures ImageSafe(w.fs.disk)
  {
    hide InodeAt, WordAt, DiskRow, Slots, FreeListBlock, Inv, Sound;
    InvSound(w);
    FreeListStored(w);
    forall i | 0 <= i < MAX_INODES
      ensures InodeAt(w.fs.disk[INODES_BLOCK], i).indirect_block_no < |w.fs.disk|
    {
      ImageNames(w, i, 0);
    }
    forall i, a | 0 <= i < MAX_INODES && 0 <= a < SLOTS && DiskRow(w.fs.disk, i)[a] != -1
      ensures 2 <= DiskRow(w.fs.disk, i)[a] < |w.fs.free|
      ensures w.fs.disk[FREELIST_BLOCK][DiskRow(w.fs.disk, i)[a]] != 0
    {
      ImageNames(w, i, a);
    }
    forall i, a, j, b | 0 <= i < MAX_INODES && 0 <= a < SLOTS && 0 <= j < MAX_INODES && 0 <= b < SLOTS
                        && DiskRow(w.fs.disk, i)[a] == DiskRow(w.fs.disk, j)[b] != -1
      ensures i == j && a == b
    {
      ImageNamesOnce(w, i, a, j, b);
    }
  }

  lemma StoredBit(free: seq<Byte>, b: nat)
    requires b < |free| <= BITMAP_BYTES
    ensures FreeListBlock(free)[b] == free[b]
  {
  }

  /** With no file open, mounting the disk as it is rebuilds the bitmap and every inode but its `fs`. */
  lemma MountRebuilds(w: World, self: Word, s: Fs)
    requires Inv(w) && w.open == map[] && |w.fs.free| <= BITMAP_BYTES && Mounts(w.fs.disk, self, s)
    ensures s.free == w.fs.free
    ensures forall i | 0 <= i < MAX_INODES :: s.inodes[i] == w.fs.inodes[i].(fs := self)
  {
    FreeListRoundTripIff(w.fs.free);
    hide InodeAt, FreeListBlock, Owned, Matrix;
    forall i | 0 <= i < MAX_INODES
      ensures s.inodes[i] == w.fs.inodes[i].(fs := self)
    {
      assert SlotOk(w, i);
    }
  }

  // ---------------------------------------------------------------- deletion

  function FreeBlocks(free: seq<Byte>): set<int> {
    set b | 0 <= b < |free| && free[b] == 0
  }

  /** The blocks in the first `k` slots of a row. */
  function BlocksIn(row: Row, k: nat): set<int>
    requires k <= SLOTS
  {
    set a | 0 <= a < k && row[a] != -1 :: row[a] as int
  }

  /** How many of the first `k` slots of a row are in use. */
  function SlotsUsed(row: Row, k: nat): nat
    requires k <= SLOTS
  {
    if k == 0 then 0 else SlotsUsed(row, k - 1) + if row[k - 1] == -1 then 0 else 1
  }

  lemma {:induction false} CountBlocks(row: Row, k: nat)
    requires k <= SLOTS
    requires forall a, b | 0 <= a < b < SLOTS && row[a] != -1 :: row[a] != row[b]
    ensures |BlocksIn(row, k)| == SlotsUsed(row, k)
  {
    if k > 0 {
      CountBlocks(row, k - 1);
      if row[k - 1] == -1 {
        assert BlocksIn(row, k) == BlocksIn(row, k - 1);
      } else {
        assert BlocksIn(row, k) == BlocksIn(row, k - 1) + {row[k - 1] as int};
      }
    }
  }

  lemma RowInjective(w: World, i: nat)
    requires Inv(w) && i < MAX_INODES
    ensures forall a, b | 0 <= a < b < SLOTS && Slots(w, i)[a] != -1 :: Slots(w, i)[a] != Slots(w, i)[b]
  {
    hide InodeAt, SlotOk, Slots;
    forall a, b | 0 <= a < b < SLOTS && Slots(w, i)[a] != -1
      ensures Slots(w, i)[a] != Slots(w, i)[b]
    {
      assert Matrix(w)[i][a] == Slots(w, i)[a] && Matrix(w)[i][b] == Slots(w, i)[b];
    }
  }

  lemma ClearedBlocks(free: seq<Byte>, free1: seq<Byte>, row: Row)
    requires |free1| == |free| && forall b | 0 <= b < |free| :: free1[b] == if b in row then 0 else free[b]
    requires forall a | 0 <= a < SLOTS && row[a] != -1 :: 0 <= row[a] < |free| && free[row[a]] != 0
    requires forall a, b | 0 <= a < b < SLOTS && row[a] != -1 :: row[a] != row[b]
    ensures FreeBlocks(free) !! BlocksIn(row, SLOTS)
    ensures FreeBlocks(free1) == FreeBlocks(free) + BlocksIn(row, SLOTS)
    ensures |FreeBlocks(free1)| == |FreeBlocks(free)| + SlotsUsed(row, SLOTS)
  {
    CountBlocks(row, SLOTS);
    assert FreeBlocks(free1) == FreeBlocks(free) + BlocksIn(row, SLOTS);
  }

  lemma DeleteFrees(w: World, i: nat, w1: World)
    requires Inv(w) && i < MAX_INODES && DeleteEffect(w, i, w1)
    ensures FreeBlocks(w.fs.free) !! BlocksIn(Slots(w, i), SLOTS)
    ensures FreeBlocks(w1.fs.free) == FreeBlocks(w.fs.free) + BlocksIn(Slots(w, i), SLOTS)
    ensures |FreeBlocks(w1.fs.free)| == |FreeBlocks(w.fs.free)| + SlotsUsed(Slots(w, i), SLOTS)
  {
    hide InodeAt, SlotOk, Slots, Owned, InodesBlock, FreeListBlock, OpenMap, Matrix, FreeBlocks, BlocksIn, SlotsUsed;
    RowInjective(w, i);
    NamedBlocksAboveTables(w);
    ClearedBlocks(w.fs.free, w1.fs.free, Slots(w, i));
  }

  /** Deleting a file frees exactly its data blocks and its pointer block, one per slot in use, and
      leaves every other file alone. */
  lemma DeleteFreesExactly(w: World, id: Int32, w1: World, i: nat)
    requires Inv(w) && Step(w, Delete(id), Done(true), w1) && i == Lookup(w.fs, id)
    ensures Inv(w1)
    ensures FreeBlocks(w.fs.free) !! BlocksIn(Slots(w, i), SLOTS)
    ensures FreeBlocks(w1.fs.free) == FreeBlocks(w.fs.free) + BlocksIn(Slots(w, i), SLOTS)
    ensures |FreeBlocks(w1.fs.free)| == |FreeBlocks(w.fs.free)| + SlotsUsed(Slots(w, i), SLOTS)
    ensures forall j | 0 <= j < MAX_INODES && j != i :: ViewOf(w1, j) == ViewOf(w, j)
  {
    hide InodeAt, SlotOk, Slots, Owned, ViewOf, InodesBlock, FreeListBlock, DeleteFile, OpenMap, Matrix,
         FreeBlocks, BlocksIn, SlotsUsed, DeleteEffect;
    DeleteMoves(w, id);
    DeleteHasEffect(w, id);
    DeleteFrees(w, i, w1);
  }

  // ---------------------------------------------------------------- no leaks

  /** Every used block is reserved or in some file, and the files have the blocks their sizes call for. */
  ghost predicate Tight(w: World)
    requires Sound(w)
  {
    && (forall b | 2 <= b < |w.fs.free| && w.fs.free[b] != 0 ::
          exists i | 0 <= i < MAX_INODES :: b in Slots(w, i))
    && (forall i | 0 <= i < MAX_INODES :: Backed(w, i))
  }

  /** Exactly the blocks that the size of the file reaches are allocated. A file that has a pointer block
      reaches behind the direct blocks, and a closed file that does has one. */
  ghost predicate Backed(w: World, i: nat)
    requires Sound(w) && i < MAX_INODES
  {
    var n := w.fs.inodes[i];
    && (forall a | 0 <= a < MAX_FILE_BLOCKS :: MapOf(w, i)[a] != -1 <==> a * BLOCK_SIZE < n.file_size)
    && (n.indirect_block_no != -1 ==> MAX_DIRECT * BLOCK_SIZE < n.file_size)
    && (i !in w.open && MAX_DIRECT * BLOCK_SIZE < n.file_size ==> n.indirect_block_no != -1)
  }

  /** Tightness survives a step that only moves inode `i`, takes no block it does not name and lets
      go of no block it does not free. */
  lemma TightAfter(w: World, w1: World, i: int, v: View)
    requires -1 <= i < MAX_INODES && Moves(w, w1, i, v) && Tight(w)
    requires |w1.fs.free| == |w.fs.free|
    requires forall b | 2 <= b < |w.fs.free| && w1.fs.free[b] != 0 && (i < 0 || b !in Slots(w1, i)) ::
               w.fs.free[b] != 0 && (i < 0 || b !in Slots(w, i))
    requires forall j | 0 <= j < MAX_INODES && j != i :: w1.fs.inodes[j].file_size == w.fs.inodes[j].file_size
    requires 0 <= i ==> Backed(w1, i)
    ensures Tight(w1)
  {
    hide InodeAt, SlotOk, Owned, ViewOf, OpenMap, Matrix;
    forall b | 2 <= b < |w1.fs.free| && w1.fs.free[b] != 0
      ensures exists j | 0 <= j < MAX_INODES :: b in Slots(w1, j)
    {
      if 0 <= i && b in Slots(w1, i) {
      } else {
        var j :| 0 <= j < MAX_INODES && b in Slots(w, j);
        assert Slots(w1, j) == Slots(w, j);
      }
    }
    forall j | 0 <= j < MAX_INODES
      ensures Backed(w1, j)
    {
      if j != i {
        assert Backed(w, j) && Slots(w1, j) == Slots(w, j);
        InvSlotOk(w, j);
        BackedSame(w, w1, j);
      }
    }
  }

  /** Files that mean the same are open in both worlds or in neither. */
  lemma SameOpen(w: World, w1: World, j: nat)
    requires Sound(w) && Sound(w1) && j < MAX_INODES && ViewOf(w, j) == ViewOf(w1, j) && SlotOk(w, j)
    ensures w.fs.inodes[j].file_size == 0 || (j in w1.open <==> j in w.open)
  {
    hide InodeAt, OpenMap, OnDisk, Bytes, HandleOk, SameNames;
  }

  lemma BackedSame(w: World, w1: World, j: nat)
    requires Sound(w) && Sound(w1) && j < MAX_INODES && Slots(w, j) == Slots(w1, j) && ViewOf(w, j) == ViewOf(w1, j)
    requires Backed(w, j) && w1.fs.inodes[j].file_size == w.fs.inodes[j].file_size && SlotOk(w, j)
    ensures Backed(w1, j)
  {
    hide Sound, SlotOk, ViewOf, Slots, MapOf;
    SameOpen(w, w1, j);
    SlotsAreMap(w, j);
    SlotsAreMap(w1, j);
  }

  lemma SameMap(w: World, w1: World, j: nat)
    requires Sound(w) && Sound(w1) && j < MAX_INODES && Slots(w, j) == Slots(w1, j)
    ensures MapOf(w, j) == MapOf(w1, j)
  {
    hide OpenMap;
    assert MapOf(w, j) == Slots(w, j)[..MAX_FILE_BLOCKS];
    assert MapOf(w1, j) == Slots(w1, j)[..MAX_FILE_BLOCKS];
  }

  lemma CreateTight(w: World, id: Int32, w1: World)
    requires Inv(w) && Tight(w) && Step(w, Create(id), Done(true), w1)
    ensures Inv(w1) && Tight(w1)
  {
    hide ViewOf, Slots, MapOf, CreateFile, Tight, Backed, Moves, Inv, Sound;
    InvSound(w);
    CreateMoves(w, id);
    CreatedInode(w.fs, id);
    var (i, v) := (Lookup(w.fs, -1), Used(id, File([], Closed)));
    MovesTo(w, w1, i, v);
    UnusedRow(w, i);
    EmptyRow(w1, i);
    EmptyBacked(w1, i);
    TightAfter(w, w1, i, v);
  }

  lemma EmptyRow(w: World, i: nat)
    requires Sound(w) && i < MAX_INODES && i !in w.open
    requires w.fs.inodes[i].block_no == NO_BLOCKS && w.fs.inodes[i].indirect_block_no == -1
    ensures forall a | 0 <= a < SLOTS :: Slots(w, i)[a] == -1
  {
    assert Slots(w, i) == NO_BLOCKS + NoPointers() + [-1];
  }

  /** An unused inode is closed and empty. */
  lemma UnusedRow(w: World, i: nat)
    requires Inv(w) && Sound(w) && i < MAX_INODES && w.fs.inodes[i].id == -1
    ensures i !in w.open && w.fs.inodes[i].file_size == 0 && forall a | 0 <= a < SLOTS :: Slots(w, i)[a] == -1
  {
    hide InodeAt, Owned, Matrix, Slots;
    InvSlotOk(w, i);
    EmptyRow(w, i);
  }

  lemma CreatedInode(s: Fs, id: Int32)
    requires Shape(s) && CreateFile(s, id).1
    ensures var (s1, i) := (CreateFile(s, id).0, Lookup(s, -1));
            && 0 <= i < MAX_INODES && s.inodes[i].id == -1 && s1.free == s.free && s1.self == s.self
            && s1.inodes == s.inodes[i := Blank(id, s.self)]
  {
    hide InodesBlock;
  }

  lemma EmptyBacked(w: World, i: nat)
    requires Sound(w) && i < MAX_INODES && w.fs.inodes[i].file_size == 0
    requires forall a | 0 <= a < SLOTS :: Slots(w, i)[a] == -1
    ensures Backed(w, i)
  {
    hide Slots, MapOf, Sound;
    SlotsAreMap(w, i);
  }

  lemma DeleteTight(w: World, id: Int32, w1: World)
    requires Inv(w) && Tight(w) && Step(w, Delete(id), Done(true), w1)
    ensures Inv(w1) && Tight(w1)
  {
    hide ViewOf, Slots, DeleteFile, Tight, Backed, Moves, Inv, Sound;
    InvSound(w);
    DeleteFound(w.fs, id);
    DeleteMoves(w, id);
    DeleteHasEffect(w, id);
    var i := Lookup(w.fs, id);
    MovesTo(w, w1, i, Unused);
    DeleteEmpties(w, i, w1);
    DeletedInode(w, i, w1);
    EmptyBacked(w1, i);
    TightAfter(w, w1, i, Unused);
  }

  lemma DeleteFound(s: Fs, id: Int32)
    requires Shape(s) && DeleteFile(s, id).1
    ensures 0 <= Lookup(s, id) < MAX_INODES
  {
  }

  lemma DeletedInode(w: World, i: nat, w1: World)
    requires Sound(w) && i < MAX_INODES && DeleteEffect(w, i, w1)
    ensures |w1.fs.inodes| == MAX_INODES && w1.fs.inodes[i].file_size == 0
  {
    hide Slots, OpenMap, InodesBlock, FreeListBlock, OnDisk;
  }

  /** Opening a file and moving its cursor leave blocks and sizes alone. */
  lemma HandleTight(w: World, w1: World, i: nat, v: View)
    requires i < MAX_INODES && Moves(w, w1, i, v) && Tight(w) && w1.fs == w.fs && Slots(w1, i) == Slots(w, i)
    requires i in w1.open
    ensures Tight(w1)
  {
    hide InodeAt, SlotOk, Owned, ViewOf, Matrix, OpenMap, Slots;
    SameMap(w, w1, i);
    assert Backed(w, i);
    TightAfter(w, w1, i, v);
  }

  lemma WriteTight(w: World, i: nat, data: seq<Byte>, r: Result, w1: World)
    requires Inv(w) && Tight(w) && i in w.open && WriteStep(w, i, data, r, w1)
    ensures Inv(w1) && Tight(w1)
  {
    hide InodeAt, SlotOk, Owned, ViewOf, Matrix, OpenMap, Slots, WriteStep, FreeListBlock, Overlay, Tight, Backed,
         Inv, Sound, Moves;
    InvSound(w);
    WriteMovesOnly(w, i, data, r, w1);
    WriteBacked(w, i, data, r, w1);
    WriteTakes(w, i, data, r, w1);
    WriteEffect(w, i, data, r, w1);
    TightAfter(w, w1, i, ViewOf(w1, i));
  }

  lemma MovesTo(w: World, w1: World, i: nat, v: View)
    requires Moves(w, w1, i, v) && i < MAX_INODES
    ensures Inv(w) && Inv(w1) && Sound(w1) && ViewOf(w1, i) == v
  {
    hide InodeAt, SlotOk, Owned, ViewOf, Matrix, OpenMap, Slots;
  }

  lemma WriteMovesOnly(w: World, i: nat, data: seq<Byte>, r: Result, w1: World)
    requires Inv(w) && i in w.open && WriteStep(w, i, data, r, w1)
    ensures i < MAX_INODES && Inv(w1) && Sound(w1) && Moves(w, w1, i, ViewOf(w1, i))
  {
    hide ViewOf, WriteStep, Overlay, Inv, Sound, Moves;
    InvSound(w);
    OpenFits(w, i);
    WriteCount(w, i, data, r, w1);
    WriteMoves(w, i, data, r, w1);
    MovesTo(w, w1, i, ViewOf(w, i).(file := File(Overlay(ViewOf(w, i).file.content, w.open[i].pos, data[..r.k]),
                                                 At(w.open[i].pos + r.k))));
  }

  /** What a write does to the size and the block map. */
  lemma WriteSizes(w: World, i: nat, data: seq<Byte>, r: Result, w1: World)
    requires Sound(w) && i in w.open && WriteStep(w, i, data, r, w1)
    ensures i < MAX_INODES && |w1.fs.inodes| == MAX_INODES == |w.fs.inodes| && i in w1.open
    ensures w1.open[i].pos >= w.open[i].pos && |w1.open[i].block_map| == |w.open[i].block_map| == MAX_FILE_BLOCKS
    ensures w1.fs.inodes[i].file_size ==
            if w.fs.inodes[i].file_size < w1.open[i].pos then w1.open[i].pos else w.fs.inodes[i].file_size
    ensures forall a | 0 <= a < MAX_FILE_BLOCKS ::
              if Meets(a, w.open[i].pos, w1.open[i].pos) then 0 <= w1.open[i].block_map[a]
              else w1.open[i].block_map[a] == w.open[i].block_map[a]
  {
    hide OpenMap, Meets;
  }

  lemma WriteBacked(w: World, i: nat, data: seq<Byte>, r: Result, w1: World)
    requires Inv(w) && Tight(w) && i in w.open && WriteStep(w, i, data, r, w1) && Sound(w1)
    ensures Backed(w1, i)
  {
    hide Inv, Sound, OpenMap, WriteStep, Slots, MapOf;
    InvSound(w);
    CursorInside(w, i);
    WriteSizes(w, i, data, r, w1);
    OpenSlots(w, i);
    OpenSlots(w1, i);
    WriteOpen(w, i, data, r, w1);
    var (h, h1) := (w.open[i], w1.open[i]);
    forall a | 0 <= a < MAX_FILE_BLOCKS
      ensures h1.block_map[a] != -1 <==> a * BLOCK_SIZE < w1.fs.inodes[i].file_size
    {
      assert Backed(w, i) && MapOf(w, i)[a] == h.block_map[a];
    }
  }

  /** What a write does to the bitmap. */
  lemma WriteMarks(w: World, i: nat, data: seq<Byte>, r: Result, w1: World)
    requires Sound(w) && i in w.open && WriteStep(w, i, data, r, w1)
    ensures i in w1.open && |w1.fs.free| == |w.fs.free|
            && |w1.open[i].block_map| == |w.open[i].block_map| == MAX_FILE_BLOCKS
    ensures forall a | 0 <= a < MAX_FILE_BLOCKS ::
              w1.open[i].block_map[a] == w.open[i].block_map[a] || w.open[i].block_map[a] < 0
    ensures forall b | 0 <= b < |w.fs.free| && w1.fs.free[b] != w.fs.free[b] :: b in w1.open[i].block_map
  {
    hide OpenMap, Meets;
  }

  lemma WriteTakes(w: World, i: nat, data: seq<Byte>, r: Result, w1: World)
    requires Inv(w) && i in w.open && WriteStep(w, i, data, r, w1) && Sound(w1)
    ensures |w1.fs.free| == |w.fs.free|
    ensures forall b | 2 <= b < |w.fs.free| && w1.fs.free[b] != 0 && b !in Slots(w1, i) ::
              w.fs.free[b] != 0 && b !in Slots(w, i)
  {
    hide Slots, Inv, Sound, WriteStep, MapOf;
    InvSound(w);
    WriteMarks(w, i, data, r, w1);
    WriteOpen(w, i, data, r, w1);
    OpenSlots(w, i);
    OpenSlots(w1, i);
    var m, m1 := w.open[i].block_map, w1.open[i].block_map;
    forall b: Int32 | 0 <= b && b in m
      ensures b in m1
    {
      var a :| 0 <= a < MAX_FILE_BLOCKS && m[a] == b;
      assert m1[a] == b;
    }
  }

  lemma CloseMovesOnly(w: World, i: nat, r: Result, w1: World)
    requires Inv(w) && i in w.open && CloseStep(w, i, r, w1)
    ensures i < MAX_INODES && Inv(w1) && Sound(w1) && Moves(w, w1, i, ViewOf(w1, i)) && r.Done?
    ensures CloseTables(w, i, r.ok, w1) && CloseData(w, i, w1)
  {
    hide ViewOf, CloseStep, CloseTables, CloseData, KeptBytes, Inv, Sound, Moves, PointersFit;
    InvSound(w);
    OpenFits(w, i);
    CloseHasEffect(w, i, r, w1);
    CloseMoves(w, i, r, w1);
    MovesTo(w, w1, i, ViewOf(w, i).(file := File(KeptBytes(ViewOf(w, i).file.content, r.ok), Closed)));
  }

  lemma CloseTakes(w: World, i: nat, w1: World)
    requires Sound(w) && Sound(w1) && i in w.open && CloseTables(w, i, true, w1)
    requires Slots(w1, i) == w.open[i].block_map + [w1.fs.inodes[i].indirect_block_no]
    ensures i < MAX_INODES && i !in w1.open && |w1.fs.free| == |w.fs.free|
    ensures forall b | 2 <= b < |w.fs.free| && w1.fs.free[b] != 0 && b !in Slots(w1, i) ::
              w.fs.free[b] != 0 && b !in Slots(w, i)
    ensures forall j | 0 <= j < MAX_INODES :: w1.fs.inodes[j].file_size == w.fs.inodes[j].file_size
  {
    hide Slots, OpenMap, InodesBlock, FreeListBlock, UsesIndirect, MapOf, OnDisk;
    OpenSlots(w, i);
  }

  lemma CloseTight(w: World, i: nat, w1: World)
    requires Inv(w) && Tight(w) && i in w.open && CloseStep(w, i, Done(true), w1)
    ensures Inv(w1) && Tight(w1)
  {
    hide ViewOf, Slots, MapOf, CloseStep, CloseTables, CloseData, Tight, Inv, Sound, Moves, Backed;
    InvSound(w);
    CloseMovesOnly(w, i, Done(true), w1);
    CloseSlots(w, i, true, w1);
    CloseTakes(w, i, w1);
    TightBacked(w, i);
    OpenFits(w, i);
    CloseNeeds(w, i, w1);
    KeptBacked(w, w1, i, w.open[i].block_map);
    TightAfter(w, w1, i, ViewOf(w1, i));
  }

  lemma TightBacked(w: World, i: nat)
    requires Sound(w) && Tight(w) && i < MAX_INODES
    ensures Backed(w, i)
  {
  }

  /** After the close the file has a pointer block exactly when it reaches behind the direct blocks. */
  lemma CloseNeeds(w: World, i: nat, w1: World)
    requires Inv(w) && Sound(w) && i in w.open && i < MAX_INODES && Backed(w, i) && CloseTables(w, i, true, w1)
    ensures w1.fs.inodes[i].indirect_block_no != -1 <==> MAX_DIRECT * BLOCK_SIZE < w.fs.inodes[i].file_size
  {
    hide Inv, Slots, OpenMap, InodesBlock, FreeListBlock, OnDisk;
    OpenSlots(w, i);
    var m := w.open[i].block_map;
    if MAX_DIRECT * BLOCK_SIZE < w.fs.inodes[i].file_size {
      assert MapOf(w, i)[MAX_DIRECT] != -1 && Slots(w, i)[MAX_DIRECT] == m[MAX_DIRECT];
      SlotRange(w, i, MAX_DIRECT);
    }
    if UsesIndirect(m) {
      var a :| MAX_DIRECT <= a < MAX_FILE_BLOCKS && 0 <= m[a];
      assert MapOf(w, i)[a] != -1;
    }
  }

  lemma KeptBacked(w: World, w1: World, i: nat, m: seq<Int32>)
    requires Sound(w) && Sound(w1) && i in w.open && m == w.open[i].block_map && |m| == MAX_FILE_BLOCKS && i !in w1.open
    requires Slots(w1, i) == m + [w1.fs.inodes[i].indirect_block_no]
    requires Backed(w, i) && w1.fs.inodes[i].file_size == w.fs.inodes[i].file_size
    requires w1.fs.inodes[i].indirect_block_no != -1 <==> MAX_DIRECT * BLOCK_SIZE < w.fs.inodes[i].file_size
    ensures Backed(w1, i)
  {
    hide Slots, OpenMap;
    SlotsAreMap(w1, i);
    assert forall a | 0 <= a < MAX_FILE_BLOCKS :: Slots(w1, i)[a] == m[a];
    assert MapOf(w, i) == m;
    forall a | 0 <= a < MAX_FILE_BLOCKS
      ensures MapOf(w1, i)[a] == MapOf(w, i)[a]
    {
    }
  }

  /** A step that is not a failed close keeps the bitmap tight. */
  lemma StepTight(w: World, op: Op, r: Result, w1: World)
    requires Inv(w) && Tight(w) && Step(w, op, r, w1) && (op.Close? ==> r == Done(true))
    ensures Inv(w1) && Tight(w1)
  {
    hide Tight, Moves, Inv;
    match op
    case Create(id) => if r.ok { CreateTight(w, id, w1); } else { assert w1 == w; }
    case Delete(id) => if r.ok { DeleteTight(w, id, w1); } else { assert w1 == w; }
    case Write(id, data) => WriteTight(w, Lookup(w.fs, id), data, r, w1);
    case Close(id) => CloseTight(w, Lookup(w.fs, id), w1);
    case CloseMissing => SaveTight(w);
    case Remount(self) => RemountTight(w, self, w1);
    case Open(id) => OpenTight(w, id, r, w1);
    case Read(id, n) => ReadTight(w, Lookup(w.fs, id), n, r, w1);
    case Reset(id) => CursorTight(w, Lookup(w.fs, id), 0);
  }

  lemma StillTight(w: World, w1: World)
    requires Moves(w, w1, -1, Unused) && Tight(w) && w1.fs.free == w.fs.free
    requires forall j | 0 <= j < MAX_INODES :: w1.fs.inodes[j].file_size == w.fs.inodes[j].file_size
    ensures Tight(w1)
  {
    hide InodeAt, SlotOk, Owned, ViewOf, Matrix, OpenMap, Slots, Tight;
    TightAfter(w, w1, -1, Unused);
  }

  lemma SaveTight(w: World)
    requires Inv(w) && Tight(w)
    ensures Inv(w.(fs := SaveInodes(w.fs))) && Tight(w.(fs := SaveInodes(w.fs)))
  {
    hide InodeAt, SlotOk, Owned, ViewOf, Matrix, OpenMap, Slots, Tight, InodesBlock;
    SaveMoves(w);
    StillTight(w, w.(fs := SaveInodes(w.fs)));
  }

  lemma RemountTight(w: World, self: Word, w1: World)
    requires Inv(w) && Tight(w) && |w.fs.free| <= BITMAP_BYTES && w.open == map[] == w1.open
    requires Mounts(Unmount(w.fs).disk, self, w1.fs)
    ensures Inv(w1) && Tight(w1)
  {
    RemountMoves(w, self, w1);
    hide InodeAt, SlotOk, Owned, ViewOf, Matrix, OpenMap, Slots, Tight, Moves;
    FreeListRoundTripIff(w.fs.free);
    InodesSaved(w.fs.inodes);
    hide FreeListBlock, InodesBlock;
    StillTight(w, w1);
  }

  lemma OpenTight(w: World, id: Int32, r: Result, w1: World)
    requires Inv(w) && Tight(w) && Step(w, Open(id), r, w1)
    ensures Inv(w1) && Tight(w1)
  {
    hide Tight, ViewOf, Moves, Inv, Sound, Slots;
    var i := Lookup(w.fs, id);
    if 0 <= i {
      InvSound(w);
      OpenMoves(w, id, r, w1);
      MovesTo(w, w1, i, Used(id, ViewOf(w, i).file.(cursor := At(0))));
      OpenedSlots(w, id, r, w1);
      HandleTight(w, w1, i, Used(id, ViewOf(w, i).file.(cursor := At(0))));
    }
  }

  lemma OpenedSlots(w: World, id: Int32, r: Result, w1: World)
    requires Sound(w) && Sound(w1) && Step(w, Open(id), r, w1) && 0 <= Lookup(w.fs, id)
    ensures w1.fs == w.fs && Slots(w1, Lookup(w.fs, id)) == Slots(w, Lookup(w.fs, id))
  {
    hide OpenMap, LoadCache;
  }

  lemma CursorTight(w: World, i: nat, pos: nat)
    requires Inv(w) && Tight(w) && i in w.open && pos <= w.fs.inodes[i].file_size
    ensures Inv(SetPos(w, i, pos)) && Tight(SetPos(w, i, pos))
  {
    hide Tight, ViewOf, Moves, Inv, Sound, Slots;
    InvSound(w);
    SetPosMoves(w, i, pos);
    var v := ViewOf(w, i).(file := ViewOf(w, i).file.(cursor := At(pos)));
    MovesTo(w, SetPos(w, i, pos), i, v);
    OpenSlots(w, i);
    OpenSlots(SetPos(w, i, pos), i);
    HandleTight(w, SetPos(w, i, pos), i, v);
  }

  lemma ReadTight(w: World, i: nat, n: nat, r: Result, w1: World)
    requires Inv(w) && Tight(w) && i in w.open && ReadStep(w, i, n, r, w1)
    ensures Inv(w1) && Tight(w1)
  {
    hide Tight, Inv, Sound;
    InvSound(w);
    OpenFits(w, i);
    CursorInside(w, i);
    CursorTight(w, i, w.open[i].pos + ReadCount(w.fs.inodes[i].file_size, w.open[i], n));
  }

  /** Over every run in which no close ran out of space for its pointer block, on a disk whose bitmap
      fits into block 1, the used blocks are exactly blocks 0 and 1 and the blocks of files. */
  lemma {:induction false} RunTight(ws: seq<World>, ops: seq<Op>, rs: seq<Result>)
    requires IsRun(ws, ops, rs) && |ws[0].fs.free| <= BITMAP_BYTES
    requires forall k | 0 <= k < |ops| && ops[k].Close? :: rs[k] == Done(true)
    ensures Inv(ws[|ops|]) && Tight(ws[|ops|])
    ensures forall b | 2 <= b < |ws[|ops|].fs.free| ::
              ws[|ops|].fs.free[b] != 0 <==> exists i | 0 <= i < MAX_INODES :: b in Slots(ws[|ops|], i)
    decreases |ops|
  {
    var n := |ops|;
    var w := ws[n];
    if n == 0 {
      InitialInv(w);
      InitialTight(w);
    } else {
      hide Inv, Tight, Step;
      RunTight(ws[..n], ops[..n - 1], rs[..n - 1]);
      StepTight(ws[n - 1], ops[n - 1], rs[n - 1], w);
    }
    hide Step, Slots;
    TightExactly(w);
  }

  lemma TightExactly(w: World)
    requires Inv(w) && Tight(w)
    ensures forall b | 2 <= b < |w.fs.free| ::
              w.fs.free[b] != 0 <==> exists i | 0 <= i < MAX_INODES :: b in Slots(w, i)
  {
    hide InodeAt, SlotOk, Owned, ViewOf, Matrix, OpenMap, Slots;
    forall b, i | 2 <= b < |w.fs.free| && 0 <= i < MAX_INODES && b in Slots(w, i)
      ensures w.fs.free[b] != 0
    {
      var a :| 0 <= a < SLOTS && Slots(w, i)[a] == b;
      SlotRange(w, i, a);
    }
  }

  lemma InitialTight(w: World)
    requires Initial(w) && Inv(w) && |w.fs.free| <= BITMAP_BYTES
    ensures Tight(w)
  {
    hide InodeAt, Owned, OpenMap, Slots, Mounts, FormatDisk, Matrix, FreeListBlock, Backed;
    var disk: seq<Block>, size: Word :|
      2 <= |disk| && size / BLOCK_SIZE <= |disk| && Mounts(FormatDisk(disk, size), w.fs.self, w.fs);
    InitialInv(w);
    FormatCount(disk, size, w.fs.self, w.fs);
    forall i | 0 <= i < MAX_INODES
      ensures Backed(w, i)
    {
      UnusedRow(w, i);
      EmptyBacked(w, i);
    }
  }

  // ---------------------------------------------------------------- sessions

  /** Since `free0`, the blocks in `row` were taken and no others. */
  ghost predicate Taken(free: seq<Byte>, row: Row, free0: seq<Byte>) {
    && |free| == |free0|
    && forall b | 0 <= b < |free0| ::
         if free0[b] != 0 then free[b] == free0[b] && b !in row else free[b] == 0 || b in row
  }

  ghost predicate Since(w: World, i: nat, free0: seq<Byte>)
    requires Sound(w) && i < MAX_INODES
  {
    Taken(w.fs.free, Slots(w, i), free0)
  }

  lemma TakenOneMore(free: seq<Byte>, row: Row, b: Int32, free0: seq<Byte>)
    requires Taken(free, row, free0) && 0 <= b < |free| && free[b] == 0 && row[SLOTS - 1] == -1
    ensures Taken(free[b := 1], row[SLOTS - 1 := b], free0)
  {
    var row1: Row := row[SLOTS - 1 := b];
    forall c | 0 <= c < |free0|
      ensures if free0[c] != 0 then free[b := 1][c] == free0[c] && c !in row1 else free[b := 1][c] == 0 || c in row1
    {
      if c in row {
        var a :| 0 <= a < SLOTS && row[a] == c;
        assert row1[a] == c;
      }
      assert row1[SLOTS - 1] == b;
    }
  }

  lemma TakenCleared(free: seq<Byte>, row: Row, free0: seq<Byte>, free1: seq<Byte>)
    requires Taken(free, row, free0) && |free1| == |free|
    requires forall b | 0 <= b < |free| :: free1[b] == if b in row then 0 else free[b]
    ensures free1 == free0
  {
  }

  ghost predicate SessionOp(op: Op, r: Result, id: int) {
    match op
    case Open(x) => x == id
    case Read(x, _) => x == id
    case Write(x, _) => x == id
    case Reset(x) => x == id
    case Close(x) => x == id && r == Done(true)
    case _ => false
  }

  lemma SinceWrite(w: World, i: nat, data: seq<Byte>, r: Result, w1: World, free0: seq<Byte>)
    requires Inv(w) && i in w.open && WriteStep(w, i, data, r, w1) && Sound(w1) && Since(w, i, free0)
    ensures Since(w1, i, free0)
  {
    hide InodeAt, SlotOk, Owned, Matrix, OpenMap, FreeListBlock;
    var (m, m1, ib) := (w.open[i].block_map, w1.open[i].block_map, w.fs.inodes[i].indirect_block_no);
    assert Slots(w, i) == m + [ib] && Slots(w1, i) == m1 + [ib];
    hide Slots;
    NamedBlocksAboveTables(w);
    forall b | 0 <= b < |free0|
      ensures free0[b] != 0 ==> w1.fs.free[b] == free0[b] && b !in Slots(w1, i)
      ensures free0[b] == 0 ==> w1.fs.free[b] == 0 || b in Slots(w1, i)
    {
      SinceWriteAt(m, m1, ib, w.fs.free, w1.fs.free, b);
    }
  }

  /** How growing a block map changes which slots and bitmap entries mention block `b`. */
  lemma SinceWriteAt(m: seq<Int32>, m1: seq<Int32>, ib: Int32, free: seq<Byte>, free1: seq<Byte>, b: nat)
    requires |m| == |m1| && |free| == |free1| && b < |free|
    requires forall a | 0 <= a < |m| && m1[a] != m[a] :: m[a] < 0 && 0 <= m1[a] < |free| && free[m1[a]] == 0
    requires forall c | 0 <= c < |free| :: free1[c] == if Entered(m, m1, c) then 1 else free[c]
    ensures free[b] != 0 ==> free1[b] == free[b] && (b in m1 + [ib] <==> b in m + [ib])
    ensures b in m + [ib] ==> b in m1 + [ib]
    ensures free[b] == 0 ==> free1[b] == 0 || b in m1 + [ib]
  {
    if b in m {
      var a :| 0 <= a < |m| && m[a] == b;
      assert m1[a] == b;
    }
    if b in m1 && free[b] != 0 {
      var a :| 0 <= a < |m1| && m1[a] == b;
      assert m[a] == b;
    }
    if Entered(m, m1, b) {
      var a :| 0 <= a < |m| && m1[a] == b && m[a] != b;
      assert m1[a] in m1;
    }
  }

  lemma LastReplaced(m: seq<Int32>, x: Int32, y: Int32)
    requires |m| == SLOTS - 1
    ensures m + [y] == (m + [x])[SLOTS - 1 := y]
  {
  }

  lemma CloseRows(w: World, i: nat, w1: World)
    requires Inv(w) && i in w.open && CloseTables(w, i, true, w1) && CloseData(w, i, w1) && Sound(w1)
    ensures Slots(w, i)[SLOTS - 1] == w.fs.inodes[i].indirect_block_no
    ensures Slots(w1, i) == Slots(w, i)[SLOTS - 1 := w1.fs.inodes[i].indirect_block_no]
  {
    hide CloseTables, CloseData, Inv, Slots, Sound;
    InvSound(w);
    CloseSlots(w, i, true, w1);
    OpenSlots(w, i);
    LastReplaced(w.open[i].block_map, w.fs.inodes[i].indirect_block_no, w1.fs.inodes[i].indirect_block_no);
  }

  lemma SinceClose(w: World, i: nat, w1: World, free0: seq<Byte>)
    requires Inv(w) && i in w.open && CloseTables(w, i, true, w1) && CloseData(w, i, w1) && Sound(w1)
             && Since(w, i, free0)
    ensures Since(w1, i, free0)
  {
    hide FreeListBlock, InodesBlock, CloseData, UsesIndirect, Taken, Slots, OpenMap, SlotOk, Owned;
    CloseRows(w, i, w1);
    if w1.fs.inodes[i].indirect_block_no != w.fs.inodes[i].indirect_block_no {
      TakenOneMore(w.fs.free, Slots(w, i), w1.fs.inodes[i].indirect_block_no, free0);
    } else {
      assert Slots(w1, i) == Slots(w, i);
    }
  }

  ghost predicate InSession(w: World, id: Int32, i: nat, free0: seq<Byte>) {
    Inv(w) && i < MAX_INODES && w.fs.inodes[i].id == id != -1 && Since(w, i, free0)
  }

  /** A step that does not touch the file system itself and leaves the block map of the file as it is. */
  lemma SessionSame(w: World, w1: World, i: nat, id: Int32, free0: seq<Byte>, v: View)
    requires InSession(w, id, i, free0) && Moves(w, w1, i, v) && w1.fs == w.fs
    requires i in w1.open && Sound(w) && Sound(w1) && w1.open[i].block_map == MapOf(w, i)
    ensures InSession(w1, id, i, free0)
  {
    hide Slots, ViewOf, Taken, Owned, SlotOk, MapOf;
    SinceSame(w, w1, i, free0);
  }

  lemma SessionOpen(w: World, r: Result, w1: World, i: nat, id: Int32, free0: seq<Byte>)
    requires InSession(w, id, i, free0) && Step(w, Open(id), r, w1)
    ensures InSession(w1, id, i, free0)
  {
    hide Since, ViewOf, Moves, Sound, OpenMap, LoadCache, Inv;
    InSessionIs(w, id, i, free0);
    OpenMoves(w, id, r, w1);
    MovesTo(w, w1, i, Used(id, ViewOf(w, i).file.(cursor := At(0))));
    SessionSame(w, w1, i, id, free0, Used(id, ViewOf(w, i).file.(cursor := At(0))));
  }

  lemma SessionCursor(w: World, i: nat, id: Int32, free0: seq<Byte>, pos: nat)
    requires InSession(w, id, i, free0) && i in w.open && pos <= w.fs.inodes[i].file_size
    ensures InSession(SetPos(w, i, pos), id, i, free0)
  {
    hide Since, ViewOf, Moves, Sound, OpenMap, Inv;
    InSessionIs(w, id, i, free0);
    SetPosMoves(w, i, pos);
    var v := ViewOf(w, i).(file := ViewOf(w, i).file.(cursor := At(pos)));
    MovesTo(w, SetPos(w, i, pos), i, v);
    SessionSame(w, SetPos(w, i, pos), i, id, free0, v);
  }

  lemma InSessionIs(w: World, id: Int32, i: nat, free0: seq<Byte>)
    requires InSession(w, id, i, free0)
    ensures Inv(w) && Sound(w) && Shape(w.fs) && Lookup(w.fs, id) == i < MAX_INODES && Since(w, i, free0)
  {
    hide Since, Owned, SlotOk;
    LookupIs(w.fs, i);
  }

  lemma SessionRead(w: World, n: nat, r: Result, w1: World, i: nat, id: Int32, free0: seq<Byte>)
    requires InSession(w, id, i, free0) && i in w.open && Sound(w) && ReadStep(w, i, n, r, w1)
    ensures InSession(w1, id, i, free0)
  {
    hide InSession, Inv, Sound;
    InSessionIs(w, id, i, free0);
    CursorInside(w, i);
    SessionCursor(w, i, id, free0, w.open[i].pos + ReadCount(w.fs.inodes[i].file_size, w.open[i], n));
  }

  lemma SessionWrite(w: World, data: seq<Byte>, r: Result, w1: World, i: nat, id: Int32, free0: seq<Byte>)
    requires InSession(w, id, i, free0) && i in w.open && Sound(w) && WriteStep(w, i, data, r, w1)
    ensures InSession(w1, id, i, free0)
  {
    hide Since, ViewOf, Moves, Sound, Inv, WriteStep;
    InSessionIs(w, id, i, free0);
    WriteMovesOnly(w, i, data, r, w1);
    WriteEffect(w, i, data, r, w1);
    SinceWrite(w, i, data, r, w1, free0);
  }

  lemma SessionClose(w: World, r: Result, w1: World, i: nat, id: Int32, free0: seq<Byte>)
    requires InSession(w, id, i, free0) && i in w.open && Sound(w) && CloseStep(w, i, r, w1) && r == Done(true)
    ensures InSession(w1, id, i, free0)
  {
    hide Since, ViewOf, Moves, Sound, Inv, CloseStep, CloseTables, CloseData;
    InSessionIs(w, id, i, free0);
    CloseMovesOnly(w, i, r, w1);
    CloseKeepsId(w, i, w1);
    SinceClose(w, i, w1, free0);
  }

  lemma CloseKeepsId(w: World, i: nat, w1: World)
    requires Sound(w) && Sound(w1) && i in w.open && i < MAX_INODES && CloseTables(w, i, true, w1)
    ensures w1.fs.inodes[i].id == w.fs.inodes[i].id
  {
    hide OpenMap, InodesBlock, FreeListBlock, UsesIndirect, OnDisk;
  }

  /** The inode keeps its place and its account of blocks through every operation of a session. */
  lemma SessionStep(w: World, op: Op, r: Result, w1: World, i: nat, id: Int32, free0: seq<Byte>)
    requires InSession(w, id, i, free0) && Step(w, op, r, w1) && SessionOp(op, r, id)
    ensures InSession(w1, id, i, free0)
  {
    hide InSession, Inv, Sound, ReadStep, WriteStep, CloseStep, OpenStep, SetPos;
    InSessionIs(w, id, i, free0);
    match op
    case Open(_) => SessionOpen(w, r, w1, i, id, free0);
    case Read(_, n) => SessionRead(w, n, r, w1, i, id, free0);
    case Reset(_) => SessionCursor(w, i, id, free0, 0);
    case Write(_, data) => SessionWrite(w, data, r, w1, i, id, free0);
    case Close(_) => SessionClose(w, r, w1, i, id, free0);
  }

  lemma SinceSame(w: World, w1: World, i: nat, free0: seq<Byte>)
    requires Sound(w) && Sound(w1) && i < MAX_INODES && Since(w, i, free0) && w1.fs == w.fs
    requires i in w1.open && w1.open[i].block_map == MapOf(w, i)
    ensures Since(w1, i, free0)
  {
    assert Slots(w1, i) == Slots(w, i);
  }

  /** Steps one after the other, from a state with the invariant. */
  ghost predicate AreSteps(ws: seq<World>, ops: seq<Op>, rs: seq<Result>) {
    && |ws| == |ops| + 1 == |rs| + 1 && Inv(ws[0])
    && forall k | 0 <= k < |ops| :: Step(ws[k], ops[k], rs[k], ws[k + 1])
  }

  lemma StepAt(ws: seq<World>, ops: seq<Op>, rs: seq<Result>, k: nat)
    requires AreSteps(ws, ops, rs) && k < |ops|
    ensures |ws| == |ops| + 1 == |rs| + 1 && Step(ws[k], ops[k], rs[k], ws[k + 1]) && Inv(ws[0])
  {
    hide Inv, Step;
  }

  /** Creating a file, using it in any way, and deleting it restores the bitmap exactly, provided no
      close in between ran out of space for the pointer block. */
  lemma SessionRestores(ws: seq<World>, ops: seq<Op>, rs: seq<Result>, id: Int32)
    requires AreSteps(ws, ops, rs) && |ops| >= 2
    requires ops[0] == Create(id) && rs[0] == Done(true)
    requires ops[|ops| - 1] == Delete(id) && rs[|ops| - 1] == Done(true)
    requires forall k | 0 < k < |ops| - 1 :: SessionOp(ops[k], rs[k], id)
    ensures ws[|ops|].fs.free == ws[0].fs.free
  {
    hide Inv, Step, Since, AreSteps, SessionOp;
    var n := |ops| - 1;
    StepAt(ws, ops, rs, 0);
    StepAt(ws, ops, rs, n);
    var free0 := ws[0].fs.free;
    var i := SessionStarts(ws[0], id, ws[1]);
    SessionGoesOn(ws, ops, rs, id, i, free0, n);
    SessionEnds(ws[n], id, ws[n + 1], i, free0);
  }

  lemma SessionStarts(w: World, id: Int32, w1: World) returns (i: nat)
    requires Inv(w) && Step(w, Create(id), Done(true), w1)
    ensures InSession(w1, id, i, w.fs.free)
  {
    hide ViewOf, Slots, CreateFile, Moves, Inv, Sound;
    InvSound(w);
    CreateMoves(w, id);
    CreatedInode(w.fs, id);
    i := Lookup(w.fs, -1);
    MovesTo(w, w1, i, Used(id, File([], Closed)));
    UnusedRow(w, i);
    EmptyRow(w1, i);
  }

  lemma {:induction false} SessionGoesOn(ws: seq<World>, ops: seq<Op>, rs: seq<Result>, id: Int32, i: nat,
                                         free0: seq<Byte>, n: nat)
    requires AreSteps(ws, ops, rs) && 1 <= n < |ops| < |ws| && |rs| == |ops|
    requires forall k | 0 < k < n :: SessionOp(ops[k], rs[k], id)
    requires InSession(ws[1], id, i, free0)
    ensures InSession(ws[n], id, i, free0)
    decreases n
  {
    hide AreSteps, InSession, SessionOp, Step;
    if n > 1 {
      SessionGoesOn(ws, ops, rs, id, i, free0, n - 1);
      StepAt(ws, ops, rs, n - 1);
      SessionStep(ws[n - 1], ops[n - 1], rs[n - 1], ws[n], i, id, free0);
    }
  }

  lemma SessionEnds(w: World, id: Int32, w1: World, i: nat, free0: seq<Byte>)
    requires InSession(w, id, i, free0) && Step(w, Delete(id), Done(true), w1)
    ensures w1.fs.free == free0
  {
    hide InodeAt, SlotOk, Owned, Matrix, OpenMap, FreeListBlock, InodesBlock, Slots, DeleteFile, Taken;
    LookupIs(w.fs, i);
    DeleteHasEffect(w, id);
    hide Inv, Step;
    TakenCleared(w.fs.free, Slots(w, i), free0, w1.fs.free);
  }

  // ---------------------------------------------------------------- what was written is read back

  /** The cursor of file `id`, if it is open. */
  function CursorOf(w: World, id: int): nat {
    var i := Lookup(w.fs, id);
    if i in w.open then w.open[i].pos else 0
  }

  /** An operation, done in `w`, that leaves byte `x` of file `id` alone: a write that does not cover it, a
      close that keeps the pointers or at least this byte, and anything but the deletion of the file. */
  predicate Spares(w: World, op: Op, r: Result, id: int, x: nat) {
    match op
    case Delete(y) => y != id
    case Write(y, _) => y == id && r.Count? ==> !(CursorOf(w, id) <= x < CursorOf(w, id) + r.k)
    case Close(y) => y == id ==> r == Done(true) || x < MAX_DIRECT * BLOCK_SIZE
    case _ => true
  }

  /** File `id` has value `v` at byte `x`. */
  predicate HasByte(a: Files, id: int, x: nat, v: Byte) {
    id in a && x < |a[id].content| && a[id].content[x] == v
  }

  lemma CursorMeans(w: World, a: Files, id: Int32)
    requires Sound(w) && Means(w, a) && id != -1 && Lookup(w.fs, id) in w.open
    ensures id in a && a[id].cursor == At(CursorOf(w, id))
  {
    hide OpenMap, Bytes;
    assert 0 <= Lookup(w.fs, id);
    assert ViewOf(w, Lookup(w.fs, id)) == Used(id, a[id]);
  }

  lemma ByteSpared(w: World, a: Files, op: Op, r: Result, a1: Files, id: int, x: nat, v: Byte)
    requires AbsStep(a, op, r, a1) && Spares(w, op, r, id, x) && HasByte(a, id, x, v)
    requires op.Write? && op.id == id ==> a[id].cursor == At(CursorOf(w, id))
    ensures HasByte(a1, id, x, v)
  {
    hide CursorOf;
  }

  lemma ByteWritten(a: Files, op: Op, r: Result, a1: Files, c: nat, x: nat)
    requires AbsStep(a, op, r, a1) && op.Write? && r.Count? && op.id in a && a[op.id].cursor == At(c)
             && c <= x < c + r.k
    ensures r.k <= |op.data| && HasByte(a1, op.id, x, op.data[x - c])
  {
  }

  lemma ByteRead(a: Files, op: Op, r: Result, a1: Files, d: nat, x: nat, v: Byte)
    requires AbsStep(a, op, r, a1) && op.Read? && HasByte(a, op.id, x, v) && a[op.id].cursor == At(d)
             && d <= x < d + op.n
    ensures r.Data? && x - d < |r.bytes| && r.bytes[x - d] == v
  {
  }

  lemma StepHas(ws: seq<World>, ops: seq<Op>, rs: seq<Result>, fs: seq<Files>, j: nat, id: Int32)
    requires IsRun(ws, ops, rs) && IsAbsRun(fs, ops, rs) && j < |ops| && Sound(ws[j]) && Means(ws[j], fs[j])
    requires (ops[j].Write? || ops[j].Read?) && ops[j].id == id
    ensures id in fs[j] && fs[j][id].cursor == At(CursorOf(ws[j], id)) && AbsStep(fs[j], ops[j], rs[j], fs[j + 1])
  {
    assert Step(ws[j], ops[j], rs[j], ws[j + 1]);
    hide Step, AbsStep, CursorOf, Means, Sound, Initial;
    LegalHas(ws[j], ops[j], rs[j], ws[j + 1]);
    CursorMeans(ws[j], fs[j], id);
  }

  lemma LegalHas(w: World, op: Op, r: Result, w1: World)
    requires Step(w, op, r, w1) && (op.Write? || op.Read?)
    ensures op.id != -1 && Lookup(w.fs, op.id) in w.open
  {
  }

  lemma {:induction false} ByteKept(ws: seq<World>, ops: seq<Op>, rs: seq<Result>, fs: seq<Files>,
                                    lo: nat, hi: nat, id: Int32, x: nat, v: Byte)
    requires IsRun(ws, ops, rs) && IsAbsRun(fs, ops, rs) && lo <= hi <= |ops| && HasByte(fs[lo], id, x, v)
    requires forall j | 0 <= j < |ws| :: Sound(ws[j]) && Means(ws[j], fs[j])
    requires forall j | lo <= j < hi :: Spares(ws[j], ops[j], rs[j], id, x)
    ensures HasByte(fs[hi], id, x, v)
    decreases hi
  {
    if lo < hi {
      hide Step, AbsStep, CursorOf, Means, Sound, Initial, HasByte, Spares;
      var j := hi - 1;
      ByteKept(ws, ops, rs, fs, lo, j, id, x, v);
      assert AbsStep(fs[j], ops[j], rs[j], fs[j + 1]) && Spares(ws[j], ops[j], rs[j], id, x);
      if ops[j].Write? && ops[j].id == id {
        StepHas(ws, ops, rs, fs, j, id);
      }
      ByteSpared(ws[j], fs[j], ops[j], rs[j], fs[j + 1], id, x, v);
    }
  }

  lemma Lengths(ws: seq<World>, ops: seq<Op>, rs: seq<Result>, fs: seq<Files>)
    requires IsRun(ws, ops, rs) && IsAbsRun(fs, ops, rs)
    ensures |ws| == |fs| == |rs| + 1 == |ops| + 1
  {
  }

  lemma AllSound(ws: seq<World>, fs: seq<Files>)
    requires |ws| == |fs| && forall j | 0 <= j < |ws| :: Inv(ws[j]) && Means(ws[j], fs[j])
    ensures forall j | 0 <= j < |ws| :: Sound(ws[j]) && Means(ws[j], fs[j])
  {
    hide Means;
  }

  /** In every run, a byte that a write stored, at whatever cursor, is what a later read of that place
      returns, at whatever cursor, after any work on other files, other places of this one, closing,
      reopening and remounting. */
  lemma WrittenIsReadBack(ws: seq<World>, ops: seq<Op>, rs: seq<Result>, id: Int32, p: nat, q: nat, x: nat)
    requires IsRun(ws, ops, rs) && p < q < |ops| && ops[p].Write? && ops[p].id == id && ops[q].Read? && ops[q].id == id
    requires rs[p].Count? && CursorOf(ws[p], id) <= x < CursorOf(ws[p], id) + rs[p].k
    requires CursorOf(ws[q], id) <= x < CursorOf(ws[q], id) + ops[q].n
    requires forall j | p < j < q :: Spares(ws[j], ops[j], rs[j], id, x)
    ensures var (c, d) := (CursorOf(ws[p], id), CursorOf(ws[q], id));
            && x - c < |ops[p].data| && rs[q].Data? && x - d < |rs[q].bytes|
            && rs[q].bytes[x - d] == ops[p].data[x - c]
  {
    hide Step, AbsStep, CursorOf, Means, Sound, Inv, Initial, HasByte, Spares, IsRun, IsAbsRun;
    var fs := RunFiles(ws, ops, rs);
    Lengths(ws, ops, rs, fs);
    AllSound(ws, fs);
    StepHas(ws, ops, rs, fs, p, id);
    ByteWritten(fs[p], ops[p], rs[p], fs[p + 1], CursorOf(ws[p], id), x);
    var v := ops[p].data[x - CursorOf(ws[p], id)];
    ByteKept(ws, ops, rs, fs, p + 1, q, id, x, v);
    StepHas(ws, ops, rs, fs, q, id);
    ByteRead(fs[q], ops[q], rs[q], fs[q + 1], CursorOf(ws[q], id), x, v);
  }
}
