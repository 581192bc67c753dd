/** Every legal step keeps the invariant and changes what at most one inode means. */
module FileSystemSafety {
  import opened DiskFormat
  import opened FileSystemSpec
  import opened FileSystemRun

  /** The invariant holds on both sides and only inode `i` changes its blocks and its meaning, to `v`. */
  ghost predicate Moves(w: World, w1: World, i: int, v: View) {
    && Inv(w) && Inv(w1)
    && (forall j | 0 <= j < MAX_INODES :: ViewOf(w1, j) == if j == i then v else ViewOf(w, j))
    && (forall j | 0 <= j < MAX_INODES && j != i :: Slots(w1, j) == Slots(w, j))
  }

  lemma InodesSaved(inodes: seq<Inode>)
    requires |inodes| == MAX_INODES
    ensures forall j | 0 <= j < MAX_INODES :: InodeAt(InodesBlock(inodes), j) == inodes[j]
  {
    forall j | 0 <= j < MAX_INODES
      ensures InodeAt(InodesBlock(inodes), j) == inodes[j]
    {
      InodeRoundTrip(inodes, j);
    }
  }

  /** A named block is a used data block. */
  lemma SlotRange(w: World, i: nat, a: nat)
    requires Inv(w) && i < MAX_INODES && a < SLOTS && Slots(w, i)[a] != -1
    ensures 2 <= Slots(w, i)[a] < |w.fs.free| && w.fs.free[Slots(w, i)[a]] != 0
  {
    assert Matrix(w)[i][a] == Slots(w, i)[a];
  }

  /** Two inodes never share a block. */
  lemma SlotsDisjoint(w: World, i: nat, a: nat, j: nat, b: nat)
    requires Inv(w) && i < MAX_INODES && a < SLOTS && j < MAX_INODES && b < SLOTS
    requires Slots(w, i)[a] == Slots(w, j)[b] != -1
    ensures i == j && a == b
  {
    assert Matrix(w)[i][a] == Matrix(w)[j][b];
  }

  lemma OpenMapKept(s: Fs, s1: Fs, j: nat)
    requires Shape(s) && Shape(s1) && j < MAX_INODES
    requires s1.inodes[j].block_no == s.inodes[j].block_no
    requires s1.inodes[j].indirect_block_no == s.inodes[j].indirect_block_no < |s.disk| == |s1.disk|
    requires 0 <= s.inodes[j].indirect_block_no ==>
               s1.disk[s.inodes[j].indirect_block_no] == s.disk[s.inodes[j].indirect_block_no]
    ensures OpenMap(s1, j) == OpenMap(s, j)
  {
  }

  /** Soundness after a step that keeps the blocks of all inodes but `i`. */
  lemma SoundAfter(w: World, w1: World, i: nat)
    requires Inv(w) && i < MAX_INODES && Confined(w, w1, i)
    requires w1.fs.inodes[i].indirect_block_no < |w1.fs.disk| && OnDisk(OpenMap(w1.fs, i), w1.fs.disk)
    requires forall j | j in w1.open ::
               j in w.open && HandleShape(w1.open[j]) && OnDisk(w1.open[j].block_map, w.fs.disk)
    ensures Sound(w1)
  {
    hide TableOf, FreeListBlock, SlotOk, Owned, Matrix;
    forall j | 0 <= j < MAX_INODES && j != i
      ensures w1.fs.inodes[j].indirect_block_no < |w1.fs.disk| && OnDisk(OpenMap(w1.fs, j), w1.fs.disk)
    {
      assert Slots(w, j)[SLOTS - 1] == w.fs.inodes[j].indirect_block_no;
      if w.fs.inodes[j].indirect_block_no != -1 {
        PointerRange(w, j);
      }
      OpenMapKept(w.fs, w1.fs, j);
    }
  }

  /** Collects what a step on inode `i` must show. */
  lemma Rebuild(w: World, w1: World, i: int)
    requires Inv(w) && Sound(w1) && 0 <= i < MAX_INODES && Confined(w, w1, i)
    requires w1.fs.disk[INODES_BLOCK] == w.fs.disk[INODES_BLOCK]
             || w1.fs.disk[INODES_BLOCK] == InodesBlock(w1.fs.inodes)
    requires w1.fs.disk[FREELIST_BLOCK] == FreeListBlock(w1.fs.free)
    requires SlotOk(w1, i) && Owned(w1.fs.free, Matrix(w)[i := Slots(w1, i)])
    requires w1.fs.inodes[i].id == w.fs.inodes[i].id || w1.fs.inodes[i].id == -1 || Lookup(w.fs, w1.fs.inodes[i].id) < 0
    ensures Moves(w, w1, i, ViewOf(w1, i))
  {
    hide InodeAt, InodesBlock, TableOf, FreeListBlock, LoadCache, HandleOk, Owned, OpenMap;
    forall j | 0 <= j < MAX_INODES && j != i
      ensures Slots(w1, j) == Slots(w, j) && SlotOk(w1, j) && ViewOf(w1, j) == ViewOf(w, j)
    {
      assert SlotOk(w, j);
      InodesSaved(w1.fs.inodes);
      OtherKept(w, w1, i, j);
    }
    assert Matrix(w1) == Matrix(w)[i := Slots(w1, i)];
    IdsStayDistinct(w.fs, w1.fs, i);
    hide Slots, ViewOf, SlotOk;
    assert forall j | 0 <= j < MAX_INODES :: SlotOk(w1, j);
  }

  lemma IdsStayDistinct(s: Fs, s1: Fs, i: nat)
    requires |s.inodes| == |s1.inodes| == MAX_INODES && i < MAX_INODES && DistinctIds(s.inodes)
    requires forall j | 0 <= j < MAX_INODES && j != i :: s1.inodes[j].id == s.inodes[j].id
    requires s1.inodes[i].id == s.inodes[i].id || s1.inodes[i].id == -1 || Lookup(s, s1.inodes[i].id) < 0
    ensures DistinctIds(s1.inodes)
  {
  }

  /** A step that writes no data block and changes only the tables of inode `i` is confined to it. */
  lemma TablesOnly(w: World, w1: World, i: nat)
    requires Inv(w) && Shape(w1.fs) && |w1.fs.disk| == |w.fs.disk|
    requires forall b | 2 <= b < |w.fs.disk| :: w1.fs.disk[b] == w.fs.disk[b]
    requires forall j | 0 <= j < MAX_INODES && j != i :: w1.fs.inodes[j] == w.fs.inodes[j]
    requires forall j | j != i :: (j in w1.open <==> j in w.open) && (j in w.open ==> w1.open[j] == w.open[j])
    ensures Confined(w, w1, i)
  {
    hide InodeAt, InodesBlock, TableOf, FreeListBlock, Owned, SlotOk, Slots, Matrix;
    forall j, a | 0 <= j < MAX_INODES && j != i && 0 <= a < SLOTS && 0 <= Slots(w, j)[a] < |w.fs.disk|
      ensures w1.fs.disk[Slots(w, j)[a]] == w.fs.disk[Slots(w, j)[a]]
    {
      SlotRange(w, j, a);
    }
  }

  // ---------------------------------------------------------------- ownership steps

  /** Replacing a row by blocks that were its own or free, and marking them used, keeps ownership. */
  lemma OwnedAfterGrowth(free: seq<Byte>, m: seq<Row>, free1: seq<Byte>, i: nat, row: Row)
    requires |m| == MAX_INODES && Owned(free, m) && i < MAX_INODES && |free1| == |free|
    requires forall a | 0 <= a < SLOTS ::
               || row[a] == m[i][a]
               || (m[i][a] == -1 && 0 <= row[a] < |free| && free[row[a]] == 0 && free1[row[a]] != 0)
    requires forall a, b | 0 <= a < b < SLOTS && row[a] != m[i][a] && row[b] != m[i][b] :: row[a] != row[b]
    requires forall b | 0 <= b < |free| && free[b] != 0 :: free1[b] != 0
    ensures Owned(free1, m[i := row])
  {
  }

  /** Emptying slots of a row and keeping what the other slots hold marked used keeps ownership. */
  lemma OwnedAfterDrop(free: seq<Byte>, m: seq<Row>, free1: seq<Byte>, i: nat, row: Row)
    requires |m| == MAX_INODES && Owned(free, m) && i < MAX_INODES && |free1| == |free|
    requires forall a | 0 <= a < SLOTS :: row[a] == -1 || row[a] == m[i][a]
    requires forall b | 0 <= b < |free| && free1[b] == 0 :: free[b] == 0 || (b in m[i] && b !in row)
    ensures Owned(free1, m[i := row])
  {
    forall b | 0 <= b < |free1| && b < 2
      ensures free1[b] != 0
    {
    }
  }

  // ---------------------------------------------------------------- create and delete

  lemma CreateMoves(w: World, id: Int32)
    requires Inv(w) && id != -1 && CreateFile(w.fs, id).1
    ensures var w1 := w.(fs := CreateFile(w.fs, id).0);
            Moves(w, w1, Lookup(w.fs, -1), Used(id, File([], Closed)))
  {
    hide InodeAt, InodesBlock, TableOf, FreeListBlock, LoadCache;
    var i := Lookup(w.fs, -1);
    var w1 := w.(fs := CreateFile(w.fs, id).0);
    assert SlotOk(w, i);
    assert OpenMap(w1.fs, i) == OpenMap(w.fs, i);
    forall j | 0 <= j < MAX_INODES
      ensures w1.fs.inodes[j].indirect_block_no < |w1.fs.disk| && OnDisk(OpenMap(w1.fs, j), w1.fs.disk)
      ensures j != i ==> OpenMap(w1.fs, j) == OpenMap(w.fs, j)
    {
      if w1.fs.inodes[j].indirect_block_no != -1 {
        PointerRange(w, j);
      }
    }
    assert Slots(w1, i) == Slots(w, i);
    InodesSaved(w1.fs.inodes);
    assert Matrix(w)[i := Slots(w1, i)] == Matrix(w);
    NamedBlocksAboveTables(w);
    Rebuild(w, w1, i);
  }

  lemma PointerRange(w: World, j: nat)
    requires Inv(w) && j < MAX_INODES && w.fs.inodes[j].indirect_block_no != -1
    ensures 2 <= w.fs.inodes[j].indirect_block_no < |w.fs.free| <= |w.fs.disk|
  {
    SlotRange(w, j, SLOTS - 1);
  }

  lemma NamedBlocksAboveTables(w: World)
    requires Inv(w)
    ensures forall j, a | 0 <= j < MAX_INODES && 0 <= a < SLOTS && Slots(w, j)[a] != -1 ::
              2 <= Slots(w, j)[a] < |w.fs.free| && w.fs.free[Slots(w, j)[a]] != 0
  {
    forall j, a | 0 <= j < MAX_INODES && 0 <= a < SLOTS && Slots(w, j)[a] != -1
      ensures 2 <= Slots(w, j)[a] < |w.fs.free| && w.fs.free[Slots(w, j)[a]] != 0
    {
      SlotRange(w, j, a);
    }
  }

  /** For a closed file, DeleteFile clears exactly the blocks in its slots. */
  lemma NamedAreSlots(w: World, i: nat)
    requires Inv(w) && i < MAX_INODES && i !in w.open
    ensures forall b: int | b != -1 :: b in NamedBlocks(w.fs, w.fs.inodes[i]) <==> b in Slots(w, i)
  {
    hide InodeAt, TableOf, FreeListBlock, LoadCache;
    var n := w.fs.inodes[i];
    var ib := n.indirect_block_no;
    if ib != -1 {
      PointerRange(w, i);
      assert Slots(w, i) == n.block_no + TableOf(w.fs.disk[ib]) + [ib] == NamedBlocks(w.fs, n);
    } else {
      assert Slots(w, i) == n.block_no + NoPointers() + [-1];
      assert NamedBlocks(w.fs, n) == n.block_no;
    }
  }

  /** DeleteFile frees exactly the blocks in the slots of inode `i` and blanks that inode. */
  ghost predicate DeleteEffect(w: World, i: nat, w1: World)
    requires Sound(w) && i < MAX_INODES
  {
    && Shape(w1.fs) && |w1.fs.disk| == |w.fs.disk| && |w1.fs.free| == |w.fs.free| && w1.open == w.open
    && w1.fs.disk[INODES_BLOCK] == InodesBlock(w1.fs.inodes)
    && w1.fs.disk[FREELIST_BLOCK] == FreeListBlock(w1.fs.free)
    && (forall b | 2 <= b < |w.fs.disk| :: w1.fs.disk[b] == w.fs.disk[b])
    && w1.fs.inodes == w.fs.inodes[i := Blank(-1, w.fs.inodes[i].fs)]
    && (forall b | 0 <= b < |w.fs.free| :: w1.fs.free[b] == if b in Slots(w, i) then 0 else w.fs.free[b])
  }

  lemma DeleteHasEffect(w: World, id: Int32)
    requires Inv(w) && Legal(w, Delete(id)) && DeleteFile(w.fs, id).1
    ensures DeleteEffect(w, Lookup(w.fs, id), w.(fs := DeleteFile(w.fs, id).0))
  {
    NamedAreSlots(w, Lookup(w.fs, id));
    hide InodeAt, InodesBlock, TableOf, FreeListBlock, NamedBlocks, Slots, SlotOk, Owned, Matrix, Sound, Inv;
  }

  lemma DeleteEmpties(w: World, i: nat, w1: World)
    requires Inv(w) && i < MAX_INODES && i !in w.open && DeleteEffect(w, i, w1)
    ensures Confined(w, w1, i) && Sound(w1) && SlotOk(w1, i) && ViewOf(w1, i) == Unused
    ensures forall a | 0 <= a < SLOTS :: Slots(w1, i)[a] == -1
  {
    hide InodeAt, InodesBlock, TableOf, FreeListBlock, Owned, Matrix;
    TablesOnly(w, w1, i);
    SoundAfter(w, w1, i);
    InodesSaved(w1.fs.inodes);
  }

  lemma DeleteOwnership(w: World, i: nat, w1: World)
    requires Inv(w) && i < MAX_INODES && i !in w.open && DeleteEffect(w, i, w1) && Sound(w1)
    requires forall a | 0 <= a < SLOTS :: Slots(w1, i)[a] == -1
    ensures Owned(w1.fs.free, Matrix(w)[i := Slots(w1, i)])
  {
    hide InodeAt, InodesBlock, FreeListBlock, SlotOk, Slots, OpenMap, Owned;
    OwnedAfterDrop(w.fs.free, Matrix(w), w1.fs.free, i, Slots(w1, i));
  }

  lemma DeleteMoves(w: World, id: Int32)
    requires Inv(w) && Legal(w, Delete(id)) && DeleteFile(w.fs, id).1
    ensures Moves(w, w.(fs := DeleteFile(w.fs, id).0), Lookup(w.fs, id), Unused)
  {
    var i := Lookup(w.fs, id);
    var w1 := w.(fs := DeleteFile(w.fs, id).0);
    DeleteHasEffect(w, id);
    DeleteEmpties(w, i, w1);
    DeleteOwnership(w, i, w1);
    hide InodeAt, InodesBlock, FreeListBlock, SlotOk, Slots, OpenMap, ViewOf, DeleteFile, Confined, Matrix, Owned;
    Rebuild(w, w1, i);
  }

  // ---------------------------------------------------------------- open, read, reset

  lemma OpenMoves(w: World, id: Int32, r: Result, w1: World)
    requires Inv(w) && Legal(w, Open(id)) && 0 <= Lookup(w.fs, id) && OpenStep(w, Lookup(w.fs, id), r, w1)
    ensures ViewOf(w, Lookup(w.fs, id)).Used? && ViewOf(w, Lookup(w.fs, id)).id == id
    ensures Moves(w, w1, Lookup(w.fs, id), Used(id, ViewOf(w, Lookup(w.fs, id)).file.(cursor := At(0))))
  {
    hide InodeAt, InodesBlock, TableOf, FreeListBlock, Owned;
    var i := Lookup(w.fs, id);
    assert SlotOk(w, i);
    assert Slots(w1, i) == Slots(w, i);
    assert Matrix(w)[i := Slots(w1, i)] == Matrix(w);
    TablesOnly(w, w1, i);
    hide Confined, Slots, Matrix;
    Rebuild(w, w1, i);
  }

  /** Moving the cursor inside the file changes nothing else. */
  lemma SetPosMoves(w: World, i: nat, pos: nat)
    requires Inv(w) && i in w.open && pos <= w.fs.inodes[i].file_size
    ensures ViewOf(w, i).Used?
    ensures Moves(w, SetPos(w, i, pos), i, ViewOf(w, i).(file := ViewOf(w, i).file.(cursor := At(pos))))
  {
    hide InodeAt, InodesBlock, TableOf, FreeListBlock, Owned, LoadCache;
    var w1 := SetPos(w, i, pos);
    assert SlotOk(w, i);
    assert Slots(w1, i) == Slots(w, i);
    assert Matrix(w)[i := Slots(w1, i)] == Matrix(w);
    TablesOnly(w, w1, i);
    hide Confined, Slots, Bytes, LoadCache, Matrix;
    Rebuild(w, w1, i);
  }

  // ---------------------------------------------------------------- write

  /** `d` written over `c` at `pos`; the result is longer when `d` runs past the end. */
  function Overlay(c: seq<Byte>, pos: nat, d: seq<Byte>): seq<Byte>
    requires pos <= |c|
  {
    c[..pos] + d + (if pos + |d| < |c| then c[pos + |d|..] else [])
  }

  lemma WriteKeepsHandle(w: World, i: nat, data: seq<Byte>, r: Result, w1: World)
    requires Inv(w) && i in w.open && WriteStep(w, i, data, r, w1) && Sound(w1)
    requires OpenMap(w1.fs, i) == OpenMap(w.fs, i)
    ensures HandleOk(w1, i)
  {
    hide Frugal, InodeAt, InodesBlock, TableOf, FreeListBlock, Owned, OpenMap;
    assert SlotOk(w, i);
    var h, h1 := w.open[i], w1.open[i];
    forall o | 0 <= o < MAX_FILE_SIZE && h1.block_map[o / BLOCK_SIZE] < 0
      ensures h1.cache[o] == 0
    {
      assert !Meets(o / BLOCK_SIZE, h.pos, h1.pos);
      assert h1.block_map[o / BLOCK_SIZE] == h.block_map[o / BLOCK_SIZE];
      assert !(h.pos <= o < h1.pos);
    }
    forall a | 0 <= a < MAX_FILE_BLOCKS
      ensures OpenMap(w1.fs, i)[a] == -1 || OpenMap(w1.fs, i)[a] == h1.block_map[a]
    {
      assert Slots(w, i)[a] == h.block_map[a];
      if h.block_map[a] != -1 {
        SlotRange(w, i, a);
      }
    }
  }

  lemma WriteKeepsOwnership(w: World, i: nat, data: seq<Byte>, r: Result, w1: World)
    requires Inv(w) && i in w.open && WriteStep(w, i, data, r, w1)
    ensures Owned(w1.fs.free, Matrix(w)[i := w1.open[i].block_map + [w.fs.inodes[i].indirect_block_no]])
  {
    hide InodeAt, InodesBlock, TableOf, FreeListBlock;
    var row: Row := w1.open[i].block_map + [w.fs.inodes[i].indirect_block_no];
    var m := Matrix(w);
    NamedBlocksAboveTables(w);
    forall a | 0 <= a < SLOTS && row[a] != m[i][a]
      ensures m[i][a] == -1 && 0 <= row[a] < |w.fs.free| && w.fs.free[row[a]] == 0 && w1.fs.free[row[a]] != 0
    {
      assert m[i][a] == Slots(w, i)[a];
      assert row[a] == w1.open[i].block_map[a];
    }
    OwnedAfterGrowth(w.fs.free, m, w1.fs.free, i, row);
  }

  lemma WriteSound(w: World, i: nat, data: seq<Byte>, r: Result, w1: World)
    requires Inv(w) && i in w.open && WriteStep(w, i, data, r, w1)
    ensures Sound(w1)
    ensures forall j | 0 <= j < MAX_INODES :: OpenMap(w1.fs, j) == OpenMap(w.fs, j)
  {
    hide InodeAt, InodesBlock, TableOf, FreeListBlock, Owned;
    assert Shape(w1.fs);
    forall j | 0 <= j < MAX_INODES
      ensures w1.fs.inodes[j].indirect_block_no < |w1.fs.disk| && OpenMap(w1.fs, j) == OpenMap(w.fs, j)
    {
      if w1.fs.inodes[j].indirect_block_no != -1 {
        PointerRange(w, j);
      }
    }
  }

  lemma WriteSlotOk(w: World, i: nat, data: seq<Byte>, r: Result, w1: World)
    requires Inv(w) && i in w.open && WriteStep(w, i, data, r, w1) && Sound(w1)
    requires OpenMap(w1.fs, i) == OpenMap(w.fs, i)
    ensures SlotOk(w1, i)
  {
    hide InodeAt, InodesBlock, TableOf, FreeListBlock, Owned, HandleOk, OpenMap, LoadCache, Inv, Sound, Grows, Meets;
    InvSound(w);
    WriteKeepsHandle(w, i, data, r, w1);
    WriteEffect(w, i, data, r, w1);
    CursorInside(w, i);
    InvSlotOk(w, i);
  }

  lemma WriteView(w: World, i: nat, data: seq<Byte>, r: Result, w1: World)
    requires Inv(w) && i in w.open && WriteStep(w, i, data, r, w1) && Sound(w1)
    ensures ViewOf(w, i).Used? && w.open[i].pos <= |ViewOf(w, i).file.content|
    ensures var f := ViewOf(w, i).file;
            var pos := w.open[i].pos;
            ViewOf(w1, i) == ViewOf(w, i).(file := File(Overlay(f.content, pos, data[..r.k]), At(pos + r.k)))
  {
    hide Owned, OpenMap, OnDisk, LoadCache, Grows, Meets, Overlay, SlotOk;
    CursorInside(w, i);
    OpenFits(w, i);
    OverlaidPrefix(w.open[i].cache, w.fs.inodes[i].file_size, w.open[i].pos, data[..r.k]);
  }

  /** Overwriting commutes with taking the part up to the new size. */
  lemma OverlaidPrefix(c: seq<Byte>, size: nat, pos: nat, d: seq<Byte>)
    requires pos <= size <= |c| && pos + |d| <= |c|
    ensures (c[..pos] + d + c[pos + |d|..])[..if size < pos + |d| then pos + |d| else size] ==
              Overlay(c[..size], pos, d)
  {
  }

  /** Write touches the bitmap block, the size of its own inode and its own handle, no data block. */
  lemma WriteEffect(w: World, i: nat, data: seq<Byte>, r: Result, w1: World)
    requires Inv(w) && i in w.open && WriteStep(w, i, data, r, w1)
    ensures Shape(w1.fs) && |w1.fs.disk| == |w.fs.disk|
    ensures w1.fs.disk[INODES_BLOCK] == w.fs.disk[INODES_BLOCK]
    ensures w1.fs.disk[FREELIST_BLOCK] == FreeListBlock(w1.fs.free)
    ensures forall b | 2 <= b < |w.fs.disk| :: w1.fs.disk[b] == w.fs.disk[b]
    ensures w1.fs.inodes == w.fs.inodes[i := w1.fs.inodes[i]] && w1.fs.inodes[i].id == w.fs.inodes[i].id
  {
    hide InodeAt, InodesBlock, TableOf, FreeListBlock, Owned, SlotOk, Matrix, OpenMap;
  }

  lemma WriteMoves(w: World, i: nat, data: seq<Byte>, r: Result, w1: World)
    requires Inv(w) && i in w.open && WriteStep(w, i, data, r, w1)
    ensures ViewOf(w, i).Used? && w.open[i].pos <= |ViewOf(w, i).file.content|
    ensures var f := ViewOf(w, i).file;
            var pos := w.open[i].pos;
            Moves(w, w1, i, ViewOf(w, i).(file := File(Overlay(f.content, pos, data[..r.k]), At(pos + r.k))))
  {
    hide InodeAt, InodesBlock, FreeListBlock, Owned, SlotOk, OpenMap, ViewOf, Overlay, Slots, Matrix, Confined,
         Inv, Sound, WriteStep;
    InvSound(w);
    WriteSound(w, i, data, r, w1);
    WriteSlotOk(w, i, data, r, w1);
    WriteKeepsOwnership(w, i, data, r, w1);
    WriteView(w, i, data, r, w1);
    WriteEffect(w, i, data, r, w1);
    WriteOpen(w, i, data, r, w1);
    TablesOnly(w, w1, i);
    OpenSlots(w1, i);
    Rebuild(w, w1, i);
  }

  lemma WriteOpen(w: World, i: nat, data: seq<Byte>, r: Result, w1: World)
    requires Sound(w) && i in w.open && WriteStep(w, i, data, r, w1)
    ensures i in w1.open && w1.open == w.open[i := w1.open[i]]
    ensures i < MAX_INODES && |w1.fs.inodes| == MAX_INODES == |w.fs.inodes|
    ensures w1.fs.inodes[i].indirect_block_no == w.fs.inodes[i].indirect_block_no
  {
    hide OpenMap, Grows, Meets;
  }

  lemma CursorInside(w: World, i: nat)
    requires Inv(w) && i in w.open
    ensures w.open[i].pos <= w.fs.inodes[i].file_size <= MAX_FILE_SIZE && w.fs.inodes[i].id != -1
  {
    assert SlotOk(w, i);
  }
}
