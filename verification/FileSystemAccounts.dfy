/** On runs in which no close lost its pointers, the sizes of the files alone decide how many blocks are
    free, how much a write stores, and whether a close keeps its pointers. */
module FileSystemAccounts {
  import opened DiskFormat
  import opened FileSystemSpec
  import opened FileSystemRun
  import opened FileSystemSafety
  import opened FileSystemClose
  import opened FileSystemRefinement
  import opened FileSystemLaws
  import opened FileSystemSpace

  /** Blocks of 512 bytes that `size` bytes reach. */
  function Blocks(size: nat): nat {
    (size + 511) / 512
  }

  /** What inode `i` occupies: its data blocks, and its pointer block if it has one. */
  function Charge(w: World, i: nat): nat
    requires Shape(w.fs) && i < MAX_INODES
  {
    Blocks(w.fs.inodes[i].file_size) + if w.fs.inodes[i].indirect_block_no == -1 then 0 else 1
  }

  function Charges(w: World, n: nat): nat
    requires Shape(w.fs) && n <= MAX_INODES
  {
    if n == 0 then 0 else Charges(w, n - 1) + Charge(w, n - 1)
  }

  // ---------------------------------------------------------------- one file

  lemma {:induction false} SlotsReached(row: Row, size: nat, k: nat)
    requires k <= MAX_FILE_BLOCKS && size <= MAX_FILE_SIZE
    requires forall a | 0 <= a < MAX_FILE_BLOCKS :: row[a] != -1 <==> a * 512 < size
    ensures SlotsUsed(row, k) == Min(k, Blocks(size))
  {
    if k > 0 {
      SlotsReached(row, size, k - 1);
    }
  }

  lemma ChargeIs(w: World, i: nat)
    requires Inv(w) && Sound(w) && i < MAX_INODES && Backed(w, i)
    ensures SlotsUsed(Slots(w, i), SLOTS) == Charge(w, i)
    ensures i !in w.open ==>
              Charge(w, i) == Blocks(w.fs.inodes[i].file_size) + if 2048 < w.fs.inodes[i].file_size then 1 else 0
  {
    hide Inv, Sound, Slots, MapOf;
    InvSound(w);
    SlotsAreMap(w, i);
    SizeFits(w, i);
    SlotsReached(Slots(w, i), w.fs.inodes[i].file_size, MAX_FILE_BLOCKS);
  }

  lemma SizeFits(w: World, i: nat)
    requires Inv(w) && i < MAX_INODES
    ensures Shape(w.fs) && w.fs.inodes[i].file_size <= MAX_FILE_SIZE
  {
    InvSlotOk(w, i);
  }

  // ---------------------------------------------------------------- all files

  /** The blocks of the first `n` inodes. */
  function OwnedBelow(w: World, n: nat): set<int>
    requires Sound(w) && n <= MAX_INODES
  {
    if n == 0 then {} else OwnedBelow(w, n - 1) + BlocksIn(Slots(w, n - 1), SLOTS)
  }

  lemma {:induction false} OwnedIs(w: World, n: nat, b: int)
    requires Sound(w) && n <= MAX_INODES
    ensures b in OwnedBelow(w, n) <==> b != -1 && exists i | 0 <= i < n :: b in Slots(w, i)
  {
    hide Slots, Sound;
    if n > 0 {
      OwnedIs(w, n - 1, b);
      if b in BlocksIn(Slots(w, n - 1), SLOTS) {
        assert b in Slots(w, n - 1);
      }
      if b != -1 && b in Slots(w, n - 1) {
        var a :| 0 <= a < SLOTS && Slots(w, n - 1)[a] == b;
        assert b in BlocksIn(Slots(w, n - 1), SLOTS);
      }
    }
  }

  lemma UnionSize(a: set<int>, b: set<int>)
    ensures a * b == {} ==> |a + b| == |a| + |b|
  {
  }

  lemma {:induction false} CountOwned(w: World, n: nat)
    requires Inv(w) && Sound(w) && n <= MAX_INODES && forall i | 0 <= i < n :: Backed(w, i)
    ensures |OwnedBelow(w, n)| == Charges(w, n)
  {
    hide Inv, Sound, Slots, Backed, Charge, BlocksIn, SlotsUsed;
    InvSound(w);
    if n > 0 {
      CountOwned(w, n - 1);
      UnionSize(OwnedBelow(w, n - 1), BlocksIn(Slots(w, n - 1), SLOTS));
      RowInjective(w, n - 1);
      CountBlocks(Slots(w, n - 1), SLOTS);
      ChargeIs(w, n - 1);
      NewBlocks(w, n - 1);
    }
  }

  lemma NewBlocks(w: World, n: nat)
    requires Inv(w) && Sound(w) && n < MAX_INODES
    ensures OwnedBelow(w, n) * BlocksIn(Slots(w, n), SLOTS) == {}
  {
    hide Inv, Sound, Slots, OwnedBelow;
    forall b | b in BlocksIn(Slots(w, n), SLOTS)
      ensures b !in OwnedBelow(w, n)
    {
      OwnedIs(w, n, b);
      var a :| 0 <= a < SLOTS && Slots(w, n)[a] == b;
      forall i | 0 <= i < n
        ensures b !in Slots(w, i)
      {
        if b in Slots(w, i) {
          var c :| 0 <= c < SLOTS && Slots(w, i)[c] == b;
          SlotsDisjoint(w, i, c, n, a);
        }
      }
    }
  }

  /** The `k` integers from `lo` on. */
  function Range(lo: nat, k: nat): set<int> {
    if k == 0 then {} else Range(lo, k - 1) + {lo + k - 1}
  }

  lemma {:induction false} RangeIs(lo: nat, k: nat)
    ensures |Range(lo, k)| == k && forall b :: b in Range(lo, k) <==> lo <= b < lo + k
  {
    if k > 0 {
      RangeIs(lo, k - 1);
    }
  }

  lemma CountSplit(n: nat, free: set<int>, owned: set<int>)
    requires 2 <= n && forall b :: b in free || b in owned <==> 2 <= b < n
    requires free !! owned
    ensures |free| + 2 + |owned| == n
  {
    RangeIs(2, n - 2);
    forall b: int
      ensures b in Range(2, n - 2) <==> b in free + owned
    {
      assert b in free || b in owned <==> 2 <= b < n;
    }
    assert Range(2, n - 2) == free + owned;
  }

  /** Every block is reserved, free, or charged to one file. */
  lemma Accounts(w: World)
    requires Inv(w) && Tight(w) && 2 <= |w.fs.free|
    ensures Sound(w) && |FreeBlocks(w.fs.free)| + 2 + Charges(w, MAX_INODES) == |w.fs.free|
  {
    hide Inv, Sound, Tight, OwnedBelow, Charges, FreeBlocks;
    InvSound(w);
    AllBacked(w);
    CountOwned(w, MAX_INODES);
    forall b: int
      ensures b in FreeBlocks(w.fs.free) || b in OwnedBelow(w, MAX_INODES) <==> 2 <= b < |w.fs.free|
      ensures !(b in FreeBlocks(w.fs.free) && b in OwnedBelow(w, MAX_INODES))
    {
      FreeOrOwned(w, b);
    }
    CountSplit(|w.fs.free|, FreeBlocks(w.fs.free), OwnedBelow(w, MAX_INODES));
  }

  lemma AllBacked(w: World)
    requires Sound(w) && Tight(w)
    ensures forall i | 0 <= i < MAX_INODES :: Backed(w, i)
  {
    hide Slots, Backed;
  }

  lemma FreeOrOwned(w: World, b: int)
    requires Inv(w) && Sound(w) && Tight(w) && 2 <= |w.fs.free|
    ensures b in FreeBlocks(w.fs.free) || b in OwnedBelow(w, MAX_INODES) <==> 2 <= b < |w.fs.free|
    ensures !(b in FreeBlocks(w.fs.free) && b in OwnedBelow(w, MAX_INODES))
  {
    hide Inv, Sound, Tight, Slots, OwnedBelow;
    OwnedIs(w, MAX_INODES, b);
    OwnedUsed(w, b);
    ReservedUsed(w);
    TightExactly(w);
  }

  lemma OwnedUsed(w: World, b: int)
    requires Inv(w) && Sound(w)
    ensures b != -1 && (exists i | 0 <= i < MAX_INODES :: b in Slots(w, i)) ==>
              2 <= b < |w.fs.free| && w.fs.free[b] != 0
  {
    hide Inv, Sound, Slots;
    if i :| 0 <= i < MAX_INODES && b != -1 && b in Slots(w, i) {
      var a :| 0 <= a < SLOTS && Slots(w, i)[a] == b;
      SlotRange(w, i, a);
    }
  }

  lemma ReservedUsed(w: World)
    requires Inv(w) && 2 <= |w.fs.free|
    ensures w.fs.free[0] != 0 && w.fs.free[1] != 0
  {
  }

  // ---------------------------------------------------------------- one write and one close

  /** How many blocks a file grows by when `k` bytes are stored at `pos`. */
  function More(size: nat, pos: nat, k: nat): int {
    Blocks(if size < pos + k then pos + k else size) - Blocks(size)
  }

  /** The blocks still to be allocated for `k` bytes at the cursor are those behind the last one of the
      file. */
  lemma MissingBySize(w: World, i: nat, k: nat)
    requires Inv(w) && Sound(w) && i in w.open && i < MAX_INODES && Backed(w, i)
    requires w.open[i].pos + k <= 67584 && w.open[i].pos <= w.fs.inodes[i].file_size
    ensures var size := w.fs.inodes[i].file_size;
            |Missing(w.open[i].block_map, w.open[i].pos, k)| == More(size, w.open[i].pos, k)
  {
    hide Inv, Sound, Backed, Missing, More;
    OpenSlots(w, i);
    SizeFits(w, i);
    var (m, pos, size) := (w.open[i].block_map, w.open[i].pos, w.fs.inodes[i].file_size);
    forall a | 0 <= a < MAX_FILE_BLOCKS
      ensures m[a] < 0 <==> size <= a * 512
    {
      BackedAt(w, i, a);
    }
    MissingMore(m, size, pos, k);
  }

  lemma BackedAt(w: World, i: nat, a: nat)
    requires Inv(w) && Sound(w) && i in w.open && i < MAX_INODES && Backed(w, i) && a < MAX_FILE_BLOCKS
    ensures |w.open[i].block_map| == MAX_FILE_BLOCKS
    ensures w.open[i].block_map[a] < 0 <==> w.fs.inodes[i].file_size <= a * 512
  {
    hide Inv, Sound;
    NegativeIsEmpty(w, i, a);
    assert MapOf(w, i)[a] == w.open[i].block_map[a];
  }

  /** For a map that is filled exactly as far as `size`. */
  lemma MissingMore(m: seq<Int32>, size: nat, pos: nat, k: nat)
    requires |m| == MAX_FILE_BLOCKS && forall a | 0 <= a < MAX_FILE_BLOCKS :: m[a] < 0 <==> size <= a * 512
    requires pos <= size <= 67584 && pos + k <= 67584
    ensures |Missing(m, pos, k)| == More(size, pos, k)
  {
    hide Blocks, Lacks;
    var (first, last) := (Blocks(size), Blocks(if size < pos + k then pos + k else size));
    BlocksBelow(size, if size < pos + k then pos + k else size);
    RangeIs(first, last - first);
    forall a: int
      ensures a in Missing(m, pos, k) <==> first <= a < last
    {
      if 0 <= a < MAX_FILE_BLOCKS {
        LacksBySize(m, a, size, pos, k);
      }
    }
    assert Missing(m, pos, k) == Range(first, last - first);
  }

  lemma BlocksBelow(size: nat, size1: nat)
    requires size <= size1 <= 67584
    ensures Blocks(size) <= Blocks(size1) <= 132
  {
  }

  lemma LacksBySize(m: seq<Int32>, a: nat, size: nat, pos: nat, k: nat)
    requires a < |m| && (m[a] < 0 <==> size <= a * 512) && pos <= size
    ensures Lacks(m, a, pos, k) <==> Blocks(size) <= a < Blocks(if size < pos + k then pos + k else size)
  {
  }

  lemma NegativeIsEmpty(w: World, i: nat, a: nat)
    requires Inv(w) && Sound(w) && i in w.open && i < MAX_INODES && a < MAX_FILE_BLOCKS
    ensures |w.open[i].block_map| == MAX_FILE_BLOCKS && (w.open[i].block_map[a] < 0 <==> w.open[i].block_map[a] == -1)
  {
    hide Inv, Sound, Slots;
    OpenSlots(w, i);
    if w.open[i].block_map[a] != -1 {
      SlotRange(w, i, a);
    }
  }

  /** A write stores as many bytes as the free blocks allow, over and above the blocks that the size of
      the file accounts for. */
  ghost predicate StoresBySize(w: World, i: nat, data: seq<Byte>, r: Result)
    requires i in w.open && w.open[i].pos <= 67584 && i < |w.fs.inodes|
  {
    var (pos, size) := (w.open[i].pos, w.fs.inodes[i].file_size);
    var n := Min(|data|, 67584 - pos);
    && r.Count? && r.k <= n
    && forall j: nat | j <= n :: j <= r.k <==> More(size, pos, j) <= |FreeBlocks(w.fs.free)|
  }

  lemma WriteBySize(w: World, id: Int32, data: seq<Byte>, r: Result, w1: World)
    requires Inv(w) && Tight(w) && Step(w, Write(id, data), r, w1)
    ensures var i := Lookup(w.fs, id);
            i in w.open && i < |w.fs.inodes| && w.open[i].pos <= 67584 && StoresBySize(w, i, data, r)
  {
    hide Inv, Backed, Missing, More, FreeBlocks, WriteStep, Sound;
    WriteStoresMost(w, id, data, r, w1);
    var i := Lookup(w.fs, id);
    OpenFits(w, i);
    CursorInside(w, i);
    TightBacked(w, i);
    var n := Min(|data|, 67584 - w.open[i].pos);
    forall j: nat | j <= n
      ensures j <= r.k <==> More(w.fs.inodes[i].file_size, w.open[i].pos, j) <= |FreeBlocks(w.fs.free)|
    {
      MissingBySize(w, i, j);
    }
  }

  /** A close keeps its pointers if and only if the file fits into four blocks, already has a pointer
      block, or a block is free. */
  ghost predicate KeepsIff(w: World, i: nat, r: Result)
    requires i < |w.fs.inodes|
  {
    r == Done(true) <==>
      w.fs.inodes[i].file_size <= 2048 || w.fs.inodes[i].indirect_block_no != -1 || FreeBlocks(w.fs.free) != {}
  }

  lemma CloseBySize(w: World, id: Int32, r: Result, w1: World)
    requires Inv(w) && Tight(w) && Step(w, Close(id), r, w1)
    ensures 0 <= Lookup(w.fs, id) < |w.fs.inodes| && r.Done? && KeepsIff(w, Lookup(w.fs, id), r)
  {
    hide Inv, CloseStep, CloseTables, CloseData, Backed, UsesIndirect, Sound;
    var i := Lookup(w.fs, id);
    OpenFits(w, i);
    CloseHasEffect(w, i, r, w1);
    TightBacked(w, i);
    UsesBySize(w, i);
    if b :| 0 <= b < |w.fs.free| && w.fs.free[b] == 0 {
      assert b in FreeBlocks(w.fs.free);
    }
  }

  lemma UsesBySize(w: World, i: nat)
    requires Inv(w) && Sound(w) && i in w.open && i < MAX_INODES && Backed(w, i)
    ensures |w.open[i].block_map| == MAX_FILE_BLOCKS
    ensures UsesIndirect(w.open[i].block_map) <==> 2048 < w.fs.inodes[i].file_size
  {
    hide Inv, Sound, Slots;
    OpenSlots(w, i);
    var m := w.open[i].block_map;
    forall a | MAX_DIRECT <= a < MAX_FILE_BLOCKS
      ensures 0 <= m[a] <==> a * 512 < w.fs.inodes[i].file_size
    {
      BackedAt(w, i, a);
    }
    assert 0 <= m[MAX_DIRECT] <==> 2048 < w.fs.inodes[i].file_size;
  }

  // ---------------------------------------------------------------- whole runs

  /** No close among the first `k` operations lost its pointers. */
  ghost predicate NoLoss(ops: seq<Op>, rs: seq<Result>, k: nat) {
    |rs| == |ops| && k <= |ops| && forall j | 0 <= j < k && ops[j].Close? :: rs[j] == Done(true)
  }

  lemma RunIsTight(ws: seq<World>, ops: seq<Op>, rs: seq<Result>, k: nat)
    requires IsRun(ws, ops, rs) && NoLoss(ops, rs, k) && |ws[0].fs.free| <= 508
    ensures Inv(ws[k]) && Tight(ws[k])
  {
    hide Inv, Tight, Step, Initial;
    forall j | 0 <= j < k
      ensures Step(ws[..k + 1][j], ops[..k][j], rs[..k][j], ws[..k + 1][j + 1])
    {
      assert Step(ws[j], ops[j], rs[j], ws[j + 1]);
    }
    RunTight(ws[..k + 1], ops[..k], rs[..k]);
  }

  /** Every inode points back to the file system that holds it. */
  ghost predicate Homed(s: Fs) {
    |s.inodes| == MAX_INODES && forall i | 0 <= i < MAX_INODES :: s.inodes[i].fs == s.self
  }

  lemma WriteHome(w: World, i: nat, data: seq<Byte>, r: Result, w1: World)
    requires Sound(w) && i in w.open && WriteStep(w, i, data, r, w1) && Homed(w.fs)
    ensures Homed(w1.fs) && |w1.fs.free| == |w.fs.free|
  {
    hide FreeListBlock, Frugal, OpenMap, Meets;
  }

  lemma CloseHome(w: World, i: nat, r: Result, w1: World)
    requires Inv(w) && Sound(w) && i in w.open && CloseStep(w, i, r, w1) && Homed(w.fs)
    ensures Homed(w1.fs) && |w1.fs.free| == |w.fs.free|
  {
    hide Inv, OpenMap, InodesBlock, FreeListBlock, UsesIndirect, TableBlock, Flush, FirstIndex, OnDisk;
    OpenFits(w, i);
  }

  lemma MountHome(w: World, self: Word, w1: World)
    requires Sound(w) && Mounts(Unmount(w.fs).disk, self, w1.fs)
    ensures Homed(w1.fs) && |w1.fs.free| == |w.fs.free|
  {
    hide InodesBlock, InodeAt, WordAt, OpenMap;
    CountRoundTrip(w.fs.free);
  }

  /** A step keeps the number of blocks and the back pointers. */
  lemma StepHome(w: World, op: Op, r: Result, w1: World)
    requires Inv(w) && Step(w, op, r, w1) && Homed(w.fs)
    ensures Homed(w1.fs) && |w1.fs.free| == |w.fs.free|
  {
    hide Inv, Sound, Homed, WriteStep, CloseStep, ReadStep, CreateFile, DeleteFile;
    InvSound(w);
    match op
    case Create(id) =>
      CreateOk(w.fs, id);
      if r.ok {
        CreateHome(w.fs, id);
      }
    case Delete(id) =>
      DeleteOk(w.fs, id);
      if r.ok {
        DeleteHome(w, id);
      }
    case Write(id, data) => WriteHome(w, Lookup(w.fs, id), data, r, w1);
    case Close(id) => CloseHome(w, Lookup(w.fs, id), r, w1);
    case Remount(self) => MountHome(w, self, w1);
    case Read(id, n) => assert w1.fs == w.fs by { ReadOnly(w, Lookup(w.fs, id), n, r, w1); }
    case CloseMissing => SaveHome(w.fs);
    case _ => assert w1.fs == w.fs;
  }

  lemma ReadOnly(w: World, i: nat, n: nat, r: Result, w1: World)
    requires Sound(w) && i in w.open && ReadStep(w, i, n, r, w1)
    ensures w1.fs == w.fs
  {
    hide OpenMap;
  }

  lemma SaveHome(s: Fs)
    requires Shape(s) && Homed(s)
    ensures Homed(SaveInodes(s)) && |SaveInodes(s).free| == |s.free|
  {
    hide InodesBlock;
  }

  lemma CreateHome(s: Fs, id: Int32)
    requires Shape(s) && CreateFile(s, id).1 && Homed(s)
    ensures Homed(CreateFile(s, id).0) && |CreateFile(s, id).0.free| == |s.free|
  {
    hide CreateFile;
    CreatedInode(s, id);
  }

  lemma DeleteHome(w: World, id: Int32)
    requires Inv(w) && Legal(w, Delete(id)) && DeleteFile(w.fs, id).1 && Homed(w.fs)
    ensures Homed(DeleteFile(w.fs, id).0) && |DeleteFile(w.fs, id).0.free| == |w.fs.free|
  {
    hide InodesBlock, FreeListBlock, NamedBlocks, Inv;
    InvSound(w);
  }

  lemma {:induction false} RunHomed(ws: seq<World>, ops: seq<Op>, rs: seq<Result>, k: nat)
    requires IsRun(ws, ops, rs) && k <= |ops| && Homed(ws[0].fs) && forall j | 0 <= j < |ws| :: Inv(ws[j])
    ensures Homed(ws[k].fs) && |ws[k].fs.free| == |ws[0].fs.free|
  {
    hide Step, Initial, Inv, Homed;
    if k > 0 {
      RunHomed(ws, ops, rs, k - 1);
      assert Step(ws[k - 1], ops[k - 1], rs[k - 1], ws[k]);
      StepHome(ws[k - 1], ops[k - 1], rs[k - 1], ws[k]);
    }
  }

  lemma MountedHomed(disk: seq<Block>, self: Word, s: Fs)
    requires Mounts(disk, self, s)
    ensures Homed(s)
  {
    hide InodeAt, WordAt;
  }

  /** In every run from a disk formatted with `size`, the number of blocks is `size` / 512 throughout, and
      every inode points back to the file system object. */
  lemma RunHome(ws: seq<World>, ops: seq<Op>, rs: seq<Result>, disk: seq<Block>, size: Word, k: nat)
    requires IsRun(ws, ops, rs) && k <= |ops|
    requires 2 <= |disk| && Mounts(FormatDisk(disk, size), ws[0].fs.self, ws[0].fs)
    ensures Inv(ws[k]) && |ws[k].fs.free| == size / 512 && |ws[k].fs.inodes| == 16
    ensures forall i | 0 <= i < 16 :: ws[k].fs.inodes[i].fs == ws[k].fs.self
  {
    hide Step, Initial, Inv, FormatDisk, Mounts, Means, Sound, IsAbsRun;
    RunRefines(ws, ops, rs);
    FormatCount(disk, size, ws[0].fs.self, ws[0].fs);
    MountedHomed(FormatDisk(disk, size), ws[0].fs.self, ws[0].fs);
    RunHomed(ws, ops, rs, k);
  }

  /** The law of space. In every run from a disk formatted with `size`, while no close has lost its
      pointers: the free blocks, the two reserved ones and the charges of the files add up to the disk; a
      closed file is charged for its size alone; a write stores what the free blocks then allow, and a
      close keeps its pointers exactly when it can. */
  lemma SpaceLaw(ws: seq<World>, ops: seq<Op>, rs: seq<Result>, disk: seq<Block>, size: Word, k: nat)
    requires IsRun(ws, ops, rs) && NoLoss(ops, rs, k) && 2 <= size / 512 <= 508
    requires 2 <= |disk| && Mounts(FormatDisk(disk, size), ws[0].fs.self, ws[0].fs)
    ensures Shape(ws[k].fs) && |FreeBlocks(ws[k].fs.free)| + 2 + Charges(ws[k], 16) == size / 512
    ensures forall i | 0 <= i < 16 && i !in ws[k].open ::
              Charge(ws[k], i) ==
              Blocks(ws[k].fs.inodes[i].file_size) + if 2048 < ws[k].fs.inodes[i].file_size then 1 else 0
    ensures k < |ops| && ops[k].Write? ==>
              var i := Lookup(ws[k].fs, ops[k].id);
              i in ws[k].open && i < |ws[k].fs.inodes| && ws[k].open[i].pos <= 67584
              && StoresBySize(ws[k], i, ops[k].data, rs[k])
    ensures k < |ops| && ops[k].Close? ==>
              var i := Lookup(ws[k].fs, ops[k].id);
              0 <= i < |ws[k].fs.inodes| && KeepsIff(ws[k], i, rs[k])
  {
    hide Inv, Step, Initial, FormatDisk, Mounts, Tight, StoresBySize, KeepsIff, Charge;
    RunHome(ws, ops, rs, disk, size, 0);
    RunHome(ws, ops, rs, disk, size, k);
    RunIsTight(ws, ops, rs, k);
    var w := ws[k];
    Accounts(w);
    forall i | 0 <= i < 16 && i !in w.open
      ensures Charge(w, i) == Blocks(w.fs.inodes[i].file_size) + if 2048 < w.fs.inodes[i].file_size then 1 else 0
    {
      TightBacked(w, i);
      ChargeIs(w, i);
    }
    if k < |ops| {
      assert Step(w, ops[k], rs[k], ws[k + 1]);
      if ops[k].Write? {
        WriteBySize(w, ops[k].id, ops[k].data, rs[k], ws[k + 1]);
      }
      if ops[k].Close? {
        CloseBySize(w, ops[k].id, rs[k], ws[k + 1]);
      }
    }
  }
}
