/** A run in which a close loses data: the file needs a pointer block and the disk is full. */
module FileSystemLoss {
  import opened DiskFormat
  import opened FileSystemSpec
  import opened FileSystemRun
  import opened FileSystemSafety
  import opened FileSystemClose
  import opened FileSystemRefinement

  /** Seven blocks, of which five can hold data. */
  const BLOCKS := 7
  /** Five blocks of data, one more than the direct ones. */
  const LENGTH := 2560

  ghost predicate Fresh(w: World) {
    && Initial(w) && w.open == map[] && w.fs.self == 0 && |w.fs.disk| == BLOCKS
    && w.fs.free == ReservedOnly(BLOCKS) && |w.fs.inodes| == MAX_INODES
    && forall i | 0 <= i < MAX_INODES :: w.fs.inodes[i] == Blank(-1, 0)
  }

  /** File 1 has inode 0 and no blocks yet. */
  ghost predicate Started(w: World) {
    && Inv(w) && |w.fs.disk| == BLOCKS && w.fs.free == ReservedOnly(BLOCKS)
    && w.fs.inodes[0] == Blank(1, 0) && Lookup(w.fs, 1) == 0
  }

  lemma Format() returns (w: World)
    ensures Fresh(w)
  {
    hide InodeAt, WordAt, FreeListBlock, InodesBlock;
    var zeros: Block := seq(BLOCK_SIZE, i => 0);
    var disk := seq(BLOCKS, i => zeros);
    var image := FormatDisk(disk, BLOCKS * BLOCK_SIZE);
    w := World(Fs(0, ReservedOnly(BLOCKS), BlankInodes(), image), map[]);
    InodesSaved(BlankInodes());
    Stored();
    assert Mounts(FormatDisk(disk, BLOCKS * BLOCK_SIZE), w.fs.self, w.fs);
  }

  lemma Stored()
    ensures LoadsTo(FreeListBlock(ReservedOnly(BLOCKS)), ReservedOnly(BLOCKS))
  {
    CountRoundTrip(ReservedOnly(BLOCKS));
    hide WordAt;
  }

  lemma CreateValue(s: Fs)
    requires Shape(s) && forall i | 0 <= i < MAX_INODES :: s.inodes[i] == Blank(-1, 0)
    ensures CreateFile(s, 1) == (SaveInodes(s.(inodes := s.inodes[0 := Blank(1, s.self)])), true)
    ensures Lookup(s, -1) == 0 && Lookup(CreateFile(s, 1).0, 1) == 0
  {
    hide InodesBlock;
    assert s.inodes[0].id == -1 && CreateFile(s, 1).0.inodes[0].id == 1 by {
      assert s.inodes[0] == Blank(-1, 0) && Lookup(s, -1) == 0;
    }
  }

  lemma Create(w: World) returns (w1: World)
    requires Fresh(w)
    ensures Step(w, Op.Create(1), Done(true), w1) && Started(w1) && w1.open == map[]
  {
    hide Initial, InodesBlock, Inv, CreateFile, Lookup;
    InitialInv(w);
    InvSound(w);
    CreateValue(w.fs);
    w1 := w.(fs := CreateFile(w.fs, 1).0);
    CreateMoves(w, 1);
  }

  /** File 1 is the one in inode 0. */
  lemma HasInode(w: World)
    requires Inv(w)
    ensures Lookup(w.fs, 1) == 0 <==> ViewOf(w, 0).Used? && ViewOf(w, 0).id == 1
  {
    hide Owned, Matrix, SlotOk, FreeListBlock, Bytes;
  }

  lemma Open(w: World) returns (w1: World)
    requires Started(w) && w.open == map[]
    ensures Step(w, Op.Open(1), Done(true), w1) && Started(w1) && 0 in w1.open
    ensures w1.open[0].pos == 0 && w1.open[0].block_map == NO_BLOCKS + NoPointers()
  {
    hide InodesBlock, Owned, Matrix, SlotOk, FreeListBlock, LoadCache;
    w1 := w.(open := w.open[0 := OpenFile(w.fs, 0)]);
    OpenMoves(w, 1, Done(true), w1);
  }

  /** The block map after all five blocks are taken in order. */
  function FullMap(): (m: seq<Int32>)
    ensures |m| == MAX_FILE_BLOCKS && forall a | 0 <= a < MAX_FILE_BLOCKS :: m[a] == if a < 5 then a + 2 else -1
  {
    seq(MAX_FILE_BLOCKS, a => if a < 5 then a + 2 else -1)
  }

  function AllUsed(): (f: seq<Byte>)
    ensures |f| == BLOCKS && forall b | 0 <= b < BLOCKS :: f[b] == 1
  {
    seq(BLOCKS, b => 1)
  }

  lemma Write(w: World, data: seq<Byte>) returns (w1: World)
    requires Started(w) && 0 in w.open && |data| == LENGTH
    requires w.open[0].pos == 0 && w.open[0].block_map == NO_BLOCKS + NoPointers()
    ensures Step(w, Op.Write(1, data), Count(LENGTH), w1) && Inv(w1) && 0 in w1.open && Lookup(w1.fs, 1) == 0
    ensures !PointersFit(w1, 0)
  {
    hide InodesBlock, Owned, Matrix, SlotOk, FreeListBlock;
    var h := w.open[0];
    var h1 := Handle(FullMap(), data + h.cache[LENGTH..], LENGTH);
    var inodes := w.fs.inodes[0 := w.fs.inodes[0].(file_size := LENGTH)];
    var s1 := Fs(w.fs.self, AllUsed(), inodes, w.fs.disk[FREELIST_BLOCK := FreeListBlock(AllUsed())]);
    w1 := World(s1, w.open[0 := h1]);
    Fills(w.fs, h.block_map, s1.(inodes := w.fs.inodes));
    assert h1.cache == h.cache[..0] + data[..LENGTH] + h.cache[LENGTH..];
    hide Grows;
    assert Writes(w.fs, 0, h, data, LENGTH, s1, h1);
    WriteMoves(w, 0, data, Count(LENGTH), w1);
    assert h1.block_map[MAX_DIRECT] == 6;
  }

  lemma Fills(s: Fs, m: seq<Int32>, s1: Fs)
    requires Shape(s) && s.free == ReservedOnly(BLOCKS) && m == NO_BLOCKS + NoPointers()
    requires s1 == s.(free := AllUsed(), disk := s.disk[FREELIST_BLOCK := FreeListBlock(AllUsed())])
    ensures Grows(s, m, s1, FullMap())
  {
    hide FreeListBlock;
    forall b | 0 <= b < BLOCKS
      ensures Entered(m, FullMap(), b) <==> 2 <= b
    {
      if 2 <= b {
        assert FullMap()[b - 2] == b && m[b - 2] == -1;
      }
    }
    assert s1.free[2] != s.free[2];
  }

  lemma Close(w: World) returns (w1: World)
    requires Inv(w) && 0 in w.open && Lookup(w.fs, 1) == 0 && !PointersFit(w, 0)
    ensures Step(w, Op.Close(1), Done(false), w1) && Inv(w1) && 0 !in w1.open && Lookup(w1.fs, 1) == 0
  {
    hide Inv, Sound, CloseFile, PointersFit, ViewOf, Lookup, KeptBytes;
    InvSound(w);
    OpenFits(w, 0);
    HasInode(w);
    var c := CloseFile(w.fs, 0, w.open[0]);
    w1 := World(c.0, w.open - {0});
    CloseMoves(w, 0, Done(c.1), w1);
    HasInode(w1);
  }

  lemma Reopen(w: World) returns (w1: World)
    requires Inv(w) && 0 !in w.open && Lookup(w.fs, 1) == 0
    ensures Step(w, Op.Open(1), Done(true), w1) && Inv(w1) && 0 in w1.open && Lookup(w1.fs, 1) == 0
  {
    hide Inv, ViewOf, Lookup, OpenFile;
    InvSound(w);
    w1 := w.(open := w.open[0 := OpenFile(w.fs, 0)]);
    OpenMoves(w, 1, Done(true), w1);
  }

  lemma Read(w: World) returns (r: Result, w1: World)
    requires Inv(w) && 0 in w.open && Lookup(w.fs, 1) == 0
    ensures Step(w, Op.Read(1, LENGTH), r, w1)
  {
    hide Inv, Lookup, Sound;
    InvSound(w);
    OpenFits(w, 0);
    CursorInside(w, 0);
    var h := w.open[0];
    var k := ReadCount(w.fs.inodes[0].file_size, h, LENGTH);
    w1 := SetPos(w, 0, h.pos + k);
    r := Data(h.cache[h.pos..h.pos + k]);
  }

  function Ops(data: seq<Byte>): (ops: seq<Op>)
    ensures |ops| == 6
  {
    [Op.Create(1), Op.Open(1), Op.Write(1, data), Op.Close(1), Op.Open(1), Op.Read(1, LENGTH)]
  }

  lemma Runs(data: seq<Byte>) returns (ws: seq<World>, rs: seq<Result>)
    requires |data| == LENGTH
    ensures IsRun(ws, Ops(data), rs)
    ensures rs == [Done(true), Done(true), Count(LENGTH), Done(false), Done(true), rs[5]]
  {
    hide Fresh, Started, Inv, Step, PointersFit;
    var w0 := Format();
    FreshIsInitial(w0);
    var w1 := Create(w0);
    var w2 := Open(w1);
    StartedIsSound(w2);
    var w3 := Write(w2, data);
    var w4 := Close(w3);
    var w5 := Reopen(w4);
    var r, w6 := Read(w5);
    ws := [w0, w1, w2, w3, w4, w5, w6];
    rs := [Done(true), Done(true), Count(LENGTH), Done(false), Done(true), r];
  }

  lemma FreshIsInitial(w: World)
    requires Fresh(w)
    ensures Initial(w)
  {
  }

  lemma StartedIsSound(w: World)
    requires Started(w)
    ensures Inv(w)
  {
  }

  /** What the map from id to byte string goes through in such a run. */
  lemma MeansOf(data: seq<Byte>, fs: seq<Files>, rs: seq<Result>)
    requires |data| == LENGTH && IsAbsRun(fs, Ops(data), rs)
    requires rs == [Done(true), Done(true), Count(LENGTH), Done(false), Done(true), rs[5]]
    ensures rs[5] == Data(DirectOnly(data))
  {
    hide DirectOnly;
    var ops := Ops(data);
    assert AbsStep(fs[0], ops[0], rs[0], fs[1]);
    assert AbsStep(fs[1], ops[1], rs[1], fs[2]);
    assert fs[2] == map[1 := File([], At(0))];
    assert AbsStep(fs[2], ops[2], rs[2], fs[3]);
    assert data[..LENGTH] == data && Overlay([], 0, data) == data;
    assert fs[3][1].content == data;
    assert AbsStep(fs[3], ops[3], rs[3], fs[4]);
    assert AbsStep(fs[4], ops[4], rs[4], fs[5]);
    assert AbsStep(fs[5], ops[5], rs[5], fs[6]);
    assert DirectOnly(data)[0..LENGTH] == DirectOnly(data);
  }

  /** On a disk of seven blocks, five blocks written to a new file, whatever their bytes, are reported as
      written; after close and reopen, bytes 2048 to 2559 read as zero. */
  lemma CloseCanLose(data: seq<Byte>)
    requires |data| == LENGTH
    ensures exists ws: seq<World>, rs: seq<Result> ::
              && IsRun(ws, Ops(data), rs) && rs[2] == Count(LENGTH) && rs[3] == Done(false)
              && rs[5] == Data(data[..2048] + seq(512, i => 0))
  {
    hide IsRun, Ops, IsAbsRun;
    var ws, rs := Runs(data);
    var fs := RunFiles(ws, Ops(data), rs);
    MeansOf(data, fs, rs);
    assert DirectOnly(data) == data[..2048] + seq(512, i => 0);
  }
}
