/** The file system refines a map from file id to byte string with a cursor, over every run. */
module FileSystemRefinement {
  import opened DiskFormat
  import opened FileSystemSpec
  import opened FileSystemRun
  import opened FileSystemSafety
  import opened FileSystemClose

  // ---------------------------------------------------------------- steps that move no inode

  lemma RebuildAll(w: World, w1: World)
    requires Inv(w) && Sound(w1) && Confined(w, w1, -1) && w1.fs.free == w.fs.free
    requires w1.fs.disk[FREELIST_BLOCK] == w.fs.disk[FREELIST_BLOCK]
    requires forall j | 0 <= j < MAX_INODES ::
               && SameNames(InodeAt(w1.fs.disk[INODES_BLOCK], j), w.fs.inodes[j])
               && InodeAt(w1.fs.disk[INODES_BLOCK], j).file_size == w.fs.inodes[j].file_size
    ensures Moves(w, w1, -1, Unused)
  {
    hide InodeAt, InodesBlock, TableOf, FreeListBlock, LoadCache, HandleOk, Owned, OpenMap;
    forall j | 0 <= j < MAX_INODES
      ensures Slots(w1, j) == Slots(w, j) && SlotOk(w1, j) && ViewOf(w1, j) == ViewOf(w, j)
    {
      OtherKept(w, w1, -1, j);
    }
    assert Matrix(w1) == Matrix(w);
  }

  lemma AllKept(w: World, s1: Fs)
    requires Inv(w) && Shape(s1) && |s1.disk| == |w.fs.disk|
    requires forall j | 0 <= j < MAX_INODES ::
               SameNames(s1.inodes[j], w.fs.inodes[j]) && s1.inodes[j].file_size == w.fs.inodes[j].file_size
    requires forall b | 2 <= b < |w.fs.disk| :: s1.disk[b] == w.fs.disk[b]
    ensures Sound(World(s1, w.open)) && Confined(w, World(s1, w.open), -1)
  {
    hide InodeAt, InodesBlock, TableOf, FreeListBlock, LoadCache, SlotOk, Owned;
    forall j | 0 <= j < MAX_INODES
      ensures s1.inodes[j].indirect_block_no < |s1.disk| && OnDisk(OpenMap(s1, j), s1.disk)
    {
      if w.fs.inodes[j].indirect_block_no != -1 {
        PointerRange(w, j);
      }
      OpenMapKept(w.fs, s1, j);
    }
    hide Slots, OpenMap;
    forall j, a | 0 <= j < MAX_INODES && 0 <= a < SLOTS && 0 <= Slots(w, j)[a] < |w.fs.disk|
      ensures s1.disk[Slots(w, j)[a]] == w.fs.disk[Slots(w, j)[a]]
    {
      SlotRange(w, j, a);
    }
  }

  lemma SaveMoves(w: World)
    requires Inv(w)
    ensures Moves(w, w.(fs := SaveInodes(w.fs)), -1, Unused)
  {
    hide InodeAt, InodesBlock, TableOf, FreeListBlock, LoadCache, SlotOk, Owned, Slots, OpenMap;
    AllKept(w, SaveInodes(w.fs));
    InodesSaved(w.fs.inodes);
    hide Confined, Sound;
    RebuildAll(w, w.(fs := SaveInodes(w.fs)));
  }

  /** Unmounting saves both tables; mounting the result rebuilds them. */
  lemma RemountMoves(w: World, self: Word, w1: World)
    requires Inv(w) && w.open == map[] == w1.open && |w.fs.free| <= BITMAP_BYTES
    requires Mounts(Unmount(w.fs).disk, self, w1.fs)
    ensures Moves(w, w1, -1, Unused)
  {
    hide InodeAt, InodesBlock, TableOf, LoadCache, SlotOk, Owned, Slots, OpenMap;
    InodesSaved(w.fs.inodes);
    FreeListRoundTripIff(w.fs.free);
    assert w1.fs.free == w.fs.free;
    hide FreeListBlock;
    AllKept(w, w1.fs);
    hide Confined, Sound;
    RebuildAll(w, w1);
  }

  lemma InitialInv(w: World)
    requires Initial(w)
    ensures Inv(w) && forall i | 0 <= i < MAX_INODES :: w.fs.inodes[i].id == -1
  {
    var disk: seq<Block>, size: Word :|
      2 <= |disk| && size / BLOCK_SIZE <= |disk| && Mounts(FormatDisk(disk, size), w.fs.self, w.fs);
    InitialTables(disk, size, w.fs);
    hide Mounts, FormatDisk;
    FreshInv(w);
  }

  lemma FreshInv(w: World)
    requires w.open == map[] && Shape(w.fs) && w.fs.disk[FREELIST_BLOCK] == FreeListBlock(w.fs.free)
    requires forall b | 0 <= b < |w.fs.free| && b < 2 :: w.fs.free[b] != 0
    requires forall i | 0 <= i < MAX_INODES ::
               w.fs.inodes[i] == Blank(-1, w.fs.self) && InodeAt(w.fs.disk[INODES_BLOCK], i) == Blank(-1, 0)
    ensures Inv(w)
  {
    hide InodeAt, InodesBlock, TableOf, FreeListBlock, LoadCache;
    assert Sound(w);
    forall i, a | 0 <= i < MAX_INODES && 0 <= a < SLOTS
      ensures Matrix(w)[i][a] == -1
    {
      assert Matrix(w)[i] == NO_BLOCKS + NoPointers() + [-1];
    }
    hide Slots, OpenMap;
    assert Owned(w.fs.free, Matrix(w));
    hide Owned, Matrix;
  }

  lemma InitialTables(disk: seq<Block>, size: Word, s: Fs)
    requires 2 <= |disk| && size / BLOCK_SIZE <= |disk| && Mounts(FormatDisk(disk, size), s.self, s)
    ensures Shape(s) && s.disk[FREELIST_BLOCK] == FreeListBlock(s.free)
    ensures forall b | 0 <= b < |s.free| && b < 2 :: s.free[b] != 0
    ensures forall i | 0 <= i < MAX_INODES ::
              s.inodes[i] == Blank(-1, s.self) && InodeAt(s.disk[INODES_BLOCK], i) == Blank(-1, 0)
  {
    var n := size / BLOCK_SIZE;
    InodesSaved(BlankInodes());
    CountRoundTrip(ReservedOnly(n));
    hide InodeAt, InodesBlock, WordAt, IntAt;
    forall j | 0 <= j < BLOCK_SIZE
      ensures s.disk[FREELIST_BLOCK][j] == FreeListBlock(s.free)[j]
    {
      assert s.disk[FREELIST_BLOCK][j] == FreeListByte(ReservedOnly(n), j);
    }
    assert forall b | 0 <= b < |s.free| && b < 2 :: s.free[b] == s.disk[FREELIST_BLOCK][b];
  }

  /** A formatted disk has the number of blocks asked for. Up to 508 of them all but the first two are free. */
  lemma FormatCount(disk: seq<Block>, size: Word, self: Word, s: Fs)
    requires 2 <= |disk| && Mounts(FormatDisk(disk, size), self, s)
    ensures |s.free| == size / 512
    ensures |s.free| <= 508 ==> forall b | 0 <= b < |s.free| :: s.free[b] == 0 <==> 2 <= b
  {
    var n := size / BLOCK_SIZE;
    CountRoundTrip(ReservedOnly(n));
    hide InodeAt, InodesBlock, WordAt;
    forall b | 0 <= b < |s.free| && b < BITMAP_BYTES
      ensures s.free[b] == ReservedOnly(n)[b]
    {
      assert s.free[b] == FreeListByte(ReservedOnly(n), b);
    }
  }

  // ---------------------------------------------------------------- the abstract machine

  type Files = map<int, File>

  function Overlaid(f: File, pos: nat, d: seq<Byte>): File
    requires pos <= |f.content|
  {
    File(Overlay(f.content, pos, d), At(pos + |d|))
  }

  /** One operation on a map from id to byte string and cursor. */
  ghost predicate AbsStep(a: Files, op: Op, r: Result, a1: Files) {
    match op
    case CloseMissing => a1 == a
    case Remount(_) => a1 == a
    case Create(id) =>
      && r == Done(id !in a && |a| < MAX_INODES)
      && a1 == if r.ok then a[id := File([], Closed)] else a
    case Delete(id) =>
      && r == Done(id in a)
      && a1 == a - {id}
    case Open(id) =>
      && r == Done(id in a)
      && a1 == if r.ok then a[id := a[id].(cursor := At(0))] else a
    case _ =>
      op.id in a && a[op.id].cursor.At? && a[op.id].cursor.pos <= |a[op.id].content| <= MAX_FILE_SIZE &&
      OpenFileStep(a, op, a[op.id], a[op.id].cursor.pos, r, a1)
  }

  /** Operations on an open file `f` with its cursor at `pos`. */
  ghost predicate OpenFileStep(a: Files, op: Op, f: File, pos: nat, r: Result, a1: Files)
    requires op.Read? || op.Write? || op.Reset? || op.Close?
    requires pos <= |f.content| <= MAX_FILE_SIZE
  {
    match op
    case Read(id, n) =>
      var k := Min(n, |f.content| - pos);
      r == Data(f.content[pos..pos + k]) && a1 == a[id := f.(cursor := At(pos + k))]
    case Write(id, data) =>
      r.Count? && r.k <= Min(|data|, MAX_FILE_SIZE - pos) && a1 == a[id := Overlaid(f, pos, data[..r.k])]
    case Reset(id) => a1 == a[id := f.(cursor := At(0))]
    case Close(id) => r.Done? && a1 == a[id := File(KeptBytes(f.content, r.ok), Closed)]
  }

  /** `a` is what the world means. */
  ghost predicate Means(w: World, a: Files)
    requires Sound(w)
  {
    && (forall id :: id in a <==> id != -1 && 0 <= Lookup(w.fs, id))
    && (forall id | id in a :: ViewOf(w, Lookup(w.fs, id)) == Used(id, a[id]))
  }

  lemma LookupIs(s: Fs, i: nat)
    requires i < |s.inodes| && DistinctIds(s.inodes) && s.inodes[i].id != -1
    ensures Lookup(s, s.inodes[i].id) == i
  {
  }

  /** Giving slot `i` the meaning of file `id`, new or already there, updates the map at `id`. */
  lemma MeansUpdate(w: World, w1: World, i: nat, id: int, f: File, a: Files)
    requires i < MAX_INODES && Moves(w, w1, i, Used(id, f)) && Means(w, a) && id != -1
    requires w.fs.inodes[i].id == id || (w.fs.inodes[i].id == -1 && id !in a)
    ensures Means(w1, a[id := f])
  {
    hide InodeAt, SlotOk, Owned, Slots, OpenMap, LoadCache, Bytes;
    forall x | x != -1
      ensures x in a[id := f] <==> 0 <= Lookup(w1.fs, x)
      ensures x in a[id := f] ==> ViewOf(w1, Lookup(w1.fs, x)) == Used(x, a[id := f][x])
    {
      assert ViewOf(w1, i).id == id;
      MeansAt(w, w1, i, x);
      if x == id {
        LookupIs(w1.fs, i);
      }
    }
  }

  /** Only slot `i` can change where an id is found. */
  lemma MeansAt(w: World, w1: World, i: nat, x: int)
    requires i < MAX_INODES && x != -1 && Inv(w) && Inv(w1)
    requires forall j | 0 <= j < MAX_INODES && j != i :: ViewOf(w1, j) == ViewOf(w, j)
    ensures x != w.fs.inodes[i].id && x != w1.fs.inodes[i].id ==> Lookup(w1.fs, x) == Lookup(w.fs, x)
    ensures Lookup(w.fs, x) == i ==> x == w.fs.inodes[i].id
    ensures x == w.fs.inodes[i].id && x != w1.fs.inodes[i].id ==> Lookup(w1.fs, x) == -1
  {
    hide InodeAt, SlotOk, Owned, Slots, OpenMap, LoadCache, Bytes;
    forall j | 0 <= j < MAX_INODES && j != i
      ensures w1.fs.inodes[j].id == w.fs.inodes[j].id
    {
      assert ViewOf(w1, j) == ViewOf(w, j);
    }
  }

  lemma MeansRemove(w: World, w1: World, i: nat, a: Files)
    requires i < MAX_INODES && Moves(w, w1, i, Unused) && Means(w, a) && w.fs.inodes[i].id != -1
    ensures Means(w1, a - {w.fs.inodes[i].id})
  {
    hide InodeAt, SlotOk, Owned, Slots, OpenMap, LoadCache, Bytes;
    forall x | x != -1
      ensures x in a - {w.fs.inodes[i].id} <==> 0 <= Lookup(w1.fs, x)
      ensures x in a - {w.fs.inodes[i].id} ==> ViewOf(w1, Lookup(w1.fs, x)) == Used(x, a[x])
    {
      assert ViewOf(w1, i) == Unused;
      MeansAt(w, w1, i, x);
    }
  }

  lemma MeansSame(w: World, w1: World, a: Files)
    requires Moves(w, w1, -1, Unused) && Means(w, a)
    ensures Means(w1, a)
  {
    hide InodeAt, SlotOk, Owned, Slots, OpenMap, LoadCache, Bytes;
    forall x | x != -1
      ensures Lookup(w1.fs, x) == Lookup(w.fs, x)
    {
      assert forall j | 0 <= j < MAX_INODES :: ViewOf(w1, j) == ViewOf(w, j);
      MeansAt(w, w1, 0, x);
      assert w1.fs.inodes[0].id == w.fs.inodes[0].id by { assert ViewOf(w1, 0) == ViewOf(w, 0); }
    }
  }

  // ---------------------------------------------------------------- counting inodes

  function IdsBelow(inodes: seq<Inode>, n: nat): set<int>
    requires n <= |inodes|
  {
    set i | 0 <= i < n && inodes[i].id != -1 :: inodes[i].id as int
  }

  lemma IdsBelowNext(inodes: seq<Inode>, n: nat)
    requires n < |inodes| && DistinctIds(inodes)
    ensures |IdsBelow(inodes, n + 1)| == |IdsBelow(inodes, n)| + if inodes[n].id == -1 then 0 else 1
  {
    var next := IdsBelow(inodes, n) + if inodes[n].id == -1 then {} else {inodes[n].id as int};
    assert IdsBelow(inodes, n + 1) == next && inodes[n].id !in IdsBelow(inodes, n);
  }

  lemma {:induction false} CountIds(inodes: seq<Inode>, n: nat)
    requires n <= |inodes| && DistinctIds(inodes)
    ensures |IdsBelow(inodes, n)| <= n
    ensures |IdsBelow(inodes, n)| == n <==> forall i | 0 <= i < n :: inodes[i].id != -1
  {
    if n > 0 {
      IdsBelowNext(inodes, n - 1);
      hide IdsBelow, DistinctIds;
      CountIds(inodes, n - 1);
    }
  }

  /** An inode is free exactly when fewer than 16 files exist. */
  lemma FreeInodeIff(w: World, a: Files)
    requires Inv(w) && Means(w, a)
    ensures |a| < 16 <==> 0 <= Lookup(w.fs, -1)
  {
    hide InodeAt, SlotOk, Owned, Slots, OpenMap, LoadCache, Bytes, ViewOf;
    CountIds(w.fs.inodes, MAX_INODES);
    forall id: int
      ensures id in a.Keys <==> id in IdsBelow(w.fs.inodes, MAX_INODES)
    {
      if 0 <= Lookup(w.fs, id) {
        assert w.fs.inodes[Lookup(w.fs, id)].id == id;
      }
    }
    assert a.Keys == IdsBelow(w.fs.inodes, MAX_INODES);
    assert |a| == |a.Keys|;
  }

  // ---------------------------------------------------------------- one step

  lemma MeansHas(w: World, a: Files, id: int)
    requires Sound(w) && Means(w, a)
    ensures id in a <==> id != -1 && 0 <= Lookup(w.fs, id)
    ensures id in a ==> Lookup(w.fs, id) < MAX_INODES && ViewOf(w, Lookup(w.fs, id)) == Used(id, a[id])
  {
    hide OpenMap, OnDisk, ViewOf;
  }

  lemma MovesInv(w: World, w1: World, i: int, v: View)
    requires Moves(w, w1, i, v)
    ensures Inv(w) && Inv(w1) && Sound(w1)
  {
    hide ViewOf, Slots, Owned, SlotOk;
  }

  lemma CreateOk(s: Fs, id: Int32)
    requires Shape(s)
    ensures CreateFile(s, id).1 <==> Lookup(s, id) < 0 && 0 <= Lookup(s, -1)
    ensures !CreateFile(s, id).1 ==> CreateFile(s, id).0 == s
    ensures 0 <= Lookup(s, -1) ==> Lookup(s, -1) < MAX_INODES && s.inodes[Lookup(s, -1)].id == -1
  {
    hide InodesBlock;
  }

  lemma CreateRefines(w: World, id: Int32, r: Result, w1: World, a: Files) returns (a1: Files)
    requires Inv(w) && Means(w, a) && Step(w, Create(id), r, w1)
    ensures Inv(w1) && AbsStep(a, Create(id), r, a1) && Means(w1, a1)
  {
    hide Inv, Sound, Means, Moves, ViewOf, CreateFile, OpenFileStep;
    InvSound(w);
    CreateOk(w.fs, id);
    FreeInodeIff(w, a);
    MeansHas(w, a, id);
    a1 := if r.ok then a[id := File([], Closed)] else a;
    if r.ok {
      CreateMoves(w, id);
      MovesInv(w, w1, Lookup(w.fs, -1), Used(id, File([], Closed)));
      MeansUpdate(w, w1, Lookup(w.fs, -1), id, File([], Closed), a);
    }
  }

  lemma DeleteOk(s: Fs, id: Int32)
    requires Shape(s)
    ensures DeleteFile(s, id).1 <==> 0 <= Lookup(s, id)
    ensures !DeleteFile(s, id).1 ==> DeleteFile(s, id).0 == s
  {
    hide InodesBlock, FreeListBlock, NamedBlocks;
  }

  lemma DeleteRefines(w: World, id: Int32, r: Result, w1: World, a: Files) returns (a1: Files)
    requires Inv(w) && Means(w, a) && Step(w, Delete(id), r, w1)
    ensures Inv(w1) && AbsStep(a, Delete(id), r, a1) && Means(w1, a1)
  {
    hide Inv, Sound, Means, Moves, ViewOf, DeleteFile, OpenFileStep;
    InvSound(w);
    DeleteOk(w.fs, id);
    MeansHas(w, a, id);
    if r.ok {
      a1 := a - {id};
      DeleteMoves(w, id);
      MovesInv(w, w1, Lookup(w.fs, id), Unused);
      MeansRemove(w, w1, Lookup(w.fs, id), a);
    } else {
      a1 := a;
      assert a - {id} == a;
    }
  }

  lemma OpenRefines(w: World, id: Int32, r: Result, w1: World, a: Files) returns (a1: Files)
    requires Inv(w) && Means(w, a) && Step(w, Open(id), r, w1)
    ensures Inv(w1) && AbsStep(a, Open(id), r, a1) && Means(w1, a1)
  {
    hide Inv, Sound, Means, Moves, ViewOf, OpenFile, OpenFileStep;
    InvSound(w);
    MeansHas(w, a, id);
    if r.ok {
      a1 := a[id := a[id].(cursor := At(0))];
      OpenMoves(w, id, r, w1);
      MovesInv(w, w1, Lookup(w.fs, id), Used(id, a1[id]));
      MeansUpdate(w, w1, Lookup(w.fs, id), id, a1[id], a);
    } else {
      a1 := a;
    }
  }

  /** An open inode is the file the map has under its id. */
  lemma OpenMeans(w: World, id: Int32, a: Files)
    requires Inv(w) && Means(w, a) && id != -1 && Lookup(w.fs, id) in w.open
    ensures id in a && ViewOf(w, Lookup(w.fs, id)) == Used(id, a[id])
    ensures var i := Lookup(w.fs, id);
            && w.fs.inodes[i].id == id && a[id].cursor == At(w.open[i].pos)
            && w.open[i].pos <= |a[id].content| == w.fs.inodes[i].file_size <= MAX_FILE_SIZE
            && a[id].content == w.open[i].cache[..w.fs.inodes[i].file_size]
  {
    hide InodeAt, SlotOk, Owned, Slots, OpenMap, LoadCache;
    CursorInside(w, Lookup(w.fs, id));
  }

  /** A step that turns file `op.id` into `f` is the abstract step that does so. */
  lemma OpenFileRefines(w: World, op: Op, r: Result, w1: World, a: Files, f: File)
    requires op.Read? || op.Write? || op.Reset? || op.Close?
    requires Inv(w) && Means(w, a) && op.id != -1 && Lookup(w.fs, op.id) in w.open && op.id in a
    requires Moves(w, w1, Lookup(w.fs, op.id), Used(op.id, f))
    requires a[op.id].cursor.At? && a[op.id].cursor.pos <= |a[op.id].content| <= MAX_FILE_SIZE
    requires OpenFileStep(a, op, a[op.id], a[op.id].cursor.pos, r, a[op.id := f])
    ensures Inv(w1) && AbsStep(a, op, r, a[op.id := f]) && Means(w1, a[op.id := f])
  {
    hide InodeAt, SlotOk, Owned, Slots, OpenMap, ViewOf, Means, OpenFileStep;
    MeansUpdate(w, w1, Lookup(w.fs, op.id), op.id, f, a);
  }

  lemma SliceOfPrefix(s: seq<Byte>, n: nat, lo: nat, hi: nat)
    requires lo <= hi <= n <= |s|
    ensures s[..n][lo..hi] == s[lo..hi]
  {
  }

  /** Read returns the next bytes of the content and moves the cursor behind them. */
  lemma ReadMoves(w: World, i: nat, n: nat, r: Result, w1: World)
    requires Inv(w) && i in w.open && ReadStep(w, i, n, r, w1)
    ensures ViewOf(w, i).Used? && w.open[i].pos <= |ViewOf(w, i).file.content|
    ensures var (f, pos) := (ViewOf(w, i).file, w.open[i].pos);
            var k := Min(n, |f.content| - pos);
            && r == Data(f.content[pos..pos + k])
            && Moves(w, w1, i, ViewOf(w, i).(file := f.(cursor := At(pos + k))))
  {
    hide InodeAt, SlotOk, Owned, Slots, OpenMap, FreeListBlock;
    CursorInside(w, i);
    var (pos, size) := (w.open[i].pos, w.fs.inodes[i].file_size);
    var k := ReadCount(size, w.open[i], n);
    SliceOfPrefix(w.open[i].cache, size, pos, pos + k);
    SetPosMoves(w, i, pos + k);
  }

  lemma ReadRefines(w: World, id: Int32, n: nat, r: Result, w1: World, a: Files) returns (a1: Files)
    requires Inv(w) && Means(w, a) && Step(w, Read(id, n), r, w1)
    ensures Inv(w1) && AbsStep(a, Read(id, n), r, a1) && Means(w1, a1)
  {
    hide InodeAt, SlotOk, Owned, Slots, OpenMap, ViewOf, Moves, Means, AbsStep, LoadCache, FreeListBlock, Writes,
         Mounts, CloseFile;
    var i := Lookup(w.fs, id);
    OpenMeans(w, id, a);
    ReadMoves(w, i, n, r, w1);
    hide Inv, Step, Sound, ReadStep, WriteStep, CloseStep, KeptBytes, Overlay;
    a1 := a[id := a[id].(cursor := At(w.open[i].pos + Min(n, |a[id].content| - w.open[i].pos)))];
    OpenFileRefines(w, Read(id, n), r, w1, a, a1[id]);
  }

  lemma WriteCount(w: World, i: nat, data: seq<Byte>, r: Result, w1: World)
    requires Sound(w) && i in w.open && WriteStep(w, i, data, r, w1)
    ensures r.Count? && r.k <= Min(|data|, MAX_FILE_SIZE - w.open[i].pos)
  {
  }

  lemma WriteRefines(w: World, id: Int32, data: seq<Byte>, r: Result, w1: World, a: Files) returns (a1: Files)
    requires Inv(w) && Means(w, a) && Step(w, Write(id, data), r, w1)
    ensures Inv(w1) && AbsStep(a, Write(id, data), r, a1) && Means(w1, a1)
  {
    hide InodeAt, SlotOk, Owned, Slots, OpenMap, ViewOf, Moves, Means, AbsStep, LoadCache, FreeListBlock, Writes,
         Mounts, CloseFile;
    var i := Lookup(w.fs, id);
    OpenMeans(w, id, a);
    WriteMoves(w, i, data, r, w1);
    WriteCount(w, i, data, r, w1);
    hide Inv, Step, Sound, ReadStep, WriteStep, CloseStep, KeptBytes, Overlay;
    a1 := a[id := Overlaid(a[id], w.open[i].pos, data[..r.k])];
    OpenFileRefines(w, Write(id, data), r, w1, a, a1[id]);
  }

  lemma ResetRefines(w: World, id: Int32, r: Result, w1: World, a: Files) returns (a1: Files)
    requires Inv(w) && Means(w, a) && Step(w, Reset(id), r, w1)
    ensures Inv(w1) && AbsStep(a, Reset(id), r, a1) && Means(w1, a1)
  {
    hide InodeAt, SlotOk, Owned, Slots, OpenMap, ViewOf, Moves, Means, AbsStep, LoadCache, FreeListBlock, Writes,
         Mounts, CloseFile;
    OpenMeans(w, id, a);
    SetPosMoves(w, Lookup(w.fs, id), 0);
    hide Inv, Step, Sound, ReadStep, WriteStep, CloseStep, KeptBytes, Overlay;
    a1 := a[id := a[id].(cursor := At(0))];
    OpenFileRefines(w, Reset(id), r, w1, a, a1[id]);
  }

  lemma CloseRefines(w: World, id: Int32, r: Result, w1: World, a: Files) returns (a1: Files)
    requires Inv(w) && Means(w, a) && Step(w, Close(id), r, w1)
    ensures Inv(w1) && AbsStep(a, Close(id), r, a1) && Means(w1, a1)
  {
    hide InodeAt, SlotOk, Owned, Slots, OpenMap, ViewOf, Moves, Means, AbsStep, LoadCache, FreeListBlock, Writes,
         Mounts, CloseFile;
    OpenMeans(w, id, a);
    CloseMoves(w, Lookup(w.fs, id), r, w1);
    hide Inv, Step, Sound, ReadStep, WriteStep, CloseStep, KeptBytes, Overlay;
    a1 := a[id := File(KeptBytes(a[id].content, r.ok), Closed)];
    OpenFileRefines(w, Close(id), r, w1, a, a1[id]);
  }

  /** Every legal step keeps the invariant and is a step of the abstract machine. */
  lemma StepRefines(w: World, op: Op, r: Result, w1: World, a: Files) returns (a1: Files)
    requires Inv(w) && Means(w, a) && Step(w, op, r, w1)
    ensures Inv(w1) && AbsStep(a, op, r, a1) && Means(w1, a1)
  {
    hide Inv, Sound, Means, OpenFileStep, OpenStep, ReadStep, WriteStep, CloseStep, SetPos;
    match op
    case Create(id) => a1 := CreateRefines(w, id, r, w1, a);
    case Delete(id) => a1 := DeleteRefines(w, id, r, w1, a);
    case Open(id) => a1 := OpenRefines(w, id, r, w1, a);
    case Read(id, n) => a1 := ReadRefines(w, id, n, r, w1, a);
    case Write(id, data) => a1 := WriteRefines(w, id, data, r, w1, a);
    case Reset(id) => a1 := ResetRefines(w, id, r, w1, a);
    case Close(id) => a1 := CloseRefines(w, id, r, w1, a);
    case CloseMissing =>
      SaveMoves(w);
      MeansSame(w, w1, a);
      a1 := a;
    case Remount(self) =>
      RemountMoves(w, self, w1);
      MeansSame(w, w1, a);
      a1 := a;
  }

  // ---------------------------------------------------------------- whole runs

  /** `ws` is a run from a freshly formatted disk, performing `ops` with results `rs`. */
  ghost predicate IsRun(ws: seq<World>, ops: seq<Op>, rs: seq<Result>) {
    && |ws| == |ops| + 1 == |rs| + 1
    && Initial(ws[0])
    && forall k | 0 <= k < |ops| :: Step(ws[k], ops[k], rs[k], ws[k + 1])
  }

  ghost predicate IsAbsRun(fs: seq<Files>, ops: seq<Op>, rs: seq<Result>) {
    && |fs| == |ops| + 1 == |rs| + 1
    && fs[0] == map[]
    && forall k | 0 <= k < |ops| :: AbsStep(fs[k], ops[k], rs[k], fs[k + 1])
  }

  /** Every run from a formatted disk is, operation by operation and result by result, a run of the
      map from id to byte string, and the invariant holds throughout. */
  lemma {:induction false} RunRefines(ws: seq<World>, ops: seq<Op>, rs: seq<Result>)
    requires IsRun(ws, ops, rs)
    ensures forall k | 0 <= k < |ws| :: Inv(ws[k])
    ensures exists fs: seq<Files> ::
              IsAbsRun(fs, ops, rs) && forall k | 0 <= k < |ws| :: Sound(ws[k]) && Means(ws[k], fs[k])
  {
    var fs := RunFiles(ws, ops, rs);
  }

  lemma {:induction false} RunFiles(ws: seq<World>, ops: seq<Op>, rs: seq<Result>) returns (fs: seq<Files>)
    requires IsRun(ws, ops, rs)
    ensures IsAbsRun(fs, ops, rs)
    ensures forall k | 0 <= k < |ws| :: Inv(ws[k]) && Means(ws[k], fs[k])
    decreases |ops|
  {
    hide Inv, Step, AbsStep, Means;
    var n := |ops|;
    if n == 0 {
      fs := [map[]];
      EmptyMeans(ws[0]);
    } else {
      var fs0 := RunFiles(ws[..n], ops[..n - 1], rs[..n - 1]);
      assert ws[..n][n - 1] == ws[n - 1];
      assert Step(ws[n - 1], ops[n - 1], rs[n - 1], ws[n]);
      var a := StepRefines(ws[n - 1], ops[n - 1], rs[n - 1], ws[n], fs0[n - 1]);
      fs := fs0 + [a];
      forall k | 0 <= k < n
        ensures AbsStep(fs[k], ops[k], rs[k], fs[k + 1])
      {
        if k < n - 1 {
          assert AbsStep(fs0[k], ops[..n - 1][k], rs[..n - 1][k], fs0[k + 1]);
        }
      }
    }
  }

  lemma EmptyMeans(w: World)
    requires Initial(w)
    ensures Inv(w) && Means(w, map[])
  {
    InitialInv(w);
    hide Inv, Initial;
  }
}
