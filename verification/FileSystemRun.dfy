/** Whole runs of the MP7 file system: ownership of blocks, and refinement of a map from file id to
    byte string with a cursor. */
module FileSystemRun {
  import opened DiskFormat
  import opened FileSystemSpec

  /** A mounted file system and the handle of every open inode. */
  datatype World = World(fs: Fs, open: map<nat, Handle>)

  /** Every block number the code would follow exists. */
  ghost predicate Sound(w: World) {
    && Shape(w.fs)
    && (forall i | 0 <= i < MAX_INODES ::
          w.fs.inodes[i].indirect_block_no < |w.fs.disk| && OnDisk(OpenMap(w.fs, i), w.fs.disk))
    && (forall i | i in w.open :: i < MAX_INODES && HandleShape(w.open[i]) && OnDisk(w.open[i].block_map, w.fs.disk))
  }

  // ---------------------------------------------------------------- ownership

  const SLOTS := 133

  type Row = r: seq<Int32> | |r| == SLOTS witness seq(SLOTS, _ => -1)

  /** The block map in force for inode `i`: the handle's if it is open, the disk's otherwise. */
  function MapOf(w: World, i: nat): (m: seq<Int32>)
    requires Sound(w) && i < MAX_INODES
    ensures |m| == MAX_FILE_BLOCKS
  {
    if i in w.open then w.open[i].block_map else OpenMap(w.fs, i)
  }

  /** The 132 data slots of inode `i` followed by its pointer block. */
  function Slots(w: World, i: nat): Row
    requires Sound(w) && i < MAX_INODES
  {
    MapOf(w, i) + [w.fs.inodes[i].indirect_block_no]
  }

  function Matrix(w: World): (m: seq<Row>)
    requires Sound(w)
    ensures |m| == MAX_INODES && forall i | 0 <= i < MAX_INODES :: m[i] == Slots(w, i)
  {
    seq(MAX_INODES, i requires 0 <= i < MAX_INODES => Slots(w, i))
  }

  /** Every slot is empty or holds a data block that is marked used and occurs in no other slot. */
  ghost predicate Owned(free: seq<Byte>, m: seq<Row>)
    requires |m| == MAX_INODES
  {
    && (forall b | 0 <= b < |free| && b < 2 :: free[b] != 0)
    && (forall i, a | 0 <= i < MAX_INODES && 0 <= a < SLOTS ::
          m[i][a] == -1 || (2 <= m[i][a] < |free| && free[m[i][a]] != 0))
    && (forall i, a, j, b | 0 <= i < MAX_INODES && 0 <= a < SLOTS && 0 <= j < MAX_INODES && 0 <= b < SLOTS ::
          m[i][a] == m[j][b] && m[i][a] != -1 ==> i == j && a == b)
  }

  // ---------------------------------------------------------------- contents

  /** The bytes a reader of inode `i` would see, up to the maximum file size. */
  function Bytes(w: World, i: nat): (c: seq<Byte>)
    requires Sound(w) && i < MAX_INODES
    ensures |c| == MAX_FILE_SIZE
  {
    if i in w.open then w.open[i].cache else LoadCache(w.fs.disk, OpenMap(w.fs, i))
  }

  datatype Cursor = Closed | At(pos: nat)
  datatype File = File(content: seq<Byte>, cursor: Cursor)
  datatype View = Unused | Used(id: int, file: File)

  function ViewOf(w: World, i: nat): View
    requires Sound(w) && i < MAX_INODES
  {
    var n := w.fs.inodes[i];
    if n.id == -1 then Unused
    else Used(n.id, File(Bytes(w, i)[..Min(n.file_size, MAX_FILE_SIZE)],
                         if i in w.open then At(w.open[i].pos) else Closed))
  }

  // ---------------------------------------------------------------- the invariant

  /** The stored inode names the same file and blocks. */
  predicate SameNames(d: Inode, n: Inode) {
    d.id == n.id && d.block_no == n.block_no && d.indirect_block_no == n.indirect_block_no
  }

  ghost predicate HandleOk(w: World, i: nat)
    requires Sound(w) && i < MAX_INODES && i in w.open
  {
    var h := w.open[i];
    && w.fs.inodes[i].id != -1
    && h.pos <= w.fs.inodes[i].file_size
    && (forall o | 0 <= o < MAX_FILE_SIZE && h.block_map[o / BLOCK_SIZE] < 0 :: h.cache[o] == 0)
    && (forall a | 0 <= a < MAX_FILE_BLOCKS :: OpenMap(w.fs, i)[a] == -1 || OpenMap(w.fs, i)[a] == h.block_map[a])
  }

  ghost predicate SlotOk(w: World, i: nat)
    requires Sound(w) && i < MAX_INODES
  {
    var n := w.fs.inodes[i];
    && n.file_size <= MAX_FILE_SIZE
    && (n.id == -1 ==> n.file_size == 0 && n.indirect_block_no == -1 && n.block_no == NO_BLOCKS)
    && (i in w.open ==> HandleOk(w, i))
    && SameNames(InodeAt(w.fs.disk[INODES_BLOCK], i), n)
    && (i !in w.open ==> InodeAt(w.fs.disk[INODES_BLOCK], i).file_size == n.file_size)
  }

  ghost predicate DistinctIds(inodes: seq<Inode>) {
    forall i, j | 0 <= i < j < |inodes| && inodes[i].id != -1 :: inodes[i].id != inodes[j].id
  }

  ghost predicate Inv(w: World) {
    && Sound(w)
    && Owned(w.fs.free, Matrix(w))
    && DistinctIds(w.fs.inodes)
    && w.fs.disk[FREELIST_BLOCK] == FreeListBlock(w.fs.free)
    && forall i | 0 <= i < MAX_INODES :: SlotOk(w, i)
  }

  lemma InvSound(w: World)
    requires Inv(w)
    ensures Sound(w) && Shape(w.fs)
  {
  }

  lemma InvSlotOk(w: World, i: nat)
    requires Inv(w) && i < MAX_INODES
    ensures SlotOk(w, i)
  {
  }

  lemma OpenFits(w: World, i: nat)
    requires Sound(w) && i in w.open
    ensures Shape(w.fs) && i < MAX_INODES && HandleShape(w.open[i]) && OnDisk(w.open[i].block_map, w.fs.disk)
  {
    hide OpenMap, OnDisk;
  }

  lemma OpenSlots(w: World, i: nat)
    requires Sound(w) && i in w.open
    ensures i < MAX_INODES && |w.fs.inodes| == MAX_INODES && |w.open[i].block_map| == MAX_FILE_BLOCKS
    ensures Slots(w, i) == w.open[i].block_map + [w.fs.inodes[i].indirect_block_no]
            && MapOf(w, i) == w.open[i].block_map
  {
    hide OpenMap, OnDisk;
  }

  // ---------------------------------------------------------------- steps

  datatype Op =
    | Create(id: Int32) | Open(id: Int32) | Close(id: Int32) | Delete(id: Int32)
    | Read(id: Int32, n: nat) | Write(id: Int32, data: seq<Byte>) | Reset(id: Int32)
    | CloseMissing          // closing a handle whose file did not exist when it was opened
    | Remount(self: Word)

  datatype Result = Done(ok: bool) | Count(k: nat) | Data(bytes: seq<Byte>)

  /** What the code asks of its callers: real ids, one handle per file, no deletion of an open file,
      no remount with open files or with a bitmap that block 1 cannot hold. */
  ghost predicate Legal(w: World, op: Op) {
    match op
    case CloseMissing => true
    case Remount(_) => w.open == map[] && |w.fs.free| <= BITMAP_BYTES
    case Create(id) => id != -1
    case Open(id) => id != -1 && Lookup(w.fs, id) !in w.open
    case Delete(id) => id != -1 && Lookup(w.fs, id) !in w.open
    case _ => op.id != -1 && Lookup(w.fs, op.id) in w.open
  }

  ghost predicate Step(w: World, op: Op, r: Result, w1: World) {
    Sound(w) && Legal(w, op) &&
    match op
    case Create(id) => w1 == w.(fs := CreateFile(w.fs, id).0) && r == Done(CreateFile(w.fs, id).1)
    case Delete(id) => w1 == w.(fs := DeleteFile(w.fs, id).0) && r == Done(DeleteFile(w.fs, id).1)
    case Open(id) => OpenStep(w, Lookup(w.fs, id), r, w1)
    case Close(id) => CloseStep(w, Lookup(w.fs, id), r, w1)
    case Read(id, n) => ReadStep(w, Lookup(w.fs, id), n, r, w1)
    case Write(id, data) => WriteStep(w, Lookup(w.fs, id), data, r, w1)
    case Reset(id) => w1 == SetPos(w, Lookup(w.fs, id), 0) && r == Done(true)
    case CloseMissing => w1 == w.(fs := SaveInodes(w.fs)) && r == Done(true)
    case Remount(self) => w1.open == map[] && Mounts(Unmount(w.fs).disk, self, w1.fs) && r == Done(true)
  }

  function SetPos(w: World, i: nat, pos: nat): World
    requires i in w.open
  {
    w.(open := w.open[i := w.open[i].(pos := pos)])
  }

  ghost predicate OpenStep(w: World, i: int, r: Result, w1: World)
    requires Sound(w) && i < MAX_INODES
  {
    if i < 0 then w1 == w && r == Done(false)
    else w1 == w.(open := w.open[i := OpenFile(w.fs, i)]) && r == Done(true)
  }

  ghost predicate CloseStep(w: World, i: nat, r: Result, w1: World)
    requires Sound(w) && i in w.open
  {
    var c := CloseFile(w.fs, i, w.open[i]);
    w1 == World(c.0, w.open - {i}) && r == Done(c.1)
  }

  ghost predicate ReadStep(w: World, i: nat, n: nat, r: Result, w1: World)
    requires Sound(w) && i in w.open
  {
    var h := w.open[i];
    var k := ReadCount(w.fs.inodes[i].file_size, h, n);
    h.pos + k <= MAX_FILE_SIZE && w1 == SetPos(w, i, h.pos + k) && r == Data(h.cache[h.pos..h.pos + k])
  }

  ghost predicate WriteStep(w: World, i: nat, data: seq<Byte>, r: Result, w1: World)
    requires Sound(w) && i in w.open
  {
    && r.Count? && i in w1.open && w1.open == w.open[i := w1.open[i]]
    && Writes(w.fs, i, w.open[i], data, r.k, w1.fs, w1.open[i])
  }

  /** A freshly formatted and mounted disk. */
  ghost predicate Initial(w: World) {
    w.open == map[] &&
    exists disk: seq<Block>, size: Word ::
      2 <= |disk| && size / BLOCK_SIZE <= |disk| && Mounts(FormatDisk(disk, size), w.fs.self, w.fs)
  }

  // ---------------------------------------------------------------- slots a step leaves alone

  /** From `w` to `w1` at most inode `i`, its handle and its blocks change, and blocks 0 and 1. */
  ghost predicate Confined(w: World, w1: World, i: int)
    requires Sound(w)
  {
    && Shape(w1.fs) && |w1.fs.disk| == |w.fs.disk|
    && (forall j | 0 <= j < MAX_INODES && j != i ::
          && SameNames(w1.fs.inodes[j], w.fs.inodes[j]) && w1.fs.inodes[j].file_size == w.fs.inodes[j].file_size
          && (j in w1.open <==> j in w.open) && (j in w.open ==> w1.open[j] == w.open[j]))
    && (forall j, a | 0 <= j < MAX_INODES && j != i && 0 <= a < SLOTS && 0 <= Slots(w, j)[a] < |w.fs.disk| ::
          w1.fs.disk[Slots(w, j)[a]] == w.fs.disk[Slots(w, j)[a]])
  }

  lemma OtherSlots(w: World, w1: World, i: int, j: nat)
    requires Inv(w) && Sound(w1) && Confined(w, w1, i) && j < MAX_INODES && j != i
    requires SameNames(InodeAt(w1.fs.disk[INODES_BLOCK], j), w.fs.inodes[j])
    requires j !in w.open ==> InodeAt(w1.fs.disk[INODES_BLOCK], j).file_size == w.fs.inodes[j].file_size
    ensures OpenMap(w1.fs, j) == OpenMap(w.fs, j) && Slots(w1, j) == Slots(w, j)
  {
    hide InodeAt, IntAt, WordAt;
    var ib := w.fs.inodes[j].indirect_block_no;
    assert Matrix(w)[j][SLOTS - 1] == ib == Slots(w, j)[SLOTS - 1];
    assert OpenMap(w1.fs, j) == OpenMap(w.fs, j);
  }

  lemma HandleKept(w: World, w1: World, j: nat)
    requires Sound(w) && Sound(w1) && j < MAX_INODES && j in w.open && HandleOk(w, j)
    requires j in w1.open && w1.open[j] == w.open[j] && OpenMap(w1.fs, j) == OpenMap(w.fs, j)
    requires w1.fs.inodes[j].id == w.fs.inodes[j].id && w1.fs.inodes[j].file_size == w.fs.inodes[j].file_size
    ensures HandleOk(w1, j)
  {
    hide OpenMap, OnDisk, Sound;
  }

  lemma OtherSlotOk(w: World, w1: World, i: int, j: nat)
    requires Inv(w) && Sound(w1) && Confined(w, w1, i) && j < MAX_INODES && j != i
    requires SameNames(InodeAt(w1.fs.disk[INODES_BLOCK], j), w.fs.inodes[j])
    requires j !in w.open ==> InodeAt(w1.fs.disk[INODES_BLOCK], j).file_size == w.fs.inodes[j].file_size
    ensures SlotOk(w1, j)
  {
    OtherSlots(w, w1, i, j);
    assert Sound(w) && SlotOk(w, j);
    hide InodeAt, IntAt, WordAt, OpenMap, Owned, Matrix, Slots, OnDisk, Bytes, Inv, Sound, HandleOk;
    if j in w.open {
      HandleKept(w, w1, j);
    }
  }

  /** An inode that nothing was done to keeps blocks, contents and invariant. */
  lemma OtherKept(w: World, w1: World, i: int, j: nat)
    requires Inv(w) && Sound(w1) && Confined(w, w1, i) && j < MAX_INODES && j != i
    requires SameNames(InodeAt(w1.fs.disk[INODES_BLOCK], j), w.fs.inodes[j])
    requires j !in w.open ==> InodeAt(w1.fs.disk[INODES_BLOCK], j).file_size == w.fs.inodes[j].file_size
    ensures Slots(w1, j) == Slots(w, j) && SlotOk(w1, j) && ViewOf(w1, j) == ViewOf(w, j)
  {
    OtherSlots(w, w1, i, j);
    OtherSlotOk(w, w1, i, j);
    hide InodeAt, IntAt, WordAt, OpenMap, SlotOk;
    if j !in w.open {
      forall o | 0 <= o < MAX_FILE_SIZE
        ensures CachedByte(w1.fs.disk, OpenMap(w1.fs, j), o) == CachedByte(w.fs.disk, OpenMap(w.fs, j), o)
      {
        assert Slots(w, j)[o / BLOCK_SIZE] == OpenMap(w.fs, j)[o / BLOCK_SIZE] == Matrix(w)[j][o / BLOCK_SIZE];
      }
      assert Bytes(w1, j) == Bytes(w, j);
    }
  }
}
