/** What one call of the MP7 file system does to the in-memory tables and the disk, on values.
    The classes in FileSystem.dfy are proved against these definitions; FileSystemRun.dfy proves
    what whole runs of them amount to. */
module FileSystemSpec {
  import opened DiskFormat

  /** A mounted file system. `self` is the address of the FileSystem object, `|free|` its block count. */
  datatype Fs = Fs(self: Word, free: seq<Byte>, inodes: seq<Inode>, disk: seq<Block>)

  /** An open file: logical-to-physical block map, write-back cache, cursor. */
  datatype Handle = Handle(block_map: seq<Int32>, cache: seq<Byte>, pos: nat)

  predicate Shape(s: Fs) {
    && |s.inodes| == MAX_INODES
    && 2 <= |s.disk|
    && |s.free| <= |s.disk|
    && |s.free| < 0x8000_0000
  }

  predicate HandleShape(h: Handle) {
    && |h.block_map| == MAX_FILE_BLOCKS
    && |h.cache| == MAX_FILE_SIZE
    && h.pos <= MAX_FILE_SIZE
  }

  // ---------------------------------------------------------------- searching

  /** Least index of `x` in `s`, or -1. */
  function FirstIndex(s: seq<int>, x: int): (r: int)
    ensures -1 <= r < |s|
    ensures r == -1 ==> forall i | 0 <= i < |s| :: s[i] != x
    ensures 0 <= r ==> s[r] == x && forall i | 0 <= i < r :: s[i] != x
  {
    if s == [] then -1
    else
      var r := FirstIndex(s[..|s| - 1], x);
      if 0 <= r then r else if s[|s| - 1] == x then |s| - 1 else -1
  }

  function Ids(inodes: seq<Inode>): (ids: seq<int>)
    ensures |ids| == |inodes|
    ensures forall i | 0 <= i < |ids| :: ids[i] == inodes[i].id
  {
    seq(|inodes|, i requires 0 <= i < |inodes| => inodes[i].id)
  }

  /** LookupFile: the first inode with this id, or -1. */
  function Lookup(s: Fs, id: int): (r: int)
    ensures -1 <= r < |s.inodes|
    ensures r == -1 ==> forall i | 0 <= i < |s.inodes| :: s.inodes[i].id != id
    ensures 0 <= r ==> s.inodes[r].id == id && forall i | 0 <= i < r :: s.inodes[i].id != id
  {
    FirstIndex(Ids(s.inodes), id)
  }

  // ---------------------------------------------------------------- metadata

  function SaveInodes(s: Fs): Fs
    requires Shape(s)
  {
    s.(disk := s.disk[INODES_BLOCK := InodesBlock(s.inodes)])
  }

  function SaveFreeList(s: Fs): Fs
    requires Shape(s)
  {
    s.(disk := s.disk[FREELIST_BLOCK := FreeListBlock(s.free)])
  }

  /** get_free_block: the lowest free block is marked used and the bitmap persisted. */
  function TakeBlock(s: Fs): (Fs, int)
    requires Shape(s)
  {
    var b := FirstIndex(s.free, 0);
    if b < 0 then (s, -1) else (SaveFreeList(s.(free := s.free[b := 1])), b)
  }

  function Blank(id: Int32, fs: Word): Inode {
    Inode(id, NO_BLOCKS, -1, 0, fs)
  }

  function CreateFile(s: Fs, id: Int32): (Fs, bool)
    requires Shape(s)
  {
    var i := Lookup(s, -1);
    if Lookup(s, id) >= 0 || i < 0 then (s, false)
    else (SaveInodes(s.(inodes := s.inodes[i := Blank(id, s.self)])), true)
  }

  function Cleared(free: seq<Byte>, blocks: seq<int>): (r: seq<Byte>)
    ensures |r| == |free|
    ensures forall b | 0 <= b < |free| :: r[b] == if b in blocks then 0 else free[b]
  {
    seq(|free|, b requires 0 <= b < |free| => if b in blocks then 0 else free[b])
  }

  /** The blocks DeleteFile clears for an inode. */
  function NamedBlocks(s: Fs, n: Inode): seq<int>
    requires Shape(s)
  {
    n.block_no +
    (if 0 <= n.indirect_block_no < |s.free|
     then TableOf(s.disk[n.indirect_block_no]) + [n.indirect_block_no] else [])
  }

  function DeleteFile(s: Fs, id: Int32): (Fs, bool)
    requires Shape(s)
  {
    var i := Lookup(s, id);
    if i < 0 then (s, false)
    else
      var n := s.inodes[i];
      var s1 := SaveFreeList(s.(free := Cleared(s.free, NamedBlocks(s, n))));
      (SaveInodes(s1.(inodes := s1.inodes[i := Blank(-1, n.fs)])), true)
  }

  // ---------------------------------------------------------------- format and mount

  function BlankInodes(): (r: seq<Inode>)
    ensures |r| == MAX_INODES && forall i | 0 <= i < MAX_INODES :: r[i] == Blank(-1, 0)
  {
    seq(MAX_INODES, _ => Blank(-1, 0))
  }

  function ReservedOnly(n: nat): (r: seq<Byte>)
    ensures |r| == n && forall b | 0 <= b < n :: r[b] == if b < 2 then 1 else 0
  {
    seq(n, b => if b < 2 then 1 else 0)
  }

  function FormatDisk(disk: seq<Block>, size: Word): seq<Block>
    requires 2 <= |disk|
  {
    disk[INODES_BLOCK := InodesBlock(BlankInodes())]
        [FREELIST_BLOCK := FreeListBlock(ReservedOnly(size / BLOCK_SIZE))]
  }

  /** The states mounting `disk` can produce; more than one when the bitmap does not fit into block 1. */
  ghost predicate Mounts(disk: seq<Block>, self: Word, s: Fs) {
    && Shape(s) && s.self == self && s.disk == disk
    && LoadsTo(disk[FREELIST_BLOCK], s.free)
    && forall i | 0 <= i < MAX_INODES :: s.inodes[i] == InodeAt(disk[INODES_BLOCK], i).(fs := self)
  }

  /** Saves both tables, as the FileSystem destructor does. */
  function Unmount(s: Fs): Fs
    requires Shape(s)
  {
    SaveFreeList(SaveInodes(s))
  }

  // ---------------------------------------------------------------- open files

  function NoPointers(): (r: seq<Int32>)
    ensures |r| == PTRS_PER_INDIRECT && forall p | 0 <= p < PTRS_PER_INDIRECT :: r[p] == -1
  {
    seq(PTRS_PER_INDIRECT, _ => -1)
  }

  /** The block map a fresh handle of inode `i` gets: four direct entries, then the indirect table. */
  function OpenMap(s: Fs, i: nat): (m: seq<Int32>)
    requires Shape(s) && i < MAX_INODES && s.inodes[i].indirect_block_no < |s.disk|
    ensures |m| == MAX_FILE_BLOCKS
  {
    var n := s.inodes[i];
    n.block_no + (if n.indirect_block_no < 0 then NoPointers() else TableOf(s.disk[n.indirect_block_no]))
  }

  predicate OnDisk(m: seq<Int32>, disk: seq<Block>) {
    forall a | 0 <= a < |m| :: m[a] < |disk|
  }

  /** The cache filled with every allocated block, zero elsewhere. */
  function LoadCache(disk: seq<Block>, m: seq<Int32>): (c: seq<Byte>)
    requires |m| == MAX_FILE_BLOCKS && OnDisk(m, disk)
    ensures |c| == MAX_FILE_SIZE
    ensures forall o | 0 <= o < MAX_FILE_SIZE :: c[o] == CachedByte(disk, m, o)
  {
    seq(MAX_FILE_SIZE, o requires 0 <= o < MAX_FILE_SIZE => CachedByte(disk, m, o))
  }

  function CachedByte(disk: seq<Block>, m: seq<Int32>, o: nat): Byte
    requires |m| == MAX_FILE_BLOCKS && OnDisk(m, disk) && o < MAX_FILE_SIZE
  {
    var b := m[o / BLOCK_SIZE];
    if b < 0 then 0 else disk[b][o % BLOCK_SIZE]
  }

  function OpenFile(s: Fs, i: nat): Handle
    requires Shape(s) && i < MAX_INODES && s.inodes[i].indirect_block_no < |s.disk|
    requires OnDisk(OpenMap(s, i), s.disk)
  {
    Handle(OpenMap(s, i), LoadCache(s.disk, OpenMap(s, i)), 0)
  }

  /** The part of the cache that belongs to logical block `a`. */
  function CacheBlock(cache: seq<Byte>, a: nat): Block
    requires |cache| == MAX_FILE_SIZE && a < MAX_FILE_BLOCKS
  {
    cache[a * BLOCK_SIZE .. (a + 1) * BLOCK_SIZE]
  }

  /** The disk after the first `k` logical blocks have been written back in order. */
  function Flush(disk: seq<Block>, m: seq<Int32>, cache: seq<Byte>, k: nat): (d: seq<Block>)
    requires |m| == MAX_FILE_BLOCKS && |cache| == MAX_FILE_SIZE && OnDisk(m, disk) && k <= MAX_FILE_BLOCKS
    ensures |d| == |disk|
  {
    if k == 0 then disk
    else
      var d := Flush(disk, m, cache, k - 1);
      if m[k - 1] < 0 then d else d[m[k - 1] := CacheBlock(cache, k - 1)]
  }

  predicate UsesIndirect(m: seq<Int32>)
    requires |m| == MAX_FILE_BLOCKS
  {
    exists a | MAX_DIRECT <= a < MAX_FILE_BLOCKS :: 0 <= m[a]
  }

  /** save_indirect_block; false when a pointer block is needed and none is free. */
  function SavePointers(s: Fs, i: nat, m: seq<Int32>): (r: (Fs, bool))
    requires Shape(s) && i < MAX_INODES && s.inodes[i].indirect_block_no < |s.disk| && |m| == MAX_FILE_BLOCKS
    ensures Shape(r.0)
  {
    if !UsesIndirect(m) then (s, true)
    else
      var have := s.inodes[i].indirect_block_no;
      var (s1, b) := if have < 0 then TakeBlock(s) else (s, have);
      if b < 0 then (s, false)
      else
        var s2 := s1.(inodes := s1.inodes[i := s1.inodes[i].(indirect_block_no := b)]);
        (s2.(disk := s2.disk[b := TableBlock(m[MAX_DIRECT..])]), true)
  }

  /** The File destructor: write back, save the pointers, update and save the inodes. */
  function CloseFile(s: Fs, i: nat, h: Handle): (Fs, bool)
    requires Shape(s) && i < MAX_INODES && s.inodes[i].indirect_block_no < |s.disk|
    requires HandleShape(h) && OnDisk(h.block_map, s.disk)
  {
    var s1 := s.(disk := Flush(s.disk, h.block_map, h.cache, MAX_FILE_BLOCKS));
    var (s2, saved) := SavePointers(s1, i, h.block_map);
    var n := s2.inodes[i].(block_no := h.block_map[..MAX_DIRECT]);
    (SaveInodes(s2.(inodes := s2.inodes[i := n])), saved)
  }

  /** How many bytes a Read of `n` returns. */
  function ReadCount(size: nat, h: Handle, n: nat): nat {
    if size <= h.pos then 0 else Min(n, size - h.pos)
  }

  /** Block `b` entered the map between `m` and `m1`. */
  ghost predicate Entered(m: seq<Int32>, m1: seq<Int32>, b: int) {
    exists a | 0 <= a < |m| && a < |m1| :: m1[a] == b && m[a] != b
  }

  /** The blocks that entered the map ascend with their slots, and every block still free lies above them. */
  ghost predicate Frugal(m: seq<Int32>, m1: seq<Int32>, free1: seq<Byte>) {
    && |m1| == |m|
    && (forall a, b | 0 <= a < b < |m| && m[a] != m1[a] && m[b] != m1[b] :: m1[a] < m1[b])
    && (forall a, c | 0 <= a < |m| && m[a] != m1[a] && 0 <= c < |free1| && free1[c] == 0 :: m1[a] < c)
  }

  /** `s1`, `m1` come from `s`, `m` by allocating the lowest free blocks, in order, for some of the empty
      slots. */
  ghost predicate Grows(s: Fs, m: seq<Int32>, s1: Fs, m1: seq<Int32>)
    requires Shape(s)
  {
    && |s1.free| == |s.free| && |m1| == |m|
    && s1.self == s.self && s1.inodes == s.inodes
    && (forall a | 0 <= a < |m| :: m1[a] == m[a] || (m[a] < 0 && 0 <= m1[a] < |s.free| && s.free[m1[a]] == 0))
    && (forall a, b | 0 <= a < b < |m| && m[a] != m1[a] && m[b] != m1[b] :: m1[a] != m1[b])
    && (forall b | 0 <= b < |s.free| :: s1.free[b] == if Entered(m, m1, b) then 1 else s.free[b])
    && Frugal(m, m1, s1.free)
    && s1.disk == if s1.free == s.free then s.disk else s.disk[FREELIST_BLOCK := FreeListBlock(s1.free)]
  }

  /** Logical block `a` meets the byte range [from, to). */
  predicate Meets(a: int, from: int, to: int) {
    from < to && from < (a + 1) * BLOCK_SIZE && a * BLOCK_SIZE < to
  }

  /** Write stored the first `k` bytes of `data` at the cursor of handle `h` of inode `i`; it only stops
      short of the size limit at a block that has no place on a full disk. */
  ghost predicate Writes(s: Fs, i: nat, h: Handle, data: seq<Byte>, k: nat, s1: Fs, h1: Handle)
    requires Shape(s) && i < MAX_INODES && HandleShape(h)
  {
    && k <= Min(|data|, MAX_FILE_SIZE - h.pos)
    && h1.pos == h.pos + k
    && h1.cache == h.cache[..h.pos] + data[..k] + h.cache[h.pos + k..]
    && |s1.inodes| == MAX_INODES
    && Grows(s, h.block_map, s1.(inodes := s.inodes), h1.block_map)
    && s1.inodes == s.inodes[i := s.inodes[i].(file_size :=
                               if s.inodes[i].file_size < h1.pos then h1.pos else s.inodes[i].file_size)]
    && (forall a | 0 <= a < MAX_FILE_BLOCKS ::
          if Meets(a, h.pos, h1.pos) then 0 <= h1.block_map[a] else h1.block_map[a] == h.block_map[a])
    && (k < Min(|data|, MAX_FILE_SIZE - h.pos) ==> 0 !in s1.free && h1.block_map[(h.pos + k) / BLOCK_SIZE] < 0)
  }
}
