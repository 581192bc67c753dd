/** On-disk byte formats of the MP7 file system: little-endian words, the pointer table of an
    indirect block, the inode table of block 0 and the free list of block 1.
    The two `Round trip` lemmas per format make each encoding a bijection on the values it holds. */
module DiskFormat {
  const BLOCK_SIZE := 512
  const MAX_DIRECT := 4
  const PTRS_PER_INDIRECT := 128
  const MAX_FILE_BLOCKS := 132
  const MAX_FILE_SIZE := 67584
  const INODE_SIZE := 32
  const MAX_INODES := 16
  /** Bitmap bytes that fit into block 1 beside the 4-byte block count. */
  const BITMAP_BYTES := 508
  const INODES_BLOCK := 0
  const FREELIST_BLOCK := 1

  type Byte = x: int | 0 <= x < 256
  type Word = x: int | 0 <= x < 0x1_0000_0000
  type Int32 = x: int | -0x8000_0000 <= x < 0x8000_0000
  type Block = b: seq<Byte> | |b| == BLOCK_SIZE witness seq(BLOCK_SIZE, _ => 0)

  /** Byte `k` of the two's-complement representation of `v`: `(v >> 8k) & 0xFF`. */
  function ByteOf(v: int, k: nat): Byte
    requires k < 4
  {
    match k
    case 0 => v % 0x100
    case 1 => (v / 0x100) % 0x100
    case 2 => (v / 0x1_0000) % 0x100
    case _ => (v / 0x100_0000) % 0x100
  }

  /** The unsigned word whose four bytes start at `off`. */
  function WordAt(buf: seq<Byte>, off: nat): Word
    requires off + 4 <= |buf|
  {
    var a: int, b: int, c: int, d: int := buf[off], buf[off + 1], buf[off + 2], buf[off + 3];
    a + 0x100 * b + 0x1_0000 * c + 0x100_0000 * d
  }

  /** Reading an unsigned word as a signed `int`. */
  function Signed(w: Word): Int32 {
    if w < 0x8000_0000 then w else w - 0x1_0000_0000
  }

  function IntAt(buf: seq<Byte>, off: nat): Int32
    requires off + 4 <= |buf|
  {
    Signed(WordAt(buf, off))
  }

  lemma DivTwice(v: int)
    ensures v / 0x100 / 0x100 == v / 0x1_0000
  {
  }

  lemma DivThrice(v: int)
    ensures v / 0x1_0000 / 0x100 == v / 0x100_0000
  {
  }

  lemma Remainder(v: int, d: int, w: int)
    requires v == 0x1_0000_0000 * d + w && 0 <= w < 0x1_0000_0000
    ensures v % 0x1_0000_0000 == w
  {
  }

  /** Least significant byte first, two's complement. */
  lemma BytesMakeWord(v: int)
    ensures ByteOf(v, 0) + 0x100 * ByteOf(v, 1) + 0x1_0000 * ByteOf(v, 2) + 0x100_0000 * ByteOf(v, 3)
         == v % 0x1_0000_0000
  {
    DivTwice(v);
    DivThrice(v);
    var (a, b, c) := (v / 0x100, v / 0x1_0000, v / 0x100_0000);
    var (r, s, t, u) := (v % 0x100, a % 0x100, b % 0x100, c % 0x100);
    assert v == 0x100 * a + r && a == 0x100 * b + s && b == 0x100 * c + t && c == 0x100 * (c / 0x100) + u;
    Remainder(v, c / 0x100, r + 0x100 * s + 0x1_0000 * t + 0x100_0000 * u);
  }

  /** A signed `int` survives being written byte by byte and read back. */
  lemma IntRoundTrip(buf: seq<Byte>, off: nat, v: int)
    requires off + 4 <= |buf|
    requires forall k | 0 <= k < 4 :: buf[off + k] == ByteOf(v, k)
    ensures WordAt(buf, off) == v % 0x1_0000_0000
    ensures -0x8000_0000 <= v < 0x8000_0000 ==> IntAt(buf, off) == v
  {
    BytesMakeWord(v);
    assert buf[off + 0] == ByteOf(v, 0) && buf[off + 1] == ByteOf(v, 1);
    assert buf[off + 2] == ByteOf(v, 2) && buf[off + 3] == ByteOf(v, 3);
  }

  lemma WordBytes(a: int, b: int, c: int, d: int)
    requires 0 <= a < 256 && 0 <= b < 256 && 0 <= c < 256 && 0 <= d < 256
    ensures var w := a + 0x100 * b + 0x1_0000 * c + 0x100_0000 * d;
            && ByteOf(w, 0) == a && ByteOf(w, 1) == b && ByteOf(w, 2) == c && ByteOf(w, 3) == d
  {
    var z := c + 0x100 * d;
    var y := b + 0x100 * z;
    var w := a + 0x100 * y;
    assert w / 0x100 == y && w % 0x100 == a;
    assert y / 0x100 == z && y % 0x100 == b;
    assert z / 0x100 == d && z % 0x100 == c;
    assert w / 0x1_0000 == y / 0x100 && w / 0x100_0000 == y / 0x1_0000 == z / 0x100;
  }

  /** Subtracting 2^32 leaves all four bytes alone. */
  lemma SignedBytes(w: Word, k: nat)
    requires k < 4
    ensures ByteOf(Signed(w), k) == ByteOf(w, k)
  {
    if w >= 0x8000_0000 {
      var v: int := w;
      var s := v - 0x1_0000_0000;
      assert s / 0x100 == v / 0x100 - 0x100_0000;
      assert s / 0x1_0000 == v / 0x1_0000 - 0x1_0000;
      assert s / 0x100_0000 == v / 0x100_0000 - 0x100;
      ModShift(v, 0x100_0000);
      ModShift(v / 0x100, 0x1_0000);
      ModShift(v / 0x1_0000, 0x100);
      ModShift(v / 0x100_0000, 1);
    }
  }

  lemma ModShift(x: int, m: int)
    ensures (x - 0x100 * m) % 0x100 == x % 0x100
  {
  }

  /** Reading four bytes as a signed `int` loses none of them. */
  lemma ByteRoundTrip(buf: seq<Byte>, off: nat, k: nat)
    requires off + 4 <= |buf| && k < 4
    ensures ByteOf(IntAt(buf, off), k) == buf[off + k]
  {
    WordBytes(buf[off], buf[off + 1], buf[off + 2], buf[off + 3]);
    SignedBytes(WordAt(buf, off), k);
  }

  // ---------------------------------------------------------------- indirect block

  /** The block holding the 128 block numbers `ptrs`. */
  function TableBlock(ptrs: seq<Int32>): Block
    requires |ptrs| == PTRS_PER_INDIRECT
  {
    seq(BLOCK_SIZE, j requires 0 <= j < BLOCK_SIZE => ByteOf(ptrs[j / 4], j % 4))
  }

  /** The 128 block numbers held by `b`. */
  function TableOf(b: Block): (ptrs: seq<Int32>)
    ensures |ptrs| == PTRS_PER_INDIRECT
  {
    seq(PTRS_PER_INDIRECT, p requires 0 <= p < PTRS_PER_INDIRECT => IntAt(b, 4 * p))
  }

  /** Entry `p` of the table lies at offset 4p. */
  lemma TableLayout(ptrs: seq<Int32>, p: nat, m: nat)
    requires |ptrs| == 128 && p < 128 && m < 4
    ensures TableBlock(ptrs)[4 * p + m] == ByteOf(ptrs[p], m)
  {
    assert (4 * p + m) / 4 == p && (4 * p + m) % 4 == m;
  }

  /** Saving then loading a pointer table is the identity on all 128 signed entries. */
  lemma TableRoundTrip(ptrs: seq<Int32>)
    requires |ptrs| == PTRS_PER_INDIRECT
    ensures TableOf(TableBlock(ptrs)) == ptrs
  {
    var b := TableBlock(ptrs);
    forall p | 0 <= p < PTRS_PER_INDIRECT
      ensures IntAt(b, 4 * p) == ptrs[p]
    {
      forall k | 0 <= k < 4
        ensures b[4 * p + k] == ByteOf(ptrs[p], k)
      {
        assert (4 * p + k) / 4 == p && (4 * p + k) % 4 == k;
      }
      IntRoundTrip(b, 4 * p, ptrs[p]);
    }
  }

  /** Every block is the encoding of the table it decodes to. */
  lemma TableBlockOnto(b: Block)
    ensures TableBlock(TableOf(b)) == b
  {
    forall j | 0 <= j < BLOCK_SIZE
      ensures TableBlock(TableOf(b))[j] == b[j]
    {
      assert 4 * (j / 4) + j % 4 == j;
      ByteRoundTrip(b, 4 * (j / 4), j % 4);
    }
  }

  // ---------------------------------------------------------------- inode table

  type BlockNumbers = s: seq<Int32> | |s| == MAX_DIRECT witness [-1, -1, -1, -1]

  /** `fs` is the address kept in the inode's back pointer; it is stored on disk like any other field. */
  datatype Inode = Inode(id: Int32, block_no: BlockNumbers, indirect_block_no: Int32, file_size: Word, fs: Word)

  const NO_BLOCKS: BlockNumbers := [-1, -1, -1, -1]

  /** The eight 32-bit members of an inode in memory order. */
  function Member(n: Inode, k: nat): int
    requires k < 8
  {
    if k == 0 then n.id
    else if k <= 4 then n.block_no[k - 1]
    else if k == 5 then n.indirect_block_no
    else if k == 6 then n.file_size
    else n.fs
  }

  /** Byte `j` of the memory image of an inode array. */
  function RawByte(inodes: seq<Inode>, j: nat): Byte
    requires j < INODE_SIZE * |inodes|
  {
    ByteOf(Member(inodes[j / INODE_SIZE], j % INODE_SIZE / 4), j % 4)
  }

  function InodesBlock(inodes: seq<Inode>): Block
    requires |inodes| == MAX_INODES
  {
    seq(BLOCK_SIZE, j requires 0 <= j < BLOCK_SIZE => RawByte(inodes, j))
  }

  /** Inode `i` of the table stored in block `b`. */
  function InodeAt(b: Block, i: nat): Inode
    requires i < MAX_INODES
  {
    var o := INODE_SIZE * i;
    Inode(IntAt(b, o), [IntAt(b, o + 4), IntAt(b, o + 8), IntAt(b, o + 12), IntAt(b, o + 16)],
          IntAt(b, o + 20), WordAt(b, o + 24), WordAt(b, o + 28))
  }

  /** Member `k` of inode `i` as stored in block `b`: six signed members, then two unsigned ones. */
  function MemberAt(b: Block, i: nat, k: nat): int
    requires i < MAX_INODES && k < 8
  {
    var off := INODE_SIZE * i + 4 * k;
    if k <= 5 then IntAt(b, off) else WordAt(b, off)
  }

  /** Where byte `m` of member `k` of inode `i` ends up in block 0. */
  lemma MemberByte(inodes: seq<Inode>, i: nat, k: nat, m: nat)
    requires |inodes| == MAX_INODES && i < MAX_INODES && k < 8 && m < 4
    ensures InodesBlock(inodes)[INODE_SIZE * i + 4 * k + m] == ByteOf(Member(inodes[i], k), m)
  {
    var j := INODE_SIZE * i + 4 * k + m;
    assert j / INODE_SIZE == i && j % INODE_SIZE == 4 * k + m;
    assert (4 * k + m) / 4 == k && j % 4 == m;
    assert InodesBlock(inodes)[j] == RawByte(inodes, j);
  }

  lemma MemberFromBytes(b: Block, i: nat, k: nat, n: Inode)
    requires i < MAX_INODES && k < 8
    requires forall m | 0 <= m < 4 :: b[INODE_SIZE * i + 4 * k + m] == ByteOf(Member(n, k), m)
    ensures MemberAt(b, i, k) == Member(n, k)
  {
    var v := Member(n, k);
    assert k <= 5 ==> -0x8000_0000 <= v < 0x8000_0000;
    assert k > 5 ==> 0 <= v < 0x1_0000_0000;
    IntRoundTrip(b, INODE_SIZE * i + 4 * k, v);
  }

  lemma InodeFromMembers(b: Block, i: nat, n: Inode)
    requires i < MAX_INODES
    requires forall k | 0 <= k < 8 :: MemberAt(b, i, k) == Member(n, k)
    ensures InodeAt(b, i) == n
  {
    assert MemberAt(b, i, 0) == n.id && MemberAt(b, i, 1) == n.block_no[0];
    assert MemberAt(b, i, 2) == n.block_no[1] && MemberAt(b, i, 3) == n.block_no[2];
    assert MemberAt(b, i, 4) == n.block_no[3] && MemberAt(b, i, 5) == n.indirect_block_no;
    assert MemberAt(b, i, 6) == n.file_size && MemberAt(b, i, 7) == n.fs;
    assert InodeAt(b, i).block_no == n.block_no;
  }

  /** Saving then loading the inode table is the identity on every inode. */
  lemma InodeRoundTrip(inodes: seq<Inode>, i: nat)
    requires |inodes| == MAX_INODES && i < MAX_INODES
    ensures InodeAt(InodesBlock(inodes), i) == inodes[i]
  {
    forall k | 0 <= k < 8
      ensures MemberAt(InodesBlock(inodes), i, k) == Member(inodes[i], k)
    {
      forall m | 0 <= m < 4
        ensures InodesBlock(inodes)[INODE_SIZE * i + 4 * k + m] == ByteOf(Member(inodes[i], k), m)
      {
        MemberByte(inodes, i, k, m);
      }
      MemberFromBytes(InodesBlock(inodes), i, k, inodes[i]);
    }
    InodeFromMembers(InodesBlock(inodes), i, inodes[i]);
  }

  /** Where the members of inode `i` lie in block 0. */
  lemma InodeLayout(inodes: seq<Inode>, i: nat, m: nat)
    requires |inodes| == 16 && i < 16 && m < 4
    ensures var (b, n) := (InodesBlock(inodes), inodes[i]);
            && b[32 * i + m] == ByteOf(n.id, m)
            && b[32 * i + 4 + m] == ByteOf(n.block_no[0], m) && b[32 * i + 8 + m] == ByteOf(n.block_no[1], m)
            && b[32 * i + 12 + m] == ByteOf(n.block_no[2], m) && b[32 * i + 16 + m] == ByteOf(n.block_no[3], m)
            && b[32 * i + 20 + m] == ByteOf(n.indirect_block_no, m)
            && b[32 * i + 24 + m] == ByteOf(n.file_size, m) && b[32 * i + 28 + m] == ByteOf(n.fs, m)
  {
    hide ByteOf, RawByte, InodesBlock;
    MemberByte(inodes, i, 0, m);
    MemberByte(inodes, i, 1, m);
    MemberByte(inodes, i, 2, m);
    MemberByte(inodes, i, 3, m);
    MemberByte(inodes, i, 4, m);
    MemberByte(inodes, i, 5, m);
    MemberByte(inodes, i, 6, m);
    MemberByte(inodes, i, 7, m);
  }

  // ---------------------------------------------------------------- free list

  function Min(a: int, b: int): int {
    if a < b then a else b
  }

  /** Block 1: as much of the bitmap as fits, zero padding, then the block count. */
  function FreeListBlock(free: seq<Byte>): Block
    requires |free| < 0x1_0000_0000
  {
    seq(BLOCK_SIZE, j requires 0 <= j < BLOCK_SIZE => FreeListByte(free, j))
  }

  function FreeListByte(free: seq<Byte>, j: nat): Byte
    requires j < BLOCK_SIZE
  {
    if BITMAP_BYTES <= j then ByteOf(|free|, j - BITMAP_BYTES) else if j < |free| then free[j] else 0
  }

  /** `free` is a bitmap that loading block `b` can produce. The bytes that are not stored come from
      a fresh, uninitialised allocation. */
  ghost predicate LoadsTo(b: Block, free: seq<Byte>) {
    && |free| == WordAt(b, BITMAP_BYTES)
    && forall j | 0 <= j < |free| && j < BITMAP_BYTES :: free[j] == b[j]
  }

  /** Block 1: the bitmap from byte 0 on, zeros behind it, and the count in the last four bytes. */
  lemma FreeListLayout(free: seq<Byte>)
    requires |free| < 0x1_0000_0000
    ensures var b := FreeListBlock(free);
            && (forall j | 0 <= j < 508 :: b[j] == if j < |free| then free[j] else 0)
            && b[508] == |free| % 256 && b[509] == |free| / 256 % 256
            && b[510] == |free| / 65536 % 256 && b[511] == |free| / 16777216
  {
  }

  lemma CountRoundTrip(free: seq<Byte>)
    requires |free| < 0x1_0000_0000
    ensures WordAt(FreeListBlock(free), BITMAP_BYTES) == |free|
  {
    IntRoundTrip(FreeListBlock(free), BITMAP_BYTES, |free|);
  }

  /** The bitmap read back is the one saved, whatever the fresh allocation contains, exactly when
      every bitmap byte fits into the block. */
  lemma FreeListRoundTripIff(free: seq<Byte>)
    requires |free| < 0x1_0000_0000
    ensures (forall back :: LoadsTo(FreeListBlock(free), back) ==> back == free) <==> |free| <= 508
  {
    CountRoundTrip(free);
    var b := FreeListBlock(free);
    if |free| <= BITMAP_BYTES {
      forall back | LoadsTo(b, back)
        ensures back == free
      {
        forall j | 0 <= j < |free|
          ensures back[j] == free[j]
        {
          assert back[j] == b[j];
        }
      }
    } else {
      var last := |free| - 1;
      var back := free[last := (free[last] as int + 1) % 256];
      assert LoadsTo(b, back) && back[last] != free[last];
    }
  }
}
