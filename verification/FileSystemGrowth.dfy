/** How a write grows the block map of a file, one block at a time. */
module FileSystemGrowth {
  import opened DiskFormat
  import opened FileSystemSpec

  /** Allocating one more block is one more step of growth. */
  lemma GrowsOnce(s: Fs, m: seq<Int32>, s1: Fs, m1: seq<Int32>, a: nat, s2: Fs, b: int)
    requires Shape(s) && Shape(s1) && Grows(s, m, s1, m1) && a < |m| && m1[a] < 0
    requires TakeBlock(s1) == (s2, b) && 0 <= b
    requires forall x | a < x < |m| :: m1[x] == m[x]
    ensures Grows(s, m, s2, m1[a := b])
  {
    hide FreeListBlock, Frugal;
    FrugalOnce(m, m1, s1.free, a, b);
    var m2 := m1[a := b];
    assert m1[a] == m[a];
    forall c | 0 <= c < |s.free|
      ensures Entered(m, m2, c) <==> Entered(m, m1, c) || c == b
    {
      EnteredOnce(m, m1, a, b, c);
    }
    assert s2.free[b] != s.free[b];
  }

  /** Taking the lowest free block for a slot above all those filled before. */
  lemma FrugalOnce(m: seq<Int32>, m1: seq<Int32>, free: seq<Byte>, a: nat, b: Int32)
    requires Frugal(m, m1, free) && a < |m| && m1[a] == m[a] && forall x | a < x < |m| :: m1[x] == m[x]
    requires 0 <= b < |free| && free[b] == 0 && forall c | 0 <= c < b :: free[c] != 0
    ensures Frugal(m, m1[a := b], free[b := 1])
  {
  }

  lemma EnteredOnce(m: seq<Int32>, m1: seq<Int32>, a: nat, b: Int32, c: nat)
    requires |m| == |m1| && a < |m| && m1[a] == m[a] < 0
    ensures Entered(m, m1[a := b], c) <==> Entered(m, m1, c) || c == b
  {
    var m2 := m1[a := b];
    if Entered(m, m1, c) {
      var d :| 0 <= d < |m| && m1[d] == c && m[d] != c;
      assert m2[d] == c;
    }
    if c == b {
      assert m2[a] == c;
    }
    if Entered(m, m2, c) && c != b {
      var d :| 0 <= d < |m| && m2[d] == c && m[d] != c;
      assert m1[d] == c;
    }
  }

  lemma GrowsRefl(s: Fs, m: seq<Int32>)
    requires Shape(s)
    ensures Grows(s, m, s, m)
  {
  }

  /** After one chunk the touched blocks are those touched before and the block of the chunk. */
  lemma MeetsOneMore(pos: nat, w: nat, chunk: nat, b: int, a: int)
    requires b == (pos + w) / BLOCK_SIZE && 0 < chunk <= BLOCK_SIZE - (pos + w) % BLOCK_SIZE
    ensures Meets(a, pos, pos + w + chunk) <==> Meets(a, pos, pos + w) || a == b
  {
  }

  /** After one chunk exactly the touched blocks differ from the map the write began with. */
  ghost predicate Touched(m0: seq<Int32>, m: seq<Int32>, from: nat, to: nat) {
    && |m| == |m0|
    && forall a | 0 <= a < |m| :: if Meets(a, from, to) then 0 <= m[a] else m[a] == m0[a]
  }

  lemma UntouchedAbove(m0: seq<Int32>, m: seq<Int32>, pos: nat, w: nat)
    requires Touched(m0, m, pos, pos + w)
    ensures |m| == |m0| && forall a | (pos + w) / BLOCK_SIZE < a < |m| :: m[a] == m0[a]
  {
    forall a | (pos + w) / BLOCK_SIZE < a < |m|
      ensures m[a] == m0[a]
    {
      assert !Meets(a, pos, pos + w);
    }
  }

  lemma TouchedOneMore(m0: seq<Int32>, m1: seq<Int32>, m2: seq<Int32>, pos: nat, w: nat, chunk: nat, a: nat)
    requires Touched(m0, m1, pos, pos + w) && a < |m1| && |m2| == |m1| && 0 <= m2[a] && m2 == m1[a := m2[a]]
    requires a == (pos + w) / BLOCK_SIZE && 0 < chunk <= BLOCK_SIZE - (pos + w) % BLOCK_SIZE
    ensures Touched(m0, m2, pos, pos + (w + chunk))
  {
    forall c | 0 <= c < |m2|
      ensures if Meets(c, pos, pos + (w + chunk)) then 0 <= m2[c] else m2[c] == m0[c]
    {
      MeetsOneMore(pos, w, chunk, a, c);
    }
  }

  /** Assembles the contract of Write from the state the loop left and the final size update. */
  lemma WritesFrom(s: Fs, i: nat, h: Handle, data: seq<Byte>, k: nat, s2: Fs, s3: Fs, h3: Handle)
    requires Shape(s) && i < MAX_INODES && HandleShape(h) && k <= Min(|data|, MAX_FILE_SIZE - h.pos)
    requires s2.inodes == s.inodes && Grows(s, h.block_map, s2, h3.block_map)
    requires h3.pos == h.pos + k && h3.cache == h.cache[..h.pos] + data[..k] + h.cache[h.pos + k..]
    requires Touched(h.block_map, h3.block_map, h.pos, h.pos + k)
    requires k < Min(|data|, MAX_FILE_SIZE - h.pos) ==> 0 !in s2.free && h3.block_map[(h.pos + k) / BLOCK_SIZE] < 0
    requires var size := s.inodes[i].file_size;
             s3 == s2.(inodes := s.inodes[i := s.inodes[i].(file_size := if size < h3.pos then h3.pos else size)])
    ensures Writes(s, i, h, data, k, s3, h3)
  {
    assert s3.(inodes := s.inodes) == s2;
    hide Grows, Meets;
  }
}
