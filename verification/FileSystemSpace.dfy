/** How the MP7 file system uses its space: which free blocks a step takes, how much a write stores, and
    how many blocks are free when the files have given sizes. */
module FileSystemSpace {
  import opened DiskFormat
  import opened FileSystemSpec
  import opened FileSystemRun
  import opened FileSystemSafety
  import opened FileSystemClose
  import opened FileSystemRefinement
  import opened FileSystemLaws

  // ---------------------------------------------------------------- how much a write stores

  /** Byte range [from, from + k) has a byte in logical block `a`, which has no place on the disk yet. */
  predicate Lacks(m: seq<Int32>, a: int, from: nat, k: nat) {
    0 <= a < |m| && m[a] < 0 && 0 < k && from < (a + 1) * 512 && a * 512 < from + k
  }

  function MissingBelow(m: seq<Int32>, from: nat, k: nat, n: nat): set<int> {
    set a | 0 <= a < n && Lacks(m, a, from, k)
  }

  /** The blocks that are still to be allocated for the `k` bytes from `from` on. */
  function Missing(m: seq<Int32>, from: nat, k: nat): set<int> {
    MissingBelow(m, from, k, |m|)
  }

  /** The blocks that entered the first `n` slots of a map. */
  function EnteredBelow(m: seq<Int32>, m1: seq<Int32>, n: nat): set<int>
    requires n <= |m| == |m1|
  {
    set a | 0 <= a < n && m[a] != m1[a] :: m1[a] as int
  }

  lemma MissingNext(m: seq<Int32>, from: nat, k: nat, n: nat)
    ensures MissingBelow(m, from, k, n + 1) == MissingBelow(m, from, k, n) + if Lacks(m, n, from, k) then {n} else {}
    ensures |MissingBelow(m, from, k, n + 1)| == |MissingBelow(m, from, k, n)| + if Lacks(m, n, from, k) then 1 else 0
  {
    hide Lacks;
    var more := MissingBelow(m, from, k, n) + if Lacks(m, n, from, k) then {n} else {};
    assert MissingBelow(m, from, k, n + 1) == more && n !in MissingBelow(m, from, k, n);
  }

  lemma EnteredNext(m: seq<Int32>, m1: seq<Int32>, n: nat)
    requires n < |m| == |m1|
    requires forall a, b | 0 <= a < b < |m| && m[a] != m1[a] && m[b] != m1[b] :: m1[a] < m1[b]
    ensures |EnteredBelow(m, m1, n + 1)| == |EnteredBelow(m, m1, n)| + if m[n] != m1[n] then 1 else 0
  {
    var more := EnteredBelow(m, m1, n) + if m[n] != m1[n] then {m1[n] as int} else {};
    assert EnteredBelow(m, m1, n + 1) == more;
    assert m[n] != m1[n] ==> m1[n] !in EnteredBelow(m, m1, n);
  }

  lemma {:induction false} CountEntered(m: seq<Int32>, m1: seq<Int32>, from: nat, k: nat, n: nat)
    requires n <= |m| == |m1| && forall a | 0 <= a < |m| :: m[a] != m1[a] <==> Lacks(m, a, from, k)
    requires forall a, b | 0 <= a < b < |m| && m[a] != m1[a] && m[b] != m1[b] :: m1[a] < m1[b]
    ensures |EnteredBelow(m, m1, n)| == |MissingBelow(m, from, k, n)|
  {
    if n > 0 {
      hide Lacks, EnteredBelow, MissingBelow;
      CountEntered(m, m1, from, k, n - 1);
      MissingNext(m, from, k, n - 1);
      EnteredNext(m, m1, n - 1);
    }
  }

  /** What growing does to the set of free blocks. */
  lemma GrowsFree(s: Fs, m: seq<Int32>, s1: Fs, m1: seq<Int32>)
    requires Shape(s) && Grows(s, m, s1, m1)
    ensures |m1| == |m| && EnteredBelow(m, m1, |m|) !! FreeBlocks(s1.free)
    ensures FreeBlocks(s.free) == FreeBlocks(s1.free) + EnteredBelow(m, m1, |m|)
  {
    hide FreeListBlock, Frugal;
    forall b: int
      ensures b in FreeBlocks(s.free) <==> b in FreeBlocks(s1.free) || b in EnteredBelow(m, m1, |m|)
      ensures b in EnteredBelow(m, m1, |m|) ==> b !in FreeBlocks(s1.free)
    {
      if b in EnteredBelow(m, m1, |m|) {
        var a :| 0 <= a < |m| && m[a] != m1[a] && m1[a] == b;
        assert Entered(m, m1, b);
      }
      if 0 <= b < |s.free| && Entered(m, m1, b) {
        var a :| 0 <= a < |m| && m1[a] == b && m[a] != b;
        assert b in EnteredBelow(m, m1, |m|);
      }
    }
  }

  /** The first `k` bytes are all that the free blocks allow. */
  lemma Largest(m: seq<Int32>, from: nat, n: nat, k: nat, free: nat)
    requires k <= n && |Missing(m, from, k)| <= free
    requires k < n ==> |Missing(m, from, k)| == free
    requires k < n ==> Lacks(m, (from + k) / 512, from, k + 1) && !Lacks(m, (from + k) / 512, from, k)
    ensures forall j: nat | j <= n :: j <= k <==> |Missing(m, from, j)| <= free
  {
    hide Missing, Lacks;
    forall j: nat | j <= n
      ensures j <= k <==> |Missing(m, from, j)| <= free
    {
      if j <= k {
        MissingGrows(m, from, j, k);
      } else {
        OneMissing(m, from, k);
        MissingGrows(m, from, k + 1, j);
      }
    }
  }

  lemma OneMissing(m: seq<Int32>, from: nat, k: nat)
    requires Lacks(m, (from + k) / 512, from, k + 1) && !Lacks(m, (from + k) / 512, from, k)
    ensures |Missing(m, from, k)| < |Missing(m, from, k + 1)|
  {
    var a := (from + k) / 512;
    assert a in Missing(m, from, k + 1) && a !in Missing(m, from, k);
    SubsetSize(Missing(m, from, k), Missing(m, from, k + 1) - {a});
  }

  lemma MissingGrows(m: seq<Int32>, from: nat, k: nat, k1: nat)
    requires k <= k1
    ensures |Missing(m, from, k)| <= |Missing(m, from, k1)|
  {
    SubsetSize(Missing(m, from, k), Missing(m, from, k1));
  }

  lemma SubsetSize(a: set<int>, b: set<int>)
    requires a <= b
    ensures |a| <= |b|
  {
    assert b == a + (b - a) && a * (b - a) == {};
  }

  /** The number of bytes that a write of `data` at the cursor stores is the largest that the free blocks
      allow, and the blocks it needs are no longer free. */
  ghost predicate StoresMost(w: World, i: nat, data: seq<Byte>, r: Result, w1: World)
    requires i in w.open && w.open[i].pos <= 67584
  {
    var (m, pos, free, free1) := (w.open[i].block_map, w.open[i].pos, FreeBlocks(w.fs.free), FreeBlocks(w1.fs.free));
    var n := Min(|data|, 67584 - pos);
    && r.Count? && r.k <= n
    && (forall j: nat | j <= n :: j <= r.k <==> |Missing(m, pos, j)| <= |free|)
    && |free1| == |free| - |Missing(m, pos, r.k)|
    && (r.k < n ==> free1 == {})
  }

  /** What `Writes` says about map and bitmap. */
  lemma WriteFills(s: Fs, i: nat, h: Handle, data: seq<Byte>, k: nat, s1: Fs, h1: Handle)
    requires Shape(s) && i < MAX_INODES && HandleShape(h) && Writes(s, i, h, data, k, s1, h1)
    ensures |h1.block_map| == |h.block_map| && k <= Min(|data|, MAX_FILE_SIZE - h.pos)
    ensures forall a | 0 <= a < |h.block_map| :: h.block_map[a] != h1.block_map[a] <==> Lacks(h.block_map, a, h.pos, k)
    ensures forall a, b | 0 <= a < b < |h.block_map|
                          && h.block_map[a] != h1.block_map[a] && h.block_map[b] != h1.block_map[b] ::
              h1.block_map[a] < h1.block_map[b]
    ensures EnteredBelow(h.block_map, h1.block_map, |h.block_map|) !! FreeBlocks(s1.free)
    ensures FreeBlocks(s.free) == FreeBlocks(s1.free) + EnteredBelow(h.block_map, h1.block_map, |h.block_map|)
  {
    hide FreeListBlock, EnteredBelow, FreeBlocks;
    GrowsFree(s, h.block_map, s1.(inodes := s.inodes), h1.block_map);
  }

  /** Why it stopped. */
  lemma WriteStops(s: Fs, i: nat, h: Handle, data: seq<Byte>, k: nat, s1: Fs, h1: Handle)
    requires Shape(s) && i < MAX_INODES && HandleShape(h) && Writes(s, i, h, data, k, s1, h1)
    requires k < Min(|data|, MAX_FILE_SIZE - h.pos) && |h1.block_map| == |h.block_map|
    ensures FreeBlocks(s1.free) == {}
    ensures Lacks(h.block_map, (h.pos + k) / 512, h.pos, k + 1) && !Lacks(h.block_map, (h.pos + k) / 512, h.pos, k)
  {
    hide FreeListBlock, Grows;
    var a := (h.pos + k) / 512;
    assert h1.block_map[a] < 0 && !Meets(a, h.pos, h.pos + k);
  }

  lemma WriteCounts(s: Fs, i: nat, h: Handle, data: seq<Byte>, k: nat, s1: Fs, h1: Handle)
    requires Shape(s) && i < MAX_INODES && HandleShape(h) && Writes(s, i, h, data, k, s1, h1)
    ensures |FreeBlocks(s1.free)| == |FreeBlocks(s.free)| - |Missing(h.block_map, h.pos, k)|
    ensures k < Min(|data|, 67584 - h.pos) ==> FreeBlocks(s1.free) == {}
    ensures k <= Min(|data|, 67584 - h.pos)
    ensures forall j: nat | j <= Min(|data|, 67584 - h.pos) ::
              j <= k <==> |Missing(h.block_map, h.pos, j)| <= |FreeBlocks(s.free)|
  {
    hide Writes, Lacks, EnteredBelow, MissingBelow, FreeBlocks;
    WriteFills(s, i, h, data, k, s1, h1);
    CountEntered(h.block_map, h1.block_map, h.pos, k, |h.block_map|);
    if k < Min(|data|, MAX_FILE_SIZE - h.pos) {
      WriteStops(s, i, h, data, k, s1, h1);
    }
    Largest(h.block_map, h.pos, Min(|data|, 67584 - h.pos), k, |FreeBlocks(s.free)|);
  }

  /** How many bytes a write stores. */
  lemma WriteStoresMost(w: World, id: Int32, data: seq<Byte>, r: Result, w1: World)
    requires Inv(w) && Step(w, Write(id, data), r, w1)
    ensures var i := Lookup(w.fs, id); i in w.open && w.open[i].pos <= 67584 && StoresMost(w, i, data, r, w1)
  {
    hide Inv, Writes, Missing, FreeBlocks, OpenMap;
    var i := Lookup(w.fs, id);
    OpenFits(w, i);
    WriteCounts(w.fs, i, w.open[i], data, r.k, w1.fs, w1.open[i]);
  }

  // ---------------------------------------------------------------- which blocks a step takes

  /** The block in slot `a` is new and was the lowest free one but for those that earlier slots of the
      row were given. */
  ghost predicate InTurn(free: seq<Byte>, row: Row, row1: Row, a: nat)
    requires a < SLOTS
  {
    var b := row1[a];
    && 0 <= b < |free| && free[b] == 0
    && forall c | 0 <= c < b && free[c] == 0 :: exists x | 0 <= x < a :: row1[x] == c && row[x] != c
  }

  /** Every block that some file has after the step and did not have before was taken in turn. */
  ghost predicate TakesLeast(w: World, w1: World)
    requires Sound(w) && Sound(w1)
  {
    forall i, a | 0 <= i < MAX_INODES && 0 <= a < SLOTS && Slots(w1, i)[a] != -1 && Slots(w1, i)[a] != Slots(w, i)[a] ::
      InTurn(w.fs.free, Slots(w, i), Slots(w1, i), a)
  }

  /** A step that moves only inode `i` takes what it takes for that inode. */
  lemma LeastFor(w: World, w1: World, i: int, v: View)
    requires Moves(w, w1, i, v) && Sound(w) && Sound(w1)
    requires forall a | 0 <= i < MAX_INODES && 0 <= a < SLOTS
                        && Slots(w1, i)[a] != -1 && Slots(w1, i)[a] != Slots(w, i)[a] ::
               InTurn(w.fs.free, Slots(w, i), Slots(w1, i), a)
    ensures TakesLeast(w, w1)
  {
    hide Slots, ViewOf, InTurn, Inv;
  }

  lemma GrowthInTurn(s: Fs, m: seq<Int32>, s1: Fs, m1: seq<Int32>, row: Row, row1: Row, a: nat)
    requires Shape(s) && Grows(s, m, s1, m1) && |m| == MAX_FILE_BLOCKS && a < MAX_FILE_BLOCKS && m1[a] != m[a]
    requires row[..MAX_FILE_BLOCKS] == m && row1[..MAX_FILE_BLOCKS] == m1
    ensures InTurn(s.free, row, row1, a)
  {
    hide FreeListBlock;
    forall c | 0 <= c < m1[a] && s.free[c] == 0
      ensures exists x | 0 <= x < a :: row1[x] == c && row[x] != c
    {
      assert s1.free[c] != 0;
      var x :| 0 <= x < |m| && m1[x] == c && m[x] != c;
      assert x < a && row1[x] == c && row[x] == m[x];
    }
  }

  lemma WriteInTurn(w: World, i: nat, data: seq<Byte>, r: Result, w1: World)
    requires Inv(w) && i in w.open && WriteStep(w, i, data, r, w1)
    ensures Sound(w1) && TakesLeast(w, w1)
  {
    hide Inv, Sound, Slots, InTurn, ViewOf, Moves, TakesLeast, Grows, Meets;
    InvSound(w);
    WriteMovesOnly(w, i, data, r, w1);
    WriteOpen(w, i, data, r, w1);
    OpenSlots(w, i);
    OpenSlots(w1, i);
    forall a | 0 <= a < SLOTS && Slots(w1, i)[a] != -1 && Slots(w1, i)[a] != Slots(w, i)[a]
      ensures InTurn(w.fs.free, Slots(w, i), Slots(w1, i), a)
    {
      GrowthInTurn(w.fs, w.open[i].block_map, w1.fs.(inodes := w.fs.inodes), w1.open[i].block_map,
                   Slots(w, i), Slots(w1, i), a);
    }
    LeastFor(w, w1, i, ViewOf(w1, i));
  }

  lemma PointerInTurn(w: World, i: nat, saved: bool, w1: World, a: nat)
    requires Sound(w) && Sound(w1) && i in w.open && CloseTables(w, i, saved, w1) && Reslotted(w, i, saved, w1)
    requires a < SLOTS && Slots(w1, i)[a] != -1 && Slots(w1, i)[a] != Slots(w, i)[a]
    ensures InTurn(w.fs.free, Slots(w, i), Slots(w1, i), a)
  {
    hide Slots, OpenMap, OnDisk, InodesBlock, FreeListBlock, UsesIndirect;
    OpenSlots(w, i);
  }

  /** A close that keeps its pointers fills at most the slot of the pointer block; one that does not
      fills none. */
  lemma CloseInTurn(w: World, i: nat, r: Result, w1: World)
    requires Inv(w) && i in w.open && CloseStep(w, i, r, w1)
    ensures Sound(w1) && TakesLeast(w, w1)
  {
    hide Inv, Sound, Slots, InTurn, ViewOf, Moves, TakesLeast, CloseStep, CloseTables, CloseData;
    InvSound(w);
    CloseMovesOnly(w, i, r, w1);
    CloseSlots(w, i, r.ok, w1);
    forall a | 0 <= a < SLOTS && Slots(w1, i)[a] != -1 && Slots(w1, i)[a] != Slots(w, i)[a]
      ensures InTurn(w.fs.free, Slots(w, i), Slots(w1, i), a)
    {
      PointerInTurn(w, i, r.ok, w1, a);
    }
    LeastFor(w, w1, i, ViewOf(w1, i));
  }

  /** Whatever a step allocates, it allocates lowest block first. */
  lemma StepTakesLeast(w: World, op: Op, r: Result, w1: World)
    requires Inv(w) && Step(w, op, r, w1)
    ensures Sound(w) && Sound(w1) && TakesLeast(w, w1)
  {
    hide Inv, Sound, Slots, InTurn, ViewOf, Moves, TakesLeast, OpenStep, WriteStep, CloseStep, ReadStep, SetPos;
    InvSound(w);
    match op
    case Create(id) => CreateInTurn(w, id, r, w1);
    case Delete(id) => DeleteInTurn(w, id, r, w1);
    case Open(id) => OpenInTurn(w, id, r, w1);
    case Close(id) => CloseInTurn(w, Lookup(w.fs, id), r, w1);
    case Read(id, n) => ReadInTurn(w, Lookup(w.fs, id), n, r, w1);
    case Write(id, data) => WriteInTurn(w, Lookup(w.fs, id), data, r, w1);
    case Reset(id) => CursorInTurn(w, Lookup(w.fs, id), 0);
    case CloseMissing =>
      SaveMoves(w);
      NoneInTurn(w, w1);
    case Remount(self) =>
      RemountMoves(w, self, w1);
      NoneInTurn(w, w1);
  }

  lemma NoneInTurn(w: World, w1: World)
    requires Moves(w, w1, -1, Unused)
    ensures Sound(w) && Sound(w1) && TakesLeast(w, w1)
  {
    hide Slots, ViewOf, InTurn, Owned, SlotOk, Matrix;
    LeastFor(w, w1, -1, Unused);
  }

  lemma SameInTurn(w: World)
    requires Sound(w)
    ensures TakesLeast(w, w)
  {
    hide Slots, InTurn, OpenMap;
  }

  lemma CreateInTurn(w: World, id: Int32, r: Result, w1: World)
    requires Inv(w) && Sound(w) && Step(w, Create(id), r, w1)
    ensures Sound(w1) && TakesLeast(w, w1)
  {
    hide Inv, Sound, Slots, InTurn, ViewOf, Moves, TakesLeast, CreateFile;
    InvSound(w);
    CreateOk(w.fs, id);
    if r.ok {
      var (i, v) := (Lookup(w.fs, -1), Used(id, File([], Closed)));
      CreateMoves(w, id);
      MovesTo(w, w1, i, v);
      CreatedInode(w.fs, id);
      UnusedRow(w, i);
      EmptyRow(w1, i);
      LeastFor(w, w1, i, v);
    } else {
      SameInTurn(w);
    }
  }

  lemma DeleteInTurn(w: World, id: Int32, r: Result, w1: World)
    requires Inv(w) && Sound(w) && Step(w, Delete(id), r, w1)
    ensures Sound(w1) && TakesLeast(w, w1)
  {
    hide Inv, Sound, Slots, InTurn, ViewOf, Moves, TakesLeast, DeleteFile, DeleteEffect;
    InvSound(w);
    DeleteOk(w.fs, id);
    if r.ok {
      var i := Lookup(w.fs, id);
      DeleteMoves(w, id);
      MovesTo(w, w1, i, Unused);
      DeleteHasEffect(w, id);
      DeleteEmpties(w, i, w1);
      LeastFor(w, w1, i, Unused);
    } else {
      SameInTurn(w);
    }
  }

  lemma OpenInTurn(w: World, id: Int32, r: Result, w1: World)
    requires Inv(w) && Sound(w) && Step(w, Open(id), r, w1)
    ensures Sound(w1) && TakesLeast(w, w1)
  {
    hide Inv, Sound, Slots, InTurn, ViewOf, Moves, TakesLeast, OpenFile;
    var i := Lookup(w.fs, id);
    if 0 <= i {
      InvSound(w);
      OpenMoves(w, id, r, w1);
      var v := Used(id, ViewOf(w, i).file.(cursor := At(0)));
      MovesTo(w, w1, i, v);
      OpenedSlots(w, id, r, w1);
      LeastFor(w, w1, i, v);
    } else {
      SameInTurn(w);
    }
  }

  lemma CursorInTurn(w: World, i: nat, pos: nat)
    requires Inv(w) && Sound(w) && i in w.open && pos <= w.fs.inodes[i].file_size
    ensures Sound(SetPos(w, i, pos)) && TakesLeast(w, SetPos(w, i, pos))
  {
    hide Inv, Sound, Slots, InTurn, ViewOf, Moves, TakesLeast;
    OpenFits(w, i);
    SetPosMoves(w, i, pos);
    var (w1, v) := (SetPos(w, i, pos), ViewOf(w, i).(file := ViewOf(w, i).file.(cursor := At(pos))));
    MovesTo(w, w1, i, v);
    OpenSlots(w, i);
    OpenSlots(w1, i);
    LeastFor(w, w1, i, v);
  }

  lemma ReadInTurn(w: World, i: nat, n: nat, r: Result, w1: World)
    requires Inv(w) && Sound(w) && i in w.open && ReadStep(w, i, n, r, w1)
    ensures Sound(w1) && TakesLeast(w, w1)
  {
    hide Inv, Sound, Slots, TakesLeast;
    OpenFits(w, i);
    CursorInside(w, i);
    CursorInTurn(w, i, w.open[i].pos + ReadCount(w.fs.inodes[i].file_size, w.open[i], n));
  }

  // ---------------------------------------------------------------- whole runs

  /** In every run from a formatted disk: each block that enters a file is the lowest one that is free at
      that moment, and each write stores as much as the free blocks allow. */
  lemma RunAllocates(ws: seq<World>, ops: seq<Op>, rs: seq<Result>, k: nat)
    requires IsRun(ws, ops, rs) && k < |ops|
    ensures Sound(ws[k]) && Sound(ws[k + 1]) && TakesLeast(ws[k], ws[k + 1])
    ensures ops[k].Write? ==>
              var i := Lookup(ws[k].fs, ops[k].id);
              i in ws[k].open && ws[k].open[i].pos <= 67584 && StoresMost(ws[k], i, ops[k].data, rs[k], ws[k + 1])
  {
    hide Inv, Step, Sound, TakesLeast, StoresMost, Initial;
    RunRefines(ws, ops, rs);
    StepTakesLeast(ws[k], ops[k], rs[k], ws[k + 1]);
    if ops[k].Write? {
      WriteStoresMost(ws[k], ops[k].id, ops[k].data, rs[k], ws[k + 1]);
    }
  }
}
