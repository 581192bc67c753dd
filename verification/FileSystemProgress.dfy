/** Every legal operation can be done; and a formatted disk can be filled to its last block. */
module FileSystemProgress {
  import opened DiskFormat
  import opened FileSystemSpec
  import opened FileSystemGrowth
  import opened FileSystemRun
  import opened FileSystemSafety
  import opened FileSystemClose
  import opened FileSystemRefinement
  import opened FileSystemLaws
  import opened FileSystemSpace
  import opened FileSystemAccounts

  // ---------------------------------------------------------------- a write has an outcome

  /** How far a write of `n` bytes from `pos` on, begun with map `m` on `s`, has come. */
  datatype Progress = Progress(s: Fs, m: seq<Int32>, done: nat)

  ghost predicate Reached(s: Fs, m: seq<Int32>, pos: nat, n: nat, p: Progress) {
    && Shape(s) && Shape(p.s) && |m| == MAX_FILE_BLOCKS == |p.m| && p.done <= n && pos + n <= MAX_FILE_SIZE
    && Grows(s, m, p.s, p.m) && Touched(m, p.m, pos, pos + p.done)
  }

  /** Nothing is left to do, or nothing can be. */
  ghost predicate Stops(pos: nat, n: nat, p: Progress) {
    p.done == n || (0 !in p.s.free && (pos + p.done) / BLOCK_SIZE < |p.m| && p.m[(pos + p.done) / BLOCK_SIZE] < 0)
  }

  /** One round of the loop, unless it stops. */
  lemma Round(s: Fs, m: seq<Int32>, pos: nat, n: nat, p: Progress) returns (q: Progress)
    requires Reached(s, m, pos, n, p)
    ensures Reached(s, m, pos, n, q)
    ensures p.done < q.done || (q == p && Stops(pos, n, p))
  {
    hide Grows, Touched, FreeListBlock;
    var a := (pos + p.done) / BLOCK_SIZE;
    if p.done == n {
      return p;
    }
    UntouchedAbove(m, p.m, pos, p.done);
    var chunk := Min(n - p.done, BLOCK_SIZE - (pos + p.done) % BLOCK_SIZE);
    if 0 <= p.m[a] {
      q := p.(done := p.done + chunk);
      TouchedOneMore(m, p.m, q.m, pos, p.done, chunk, a);
    } else {
      var (s1, b) := TakeBlock(p.s);
      if b < 0 {
        return p;
      }
      GrowsOnce(s, m, p.s, p.m, a, s1, b);
      q := Progress(s1, p.m[a := b], p.done + chunk);
      TouchedOneMore(m, p.m, q.m, pos, p.done, chunk, a);
    }
  }

  lemma {:induction false} Rounds(s: Fs, m: seq<Int32>, pos: nat, n: nat, p: Progress) returns (q: Progress)
    requires Reached(s, m, pos, n, p)
    ensures Reached(s, m, pos, n, q) && Stops(pos, n, q)
    decreases n - p.done
  {
    q := Round(s, m, pos, n, p);
    hide Reached, Stops;
    if p.done < q.done {
      DoneFits(s, m, pos, n, q);
      q := Rounds(s, m, pos, n, q);
    }
  }

  lemma DoneFits(s: Fs, m: seq<Int32>, pos: nat, n: nat, p: Progress)
    requires Reached(s, m, pos, n, p)
    ensures p.done <= n
  {
    hide Grows, Touched;
  }

  lemma WriteHappens(s: Fs, i: nat, h: Handle, data: seq<Byte>) returns (k: nat, s1: Fs, h1: Handle)
    requires Shape(s) && i < MAX_INODES && HandleShape(h)
    ensures Writes(s, i, h, data, k, s1, h1)
  {
    hide Grows, Touched, Writes, Meets;
    var n := Min(|data|, MAX_FILE_SIZE - h.pos);
    GrowsRefl(s, h.block_map);
    NoneTouched(h.block_map, h.pos);
    var p := Rounds(s, h.block_map, h.pos, n, Progress(s, h.block_map, 0));
    k := p.done;
    h1 := Handle(p.m, h.cache[..h.pos] + data[..k] + h.cache[h.pos + k..], h.pos + k);
    var size := s.inodes[i].file_size;
    SameInodes(s, h.block_map, p.s, p.m);
    s1 := p.s.(inodes := s.inodes[i := s.inodes[i].(file_size := if size < h1.pos then h1.pos else size)]);
    WritesFrom(s, i, h, data, k, p.s, s1, h1);
  }

  lemma SameInodes(s: Fs, m: seq<Int32>, s1: Fs, m1: seq<Int32>)
    requires Shape(s) && Grows(s, m, s1, m1)
    ensures s1.inodes == s.inodes
  {
  }

  lemma NoneTouched(m: seq<Int32>, pos: nat)
    ensures Touched(m, m, pos, pos + 0)
  {
  }

  // ---------------------------------------------------------------- every operation has an outcome

  lemma RemountHappens(s: Fs, self: Word) returns (s1: Fs)
    requires Shape(s) && |s.free| <= BITMAP_BYTES
    ensures Mounts(Unmount(s).disk, self, s1)
  {
    hide InodeAt, WordAt, InodesBlock;
    CountRoundTrip(s.free);
    var disk := Unmount(s).disk;
    s1 := Fs(self, s.free,
             seq(MAX_INODES, i requires 0 <= i < MAX_INODES => InodeAt(disk[INODES_BLOCK], i).(fs := self)), disk);
  }

  /** Whatever the state, each operation that respects the rules of the interface can be done. */
  lemma StepHappens(w: World, op: Op) returns (r: Result, w1: World)
    requires Inv(w) && Legal(w, op)
    ensures Step(w, op, r, w1)
  {
    hide Inv, Sound, Writes, Mounts, CreateFile, DeleteFile, CloseFile, OpenFile, SaveInodes, Unmount;
    InvSound(w);
    match op
    case Create(id) => r, w1 := Done(CreateFile(w.fs, id).1), w.(fs := CreateFile(w.fs, id).0);
    case Delete(id) => r, w1 := Done(DeleteFile(w.fs, id).1), w.(fs := DeleteFile(w.fs, id).0);
    case Open(id) => r, w1 := OpenHappens(w, Lookup(w.fs, id));
    case Close(id) => r, w1 := CloseHappens(w, Lookup(w.fs, id));
    case Read(id, n) => r, w1 := ReadHappens(w, Lookup(w.fs, id), n);
    case Write(id, data) => r, w1 := WriteStepHappens(w, Lookup(w.fs, id), data);
    case Reset(id) => r, w1 := Done(true), SetPos(w, Lookup(w.fs, id), 0);
    case CloseMissing => r, w1 := Done(true), w.(fs := SaveInodes(w.fs));
    case Remount(self) =>
      var s1 := RemountHappens(w.fs, self);
      r, w1 := Done(true), World(s1, map[]);
  }

  lemma OpenHappens(w: World, i: int) returns (r: Result, w1: World)
    requires Sound(w) && i < MAX_INODES
    ensures OpenStep(w, i, r, w1)
  {
    if i < 0 {
      r, w1 := Done(false), w;
    } else {
      r, w1 := Done(true), w.(open := w.open[i := OpenFile(w.fs, i)]);
    }
  }

  lemma CloseHappens(w: World, i: nat) returns (r: Result, w1: World)
    requires Sound(w) && i in w.open
    ensures CloseStep(w, i, r, w1)
  {
    OpenFits(w, i);
    hide CloseFile, OpenMap;
    var c := CloseFile(w.fs, i, w.open[i]);
    r, w1 := Done(c.1), World(c.0, w.open - {i});
  }

  lemma ReadHappens(w: World, i: nat, n: nat) returns (r: Result, w1: World)
    requires Inv(w) && Sound(w) && i in w.open
    ensures ReadStep(w, i, n, r, w1)
  {
    hide Inv, OpenMap;
    OpenFits(w, i);
    CursorInside(w, i);
    var h := w.open[i];
    var k := ReadCount(w.fs.inodes[i].file_size, h, n);
    r, w1 := Data(h.cache[h.pos..h.pos + k]), SetPos(w, i, h.pos + k);
  }

  lemma WriteStepHappens(w: World, i: nat, data: seq<Byte>) returns (r: Result, w1: World)
    requires Sound(w) && i in w.open
    ensures WriteStep(w, i, data, r, w1)
  {
    hide Sound, Writes;
    OpenFits(w, i);
    var k, s1, h1 := WriteHappens(w.fs, i, w.open[i], data);
    r, w1 := Count(k), World(s1, w.open[i := h1]);
  }

  // ---------------------------------------------------------------- filling a disk

  /** As much as a file can hold. */
  function Most(): (d: seq<Byte>)
    ensures |d| == 67584
  {
    seq(67584, i => 0)
  }

  /** What `n` such files leave of `free` blocks. */
  function Left(free: nat, n: nat): nat {
    if free <= 132 * n then 0 else free - 132 * n
  }

  ghost predicate Has(w: World, a: Files) {
    Inv(w) && Sound(w) && Tight(w) && Means(w, a)
  }

  lemma Next(w: World, op: Op, a: Files) returns (r: Result, w1: World, a1: Files)
    requires Has(w, a) && Legal(w, op) && !op.Close?
    ensures Step(w, op, r, w1) && AbsStep(a, op, r, a1) && Has(w1, a1)
  {
    hide Inv, Sound, Tight, Means, Step, Legal, AbsStep;
    r, w1 := StepHappens(w, op);
    a1 := StepRefines(w, op, r, w1, a);
    StepTight(w, op, r, w1);
    InvSound(w1);
  }

  /** A file that the map has closed is not open, and one with a cursor is. */
  lemma OpenOrClosed(w: World, a: Files, id: int)
    requires Has(w, a) && id in a
    ensures 0 <= Lookup(w.fs, id) < MAX_INODES
    ensures a[id].cursor.At? <==> Lookup(w.fs, id) in w.open
    ensures a[id].cursor.At? ==> a[id].cursor.pos == w.open[Lookup(w.fs, id)].pos
    ensures a[id].content == [] ==> w.fs.inodes[Lookup(w.fs, id)].file_size == 0
  {
    hide Inv, Tight, Bytes, OpenMap;
    MeansHas(w, a, id);
    assert ViewOf(w, Lookup(w.fs, id)) == Used(id, a[id]);
  }

  /** The most that `k` can be when each byte below it finds its block among `free`. */
  lemma FillsAll(free: nat, k: nat)
    requires k <= 67584 && forall j: nat | j <= 67584 :: j <= k <==> More(0, 0, j) <= free
    ensures k == 512 * Min(free, 132) && More(0, 0, k) == Min(free, 132)
  {
    if free < 132 {
      assert More(0, 0, 512 * free) == free && More(0, 0, 512 * free + 1) == free + 1;
    }
    assert More(0, 0, 67584) == 132;
  }

  /** From `w` to `w1` a write of the most filled as many blocks as were free, up to 132. */
  ghost predicate Stores(w: World, r: Result, w1: World) {
    && |FreeBlocks(w1.fs.free)| == Left(|FreeBlocks(w.fs.free)|, 1)
    && r == Count(512 * (|FreeBlocks(w.fs.free)| - |FreeBlocks(w1.fs.free)|))
  }

  ghost predicate Creates(w: World, id: Int32, w1: World, w2: World, r: Result, w3: World) {
    && Step(w, Create(id), Done(true), w1) && Step(w1, Open(id), Done(true), w2)
    && Step(w2, Write(id, Most()), r, w3)
  }

  lemma FillWrite(w: World, id: Int32, r: Result, w1: World)
    requires Inv(w) && Sound(w) && Tight(w) && Step(w, Write(id, Most()), r, w1)
    requires var i := Lookup(w.fs, id);
             0 <= i < MAX_INODES && i in w.open && w.open[i].pos == 0 && w.fs.inodes[i].file_size == 0
    ensures Stores(w, r, w1)
  {
    hide Inv, Sound, Step, FreeBlocks, Missing, More, Backed;
    var i := Lookup(w.fs, id);
    WriteStoresMost(w, id, Most(), r, w1);
    WriteBySize(w, id, Most(), r, w1);
    TightBacked(w, i);
    MissingBySize(w, i, r.k);
    FillsAll(|FreeBlocks(w.fs.free)|, r.k);
  }

  lemma KeysAfter(a: Files, op: Op, r: Result, a1: Files)
    requires AbsStep(a, op, r, a1) && (op.Open? || op.Write?)
    ensures a1.Keys == a.Keys
  {
  }

  lemma FreeAfter(w: World, op: Op, r: Result, w1: World)
    requires Step(w, op, r, w1) && (op.Create? || op.Open?)
    ensures w1.fs.free == w.fs.free
  {
    hide OpenMap, OnDisk, InodesBlock, LoadCache;
  }

  /** A new file is given all that is free, up to 132 blocks. */
  lemma FillOne(w: World, a: Files, id: Int32) returns (w1: World, w2: World, r: Result, w3: World, a3: Files)
    requires Has(w, a) && id != -1 && id !in a && |a| < MAX_INODES
    ensures Creates(w, id, w1, w2, r, w3) && Has(w3, a3) && a3.Keys == a.Keys + {id as int}
    ensures Stores(w, r, w3)
  {
    hide Has, Step, FreeBlocks, OpenFileStep;
    var r1, a1, r2, a2;
    r1, w1, a1 := Next(w, Create(id), a);
    FreeAfter(w, Create(id), r1, w1);
    OpenOrClosed(w1, a1, id);
    r2, w2, a2 := Next(w1, Open(id), a1);
    FreeAfter(w1, Open(id), r2, w2);
    OpenOrClosed(w2, a2, id);
    r, w3, a3 := Next(w2, Write(id, Most()), a2);
    KeysAfter(a2, Write(id, Most()), r, a3);
    FillNow(w2, a2, id, r, w3);
  }

  lemma FillNow(w: World, a: Files, id: Int32, r: Result, w1: World)
    requires Has(w, a) && id in a && a[id] == File([], At(0)) && Step(w, Write(id, Most()), r, w1)
    ensures Stores(w, r, w1)
  {
    hide Inv, Sound, Step, FreeBlocks, Means, Tight;
    OpenOrClosed(w, a, id);
    FillWrite(w, id, r, w1);
  }

  /** Files 1 to `n`, each as large as can be. */
  function FillOps(n: nat): (ops: seq<Op>)
    requires n <= MAX_INODES
    ensures |ops| == 3 * n
  {
    if n == 0 then [] else FillOps(n - 1) + [Create(n)] + [Open(n)] + [Write(n, Most())]
  }

  /** The bytes that the writes among these results stored. */
  function StoredBytes(rs: seq<Result>): nat {
    if rs == [] then 0
    else StoredBytes(rs[..|rs| - 1]) + if rs[|rs| - 1].Count? then rs[|rs| - 1].k else 0
  }

  /** Steps from `w` to `w1`. */
  ghost predicate Leads(w: World, ws: seq<World>, ops: seq<Op>, rs: seq<Result>, w1: World) {
    && |ws| == |ops| + 1 == |rs| + 1 && ws[0] == w && ws[|ops|] == w1
    && forall k | 0 <= k < |ops| :: Step(ws[k], ops[k], rs[k], ws[k + 1])
  }

  lemma LeadsOn(w: World, ws: seq<World>, ops: seq<Op>, rs: seq<Result>, w1: World, op: Op, r: Result, w2: World)
    requires Leads(w, ws, ops, rs, w1) && Step(w1, op, r, w2)
    ensures Leads(w, ws + [w2], ops + [op], rs + [r], w2)
    ensures StoredBytes(rs + [r]) == StoredBytes(rs) + if r.Count? then r.k else 0
  {
    hide Step;
    assert (rs + [r])[..|rs|] == rs;
  }

  lemma {:induction false} FillMany(w: World, n: nat) returns (ws: seq<World>, rs: seq<Result>, w1: World, a: Files)
    requires Has(w, map[]) && n <= MAX_INODES
    ensures Leads(w, ws, FillOps(n), rs, w1) && Has(w1, a)
    ensures |a| == n && forall id | id in a :: 1 <= id <= n
    ensures |FreeBlocks(w1.fs.free)| == Left(|FreeBlocks(w.fs.free)|, n)
    ensures StoredBytes(rs) == 512 * (|FreeBlocks(w.fs.free)| - |FreeBlocks(w1.fs.free)|)
  {
    hide Has, Step, FreeBlocks, Leads, StoredBytes;
    if n == 0 {
      ws, rs, w1, a := [w], [], w, map[];
      LeadsNowhere(w);
    } else {
      var ws0, rs0, w0, a0 := FillMany(w, n - 1);
      var u, v, r, a1;
      u, v, r, w1, a1 := FillOne(w0, a0, n);
      var t := Done(true);
      LeadsOn(w, ws0, FillOps(n - 1), rs0, w0, Create(n), t, u);
      LeadsOn(w, ws0 + [u], FillOps(n - 1) + [Create(n)], rs0 + [t], u, Open(n), t, v);
      LeadsOn(w, ws0 + [u] + [v], FillOps(n - 1) + [Create(n)] + [Open(n)], rs0 + [t] + [t],
              v, Write(n, Most()), r, w1);
      ws, rs, a := ws0 + [u] + [v] + [w1], rs0 + [t] + [t] + [r], a1;
      OneKey(a0, a1, n);
    }
  }

  lemma LeadsNowhere(w: World)
    ensures Leads(w, [w], [], [], w) && StoredBytes([]) == 0
  {
  }

  lemma OneKey(a: Files, a1: Files, id: int)
    requires a1.Keys == a.Keys + {id} && id !in a
    ensures |a1| == |a| + 1
  {
    assert |a1| == |a1.Keys| && |a| == |a.Keys|;
  }

  lemma FormatHappens(disk: seq<Block>, size: Word, self: Word) returns (s: Fs)
    requires 2 <= |disk| && size / BLOCK_SIZE <= |disk|
    ensures Mounts(FormatDisk(disk, size), self, s) && s.self == self
  {
    hide InodeAt, WordAt, InodesBlock;
    var (n, image) := (size / BLOCK_SIZE, FormatDisk(disk, size));
    CountRoundTrip(ReservedOnly(n));
    s := Fs(self, ReservedOnly(n),
            seq(MAX_INODES, i requires 0 <= i < MAX_INODES => InodeAt(image[INODES_BLOCK], i).(fs := self)), image);
  }

  lemma FreeAtFirst(free: seq<Byte>)
    requires 2 <= |free| && forall b | 0 <= b < |free| :: free[b] == 0 <==> 2 <= b
    ensures |FreeBlocks(free)| == |free| - 2
  {
    RangeIs(2, |free| - 2);
    assert FreeBlocks(free) == Range(2, |free| - 2);
  }

  /** Block `b` belongs to a file. */
  ghost predicate InFile(w: World, b: int) {
    Sound(w) && exists i | 0 <= i < MAX_INODES :: b in Slots(w, i)
  }

  ghost predicate Filled(w: World, n: nat) {
    |w.fs.free| == n && forall b | 2 <= b < n :: InFile(w, b)
  }

  lemma AllFilled(w: World, a: Files)
    requires Has(w, a) && |FreeBlocks(w.fs.free)| == 0
    ensures Filled(w, |w.fs.free|)
  {
    hide Inv, Sound, Tight, Means, Slots;
    TightExactly(w);
    forall b | 2 <= b < |w.fs.free|
      ensures InFile(w, b)
    {
      assert b !in FreeBlocks(w.fs.free);
    }
  }

  lemma Formatted(disk: seq<Block>, size: Word, self: Word) returns (w: World)
    requires 2 <= |disk| && size / 512 <= |disk| && 2 <= size / 512 <= 508
    ensures Initial(w) && Has(w, map[]) && Mounts(FormatDisk(disk, size), self, w.fs) && w.fs.self == self
    ensures |FreeBlocks(w.fs.free)| == size / 512 - 2
  {
    hide Inv, Sound, Mounts, FormatDisk, Tight, Means, FreeBlocks;
    var s := FormatHappens(disk, size, self);
    w := World(s, map[]);
    FormatCount(disk, size, self, s);
    assert Initial(w);
    InitialInv(w);
    InvSound(w);
    InitialTight(w);
    EmptyMeans(w);
    FreeAtFirst(s.free);
  }

  lemma LeadsIsRun(w: World, ws: seq<World>, ops: seq<Op>, rs: seq<Result>, w1: World)
    requires Initial(w) && Leads(w, ws, ops, rs, w1)
    ensures IsRun(ws, ops, rs) && ws[0] == w && ws[|ops|] == w1
  {
    hide Initial, Step;
  }

  /** A disk formatted with `size`, up to 508 blocks, can be used to the last one: there is a run of four
      files after which every block but the first two is in some file, and it stored 512 bytes for each. */
  lemma FormatAllUsable(disk: seq<Block>, size: Word, self: Word)
    requires 2 <= |disk| && size / 512 <= |disk| && 2 <= size / 512 <= 508
    ensures exists ws: seq<World>, rs: seq<Result> ::
              && IsRun(ws, FillOps(4), rs) && Mounts(FormatDisk(disk, size), self, ws[0].fs)
              && Filled(ws[12], size / 512) && StoredBytes(rs) == 512 * (size / 512 - 2)
  {
    hide IsRun, Leads, Mounts, FormatDisk, FreeBlocks, Filled, FillOps, StoredBytes, Has, Initial;
    var w := Formatted(disk, size, self);
    var ws, rs, w1, a := FillMany(w, 4);
    LeadsIsRun(w, ws, FillOps(4), rs, w1);
    RunHome(ws, FillOps(4), rs, disk, size, 12);
    AllFilled(w1, a);
  }
}
