/** The two-level translation of 32-bit paging (Intel SDM Volume 3A, section 4.3 "32-Bit Paging"),
    on physical memory as a sequence of 32-bit words. */
module PageWalk {
  const PAGE_SIZE := 4096
  const ENTRIES := 1024
  /** Pages of a 32-bit address space. */
  const PAGES := 0x10_0000

  type Word = x: int | 0 <= x < 0x1_0000_0000
  type Memory = seq<Word>

  /** Bit 0 of an entry. */
  predicate Present(e: Word) {
    e % 2 == 1
  }

  /** The page-aligned address in bits 12 to 31, as a frame number. */
  function FrameOf(e: Word): nat {
    e / PAGE_SIZE
  }

  /** The entry for `frame`, present and writable: `frame * PAGE_SIZE | 3`. */
  function EntryFor(frame: nat): (e: Word)
    requires frame < PAGES
    ensures Present(e) && FrameOf(e) == frame
  {
    frame * PAGE_SIZE + 3
  }

  datatype Target = Unmapped | Mapped(frame: nat)

  function TargetOf(e: Word): Target {
    if Present(e) then Mapped(FrameOf(e)) else Unmapped
  }

  /** An entry has the present and the write bit set, and no other flag: kernel mode only. */
  lemma EntryWord(frame: nat)
    requires frame < PAGES
    ensures EntryFor(frame) % 4096 == 3
    ensures frame * 4096 + 3 == EntryFor(frame) && TargetOf(EntryFor(frame)) == Mapped(frame)
  {
  }

  /** Whether all of a frame is memory. */
  predicate Exists(mem: Memory, frame: nat) {
    (frame + 1) * ENTRIES <= |mem|
  }

  /** Word `i` of a frame; memory that does not exist holds entries that are not present. */
  function WordAt(mem: Memory, frame: nat, i: nat): Word
    requires i < ENTRIES
  {
    if frame * ENTRIES + i < |mem| then mem[frame * ENTRIES + i] else 0
  }

  function Stored(mem: Memory, frame: nat, i: nat, v: Word): (r: Memory)
    requires i < ENTRIES && Exists(mem, frame)
    ensures |r| == |mem|
  {
    mem[frame * ENTRIES + i := v]
  }

  /** Words [lo, hi) of a frame set to those of `row`. */
  function Filled(mem: Memory, frame: nat, lo: nat, hi: nat, row: seq<Word>): (r: Memory)
    requires hi <= ENTRIES == |row| && Exists(mem, frame)
    ensures |r| == |mem|
  {
    seq(|mem|, i requires 0 <= i < |mem| =>
      if frame * ENTRIES + lo <= i < frame * ENTRIES + hi then row[i - frame * ENTRIES] else mem[i])
  }

  /** Entries that are all `e`. */
  function Row(e: Word): (r: seq<Word>)
    ensures |r| == ENTRIES
  {
    seq(ENTRIES, i => e)
  }

  /** Entry `i` is for frame `i`. */
  function IdentityRow(): (r: seq<Word>)
    ensures |r| == ENTRIES
  {
    seq(ENTRIES, i requires 0 <= i < ENTRIES => EntryFor(i))
  }

  lemma StoredAt(mem: Memory, frame: nat, i: nat, v: Word, g: nat, j: nat)
    requires i < ENTRIES && j < ENTRIES && Exists(mem, frame)
    ensures WordAt(Stored(mem, frame, i, v), g, j) == if g == frame && j == i then v else WordAt(mem, g, j)
  {
  }

  lemma FilledAt(mem: Memory, frame: nat, lo: nat, hi: nat, row: seq<Word>, g: nat, j: nat)
    requires hi <= ENTRIES == |row| && j < ENTRIES && Exists(mem, frame)
    ensures WordAt(Filled(mem, frame, lo, hi, row), g, j) ==
            if g == frame && lo <= j < hi then row[j] else WordAt(mem, g, j)
  {
  }

  lemma FilledStep(mem: Memory, frame: nat, lo: nat, i: nat, row: seq<Word>)
    requires lo <= i < ENTRIES == |row| && Exists(mem, frame)
    ensures Filled(mem, frame, lo, i + 1, row) == Stored(Filled(mem, frame, lo, i, row), frame, i, row[i])
    ensures Filled(mem, frame, lo, lo, row) == mem
  {
  }

  /** The frame that page number `page` translates to under the directory in frame `dir`. */
  function Walk(mem: Memory, dir: nat, page: nat): Target
    requires page < PAGES
  {
    match TargetOf(WordAt(mem, dir, page / ENTRIES))
    case Unmapped => Unmapped
    case Mapped(table) => TargetOf(WordAt(mem, table, page % ENTRIES))
  }

  /** The number of the physical word behind a word-aligned virtual address. */
  function Resolve(mem: Memory, dir: nat, va: Word): Target
    requires va % 4 == 0
  {
    match Walk(mem, dir, va / PAGE_SIZE)
    case Unmapped => Unmapped
    case Mapped(frame) => Mapped(frame * ENTRIES + va % PAGE_SIZE / 4)
  }

  lemma WordParts(x: Word)
    requires x % 4 == 0
    ensures x == 4 * (x / PAGE_SIZE * ENTRIES + x % PAGE_SIZE / 4)
  {
    var (q, r) := (x / PAGE_SIZE, x % PAGE_SIZE);
    assert x == 4 * (q * ENTRIES) + r;
    assert r % 4 == 0;
  }

  /** A word-aligned address is determined by its page and its word in the page. */
  lemma SameWord(x: Word, y: Word)
    requires x % 4 == 0 && y % 4 == 0
    requires x / PAGE_SIZE == y / PAGE_SIZE && x % PAGE_SIZE / 4 == y % PAGE_SIZE / 4
    ensures x == y
  {
    WordParts(x);
    WordParts(y);
  }

  /** Memory as the processor reaches it: by physical address, or through the directory in `cr3`. */
  class Mmu {
    const mem: array<Word>
    var cr3: Word
    var paging: bool

    function PhysicalWord(va: Word): Target
      requires va % 4 == 0
      reads this, mem
    {
      if paging then Resolve(mem[..], cr3 / PAGE_SIZE, va) else Mapped(va / 4)
    }

    predicate Reaches(va: Word)
      requires va % 4 == 0
      reads this, mem
    {
      PhysicalWord(va).Mapped? && PhysicalWord(va).frame < mem.Length
    }

    method Load(va: Word) returns (v: Word)
      requires va % 4 == 0 && Reaches(va)
      ensures v == mem[PhysicalWord(va).frame]
    {
      v := mem[PhysicalWord(va).frame];
    }

    method Store(va: Word, v: Word)
      requires va % 4 == 0 && Reaches(va)
      modifies mem
      ensures mem[..] == old(mem[..])[old(PhysicalWord(va).frame) := v]
    {
      mem[PhysicalWord(va).frame] := v;
    }
  }
}
