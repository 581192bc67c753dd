/** The state of the paging subsystem: physical memory, a loaded directory and the two frame pools. */
module PagingState {
  import opened FrameStates
  import opened PageWalk
  import Pool = FramePoolMp3

  const FRAMES := 8192            // 32 MB
  const KERNEL_START := 512
  const KERNEL_SIZE := 512
  const PROCESS_START := 1024
  const PROCESS_SIZE := 7168
  const HOLE_START := 3840
  const HOLE_SIZE := 256

  /** Physical memory, the frame of the loaded directory, and the two pools. */
  datatype System = System(mem: Memory, dir: nat, kernel: States, process: States)

  predicate Shape(s: System) {
    && |s.mem| == FRAMES * ENTRIES && |s.kernel| == KERNEL_SIZE && |s.process| == PROCESS_SIZE
    && KERNEL_START <= s.dir < KERNEL_START + KERNEL_SIZE
  }

  /** The table installed in directory slot `d`. */
  function Table(s: System, d: nat): Target
    requires d < ENTRIES
  {
    TargetOf(WordAt(s.mem, s.dir, d))
  }

  function Page(s: System, q: nat): Target
    requires q < PAGES
  {
    Walk(s.mem, s.dir, q)
  }

  /** What happens to virtual memory: a fault is handled, or the program stores a word. */
  datatype Event = PageFault(page: nat) | Write(va: Word, w: Word)

  predicate Writes(e: Event, va: Word) {
    e.Write? && e.va == va
  }

  /** `get_frames(1)` from a pool that is not exhausted. */
  method GetFrame(pool: Pool.ContFramePool) returns (frame: nat)
    requires pool.Valid() && HasFree(pool.View())
    modifies pool.bitmap
    ensures pool.Valid() && frame == pool.base_frame_no + FirstFree(old(pool.View()))
    ensures pool.View() == Marked(old(pool.View()), FirstFree(old(pool.View())), 1)
  {
    FirstFreeFits(pool.View());
    frame := pool.GetFrames(1);
  }

  /** The members common to the paging subsystem, with the machine they work on. */
  class Paging {
    const mmu: Mmu
    const kernel_mem_pool: Pool.ContFramePool
    const process_mem_pool: Pool.ContFramePool
    /** `page_directory` of current_page_table. */
    var current_directory: Word

    /** init_paging. */
    constructor (m: Mmu, kernel: Pool.ContFramePool, process: Pool.ContFramePool)
      ensures mmu == m && kernel_mem_pool == kernel && process_mem_pool == process
    {
      mmu := m;
      kernel_mem_pool := kernel;
      process_mem_pool := process;
      current_directory := 0;
    }

    ghost predicate Valid()
      reads this, mmu, kernel_mem_pool.bitmap, process_mem_pool.bitmap
    {
      && mmu.mem.Length == FRAMES * ENTRIES && kernel_mem_pool.bitmap != process_mem_pool.bitmap
      && mmu.mem as object !in {kernel_mem_pool.bitmap as object, process_mem_pool.bitmap}
      && kernel_mem_pool.Valid() && process_mem_pool.Valid()
      && kernel_mem_pool.base_frame_no == KERNEL_START && kernel_mem_pool.n_frames == KERNEL_SIZE
      && process_mem_pool.base_frame_no == PROCESS_START && process_mem_pool.n_frames == PROCESS_SIZE
    }

    ghost function State(dir: nat): System
      requires Valid()
      reads this, mmu, mmu.mem, kernel_mem_pool.bitmap, process_mem_pool.bitmap
    {
      System(mmu.mem[..], dir, kernel_mem_pool.View(), process_mem_pool.View())
    }

    /** The state under the loaded directory. */
    ghost function Now(): System
      requires Valid()
      reads this, mmu, mmu.mem, kernel_mem_pool.bitmap, process_mem_pool.bitmap
    {
      State(mmu.cr3 / PAGE_SIZE)
    }

    /** Paging is on, with the current page table loaded. */
    predicate Running()
      reads this, mmu
    {
      mmu.paging && mmu.cr3 == current_directory && mmu.cr3 % PAGE_SIZE == 0
    }

    /** load. */
    method Load(page_directory: Word)
      modifies this, mmu
      ensures current_directory == mmu.cr3 == page_directory && mmu.paging == old(mmu.paging)
    {
      current_directory := page_directory;
      mmu.cr3 := page_directory;
    }

    /** enable_paging. */
    method EnablePaging()
      modifies mmu
      ensures mmu.paging && mmu.cr3 == old(mmu.cr3)
    {
      mmu.paging := true;
    }
  }

  /** Takes a process frame and stores its entry at the virtual address `va`, which is word `w` of
      memory. */
  method StoreFrame(g: Paging, va: Word, ghost w: nat)
    requires g.Valid() && g.Running() && HasFree(g.process_mem_pool.View())
    requires va % 4 == 0 && w < FRAMES * ENTRIES && Resolve(g.mmu.mem[..], g.mmu.cr3 / PAGE_SIZE, va) == Mapped(w)
    modifies g.mmu.mem, g.process_mem_pool.bitmap
    ensures g.Valid() && g.Running()
    ensures var s := old(g.Now());
            var f := PROCESS_START + FirstFree(s.process);
            g.Now() ==
            s.(process := Marked(s.process, FirstFree(s.process), 1), mem := s.mem[w := EntryFor(f)])
  {
    hide HasFree, FirstFree, Resolve;
    ghost var m := g.mmu.mem[..];
    var frame := GetFrame(g.process_mem_pool);
    assert g.mmu.mem[..] == m;
    g.mmu.Store(va, frame * 0x1000 + 3);
  }

  /** A store to entry `i` of a table, with paging off. */
  method StoreEntry(g: Paging, frame: nat, i: nat, v: Word)
    requires g.Valid() && !g.mmu.paging && frame < FRAMES && i < ENTRIES
    modifies g.mmu.mem
    ensures g.mmu.mem[..] == Stored(old(g.mmu.mem[..]), frame, i, v)
  {
    g.mmu.Store(frame * 0x1000 + 4 * i, v);
  }

  /** The loop that fills the first page table, with paging off. */
  method FillIdentity(g: Paging, table: nat)
    requires g.Valid() && !g.mmu.paging && table < FRAMES
    modifies g.mmu.mem
    ensures g.mmu.mem[..] == Filled(old(g.mmu.mem[..]), table, 0, ENTRIES, IdentityRow())
  {
    hide Filled, Stored;
    ghost var m := g.mmu.mem[..];
    var address := 0;
    FilledStep(m, table, 0, 0, IdentityRow());
    for i := 0 to ENTRIES
      invariant address == i * 0x1000
      invariant g.mmu.mem[..] == Filled(m, table, 0, i, IdentityRow())
    {
      FilledStep(m, table, 0, i, IdentityRow());
      StoreEntry(g, table, i, address + 3);
      address := address + 0x1000;
    }
  }

  /** The loop that sets entries [lo, hi) of a directory to `e`, with paging off. */
  method FillEntries(g: Paging, directory: nat, lo: nat, hi: nat, e: Word)
    requires g.Valid() && !g.mmu.paging && directory < FRAMES && lo <= hi <= ENTRIES && lo < ENTRIES
    modifies g.mmu.mem
    ensures g.mmu.mem[..] == Filled(old(g.mmu.mem[..]), directory, lo, hi, Row(e))
  {
    hide Filled, Stored;
    ghost var m := g.mmu.mem[..];
    FilledStep(m, directory, lo, lo, Row(e));
    for i := lo to hi
      invariant g.mmu.mem[..] == Filled(m, directory, lo, i, Row(e))
    {
      FilledStep(m, directory, lo, i, Row(e));
      StoreEntry(g, directory, i, e);
    }
  }

  /** The kernel pool at start-up: its own info frame, and that of the process pool. */
  ghost function BootKernel(): (s: States)
    ensures |s| == KERNEL_SIZE
  {
    Marked(Initial(KERNEL_SIZE, 1), 1, 1)
  }

  /** The process pool at start-up: all free but the memory hole. */
  ghost function BootProcess(): (s: States)
    ensures |s| == PROCESS_SIZE
  {
    Marked(Initial(PROCESS_SIZE, 0), HOLE_START - PROCESS_START, HOLE_SIZE)
  }

  lemma BootKernelFree()
    ensures HasFree(BootKernel()) && HasFree(Marked(BootKernel(), FirstFree(BootKernel()), 1))
  {
    assert BootKernel()[2] == Free && BootKernel()[3] == Free;
    assert Marked(BootKernel(), FirstFree(BootKernel()), 1)[3] == Free;
  }

  lemma BootProcessFree()
    ensures HasFree(BootProcess())
  {
    assert BootProcess()[0] == Free;
  }

  /** The pools at start-up, frame by frame. */
  lemma BootStates()
    ensures |BootKernel()| == 512 && forall i | 0 <= i < 512 :: BootKernel()[i] == if i < 2 then HoS else Free
    ensures |BootProcess()| == 7168
    ensures forall i | 0 <= i < 7168 ::
              BootProcess()[i] == if i == 2816 then HoS else if 2816 < i < 3072 then Used else Free
  {
  }

  /** What kernel.C sets up before the first page table: both pools, the memory hole and init_paging. The
      arrays are the memory of the two info frames. */
  method MakePools(m: Mmu, kernel_info: array<bv8>, process_info: array<bv8>) returns (g: Paging)
    requires m.mem.Length == FRAMES * ENTRIES && kernel_info != process_info
    requires kernel_info.Length == process_info.Length == PAGE_SIZE
    requires m.mem as object !in {kernel_info as object, process_info}
    modifies kernel_info, process_info
    ensures fresh(g) && g.Valid() && g.mmu == m
    ensures g.kernel_mem_pool.bitmap == kernel_info && g.process_mem_pool.bitmap == process_info
    ensures g.kernel_mem_pool.View() == BootKernel() && g.process_mem_pool.View() == BootProcess()
    ensures g.kernel_mem_pool.base_frame_no == 512 && g.kernel_mem_pool.n_frames == 512
    ensures g.process_mem_pool.base_frame_no == 1024 && g.process_mem_pool.n_frames == 7168
  {
    var kernel := new Pool.ContFramePool(KERNEL_START, KERNEL_SIZE, 0, kernel_info);
    assert kernel.View()[1] == Free;
    var info := GetFrame(kernel);
    assert kernel.View() == BootKernel();
    var process := new Pool.ContFramePool(PROCESS_START, PROCESS_SIZE, info, process_info);
    process.MarkInaccessible(HOLE_START, HOLE_SIZE);
    g := new Paging(m, kernel, process);
  }
}
