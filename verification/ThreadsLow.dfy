/** The instructions of threads_low_switch_to, and the thread constructor that builds the first frame. */
module ThreadsLow {
  import opened PageWalk
  import opened ContextSwitch

  class Cpu {
    const mem: array<Word>
    var eax: Word
    var ecx: Word
    var edx: Word
    var ebx: Word
    var esp: Word
    var ebp: Word
    var esi: Word
    var edi: Word
    var ds: Word
    var es: Word
    var fs: Word
    var gs: Word
    var cs: Word
    var eip: Word
    var eflags: Word
    var current_thread: Word

    ghost function Registers(): Regs
      reads this
    {
      Regs(eax, ecx, edx, ebx, esp, ebp, esi, edi, ds, es, fs, gs, cs, eip, eflags)
    }

    ghost function State(): Machine
      reads this, mem
    {
      Machine(mem[..], Registers(), current_thread)
    }

    /** A load. */
    method Read(a: int) returns (v: Word)
      requires Fits(mem[..], a)
      ensures v == Get(mem[..], a)
    {
      v := mem[a / 4];
    }

    /** A store. */
    method Write(a: int, v: Word)
      requires Fits(mem[..], a)
      modifies mem
      ensures mem[..] == Set(old(mem[..]), a, v)
    {
      mem[a / 4] := v;
    }

    /** What `cmp`, `add` and `sub` do to the flags. */
    method SetFlags()
      modifies this`eflags
      ensures SameControl(eflags, old(eflags))
    {
      assert SameControl(eflags, eflags);
      var f: Word :| SameControl(f, eflags);
      eflags := f;
    }

    /** push, as number `i` of the values `f` pushed from `top` on. */
    method Push(v: Word, ghost base: Memory, ghost top: int, ghost f: seq<Word>, ghost i: nat)
      requires i < |f| && v == f[i] && CanPush(base, top, |f|) && esp == top - 4 * i
      requires mem[..] == Pushed(base, top, f[..i])
      modifies mem, this`esp
      ensures esp == top - 4 * (i + 1) && mem[..] == Pushed(base, top, f[..i + 1])
    {
      PushedNext(base, top, f, i);
      hide Pushed, Set;
      esp := esp - 4;
      Write(esp, v);
    }

    /** pop, of word `i` of the frame at `e`. */
    method Pop(ghost e: Word, ghost i: nat) returns (v: Word)
      requires FrameFits(mem[..], e) && i < 17 && esp == e + 4 * i
      modifies this`esp
      ensures v == Get(mem[..], e + 4 * i) && esp == e + 4 * (i + 1)
    {
      v := Read(esp);
      esp := esp + 4;
    }

    /** From the entry to the fake interrupt number: eflags, cs and the return address now lie as iret
        expects them. */
    method MakeReturnFrame() returns (flags: Word)
      requires Headroom(State()) && current_thread != 0
      modifies mem, this`eax, this`esp, this`eflags
      ensures SameControl(flags, old(eflags)) && esp == old(esp) - 8 && eax == old(eax)
      ensures mem[..] == Pushed(old(mem[..]), old(esp) + 4, [flags, 8, old(Get(mem[..], esp))])
    {
      ghost var m := State();
      ghost var e := esp;
      MoveReturnAddress();
      SetFlags();                       // of add esp, 8
      esp := esp - 4;                   // pushfd
      flags := eflags;
      Write(esp, flags);
      eax := Read(esp - 4);             // mov eax, [esp-4]
      esp := esp - 4;                   // push dword KERNEL_CS
      Write(esp, KERNEL_CS);
      esp := esp - 4;                   // sub esp, 4
      SetFlags();
      ReturnFrameIs(m, flags, eax);
    }

    /** push eax; mov eax, [esp+4]; mov [esp-4], eax; and the move of add esp, 8. */
    method MoveReturnAddress()
      requires Headroom(State()) && current_thread != 0
      modifies mem, this`eax, this`esp
      ensures esp == old(esp) + 4
      ensures mem[..] == Moved(old(mem[..]), old(esp), old(eax))
    {
      esp := esp - 4;
      Write(esp, eax);
      eax := Read(esp + 4);
      Write(esp - 4, eax);
      esp := esp + 8;
    }

    /** pushad, as values 5 to 12 of the frame. */
    method PushAll(ghost base: Memory, ghost top: int, ghost f: seq<Word>)
      requires |f| == 17 && CanPush(base, top, 17) && esp == top - 20 && mem[..] == Pushed(base, top, f[..5])
      requires f[5] == eax && f[6] == ecx && f[7] == edx && f[8] == ebx && f[9] == esp
      requires f[10] == ebp && f[11] == esi && f[12] == edi
      modifies mem, this`esp
      ensures esp == top - 52 && mem[..] == Pushed(base, top, f[..13])
    {
      hide Pushed, CanPush;
      var sp := esp;
      Push(eax, base, top, f, 5);
      Push(ecx, base, top, f, 6);
      Push(edx, base, top, f, 7);
      Push(ebx, base, top, f, 8);
      Push(sp, base, top, f, 9);
      Push(ebp, base, top, f, 10);
      Push(esi, base, top, f, 11);
      Push(edi, base, top, f, 12);
    }

    /** The fake error code and interrupt number, then save_registers. */
    method SaveRegisters(ghost base: Memory, ghost top: int, ghost f: seq<Word>)
      requires |f| == 17 && CanPush(base, top, 17) && esp == top - 12 && mem[..] == Pushed(base, top, f[..3])
      requires f[3..] == [0, 0, eax, ecx, edx, ebx, esp - 8, ebp, esi, edi, ds, es, fs, gs]
      modifies mem, this`esp
      ensures esp == top - 68 && mem[..] == Pushed(base, top, f)
    {
      hide Pushed, CanPush;
      FromThird(f, [0, 0, eax, ecx, edx, ebx, esp - 8, ebp, esi, edi, ds, es, fs, gs]);
      Push(0, base, top, f, 3);
      Push(0, base, top, f, 4);
      PushAll(base, top, f);
      PushSegments(base, top, f);
    }

    /** push ds, es, fs and gs, the last values of the frame. */
    method PushSegments(ghost base: Memory, ghost top: int, ghost f: seq<Word>)
      requires |f| == 17 && CanPush(base, top, 17) && esp == top - 52 && mem[..] == Pushed(base, top, f[..13])
      requires f[13] == ds && f[14] == es && f[15] == fs && f[16] == gs
      modifies mem, this`esp
      ensures esp == top - 68 && mem[..] == Pushed(base, top, f)
    {
      hide Pushed, CanPush;
      Push(ds, base, top, f, 13);
      Push(es, base, top, f, 14);
      Push(fs, base, top, f, 15);
      Push(gs, base, top, f, 16);
      assert f[..17] == f;
    }

    /** pop gs, fs, es and ds. */
    method PopSegments()
      requires FrameFits(mem[..], esp)
      modifies this`esp, this`gs, this`fs, this`es, this`ds
      ensures esp == old(esp) + 16
      ensures gs == Get(mem[..], old(esp)) && fs == Get(mem[..], old(esp) + 4)
      ensures es == Get(mem[..], old(esp) + 8) && ds == Get(mem[..], old(esp) + 12)
    {
      hide Get, FrameFits;
      ghost var e := esp;
      gs := Pop(e, 0);
      fs := Pop(e, 1);
      es := Pop(e, 2);
      ds := Pop(e, 3);
    }

    /** popad up to the saved stack pointer, which is skipped. */
    method PopIndexes(ghost e: Word)
      requires FrameFits(mem[..], e) && esp == e + 16
      modifies this`esp, this`edi, this`esi, this`ebp
      ensures esp == e + 32
      ensures edi == Get(mem[..], e + 16) && esi == Get(mem[..], e + 20) && ebp == Get(mem[..], e + 24)
    {
      assert e + 48 < 0x1_0000_0000;
      hide Get, FrameFits;
      edi := Pop(e, 4);
      esi := Pop(e, 5);
      ebp := Pop(e, 6);
      esp := esp + 4;
    }

    /** The rest of popad. */
    method PopGeneral(ghost e: Word)
      requires FrameFits(mem[..], e) && esp == e + 32
      modifies this`esp, this`ebx, this`edx, this`ecx, this`eax
      ensures esp == e + 48
      ensures ebx == Get(mem[..], e + 32) && edx == Get(mem[..], e + 36) && ecx == Get(mem[..], e + 40)
      ensures eax == Get(mem[..], e + 44)
    {
      hide Get, FrameFits;
      ebx := Pop(e, 8);
      edx := Pop(e, 9);
      ecx := Pop(e, 10);
      eax := Pop(e, 11);
    }

    /** iret. */
    method InterruptReturn(ghost e: Word)
      requires FrameFits(mem[..], e) && esp == e + 56
      modifies this`esp, this`eip, this`cs, this`eflags
      ensures esp == e + INTERRUPT_STATE_SIZE
      ensures eip == Get(mem[..], e + 56) && cs == Get(mem[..], e + 60) && eflags == Get(mem[..], e + 64)
    {
      hide Get, FrameFits;
      eip := Pop(e, 14);
      cs := Pop(e, 15);
      eflags := Pop(e, 16);
    }

    /** restore_registers and iret. */
    method RestoreAndReturn()
      requires FrameFits(mem[..], esp)
      modifies this
      ensures Registers() == Restored(mem[..], old(esp)) && current_thread == old(current_thread)
    {
      hide Get;
      ghost var e := esp;
      PopSegments();
      PopIndexes(e);
      PopGeneral(e);
      esp := esp + 8;                   // add esp, 8
      SetFlags();
      InterruptReturn(e);
    }

    /** Makes the thread at `eax` current and continues there. */
    method LoadContext()
      requires Fits(mem[..], eax) && FrameFits(mem[..], Get(mem[..], eax))
      modifies this
      ensures Registers() == Restored(mem[..], Get(mem[..], old(eax))) && current_thread == old(eax)
    {
      hide Restored;
      current_thread := eax;
      esp := Read(eax);
      RestoreAndReturn();
    }

    /** The frame of the calling thread. */
    method SaveFrame() returns (flags: Word)
      requires Headroom(State()) && current_thread != 0
      modifies mem, this`eax, this`esp, this`eflags
      ensures SameControl(flags, old(eflags)) && esp == old(esp) - 64
      ensures var m := old(State());
              mem[..] == Pushed(m.mem, m.regs.esp + 4, Frame(CallRegs(m, flags), m.regs.esp - 16))
    {
      hide Get, Set, Pushed, Frame;
      ghost var m := State();
      flags := MakeReturnFrame();
      FrameHead(m, flags);
      FrameTail(CallRegs(m, flags), m.regs.esp - 16);
      SaveRegisters(m.mem, m.regs.esp + 4, Frame(CallRegs(m, flags), m.regs.esp - 16));
    }

    /** The part that saves the calling thread, if there is one, and finds the argument. */
    method SaveContext() returns (flags: Word)
      requires Headroom(State())
      modifies mem, this`eax, this`esp, this`eflags
      ensures SameControl(flags, old(eflags))
      ensures mem[..] == MemoryAt(old(State()), flags) && eax == Argument(old(State()), flags)
    {
      hide Get, Set, Pushed, Frame;
      ghost var m := State();
      SetFlags();                       // cmp [_current_thread], dword 0
      if current_thread == 0 {
        flags := eflags;
        eax := Read(esp + 4);
      } else {
        flags := SaveFrame();
        eax := current_thread;
        Write(eax, esp);
        eax := Read(esp + INTERRUPT_STATE_SIZE);
      }
    }

    /** threads_low_switch_to; `flags` are the flags at the pushfd. */
    method SwitchTo() returns (flags: Word)
      requires forall f: Word :: Callable(State(), f)
      modifies this, mem
      ensures SameControl(flags, old(eflags)) && State() == Switched(old(State()), flags)
    {
      ghost var m := State();
      assert Callable(m, 0);
      hide Restored, Get, MemoryAt, SameControl, Argument;
      flags := SaveContext();
      assert Callable(m, flags);
      LoadContext();
    }
  }

  /** The return address two words down, and a value below it. */
  function Moved(mem: Memory, e: Word, saved: Word): Memory {
    Set(Set(mem, e - 4, saved), e - 8, Get(mem, e))
  }

  /** With eflags and cs in place, the moved words are the first three of the frame. */
  lemma ReturnFrameIs(m: Machine, flags: Word, saved: Word)
    requires Headroom(m) && m.current != 0
    ensures Set(Set(Moved(m.mem, m.regs.esp, saved), m.regs.esp, flags), m.regs.esp - 4, KERNEL_CS) ==
            Pushed(m.mem, m.regs.esp + 4, [flags, 8, Get(m.mem, m.regs.esp)])
  {
  }

  lemma FrameHead(m: Machine, flags: Word)
    requires 16 <= m.regs.esp
    ensures Frame(CallRegs(m, flags), m.regs.esp - 16)[..3] == [flags, 8, Get(m.mem, m.regs.esp)]
  {
  }

  lemma FrameTail(r: Regs, skipped: Word)
    ensures Frame(r, skipped)[3..] ==
            [0, 0, r.eax, r.ecx, r.edx, r.ebx, skipped, r.ebp, r.esi, r.edi, r.ds, r.es, r.fs, r.gs]
  {
  }

  lemma FromThird(f: seq<Word>, t: seq<Word>)
    requires 3 <= |f| && f[3..] == t
    ensures forall i | 3 <= i < |f| :: f[i] == t[i - 3]
  {
    forall i | 3 <= i < |f|
      ensures f[i] == t[i - 3]
    {
      assert f[3..][i - 3] == f[i];
    }
  }

  /** A thread object at address `tcb`, with its first field, esp, in memory. */
  class ThreadObject {
    const mem: array<Word>
    const tcb: Word

    /** Values [0, i) of `f` are pushed from `top` on. */
    ghost predicate Building(base: Memory, top: int, f: seq<Word>, i: nat)
      reads mem
    {
      && i <= |f| && CanPush(base, top, |f|) && Fits(base, tcb) && !(top - 4 * |f| <= tcb < top) && top < 0x1_0000_0000
      && mem[..] == Set(Pushed(base, top, f[..i]), tcb, top - 4 * i)
    }

    /** push, as number `i` of `f`. */
    method Push(val: Word, ghost base: Memory, ghost top: int, ghost f: seq<Word>, ghost i: nat)
      requires Building(base, top, f, i) && i < |f| && val == f[i]
      modifies mem
      ensures Building(base, top, f, i + 1)
    {
      PushedNext(base, top, f, i);
      mem[tcb / 4] := mem[tcb / 4] - 4;
      mem[mem[tcb / 4] / 4] := val;
    }

    /** The registers of the first frame. */
    method PushRegisters(ghost base: Memory, ghost top: int, ghost f: seq<Word>)
      requires Building(base, top, f, 8) && |f| == 20 && f[16] == f[17] == KERNEL_DS
      requires forall i | 8 <= i < 20 && i != 16 && i != 17 :: f[i] == 0
      modifies mem
      ensures Building(base, top, f, 20)
    {
      hide Building;
      Push(0, base, top, f, 8);         // eax
      Push(0, base, top, f, 9);         // ecx
      Push(0, base, top, f, 10);        // edx
      Push(0, base, top, f, 11);        // ebx
      Push(0, base, top, f, 12);        // esp
      Push(0, base, top, f, 13);        // ebp
      Push(0, base, top, f, 14);        // esi
      Push(0, base, top, f, 15);        // edi
      Push(KERNEL_DS, base, top, f, 16);
      Push(KERNEL_DS, base, top, f, 17);
      Push(0, base, top, f, 18);        // fs
      Push(0, base, top, f, 19);        // gs
    }

    /** What the thread function finds above it when thread_start returns to it. */
    method PushCall(tfunction: Word, shutdown: Word, ghost base: Memory, ghost top: int, ghost f: seq<Word>)
      requires Building(base, top, f, 0) && 3 <= |f| && f[0] == 0 && f[1] == shutdown && f[2] == tfunction
      modifies mem
      ensures Building(base, top, f, 3)
    {
      hide Building;
      Push(0, base, top, f, 0);
      Push(shutdown, base, top, f, 1);
      Push(tfunction, base, top, f, 2);
    }

    /** setup_context. The flags word is 0x200 in one version and 0 in the other. */
    method SetupContext(tfunction: Word, shutdown: Word, start: Word, flags: Word, ghost base: Memory, ghost top: int)
      requires Building(base, top, FirstFrame(tfunction, shutdown, start, flags), 0)
      modifies mem
      ensures Building(base, top, FirstFrame(tfunction, shutdown, start, flags), 20)
      ensures Get(mem[..], top - 20) == 8 && Get(mem[..], top - 68) == 16 && Get(mem[..], top - 72) == 16
    {
      hide Building;
      ghost var f := FirstFrame(tfunction, shutdown, start, flags);
      PushCall(tfunction, shutdown, base, top, f);
      Push(flags, base, top, f, 3);
      Push(KERNEL_CS, base, top, f, 4);
      Push(start, base, top, f, 5);
      Push(0, base, top, f, 6);
      Push(0, base, top, f, 7);
      PushRegisters(base, top, f);
      Built(base, top, tfunction, shutdown, start, flags);
    }

    lemma Built(base: Memory, top: int, tfunction: Word, shutdown: Word, start: Word, flags: Word)
      requires Building(base, top, FirstFrame(tfunction, shutdown, start, flags), 20)
      ensures Get(mem[..], top - 20) == 8 && Get(mem[..], top - 68) == 16 && Get(mem[..], top - 72) == 16
    {
      var f := FirstFrame(tfunction, shutdown, start, flags);
      assert f[..20] == f;
      Selectors(base, top, tcb, top - 80, tfunction, shutdown, start, flags);
      hide Get, Set, Pushed, FirstFrame;
    }

    /** The thread at address `at`, on the stack memory [stack, stack + stack_size). */
    constructor (memory: array<Word>, at: Word, stack: Word, stack_size: Word,
                 tfunction: Word, shutdown: Word, start: Word, flags: Word)
      requires stack + stack_size < 0x1_0000_0000
      requires RoomToStart(memory[..], Thread(at, stack, stack + stack_size))
      modifies memory
      ensures mem == memory && tcb == at
      ensures memory[..] ==
                SetUp(old(memory[..]), Thread(at, stack, stack + stack_size), tfunction, shutdown, start, flags)
    {
      mem := memory;
      tcb := at;
      new;
      ghost var (base, top) := (memory[..], stack + stack_size);
      memory[at / 4] := stack + stack_size;
      ghost var f := FirstFrame(tfunction, shutdown, start, flags);
      assert Pushed(base, top, f[..0]) == base;
      SetupContext(tfunction, shutdown, start, flags, base, top);
      assert f[..20] == f;
    }
  }
}
