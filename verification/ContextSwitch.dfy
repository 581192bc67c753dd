/** The context switch on values: a switch saves the running thread on its own stack and loads another;
    over every run a thread resumes with the registers and the stack it had. */
module ContextSwitch {
  import opened PageWalk

  const KERNEL_CS: Word := 8
  const KERNEL_DS: Word := 16
  /** Bytes of an exception frame: 17 words. */
  const INTERRUPT_STATE_SIZE := 68

  // ---------------------------------------------------------------- memory by byte address

  predicate Fits(mem: Memory, a: int) {
    0 <= a && a % 4 == 0 && a / 4 < |mem|
  }

  function Get(mem: Memory, a: int): Word {
    if Fits(mem, a) then mem[a / 4] else 0
  }

  function Set(mem: Memory, a: int, v: Word): (r: Memory)
    ensures |r| == |mem|
  {
    if Fits(mem, a) then mem[a / 4 := v] else mem
  }

  /** The words at addresses [a, b). */
  function Words(mem: Memory, a: int, b: int): seq<Word> {
    if 0 <= a / 4 <= b / 4 <= |mem| then mem[a / 4..b / 4] else []
  }

  lemma GetSet(mem: Memory, a: int, v: Word, b: int)
    requires Fits(mem, a)
    ensures Get(Set(mem, a, v), b) == if b == a then v else Get(mem, b)
  {
  }

  predicate CanPush(mem: Memory, top: int, n: nat) {
    top % 4 == 0 && 4 * n <= top && top / 4 <= |mem|
  }

  /** Memory after pushing `vals`, the first one first, with the stack pointer at `top`. */
  function Pushed(mem: Memory, top: int, vals: seq<Word>): (r: Memory)
    requires CanPush(mem, top, |vals|)
    ensures |r| == |mem|
  {
    seq(|mem|, i requires 0 <= i < |mem| =>
      if top / 4 - |vals| <= i < top / 4 then vals[top / 4 - 1 - i] else mem[i])
  }

  lemma PushedAt(mem: Memory, top: int, vals: seq<Word>, a: int)
    requires CanPush(mem, top, |vals|)
    ensures Get(Pushed(mem, top, vals), a) ==
            if top - 4 * |vals| <= a < top && a % 4 == 0 then vals[(top - a) / 4 - 1] else Get(mem, a)
  {
  }

  /** Pushing one more value. */
  lemma PushedNext(mem: Memory, top: int, vals: seq<Word>, i: nat)
    requires i < |vals| && CanPush(mem, top, |vals|)
    ensures Pushed(mem, top, vals[..i + 1]) == Set(Pushed(mem, top, vals[..i]), top - 4 * i - 4, vals[i])
  {
  }

  // ---------------------------------------------------------------- contexts

  datatype Regs = Regs(eax: Word, ecx: Word, edx: Word, ebx: Word, esp: Word, ebp: Word, esi: Word, edi: Word,
                       ds: Word, es: Word, fs: Word, gs: Word, cs: Word, eip: Word, eflags: Word)

  datatype Machine = Machine(mem: Memory, regs: Regs, current: Word)

  /** A thread: the address of its control block, whose first word is its saved stack pointer, and its
      stack [lo, hi). */
  datatype Thread = Thread(tcb: Word, lo: Word, hi: Word)

  /** What a thread sees of itself: the registers, and its stack from the stack pointer up. */
  datatype View = View(regs: Regs, stack: seq<Word>)

  function ViewOf(m: Machine, hi: Word): View {
    View(m.regs, Words(m.mem, m.regs.esp, hi))
  }

  /** IF. */
  predicate InterruptFlag(eflags: Word) {
    eflags / 512 % 2 == 1
  }

  /** The flags that arithmetic instructions leave alone: TF, IF, DF and those from bit 12 on. */
  predicate SameControl(f: Word, g: Word) {
    f / 256 % 2 == g / 256 % 2 && InterruptFlag(f) == InterruptFlag(g) && f / 1024 % 2 == g / 1024 % 2
    && f / 4096 == g / 4096
  }

  /** Addition on registers. */
  function Plus(a: Word, n: nat): (r: Word)
    ensures a + n < 0x1_0000_0000 ==> r == a + n
  {
    (a + n) % 0x1_0000_0000
  }

  /** The 17 words of an exception frame, in push order. */
  function Frame(r: Regs, skipped: Word): (s: seq<Word>)
    ensures 4 * |s| == INTERRUPT_STATE_SIZE
  {
    [r.eflags, r.cs, r.eip, 0, 0, r.eax, r.ecx, r.edx, r.ebx, skipped, r.ebp, r.esi, r.edi, r.ds, r.es, r.fs, r.gs]
  }

  /** The registers after the frame at `e` is popped: restore_registers, then iret. */
  function Restored(mem: Memory, e: Word): Regs {
    Regs(Get(mem, e + 44), Get(mem, e + 40), Get(mem, e + 36), Get(mem, e + 32), Plus(e, INTERRUPT_STATE_SIZE),
         Get(mem, e + 24), Get(mem, e + 20), Get(mem, e + 16), Get(mem, e + 12), Get(mem, e + 8), Get(mem, e + 4),
         Get(mem, e), Get(mem, e + 60), Get(mem, e + 56), Get(mem, e + 64))
  }

  /** Popping a frame that was pushed gives the registers back. */
  lemma FrameRestores(mem: Memory, r: Regs, skipped: Word, mem1: Memory)
    requires CanPush(mem, r.esp, 17) && |mem1| == |mem|
    requires forall a | r.esp - INTERRUPT_STATE_SIZE <= a < r.esp ::
               Get(mem1, a) == Get(Pushed(mem, r.esp, Frame(r, skipped)), a)
    ensures Restored(mem1, r.esp - INTERRUPT_STATE_SIZE) == r
  {
    hide Get, Pushed;
    var (e, f) := (r.esp - INTERRUPT_STATE_SIZE, Frame(r, skipped));
    forall i | 0 <= i < 17
      ensures Get(mem1, e + 4 * i) == f[16 - i]
    {
      PushedAt(mem, r.esp, f, e + 4 * i);
    }
    assert Get(mem1, e + 4 * 0) == r.gs && Get(mem1, e + 4 * 1) == r.fs && Get(mem1, e + 4 * 2) == r.es;
    assert Get(mem1, e + 4 * 3) == r.ds && Get(mem1, e + 4 * 4) == r.edi && Get(mem1, e + 4 * 5) == r.esi;
    assert Get(mem1, e + 4 * 6) == r.ebp && Get(mem1, e + 4 * 8) == r.ebx && Get(mem1, e + 4 * 9) == r.edx;
    assert Get(mem1, e + 4 * 10) == r.ecx && Get(mem1, e + 4 * 11) == r.eax && Get(mem1, e + 4 * 14) == r.eip;
    assert Get(mem1, e + 4 * 15) == r.cs && Get(mem1, e + 4 * 16) == r.eflags;
  }

  // ---------------------------------------------------------------- the switch

  /** The registers with which a call of the switch returns; `flags` are those at the pushfd. */
  function CallRegs(m: Machine, flags: Word): Regs {
    m.regs.(eip := Get(m.mem, m.regs.esp), esp := Plus(m.regs.esp, 4), cs := KERNEL_CS, eflags := flags)
  }

  /** Return address and argument are in memory; a thread to be saved has room for its frame. */
  predicate Headroom(m: Machine) {
    && m.regs.esp % 4 == 0 && m.regs.esp / 4 + 1 < |m.mem| < 0x4000_0000
    && (m.current != 0 ==> 64 <= m.regs.esp && Fits(m.mem, m.current))
  }

  /** Memory with the running thread saved: the frame on its stack, the stack pointer in its control
      block. */
  function Suspended(m: Machine, flags: Word): (r: Memory)
    requires Headroom(m) && m.current != 0
    ensures |r| == |m.mem|
  {
    Set(Pushed(m.mem, m.regs.esp + 4, Frame(CallRegs(m, flags), m.regs.esp - 16)), m.current, m.regs.esp - 64)
  }

  /** threads_low_switch_to. Nothing is saved for the start-up code, when no thread is current. */
  function MemoryAt(m: Machine, flags: Word): (r: Memory)
    requires Headroom(m)
    ensures |r| == |m.mem|
  {
    if m.current == 0 then m.mem else Suspended(m, flags)
  }

  /** The argument, one word above the return address. */
  function Argument(m: Machine, flags: Word): Word
    requires Headroom(m)
  {
    Get(MemoryAt(m, flags), m.regs.esp + 4)
  }

  predicate FrameFits(mem: Memory, e: int) {
    0 <= e && e % 4 == 0 && e / 4 + 17 <= |mem| < 0x4000_0000
  }

  /** The call can be carried out: what it accesses is memory. */
  predicate Callable(m: Machine, flags: Word) {
    && Headroom(m)
    && Fits(m.mem, Argument(m, flags))
    && FrameFits(m.mem, Get(MemoryAt(m, flags), Argument(m, flags)))
  }

  function Switched(m: Machine, flags: Word): Machine
    requires Callable(m, flags)
  {
    var mem := MemoryAt(m, flags);
    Machine(mem, Restored(mem, Get(mem, Argument(m, flags))), Argument(m, flags))
  }

  // ---------------------------------------------------------------- threads in memory

  /** Stacks and control blocks of different threads do not overlap. */
  ghost predicate Layout(ts: seq<Thread>, size: nat) {
    && size < 0x4000_0000
    && (forall i | 0 <= i < |ts| :: Placed(ts[i], size))
    && (forall i, j | 0 <= i < |ts| && 0 <= j < |ts| :: Apart(ts, i, j))
  }

  predicate Placed(t: Thread, size: nat) {
    && t.tcb % 4 == t.lo % 4 == t.hi % 4 == 0 && 0 < t.tcb && t.tcb / 4 < size
    && t.lo <= t.hi && t.hi / 4 <= size
  }

  predicate Apart(ts: seq<Thread>, i: nat, j: nat)
    requires i < |ts| && j < |ts|
  {
    && !(ts[i].lo <= ts[j].tcb < ts[i].hi)
    && (i != j ==> ts[i].tcb != ts[j].tcb && (ts[i].hi <= ts[j].lo || ts[j].hi <= ts[i].lo))
  }

  /** The thread's stack and saved stack pointer are the same in both memories. */
  ghost predicate SameFor(t: Thread, mem: Memory, mem1: Memory) {
    Get(mem1, t.tcb) == Get(mem, t.tcb) && forall a | t.lo <= a < t.hi :: Get(mem1, a) == Get(mem, a)
  }

  /** The saved frame of a suspended thread lies on its stack. */
  predicate SavedOk(mem: Memory, t: Thread) {
    var e := Get(mem, t.tcb);
    e % 4 == 0 && t.lo <= e && e + INTERRUPT_STATE_SIZE <= t.hi
  }

  /** What a suspended thread will see when it resumes. */
  function SavedView(mem: Memory, t: Thread): View {
    var r := Restored(mem, Get(mem, t.tcb));
    View(r, Words(mem, r.esp, t.hi))
  }

  lemma WordsSame(mem: Memory, mem1: Memory, a: int, b: int)
    requires |mem| == |mem1| && a % 4 == 0 && b % 4 == 0 && 0 <= a <= b && b / 4 <= |mem|
    requires forall x | a <= x < b :: Get(mem1, x) == Get(mem, x)
    ensures Words(mem1, a, b) == Words(mem, a, b)
  {
    forall i | 0 <= i < b / 4 - a / 4
      ensures Words(mem1, a, b)[i] == Words(mem, a, b)[i]
    {
      assert Get(mem1, a + 4 * i) == Get(mem, a + 4 * i);
    }
  }

  /** A suspended thread depends on its own stack and control block only. */
  lemma SavedViewSame(t: Thread, mem: Memory, mem1: Memory)
    requires |mem1| == |mem| && Placed(t, |mem|) && SavedOk(mem, t) && SameFor(t, mem, mem1)
    ensures SavedOk(mem1, t) && SavedView(mem1, t) == SavedView(mem, t)
  {
    hide Get, Words;
    WordsSame(mem, mem1, Get(mem, t.tcb) + INTERRUPT_STATE_SIZE, t.hi);
  }

  // ---------------------------------------------------------------- one switch

  /** What the running thread sees when its call of the switch returns. */
  function CallView(m: Machine, flags: Word, hi: Word): View {
    View(CallRegs(m, flags), Words(m.mem, m.regs.esp + 4, hi))
  }

  /** At the call: return address and argument are on the stack, with room for the frame below. */
  predicate OnStack(m: Machine, t: Thread) {
    m.regs.esp % 4 == 0 && t.lo + 64 <= m.regs.esp && m.regs.esp + 8 <= t.hi
  }

  lemma SuspendedAt(m: Machine, flags: Word, a: int)
    requires Headroom(m) && m.current != 0
    ensures Get(Suspended(m, flags), a) ==
            if a == m.current then m.regs.esp - 64
            else if m.regs.esp - 64 <= a < m.regs.esp + 4 && a % 4 == 0
              then Frame(CallRegs(m, flags), m.regs.esp - 16)[(m.regs.esp + 4 - a) / 4 - 1]
            else Get(m.mem, a)
  {
    hide Get, Set, Pushed, Frame;
    var f := Frame(CallRegs(m, flags), m.regs.esp - 16);
    PushedAt(m.mem, m.regs.esp + 4, f, a);
    GetSet(Pushed(m.mem, m.regs.esp + 4, f), m.current, m.regs.esp - 64, a);
  }

  /** Suspending writes nothing of any other thread. */
  lemma SuspendKeepsOthers(ts: seq<Thread>, m: Machine, flags: Word, i: nat, j: nat)
    requires Layout(ts, |m.mem|) && i < |ts| && j < |ts| && i != j
    requires m.current == ts[i].tcb && OnStack(m, ts[i])
    ensures Headroom(m) && m.current != 0 && SameFor(ts[j], m.mem, Suspended(m, flags))
  {
    hide Get, Set, Pushed, Frame;
    assert Placed(ts[i], |m.mem|) && Placed(ts[j], |m.mem|) && Apart(ts, i, j) && Apart(ts, j, i);
    SuspendedAt(m, flags, ts[j].tcb);
    forall a | ts[j].lo <= a < ts[j].hi
      ensures Get(Suspended(m, flags), a) == Get(m.mem, a)
    {
      SuspendedAt(m, flags, a);
    }
  }

  /** The frame on the stack restores the registers of the return. */
  lemma SuspendedFrame(m: Machine, flags: Word)
    requires Headroom(m) && m.current != 0
    requires m.current < m.regs.esp - 64 || m.regs.esp + 4 <= m.current
    ensures Restored(Suspended(m, flags), m.regs.esp - 64) == CallRegs(m, flags)
  {
    hide Get, Set, Frame, Pushed, Restored;
    var (r, mem1) := (CallRegs(m, flags), Suspended(m, flags));
    forall a | r.esp - INTERRUPT_STATE_SIZE <= a < r.esp
      ensures Get(mem1, a) == Get(Pushed(m.mem, r.esp, Frame(r, m.regs.esp - 16)), a)
    {
      SuspendedAt(m, flags, a);
      PushedAt(m.mem, r.esp, Frame(r, m.regs.esp - 16), a);
    }
    FrameRestores(m.mem, r, m.regs.esp - 16, mem1);
  }

  /** The words of a suspended thread, from its saved stack pointer up. */
  lemma SuspendedWords(m: Machine, flags: Word)
    requires Headroom(m) && m.current != 0
    requires m.current < m.regs.esp - 64 || m.regs.esp + 4 <= m.current
    ensures var (mem, e, r) := (Suspended(m, flags), m.regs.esp - 64, m.regs);
            && Get(mem, m.current) == e
            && Get(mem, e + 4 * 0) == r.gs && Get(mem, e + 4 * 1) == r.fs
            && Get(mem, e + 4 * 2) == r.es && Get(mem, e + 4 * 3) == r.ds
            && Get(mem, e + 4 * 4) == r.edi && Get(mem, e + 4 * 5) == r.esi && Get(mem, e + 4 * 6) == r.ebp
            && Get(mem, e + 4 * 8) == r.ebx && Get(mem, e + 4 * 9) == r.edx
            && Get(mem, e + 4 * 10) == r.ecx && Get(mem, e + 4 * 11) == r.eax
            && Get(mem, e + 4 * 12) == Get(mem, e + 4 * 13) == 0
            && Get(mem, e + 4 * 14) == Get(m.mem, m.regs.esp) && Get(mem, e + 4 * 15) == 8
            && Get(mem, e + 4 * 16) == flags
  {
    hide Get, Suspended;
    var (e, f) := (m.regs.esp - 64, Frame(CallRegs(m, flags), m.regs.esp - 16));
    SuspendedAt(m, flags, m.current);
    forall i | 0 <= i < 17
      ensures Get(Suspended(m, flags), e + 4 * i) == f[16 - i]
    {
      SuspendedAt(m, flags, e + 4 * i);
    }
  }

  /** The stack above the return address is as before. */
  lemma SuspendedAbove(m: Machine, flags: Word, hi: Word)
    requires Headroom(m) && m.current != 0 && hi % 4 == 0 && m.regs.esp + 8 <= hi && hi / 4 <= |m.mem|
    requires m.current < m.regs.esp - 64 || hi <= m.current
    ensures Words(Suspended(m, flags), m.regs.esp + 4, hi) == Words(m.mem, m.regs.esp + 4, hi)
    ensures Get(Suspended(m, flags), m.regs.esp + 4) == Get(m.mem, m.regs.esp + 4)
  {
    hide Get, Set, Frame, Pushed, Words, CallRegs, Suspended;
    forall a | m.regs.esp + 4 <= a < hi
      ensures Get(Suspended(m, flags), a) == Get(m.mem, a)
    {
      SuspendedAt(m, flags, a);
    }
    WordsSame(m.mem, Suspended(m, flags), m.regs.esp + 4, hi);
  }

  /** The suspended thread will resume behind its call, with every register and its stack unchanged. */
  lemma SuspendSavesView(ts: seq<Thread>, m: Machine, flags: Word, i: nat)
    requires Layout(ts, |m.mem|) && i < |ts| && m.current == ts[i].tcb && OnStack(m, ts[i])
    ensures Headroom(m) && m.current != 0 && SavedOk(Suspended(m, flags), ts[i])
    ensures SavedView(Suspended(m, flags), ts[i]) == CallView(m, flags, ts[i].hi)
    ensures Get(Suspended(m, flags), m.regs.esp + 4) == Get(m.mem, m.regs.esp + 4)
  {
    hide Get, Set, Frame, Pushed, Words, Restored, Suspended;
    assert Placed(ts[i], |m.mem|) && Apart(ts, i, i);
    SuspendedAt(m, flags, m.current);
    SuspendedFrame(m, flags);
    SuspendedAbove(m, flags, ts[i].hi);
  }

  /** A call of the switch to thread `n`, by a thread on its own stack or by the start-up code. */
  ghost predicate Calls(ts: seq<Thread>, m: Machine, n: nat) {
    && n < |ts| && Get(m.mem, m.regs.esp + 4) == ts[n].tcb
    && if m.current == 0 then Headroom(m)
       else exists i :: 0 <= i < |ts| && m.current == ts[i].tcb && OnStack(m, ts[i])
  }

  /** What a thread will see when it runs next, as soon as the running thread is saved. */
  function NextView(m: Machine, flags: Word, t: Thread): View {
    if m.current == t.tcb then CallView(m, flags, t.hi) else SavedView(m.mem, t)
  }

  ghost predicate Inv(ts: seq<Thread>, m: Machine) {
    && Layout(ts, |m.mem|)
    && forall j | 0 <= j < |ts| && ts[j].tcb != m.current :: SavedOk(m.mem, ts[j])
  }

  /** Once the running thread is saved, all threads are. */
  lemma SavedAt(ts: seq<Thread>, m: Machine, flags: Word, n: nat, j: nat)
    requires Inv(ts, m) && Calls(ts, m, n) && j < |ts|
    ensures Headroom(m) && Argument(m, flags) == ts[n].tcb
    ensures SavedOk(MemoryAt(m, flags), ts[j]) && SavedView(MemoryAt(m, flags), ts[j]) == NextView(m, flags, ts[j])
  {
    assert Placed(ts[j], |m.mem|);
    hide SavedView, CallView, Get, Suspended, Words, SavedOk, SameFor;
    if m.current != 0 {
      var i :| 0 <= i < |ts| && m.current == ts[i].tcb && OnStack(m, ts[i]);
      assert Apart(ts, i, j);
      SuspendSavesView(ts, m, flags, i);
      if i != j {
        SuspendKeepsOthers(ts, m, flags, i, j);
        SavedViewSame(ts[j], m.mem, Suspended(m, flags));
      }
    }
  }

  /** The switch to `n` can be carried out; `n` then sees what it last saw, and the views of the others
      wait in memory. */
  lemma SwitchStep(ts: seq<Thread>, m: Machine, flags: Word, n: nat)
    requires Inv(ts, m) && Calls(ts, m, n)
    ensures Callable(m, flags)
    ensures var m1 := Switched(m, flags);
            && Inv(ts, m1) && m1.current == ts[n].tcb && ViewOf(m1, ts[n].hi) == NextView(m, flags, ts[n])
            && forall j | 0 <= j < |ts| :: SavedView(m1.mem, ts[j]) == NextView(m, flags, ts[j])
  {
    hide Get, NextView, Restored, Words, Argument, MemoryAt;
    assert Placed(ts[n], |m.mem|);
    SavedAt(ts, m, flags, n, n);
    forall j | 0 <= j < |ts|
      ensures SavedOk(MemoryAt(m, flags), ts[j]) && SavedView(MemoryAt(m, flags), ts[j]) == NextView(m, flags, ts[j])
    {
      SavedAt(ts, m, flags, n, j);
    }
  }

  // ---------------------------------------------------------------- whole runs

  /** The running code computes, on its own stack, or it switches to thread `n`; `flags` are the flags
      at the pushfd. */
  datatype Event = Act | Switch(n: nat, flags: Word)

  /** Whatever runs leaves the stacks and control blocks of suspended threads alone. */
  ghost predicate Acts(ts: seq<Thread>, m: Machine, m1: Machine) {
    && m1.current == m.current && |m1.mem| == |m.mem|
    && forall j | 0 <= j < |ts| && ts[j].tcb != m.current :: SameFor(ts[j], m.mem, m1.mem)
  }

  ghost predicate Happens(ts: seq<Thread>, m: Machine, e: Event, m1: Machine) {
    match e
    case Act => Acts(ts, m, m1)
    case Switch(n, flags) =>
      Calls(ts, m, n) && SameControl(flags, m.regs.eflags) && (Callable(m, flags) ==> m1 == Switched(m, flags))
  }

  ghost predicate IsRun(ts: seq<Thread>, ms: seq<Machine>, es: seq<Event>) {
    |ms| == |es| + 1 && forall j | 0 <= j < |es| :: Happens(ts, ms[j], es[j], ms[j + 1])
  }

  /** What thread `t` saw when it last gave up the processor before step `j`; at first, what it was set
      up with. */
  function LastView(ms: seq<Machine>, es: seq<Event>, j: nat, t: Thread): View
    requires j <= |es| < |ms|
  {
    if j == 0 then SavedView(ms[0].mem, t)
    else if es[j - 1].Switch? && ms[j - 1].current == t.tcb then CallView(ms[j - 1], es[j - 1].flags, t.hi)
    else LastView(ms, es, j - 1, t)
  }

  lemma ActStep(ts: seq<Thread>, m: Machine, m1: Machine)
    requires Inv(ts, m) && Acts(ts, m, m1)
    ensures Inv(ts, m1)
    ensures forall k | 0 <= k < |ts| && ts[k].tcb != m1.current :: SavedView(m1.mem, ts[k]) == SavedView(m.mem, ts[k])
  {
    hide SavedView, SavedOk, SameFor;
    forall k | 0 <= k < |ts| && ts[k].tcb != m1.current
      ensures SavedOk(m1.mem, ts[k]) && SavedView(m1.mem, ts[k]) == SavedView(m.mem, ts[k])
    {
      assert Placed(ts[k], |m.mem|);
      SavedViewSame(ts[k], m.mem, m1.mem);
    }
  }

  /** At every moment of every run, what a suspended thread will see is what it saw last. */
  lemma {:induction false} SuspendedKeepView(ts: seq<Thread>, ms: seq<Machine>, es: seq<Event>, j: nat)
    requires IsRun(ts, ms, es) && Inv(ts, ms[0]) && j <= |es|
    ensures Inv(ts, ms[j])
    ensures forall k | 0 <= k < |ts| && ts[k].tcb != ms[j].current ::
              SavedView(ms[j].mem, ts[k]) == LastView(ms, es, j, ts[k])
  {
    if j > 0 {
      hide Inv, SavedView, CallView, Calls, Acts, Callable, Switched;
      SuspendedKeepView(ts, ms, es, j - 1);
      var m := ms[j - 1];
      assert Happens(ts, m, es[j - 1], ms[j]);
      match es[j - 1]
      case Act =>
        ActStep(ts, m, ms[j]);
        ActKeepsCurrent(ts, m, ms[j]);
      case Switch(n, flags) =>
        SwitchStep(ts, m, flags, n);
    }
  }

  lemma ActKeepsCurrent(ts: seq<Thread>, m: Machine, m1: Machine)
    requires Acts(ts, m, m1)
    ensures m1.current == m.current
  {
  }

  /** A thread that is switched in sees what it saw at its last call of the switch, as if the call had
      simply returned: behind the call, with all registers, the stack pointer, the interrupt flag and
      its stack, whatever the other threads did meanwhile. */
  lemma Resumes(ts: seq<Thread>, ms: seq<Machine>, es: seq<Event>, j: nat)
    requires IsRun(ts, ms, es) && Inv(ts, ms[0]) && j < |es| && es[j].Switch?
    ensures es[j].n < |ts| && Callable(ms[j], es[j].flags) && ms[j + 1].current == ts[es[j].n].tcb
    ensures ViewOf(ms[j + 1], ts[es[j].n].hi) == LastView(ms, es, j + 1, ts[es[j].n])
  {
    hide Inv, SavedView, CallView, Switched, ViewOf;
    var (n, flags, m) := (es[j].n, es[j].flags, ms[j]);
    SuspendedKeepView(ts, ms, es, j);
    assert Happens(ts, m, es[j], ms[j + 1]);
    SwitchStep(ts, m, flags, n);
    assert Callable(m, flags);
  }

  /** Thread `k` does not call the switch at any of the steps [i, j). */
  ghost predicate Quiet(ms: seq<Machine>, es: seq<Event>, i: nat, j: nat, t: Thread)
    requires j <= |es| < |ms|
  {
    forall x | i <= x < j :: es[x].Switch? ==> ms[x].current != t.tcb
  }

  lemma {:induction false} QuietKeepsLast(ms: seq<Machine>, es: seq<Event>, i: nat, j: nat, t: Thread)
    requires i <= j <= |es| < |ms| && Quiet(ms, es, i, j, t)
    ensures LastView(ms, es, j, t) == LastView(ms, es, i, t)
    decreases j
  {
    if i < j {
      QuietKeepsLast(ms, es, i, j - 1, t);
    }
  }

  /** The theorem of the context switch: a thread that calls the switch at step `i` and next runs after
      step `j` continues at its return address, one word up the stack, with all general and segment
      registers and its stack as they were, and with the same interrupt flag. */
  lemma ResumesAfterCall(ts: seq<Thread>, ms: seq<Machine>, es: seq<Event>, i: nat, j: nat, k: nat)
    requires IsRun(ts, ms, es) && Inv(ts, ms[0]) && i <= j < |es| && k < |ts|
    requires es[i].Switch? && ms[i].current == ts[k].tcb && es[j].Switch? && es[j].n == k
    requires Quiet(ms, es, i + 1, j + 1, ts[k])
    ensures var m := ms[i];
            var r := ms[j + 1].regs;
            && m.regs.esp + 8 <= ts[k].hi
            && r == m.regs.(eip := Get(m.mem, m.regs.esp), esp := m.regs.esp + 4, cs := 8, eflags := r.eflags)
            && r.cs / 8 == 1 && r.cs % 8 == 0
            && SameControl(r.eflags, m.regs.eflags) && r.eflags / 512 % 2 == m.regs.eflags / 512 % 2
            && Words(ms[j + 1].mem, r.esp, ts[k].hi) == Words(m.mem, m.regs.esp + 4, ts[k].hi)
  {
    hide Inv, SavedView, Switched, Callable, Get, Words;
    Resumes(ts, ms, es, j);
    QuietKeepsLast(ms, es, i + 1, j + 1, ts[k]);
    SuspendedKeepView(ts, ms, es, i);
    AtCall(ts, ms, es, i, k);
  }

  lemma AtCall(ts: seq<Thread>, ms: seq<Machine>, es: seq<Event>, i: nat, k: nat)
    requires IsRun(ts, ms, es) && i < |es| && es[i].Switch? && k < |ts| && ms[i].current == ts[k].tcb && Inv(ts, ms[i])
    ensures OnStack(ms[i], ts[k]) && SameControl(es[i].flags, ms[i].regs.eflags)
    ensures ts[k].hi < 0x1_0000_0000
  {
    assert Happens(ts, ms[i], es[i], ms[i + 1]) && Placed(ts[k], |ms[i].mem|);
    var x :| 0 <= x < |ts| && ms[i].current == ts[x].tcb && OnStack(ms[i], ts[x]);
    assert Apart(ts, x, k);
  }

  // ---------------------------------------------------------------- new threads

  /** The 20 words of setup_context, in push order. */
  function FirstFrame(tfunction: Word, shutdown: Word, start: Word, flags: Word): (s: seq<Word>)
    ensures 4 * |s| == 80
  {
    [0, shutdown, tfunction, flags, KERNEL_CS, start, 0, 0, 0, 0, 0, 0, 0, 0, 0, 0, KERNEL_DS, KERNEL_DS, 0, 0]
  }

  predicate RoomToStart(mem: Memory, t: Thread) {
    Placed(t, |mem|) && |mem| < 0x4000_0000 && t.lo + 80 <= t.hi && !(t.lo <= t.tcb < t.hi)
  }

  /** Memory after the constructor of a thread. */
  function SetUp(mem: Memory, t: Thread, tfunction: Word, shutdown: Word, start: Word, flags: Word): (r: Memory)
    requires RoomToStart(mem, t)
    ensures |r| == |mem|
  {
    Set(Pushed(mem, t.hi, FirstFrame(tfunction, shutdown, start, flags)), t.tcb, t.hi - 80)
  }

  /** A new thread will start in `start`, with the thread function to return to. */
  function StartView(t: Thread, tfunction: Word, shutdown: Word, start: Word, flags: Word): View {
    var esp: Word := if 12 <= t.hi then t.hi - 12 else 0;
    View(Regs(0, 0, 0, 0, esp, 0, 0, 0, KERNEL_DS, KERNEL_DS, 0, 0, KERNEL_CS, start, flags),
         [tfunction, shutdown, 0])
  }

  lemma SetUpAt(mem: Memory, t: Thread, tfunction: Word, shutdown: Word, start: Word, flags: Word, a: int)
    requires RoomToStart(mem, t)
    ensures Get(SetUp(mem, t, tfunction, shutdown, start, flags), a) ==
            if a == t.tcb then t.hi - 80
            else if t.hi - 80 <= a < t.hi && a % 4 == 0
              then FirstFrame(tfunction, shutdown, start, flags)[(t.hi - a) / 4 - 1]
            else Get(mem, a)
  {
    hide Get, Set, Pushed, FirstFrame;
    var f := FirstFrame(tfunction, shutdown, start, flags);
    PushedAt(mem, t.hi, f, a);
    GetSet(Pushed(mem, t.hi, f), t.tcb, t.hi - 80, a);
  }

  /** The kernel selectors among the 20 words pushed from `top` on: cs is word 5, ds and es are 17 and 18. */
  lemma Selectors(mem: Memory, top: int, tcb: Word, v: Word, tfunction: Word, shutdown: Word, start: Word, flags: Word)
    requires CanPush(mem, top, 20) && Fits(mem, tcb) && !(top - 80 <= tcb < top)
    ensures var m := Set(Pushed(mem, top, FirstFrame(tfunction, shutdown, start, flags)), tcb, v);
            Get(m, top - 20) == 8 && Get(m, top - 68) == 16 && Get(m, top - 72) == 16
  {
    hide Get, Set, Pushed;
    var f := FirstFrame(tfunction, shutdown, start, flags);
    forall a | a in [top - 20, top - 68, top - 72]
      ensures Get(Set(Pushed(mem, top, f), tcb, v), a) == f[(top - a) / 4 - 1]
    {
      PushedAt(mem, top, f, a);
      GetSet(Pushed(mem, top, f), tcb, v, a);
    }
  }

  /** The words on the new stack, as the first dispatch pops them: kernel data segments (GDT entry 2) in ds
      and es, the kernel code segment (entry 1) below the flags. */
  lemma SetUpWords(mem: Memory, t: Thread, tfunction: Word, shutdown: Word, start: Word, flags: Word)
    requires RoomToStart(mem, t)
    ensures var (m, e) := (SetUp(mem, t, tfunction, shutdown, start, flags), t.hi - 80);
            && Get(m, e + 4 * 0) == 0 && Get(m, e + 4 * 1) == 0 && Get(m, e + 4 * 2) == 16
            && Get(m, e + 4 * 3) == 16 && Get(m, e + 4 * 4) == 0 && Get(m, e + 4 * 5) == 0
            && Get(m, e + 4 * 6) == 0 && Get(m, e + 4 * 8) == 0 && Get(m, e + 4 * 9) == 0
            && Get(m, e + 4 * 10) == 0 && Get(m, e + 4 * 11) == 0 && Get(m, e + 4 * 14) == start
            && Get(m, e + 4 * 15) == 8 && Get(m, e + 4 * 16) == flags
            && Get(m, e + 4 * 17) == tfunction && Get(m, e + 4 * 18) == shutdown && Get(m, e + 4 * 19) == 0
  {
    hide Get, SetUp;
    var (e, f) := (t.hi - 80, FirstFrame(tfunction, shutdown, start, flags));
    var m := SetUp(mem, t, tfunction, shutdown, start, flags);
    forall i | 0 <= i < 20
      ensures Get(m, e + 4 * i) == f[19 - i]
    {
      SetUpAt(mem, t, tfunction, shutdown, start, flags, e + 4 * i);
    }
  }

  lemma SetUpView(mem: Memory, t: Thread, tfunction: Word, shutdown: Word, start: Word, flags: Word)
    requires RoomToStart(mem, t)
    ensures var mem1 := SetUp(mem, t, tfunction, shutdown, start, flags);
            SavedOk(mem1, t) && SavedView(mem1, t) == StartView(t, tfunction, shutdown, start, flags)
  {
    hide Get, SetUp, Words, FirstFrame;
    SetUpAt(mem, t, tfunction, shutdown, start, flags, t.tcb);
    SetUpWords(mem, t, tfunction, shutdown, start, flags);
    TopWords(SetUp(mem, t, tfunction, shutdown, start, flags), t.hi);
  }

  lemma SetUpSpares(ts: seq<Thread>, mem: Memory, k: nat, j: nat, tfunction: Word, shutdown: Word, start: Word,
                    flags: Word)
    requires Layout(ts, |mem|) && k < |ts| && j < |ts| && j != k && RoomToStart(mem, ts[k])
    ensures SameFor(ts[j], mem, SetUp(mem, ts[k], tfunction, shutdown, start, flags))
  {
    hide Get, SetUp, FirstFrame;
    var mem1 := SetUp(mem, ts[k], tfunction, shutdown, start, flags);
    assert Apart(ts, j, k) && Apart(ts, k, j) && Placed(ts[j], |mem|);
    SetUpAt(mem, ts[k], tfunction, shutdown, start, flags, ts[j].tcb);
    forall a | ts[j].lo <= a < ts[j].hi
      ensures Get(mem1, a) == Get(mem, a)
    {
      SetUpAt(mem, ts[k], tfunction, shutdown, start, flags, a);
    }
  }

  /** The set-up thread is suspended with exactly that view; nothing of any other thread is written. */
  lemma SetUpStarts(ts: seq<Thread>, mem: Memory, k: nat, tfunction: Word, shutdown: Word, start: Word, flags: Word)
    requires Layout(ts, |mem|) && k < |ts| && RoomToStart(mem, ts[k])
    ensures var mem1 := SetUp(mem, ts[k], tfunction, shutdown, start, flags);
            && SavedOk(mem1, ts[k]) && SavedView(mem1, ts[k]) == StartView(ts[k], tfunction, shutdown, start, flags)
            && forall j | 0 <= j < |ts| && j != k :: SameFor(ts[j], mem, mem1)
  {
    hide Layout, RoomToStart, SavedOk, SavedView, StartView, SetUp, SameFor;
    SetUpView(mem, ts[k], tfunction, shutdown, start, flags);
    forall j | 0 <= j < |ts| && j != k
      ensures SameFor(ts[j], mem, SetUp(mem, ts[k], tfunction, shutdown, start, flags))
    {
      SetUpSpares(ts, mem, k, j, tfunction, shutdown, start, flags);
    }
  }

  lemma TopWords(mem: Memory, hi: Word)
    requires hi % 4 == 0 && 12 <= hi && hi / 4 <= |mem|
    ensures Words(mem, hi - 12, hi) == [Get(mem, hi - 12), Get(mem, hi - 8), Get(mem, hi - 4)]
  {
  }

  /** A `ret`. */
  function Return(v: View): View
    requires v.stack != []
  {
    View(v.regs.(eip := v.stack[0], esp := Plus(v.regs.esp, 4)), v.stack[1..])
  }

  /** A thread that was set up and has not run since enters its start function when it is first switched
      to, in ring 0, with the kernel code segment (GDT entry 1), the kernel data segments (entry 2) and all
      general registers 0. The return from there enters the thread function, with the shutdown function
      as its return address and 0 as its argument. */
  lemma FirstDispatch(ts: seq<Thread>, ms: seq<Machine>, es: seq<Event>, j: nat, k: nat, mem: Memory,
                      tfunction: Word, shutdown: Word, start: Word, flags: Word)
    requires IsRun(ts, ms, es) && Inv(ts, ms[0]) && j < |es| && es[j].Switch? && es[j].n == k < |ts|
    requires |mem| == |ms[0].mem| && RoomToStart(mem, ts[k]) && Quiet(ms, es, 0, j + 1, ts[k])
    requires SameFor(ts[k], SetUp(mem, ts[k], tfunction, shutdown, start, flags), ms[0].mem)
    ensures var v := ViewOf(ms[j + 1], ts[k].hi);
            && v.regs == Regs(0, 0, 0, 0, ts[k].hi - 12, 0, 0, 0, 16, 16, 0, 0, 8, start, flags)
            && v.regs.cs / 8 == 1 && v.regs.ds / 8 == v.regs.es / 8 == 2
            && v.regs.cs % 8 == v.regs.ds % 8 == v.regs.es % 8 == 0
            && v.stack == [tfunction, shutdown, 0]
            && Return(v).regs.eip == tfunction && Return(v).regs.esp == ts[k].hi - 8 && Return(v).stack == [shutdown, 0]
  {
    hide Inv, SavedView, Switched, Callable, SetUp, SavedOk, SameFor, ViewOf;
    SetUpView(mem, ts[k], tfunction, shutdown, start, flags);
    SavedViewSame(ts[k], SetUp(mem, ts[k], tfunction, shutdown, start, flags), ms[0].mem);
    Resumes(ts, ms, es, j);
    QuietKeepsLast(ms, es, 0, j + 1, ts[k]);
  }

  lemma {:induction false} CodeOfLast(ms: seq<Machine>, es: seq<Event>, j: nat, t: Thread)
    requires j <= |es| < |ms| && SavedView(ms[0].mem, t).regs.cs == 8
    ensures LastView(ms, es, j, t).regs.cs == 8
  {
    hide SavedView;
    if j > 0 {
      CodeOfLast(ms, es, j - 1, t);
    }
  }

  /** From a start with every thread set up, each switch of every run resumes in the kernel code segment,
      GDT entry 1 at ring 0. */
  lemma ResumedInKernel(ts: seq<Thread>, ms: seq<Machine>, es: seq<Event>, j: nat)
    requires IsRun(ts, ms, es) && Inv(ts, ms[0]) && j < |es| && es[j].Switch?
    requires forall k | 0 <= k < |ts| :: SavedView(ms[0].mem, ts[k]).regs.cs == 8
    ensures ms[j + 1].regs.cs / 8 == 1 && ms[j + 1].regs.cs % 8 == 0
  {
    hide Inv, SavedView, Switched, Callable, LastView;
    Resumes(ts, ms, es, j);
    CodeOfLast(ms, es, j + 1, ts[es[j].n]);
  }
}
