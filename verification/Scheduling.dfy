/** Cooperative scheduling on values: the running thread, the ready queue and the queue of threads that
    wait for the disk. Threads run with interrupts off, so every operation is one step. */
module Scheduling {
  type ThreadId = nat

  /** `capacity` bounds the ready queue: 10 for the ring, and as large as one likes for the linked list. */
  datatype State = State(capacity: nat, running: ThreadId, ready: seq<ThreadId>, waiting: seq<ThreadId>)

  /** pass_on_CPU, with the busy bit that check_and_resume sees; wait_while_busy; the disk interrupt. */
  datatype Event = PassOn(busy: bool) | Wait | Interrupt

  /** The next state, or one of the two assertions that stop the machine. */
  datatype Outcome = Next(state: State) | RingFull | NoneReady

  /** resume: to the end of the ready queue, which must not be full. */
  function Resume(s: State, t: ThreadId): Outcome {
    if |s.ready| < s.capacity then Next(s.(ready := s.ready + [t])) else RingFull
  }

  /** yield: the first ready thread runs. */
  function Yield(s: State): Outcome {
    if s.ready == [] then NoneReady else Next(s.(running := s.ready[0], ready := s.ready[1..]))
  }

  /** handle_interrupt: the first waiting thread, if any, becomes ready. */
  function Wake(s: State): Outcome {
    if s.waiting == [] then Next(s) else Resume(s.(waiting := s.waiting[1..]), s.waiting[0])
  }

  /** resume(current), then yield(). */
  function GiveUp(s: State): Outcome {
    match Resume(s, s.running)
    case Next(u) => Yield(u)
    case RingFull => RingFull
    case NoneReady => NoneReady
  }

  function Step(s: State, e: Event): Outcome {
    match e
    case PassOn(busy) =>
      if busy then GiveUp(s) else
        (match Wake(s)
         case Next(u) => GiveUp(u)
         case RingFull => RingFull
         case NoneReady => NoneReady)
    case Wait => Yield(s.(waiting := s.waiting + [s.running]))
    case Interrupt => Wake(s)
  }

  /** The run of the events up to the first one that stops the machine. */
  function Run(s: State, es: seq<Event>): Outcome {
    if es == [] then Next(s)
    else match Run(s, es[..|es| - 1])
      case Next(t) => Step(t, es[|es| - 1])
      case RingFull => RingFull
      case NoneReady => NoneReady
  }

  function Threads(s: State): multiset<ThreadId> {
    multiset{s.running} + multiset(s.ready) + multiset(s.waiting)
  }

  // ---------------------------------------------------------------- conservation

  lemma WakeKeeps(s: State)
    requires |Threads(s)| <= s.capacity
    ensures Wake(s).Next? && Threads(Wake(s).state) == Threads(s) && Wake(s).state.running == s.running
  {
    if s.waiting != [] {
      assert s.waiting == [s.waiting[0]] + s.waiting[1..];
    }
  }

  lemma YieldKeeps(s: State, before: multiset<ThreadId>)
    requires multiset(s.ready) + multiset(s.waiting) == before
    ensures Yield(s) != RingFull
    ensures Yield(s) == NoneReady <==> s.ready == []
    ensures Yield(s).Next? ==> Threads(Yield(s).state) == before
  {
    if s.ready != [] {
      assert s.ready == [s.ready[0]] + s.ready[1..];
    }
  }

  /** With no more threads than capacity no step loses or copies one, and none overflows the ready queue; the only
      step that stops the machine is a wait with no thread ready. */
  lemma StepKeeps(s: State, e: Event)
    requires |Threads(s)| <= s.capacity
    ensures Step(s, e) != RingFull
    ensures Step(s, e) == NoneReady <==> e.Wait? && s.ready == []
    ensures Step(s, e).Next? ==> Threads(Step(s, e).state) == Threads(s) && Step(s, e).state.capacity == s.capacity
  {
    match e
    case PassOn(busy) =>
      WakeKeeps(s);
      var u := if busy then s else Wake(s).state;
      assert Threads(u) == Threads(s) && |u.ready| < |Threads(u)|;
      var v := u.(ready := u.ready + [u.running]);
      YieldKeeps(v, Threads(s));
    case Wait =>
      YieldKeeps(s.(waiting := s.waiting + [s.running]), Threads(s));
    case Interrupt =>
      WakeKeeps(s);
  }

  /** Over every run with no more threads than capacity, each thread is in exactly one place, once, and the assertion
      that the ring is not full never fails. */
  lemma {:induction false} RunKeeps(s: State, es: seq<Event>)
    requires |Threads(s)| <= s.capacity
    ensures Run(s, es) != RingFull
    ensures Run(s, es).Next? ==> Threads(Run(s, es).state) == Threads(s) && Run(s, es).state.capacity == s.capacity
  {
    if es != [] {
      RunKeeps(s, es[..|es| - 1]);
      if Run(s, es[..|es| - 1]).Next? {
        StepKeeps(Run(s, es[..|es| - 1]).state, es[|es| - 1]);
      }
    }
  }

  /** A run may also be read from its first event on. */
  lemma {:induction false} RunFirst(s: State, e: Event, es: seq<Event>)
    requires Step(s, e).Next?
    ensures Run(s, [e] + es) == Run(Step(s, e).state, es)
  {
    hide Step;
    var all := [e] + es;
    if es == [] {
      assert all[..|all| - 1] == [];
    } else {
      assert all[..|all| - 1] == [e] + es[..|es| - 1];
      RunFirst(s, e, es[..|es| - 1]);
    }
  }

  /** With more threads than capacity: wake waiters until the ring is full, then pass. */
  lemma {:induction false} Overflowing(s: State) returns (es: seq<Event>)
    requires s.capacity < |Threads(s)|
    ensures Run(s, es) == RingFull
    decreases |s.waiting|
  {
    if s.capacity <= |s.ready| {
      es := [PassOn(true)];
      assert Run(s, []) == Next(s) && es[..0] == [];
    } else {
      var rest := Overflowing(Wake(s).state);
      es := [Interrupt] + rest;
      RunFirst(s, Interrupt, rest);
    }
  }

  /** No run overflows the ring if and only if there are no more threads than capacity. */
  lemma NeverFullIff(s: State)
    ensures (forall es :: Run(s, es) != RingFull) <==> |Threads(s)| <= s.capacity
  {
    if |Threads(s)| <= s.capacity {
      forall es
        ensures Run(s, es) != RingFull
      {
        RunKeeps(s, es);
      }
    } else {
      var es := Overflowing(s);
    }
  }

  // ---------------------------------------------------------------- what one event does

  /** The first waiter, if the event wakes it. */
  function WokenBy(s: State, e: Event): seq<ThreadId> {
    if s.waiting != [] && (e.Interrupt? || e == PassOn(false)) then [s.waiting[0]] else []
  }

  /** The threads that the event makes ready, in order: the woken one, then the one that passes. */
  function JoinedBy(s: State, e: Event): seq<ThreadId> {
    WokenBy(s, e) + if e.PassOn? then [s.running] else []
  }

  /** What each event does to the two queues and the processor, and when it stops the machine: a pass or
      an interrupt when the ring has no place for those who become ready, a wait when no thread is. */
  lemma StepQueues(s: State, e: Event)
    ensures Step(s, e).Next? <==>
              if e.Wait? then s.ready != [] else JoinedBy(s, e) == [] || |s.ready| + |JoinedBy(s, e)| <= s.capacity
    ensures Step(s, e).Next? ==>
              var t := Step(s, e).state;
              && (if e.Interrupt? then t.running == s.running && t.ready == s.ready + JoinedBy(s, e)
                  else [t.running] + t.ready == s.ready + JoinedBy(s, e))
              && WokenBy(s, e) + t.waiting == s.waiting + (if e.Wait? then [s.running] else [])
              && t.capacity == s.capacity
  {
    if s.waiting != [] {
      assert s.waiting == [s.waiting[0]] + s.waiting[1..];
    }
  }

  // ---------------------------------------------------------------- waiting for the disk

  /** The threads that wait, one for each wait of the run, in order. */
  function Waits(s: State, es: seq<Event>): seq<ThreadId>
    requires Run(s, es).Next?
  {
    if es == [] then [] else
      var before := es[..|es| - 1];
      Waits(s, before) + if es[|es| - 1].Wait? then [Run(s, before).state.running] else []
  }

  /** The waiting threads that are woken, in order. */
  function Woken(s: State, es: seq<Event>): seq<ThreadId>
    requires Run(s, es).Next?
  {
    if es == [] then [] else
      var before := es[..|es| - 1];
      Woken(s, before) + WokenBy(Run(s, before).state, es[|es| - 1])
  }

  lemma Chain<T>(a: seq<T>, b: seq<T>, c: seq<T>, d: seq<T>, w: seq<T>, k: seq<T>, e: seq<T>)
    requires a + b == c + d && d + w == k + e
    ensures a + (b + w) == (c + k) + e
  {
    assert a + (b + w) == (a + b) + w == (c + d) + w == c + (d + w) == c + (k + e) == (c + k) + e;
  }

  /** Waiters are woken once for each wait, in the order of their arrival; the rest still wait. */
  lemma {:induction false} WokenInOrder(s: State, es: seq<Event>)
    requires Run(s, es).Next?
    ensures s.waiting + Waits(s, es) == Woken(s, es) + Run(s, es).state.waiting
  {
    if es != [] {
      var (before, e) := (es[..|es| - 1], es[|es| - 1]);
      WokenInOrder(s, before);
      var t := Run(s, before).state;
      StepQueues(t, e);
      hide Step, WokenBy;
      Chain(s.waiting, Waits(s, before), Woken(s, before), t.waiting,
            if e.Wait? then [t.running] else [], WokenBy(t, e), Step(t, e).state.waiting);
    }
  }

  // ---------------------------------------------------------------- the order of becoming ready

  /** The threads that become ready, in order. */
  function Joined(s: State, es: seq<Event>): seq<ThreadId>
    requires Run(s, es).Next?
  {
    if es == [] then [] else
      var before := es[..|es| - 1];
      Joined(s, before) + JoinedBy(Run(s, before).state, es[|es| - 1])
  }

  /** The threads that are given the processor, in order. */
  function Ran(s: State, es: seq<Event>): seq<ThreadId>
    requires Run(s, es).Next?
  {
    if es == [] then [] else
      Ran(s, es[..|es| - 1]) + if es[|es| - 1].Interrupt? then [] else [Run(s, es).state.running]
  }

  /** Over every run: the processor goes to the threads that were ready, then to those that became ready,
      in the order in which they did; the rest are still ready in that order. */
  lemma {:induction false} RunInOrder(s: State, es: seq<Event>)
    requires Run(s, es).Next?
    ensures s.ready + Joined(s, es) == Ran(s, es) + Run(s, es).state.ready
  {
    if es != [] {
      var (before, e) := (es[..|es| - 1], es[|es| - 1]);
      RunInOrder(s, before);
      var (u, t) := (Run(s, before).state, Run(s, es).state);
      StepQueues(u, e);
      hide Step, JoinedBy;
      Chain(s.ready, Joined(s, before), Ran(s, before), u.ready,
            JoinedBy(u, e), if e.Interrupt? then [] else [t.running], t.ready);
    }
  }

  // ---------------------------------------------------------------- first in, first out

  /** How often the processor was given away. */
  function Switches(es: seq<Event>): nat {
    if es == [] then 0 else Switches(es[..|es| - 1]) + if es[|es| - 1].Interrupt? then 0 else 1
  }

  lemma StepShifts(s: State, e: Event)
    requires Step(s, e).Next?
    ensures var t := Step(s, e).state;
            if e.Interrupt? then t.running == s.running && s.ready <= t.ready
            else (s.ready != [] ==> t.running == s.ready[0] && s.ready[1..] <= t.ready)
  {
  }

  /** Whatever waits, passes and interrupts happen: the thread at place `p` of the ready queue runs after
      exactly `p` + 1 switches. */
  lemma {:induction false} RunsInTurn(s: State, es: seq<Event>)
    requires Run(s, es).Next? && Switches(es) <= |s.ready|
    ensures var (t, k) := (Run(s, es).state, Switches(es));
            s.ready[k..] <= t.ready && t.running == if k == 0 then s.running else s.ready[k - 1]
  {
    if es != [] {
      var before := es[..|es| - 1];
      RunsInTurn(s, before);
      var (t, k) := (Run(s, before).state, Switches(before));
      StepShifts(t, es[|es| - 1]);
      if !es[|es| - 1].Interrupt? {
        assert s.ready[k..][1..] == s.ready[k + 1..];
      }
    }
  }

  // ---------------------------------------------------------------- round robin

  /** The order in which threads run next. */
  function Turn(s: State): seq<ThreadId> {
    s.ready + [s.running]
  }

  function Rotated<T>(q: seq<T>): seq<T>
    requires q != []
  {
    q[1..] + [q[0]]
  }

  lemma PassRotates(s: State)
    requires s.waiting == [] && |s.ready| < s.capacity
    ensures var o := Step(s, PassOn(false));
            && o.Next? && Turn(o.state) == Rotated(Turn(s)) && o.state.waiting == []
            && o.state.capacity == s.capacity
  {
  }

  /** Place `i` on a ring of `n`. */
  function Place(i: nat, n: nat): (r: nat)
    requires 0 < n
    ensures r < n
  {
    i % n
  }

  function Passes(k: nat): seq<Event> {
    if k == 0 then [] else Passes(k - 1) + [PassOn(false)]
  }

  lemma OnePass(s: State, k: nat)
    requires 0 < k && Run(s, Passes(k - 1)).Next?
    ensures Run(s, Passes(k)) == Step(Run(s, Passes(k - 1)).state, PassOn(false))
  {
    assert Passes(k)[..|Passes(k)| - 1] == Passes(k - 1);
  }

  /** `q` is `turn` with its origin moved to place `k`. */
  ghost predicate RotatedBy<T>(turn: seq<T>, q: seq<T>, k: nat) {
    |q| == |turn| && forall i: nat | i < |q| :: q[i] == turn[Place(k + i, |turn|)]
  }

  lemma RotateMore<T>(turn: seq<T>, q: seq<T>, k: nat)
    requires turn != [] && RotatedBy(turn, q, k)
    ensures RotatedBy(turn, Rotated(q), k + 1)
    ensures |Rotated(q)| == |q| && Rotated(q)[|q| - 1] == turn[Place(k, |turn|)]
  {
    hide Place;
    var (n, r) := (|turn|, Rotated(q));
    Around(k, n);
    assert r[n - 1] == q[0] == turn[Place(k + 0, n)];
    forall i: nat | i < n
      ensures r[i] == turn[Place(k + 1 + i, n)]
    {
      if i < n - 1 {
        assert r[i] == q[i + 1] == turn[Place(k + (i + 1), n)];
      }
    }
  }

  lemma NotRotated<T>(turn: seq<T>)
    ensures RotatedBy(turn, turn, 0)
  {
    forall i: nat | i < |turn|
      ensures Place(i, |turn|) == i
    {
      Small(i, |turn|);
    }
  }

  /** With no blocking, the k-th pass gives the processor to element (k - 1) mod n of ready + [running]. */
  lemma {:induction false} RoundRobin(s: State, k: nat)
    requires s.waiting == [] && |Turn(s)| <= s.capacity
    ensures var o := Run(s, Passes(k));
            && o.Next? && o.state.waiting == [] && o.state.capacity == s.capacity
            && RotatedBy(Turn(s), Turn(o.state), k)
            && (0 < k ==> o.state.running == Turn(s)[Place(k - 1, |Turn(s)|)])
  {
    hide RotatedBy, Place, Run, Passes, Step, Rotated;
    if k == 0 {
      NotRotated(Turn(s));
      NoPass(s);
    } else {
      RoundRobin(s, k - 1);
      OnePass(s, k);
      var t := Run(s, Passes(k - 1)).state;
      SameLength(Turn(s), Turn(t), k - 1);
      PassRotates(t);
      RotateMore(Turn(s), Turn(t), k - 1);
      LastRuns(Run(s, Passes(k)).state);
    }
  }

  lemma LastRuns(s: State)
    ensures Turn(s)[|Turn(s)| - 1] == s.running && Turn(s) != []
  {
  }

  lemma NoPass(s: State)
    ensures Run(s, Passes(0)) == Next(s)
  {
  }

  lemma SameLength<T>(turn: seq<T>, q: seq<T>, k: nat)
    requires RotatedBy(turn, q, k)
    ensures |q| == |turn|
  {
  }

  lemma Small(i: nat, n: nat)
    requires i < n
    ensures i % n == i
  {
    DivUnique(i, n, 0, i);
  }

  /** Once around the ring. */
  lemma Around(k: nat, n: nat)
    requires 0 < n
    ensures Place(k + n, n) == Place(k, n)
  {
    var (q, r) := (k / n, k % n);
    assert k + n == (q + 1) * n + r;
    DivUnique(k + n, n, q + 1, r);
  }

  lemma {:induction false} Multiple(k: nat, n: nat)
    requires 0 < k
    ensures n <= k * n
  {
    if k > 1 {
      Multiple(k - 1, n);
      assert k * n == (k - 1) * n + n;
    }
  }

  lemma DivUnique(a: int, n: int, q: int, r: int)
    requires 0 <= r < n && a == q * n + r
    ensures a % n == r
  {
    var (p, s) := (a / n, a % n);
    assert a == p * n + s;
    assert (p - q) * n == p * n - q * n && (q - p) * n == q * n - p * n;
    if p > q {
      Multiple(p - q, n);
    } else if p < q {
      Multiple(q - p, n);
    }
  }

  /** The running thread after `k` passes. */
  function RunningAfter(s: State, k: nat): ThreadId
    requires s.waiting == [] && |Turn(s)| <= s.capacity
  {
    RoundRobin(s, k);
    Run(s, Passes(k)).state.running
  }

  /** Thread `x` of ready + [running] runs after the pass that follows `k` + `i` others. */
  predicate RunsAt(s: State, k: nat, i: nat, x: nat)
    requires s.waiting == [] && x < |Turn(s)| <= s.capacity
  {
    RunningAfter(s, k + i + 1) == Turn(s)[x]
  }

  /** In any n consecutive passes each of the n threads runs exactly once. */
  lemma OncePerRound(s: State, k: nat, x: nat)
    requires s.waiting == [] && x < |Turn(s)| <= s.capacity
    requires forall a, b | 0 <= a < b < |Turn(s)| :: Turn(s)[a] != Turn(s)[b]
    ensures exists j: nat ::
              j < |Turn(s)| && RunsAt(s, k, j, x) && forall i: nat | i < |Turn(s)| && i != j :: !RunsAt(s, k, i, x)
  {
    hide RunsAt;
    var n := |Turn(s)|;
    var j := Reach(k, x, n);
    forall i: nat | i < n
      ensures RunsAt(s, k, i, x) <==> i == j
    {
      RunsAtPlace(s, k, i, x);
      if i < j {
        PlacesDiffer(k + i, k + j, n);
      } else if j < i {
        PlacesDiffer(k + j, k + i, n);
      }
    }
    assert RunsAt(s, k, j, x);
  }

  lemma RunsAtPlace(s: State, k: nat, i: nat, x: nat)
    requires s.waiting == [] && x < |Turn(s)| <= s.capacity
    requires forall a, b | 0 <= a < b < |Turn(s)| :: Turn(s)[a] != Turn(s)[b]
    ensures RunsAt(s, k, i, x) <==> Place(k + i, |Turn(s)|) == x
  {
    hide Place, Run, Turn;
    RoundRobin(s, k + i + 1);
  }

  /** Each place is reached within a round. */
  lemma Reach(k: nat, x: nat, n: nat) returns (j: nat)
    requires x < n
    ensures j < n && Place(k + j, n) == x
  {
    var (q, r) := (k / n, k % n);
    j := if r <= x then x - r else x - r + n;
    if r <= x {
      DivUnique(k + j, n, q, x);
    } else {
      assert (q + 1) * n == q * n + n;
      DivUnique(k + j, n, q + 1, x);
    }
  }

  lemma PlacesDiffer(a: nat, b: nat, n: nat)
    requires a < b < a + n
    ensures Place(a, n) != Place(b, n)
  {
    var (p, q, r) := (a / n, b / n, a % n);
    if b % n == r {
      assert a == p * n + r && b == q * n + r;
      assert (q - p) * n == q * n - p * n;
      if p < q {
        Multiple(q - p, n);
      } else {
        assert (p - q) * n == p * n - q * n;
        if q < p {
          Multiple(p - q, n);
        }
      }
    }
  }
}
