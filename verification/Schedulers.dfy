/** The queues of the schedulers and of the disk: a linked queue (MP5 ready queue, MP6 disk requests) and
    a ring (MP6 ready queue), and the operations that move threads between them. */
module Schedulers {
  import opened Scheduling

  const MAX_THREADS := 10

  // ---------------------------------------------------------------- the linked queue

  class Node {
    var thread: ThreadId
    var next: Node?

    constructor (t: ThreadId)
      ensures thread == t && next == null
    {
      thread := t;
      next := null;
    }
  }

  class LinkedQueue {
    var head: Node?
    var tail: Node?
    ghost var nodes: seq<Node>

    ghost predicate Valid()
      reads this, nodes
    {
      && (head == null <==> nodes == []) && (tail == null <==> nodes == [])
      && (nodes != [] ==> head == nodes[0] && tail == nodes[|nodes| - 1])
      && (forall i | 0 <= i < |nodes| :: nodes[i].next == At(nodes, i + 1))
      && (forall i, j | 0 <= i < j < |nodes| :: nodes[i] != nodes[j])
    }

    /** Node number `i`, or null past the end. */
    static ghost function At(nodes: seq<Node>, i: nat): Node? {
      if i < |nodes| then nodes[i] else null
    }

    ghost function Threads(): (s: seq<ThreadId>)
      reads this, nodes
      ensures |s| == |nodes|
    {
      seq(|nodes|, i requires 0 <= i < |nodes| reads this, nodes => nodes[i].thread)
    }

    constructor ()
      ensures Valid() && nodes == [] && Threads() == []
    {
      head, tail, nodes := null, null, [];
    }

    /** enqueue_request, and the linking part of resume. */
    method Append(node: Node)
      requires Valid() && node !in nodes
      modifies this, nodes, node
      ensures Valid() && nodes == old(nodes) + [node] && node.thread == old(node.thread)
      ensures Threads() == old(Threads()) + [node.thread]
    {
      node.next := null;
      if tail == null {
        head, tail := node, node;
      } else {
        tail.next := node;
        tail := node;
      }
      nodes := nodes + [node];
    }

    /** dequeue_request, and the unlinking part of yield. */
    method TakeFirst() returns (node: Node?)
      requires Valid()
      modifies this
      ensures Valid() && (node == null <==> old(nodes) == [])
      ensures node == null ==> nodes == [] && Threads() == []
      ensures node != null ==>
                nodes == old(nodes)[1..] && node == old(nodes)[0] && [node.thread] + Threads() == old(Threads())
    {
      node := head;
      if head == null {
        return;
      }
      ghost var (all, rest) := (nodes, nodes[1..]);
      assert forall i | 0 <= i < |rest| :: rest[i] == all[i + 1];
      forall i | 0 <= i < |rest|
        ensures rest[i].next == At(rest, i + 1)
      {
        assert all[i + 1].next == At(all, i + 2);
      }
      assert all[0].next == At(all, 1);
      head := head.next;
      if head == null {
        tail := null;
      }
      nodes := rest;
      assert [node.thread] + Threads() == old(Threads());
    }
  }

  /** The MP5 scheduler. */
  class FifoScheduler {
    const queue: LinkedQueue
    var current: ThreadId

    constructor (running: ThreadId)
      ensures fresh(queue) && queue.Valid() && queue.Threads() == [] && current == running
    {
      queue := new LinkedQueue();
      current := running;
    }

    /** resume, and add. */
    method Resume(t: ThreadId)
      requires queue.Valid()
      modifies queue, queue.nodes
      ensures queue.Valid() && queue.Threads() == old(queue.Threads()) + [t]
      ensures forall n | n in queue.nodes :: n in old(queue.nodes) || fresh(n)
    {
      var node := new Node(t);
      queue.Append(node);
    }

    /** yield; with nothing ready the current thread goes on. */
    method Yield()
      requires queue.Valid()
      modifies this, queue
      ensures queue.Valid()
      ensures old(queue.Threads()) == [] ==> queue.Threads() == [] && current == old(current)
      ensures old(queue.Threads()) != [] ==> [current] + queue.Threads() == old(queue.Threads())
      ensures forall n | n in queue.nodes :: n in old(queue.nodes)
    {
      var node := queue.TakeFirst();
      if node != null {
        current := node.thread;
      }
    }

    /** pass_on_CPU: the step of the model, for any capacity above the number of ready threads. */
    method PassOnCPU(ghost capacity: nat)
      requires queue.Valid() && |queue.Threads()| < capacity
      modifies this, queue, queue.nodes
      ensures queue.Valid()
      ensures Step(old(State(capacity, current, queue.Threads(), [])), PassOn(false)) ==
              Next(State(capacity, current, queue.Threads(), []))
      ensures forall n | n in queue.nodes :: n in old(queue.nodes) || fresh(n)
    {
      Resume(current);
      Yield();
    }
  }

  // ---------------------------------------------------------------- the ring

  /** The slot `i` places behind `head`. */
  ghost function Slot(head: nat, i: nat): (r: nat)
    requires head < MAX_THREADS && i <= MAX_THREADS
    ensures r < MAX_THREADS
  {
    if head + i < MAX_THREADS then head + i else head + i - MAX_THREADS
  }

  /** The slot behind `slot`. */
  ghost function Behind(slot: nat): (r: nat)
    requires slot < MAX_THREADS
    ensures r < MAX_THREADS
  {
    if slot + 1 == MAX_THREADS then 0 else slot + 1
  }

  lemma BehindIsModular(slot: nat)
    requires slot < MAX_THREADS
    ensures (slot + 1) % MAX_THREADS == Behind(slot)
  {
  }

  /** The slots of a ring are all different, the first is its head, and moving the head or the tail by
      one slot is moving by one place. */
  lemma SlotFacts(head: nat)
    requires head < MAX_THREADS
    ensures Slot(head, 0) == head
    ensures forall i, j | 0 <= i < j < MAX_THREADS :: Slot(head, i) != Slot(head, j)
    ensures forall i | 0 <= i < MAX_THREADS ::
              Slot(head, i + 1) == Behind(Slot(head, i)) == Slot(Behind(head), i)
  {
  }

  /** The MP6 scheduler. */
  class RingScheduler {
    const ready_queue: array<ThreadId>
    var queue_head: nat
    var queue_tail: nat
    var queue_size: nat
    var current: ThreadId

    ghost predicate Valid()
      reads this
    {
      && ready_queue.Length == MAX_THREADS && queue_head < MAX_THREADS && queue_size <= MAX_THREADS
      && queue_tail == Slot(queue_head, queue_size)
    }

    ghost function Ready(): (s: seq<ThreadId>)
      requires Valid()
      reads this, ready_queue
      ensures |s| == queue_size
    {
      seq(queue_size, i requires 0 <= i < queue_size reads this, ready_queue requires Valid() =>
        ready_queue[Slot(queue_head, i)])
    }

    constructor (running: ThreadId)
      ensures Valid() && Ready() == [] && current == running && fresh(ready_queue)
    {
      ready_queue := new ThreadId[MAX_THREADS](i => 0);
      queue_head, queue_tail, queue_size, current := 0, 0, 0, running;
    }

    /** enqueue, resume and add; false is the failing assertion. */
    method Resume(t: ThreadId) returns (ok: bool)
      requires Valid()
      modifies this`queue_tail, this`queue_size, ready_queue
      ensures Valid() && (ok <==> |old(Ready())| < 10)
      ensures Ready() == if ok then old(Ready()) + [t] else old(Ready())
    {
      hide Slot, Behind;
      ok := queue_size < MAX_THREADS;
      if ok {
        BehindIsModular(queue_tail);
        SlotFacts(queue_head);
        ready_queue[queue_tail] := t;
        queue_tail := (queue_tail + 1) % MAX_THREADS;
        queue_size := queue_size + 1;
      }
    }

    method Dequeue() returns (t: ThreadId)
      requires Valid() && Ready() != []
      modifies this`queue_head, this`queue_size
      ensures Valid() && [t] + Ready() == old(Ready())
    {
      hide Slot, Behind;
      BehindIsModular(queue_head);
      SlotFacts(queue_head);
      t := ready_queue[queue_head];
      queue_head := (queue_head + 1) % MAX_THREADS;
      queue_size := queue_size - 1;
    }

    /** yield; false is the failing assertion that some thread is ready. */
    method Yield() returns (ok: bool)
      requires Valid()
      modifies this
      ensures Valid() && (ok <==> old(Ready()) != [])
      ensures if ok then [current] + Ready() == old(Ready()) else current == old(current) && Ready() == old(Ready())
    {
      ok := queue_size != 0;
      if ok {
        var next := Dequeue();
        current := next;
      }
    }
  }

  // ---------------------------------------------------------------- MP6 as a whole

  lemma PassIs(s: State, busy: bool)
    ensures Step(s, PassOn(busy)) ==
            if busy then GiveUp(s) else if Wake(s).Next? then GiveUp(Wake(s).state) else Wake(s)
  {
  }

  /** The scheduler and the request queue of the disk. */
  class Kernel {
    const scheduler: RingScheduler
    const requests: LinkedQueue

    ghost predicate Valid()
      reads this, scheduler, requests, requests.nodes
    {
      scheduler.Valid() && requests.Valid()
    }

    ghost function Now(): State
      requires Valid()
      reads this, scheduler, scheduler.ready_queue, requests, requests.nodes
    {
      State(MAX_THREADS, scheduler.current, scheduler.Ready(), requests.Threads())
    }

    constructor (running: ThreadId)
      ensures Valid() && Now() == State(MAX_THREADS, running, [], []) && fresh(scheduler) && fresh(requests)
    {
      scheduler := new RingScheduler(running);
      requests := new LinkedQueue();
    }

    /** handle_interrupt. */
    method HandleInterrupt() returns (ok: bool)
      requires Valid()
      modifies scheduler, scheduler.ready_queue, requests
      ensures Valid() && (ok <==> Step(old(Now()), Interrupt).Next?)
      ensures ok ==> Next(Now()) == Step(old(Now()), Interrupt)
    {
      ok := true;
      if requests.head != null {
        var req := requests.TakeFirst();
        ok := scheduler.Resume(req.thread);
      }
    }

    /** check_and_resume, with the busy bit of the drive. */
    method CheckAndResume(busy: bool) returns (ok: bool)
      requires Valid()
      modifies scheduler, scheduler.ready_queue, requests
      ensures Valid() && (busy ==> ok && Now() == old(Now()))
      ensures !busy ==> (ok <==> Wake(old(Now())).Next?) && (ok ==> Next(Now()) == Wake(old(Now())))
      ensures !ok ==> Wake(old(Now())) == RingFull
    {
      ok := true;
      if requests.head != null && !busy {
        var req := requests.TakeFirst();
        ok := scheduler.Resume(req.thread);
      }
    }

    /** pass_on_CPU. */
    method PassOnCPU(busy: bool) returns (ok: bool)
      requires Valid()
      modifies scheduler, scheduler.ready_queue, requests
      ensures Valid() && (ok <==> Step(old(Now()), PassOn(busy)).Next?)
      ensures ok ==> Next(Now()) == Step(old(Now()), PassOn(busy))
      ensures ok ==>
                var waiters := old(requests.Threads());
                var woken := if busy || waiters == [] then [] else [waiters[0]];
                && [scheduler.current] + scheduler.Ready() == old(scheduler.Ready()) + woken + [old(scheduler.current)]
                && woken + requests.Threads() == waiters
    {
      hide Step, Wake, GiveUp;
      ghost var s := Now();
      PassIs(s, busy);
      ok := CheckAndResume(busy);
      if ok {
        ok := ResumeAndYield();
      }
      StepQueues(s, PassOn(busy));
    }

    /** Its calls of resume, for the current thread, and of yield. */
    method ResumeAndYield() returns (ok: bool)
      requires Valid()
      modifies scheduler, scheduler.ready_queue
      ensures Valid() && (ok <==> GiveUp(old(Now())).Next?)
      ensures ok ==> Next(Now()) == GiveUp(old(Now()))
      ensures requests.nodes == old(requests.nodes)
    {
      ok := scheduler.Resume(scheduler.current);
      if ok {
        ok := scheduler.Yield();
      }
    }

    /** wait_while_busy, up to the switch. */
    method WaitWhileBusy() returns (ok: bool)
      requires Valid()
      modifies scheduler, requests, requests.nodes
      ensures Valid() && (ok <==> Step(old(Now()), Wait).Next?)
      ensures ok ==> Next(Now()) == Step(old(Now()), Wait)
    {
      var req := new Node(scheduler.current);
      requests.Append(req);
      ok := scheduler.Yield();
    }
  }

  /** Nobody waits for the disk, and the two schedulers hold the same threads. */
  ghost predicate Alike(f: FifoScheduler, k: Kernel)
    reads f, f.queue, f.queue.nodes, k, k.scheduler, k.scheduler.ready_queue, k.requests, k.requests.nodes
  {
    && f.queue.Valid() && k.Valid() && f.queue != k.requests && k.requests.nodes == []
    && |k.scheduler.Ready()| < MAX_THREADS
    && f.current == k.scheduler.current && f.queue.Threads() == k.scheduler.Ready()
  }

  method PassEach(f: FifoScheduler, k: Kernel)
    requires Alike(f, k)
    modifies f, f.queue, (set x | x in f.queue.nodes), k.scheduler, k.scheduler.ready_queue, k.requests
    ensures Alike(f, k) && Next(k.Now()) == Step(old(k.Now()), PassOn(false))
    ensures forall n | n in f.queue.nodes :: n in old(f.queue.nodes) || fresh(n)
  {
    ghost var s := k.Now();
    PassRotates(s);
    hide Step;
    f.PassOnCPU(MAX_THREADS);
    var ok := k.PassOnCPU(false);
    assert k.requests.Threads() == [];
  }

  /** Both schedulers, from the same threads, run them in the same order: after any number of passes they
      are where the model is. */
  method PassBoth(f: FifoScheduler, k: Kernel, n: nat)
    requires Alike(f, k)
    modifies f, f.queue, (set x | x in f.queue.nodes), k.scheduler, k.scheduler.ready_queue, k.requests
    ensures Alike(f, k) && Run(old(k.Now()), Passes(n)) == Next(k.Now())
    ensures forall x | x in f.queue.nodes :: x in old(f.queue.nodes) || fresh(x)
  {
    hide Step, Run, Passes, LinkedQueue.Valid, LinkedQueue.Threads, RingScheduler.Valid, RingScheduler.Ready;
    ghost var s := k.Now();
    if n == 0 {
      NoPass(s);
    } else {
      PassBoth(f, k, n - 1);
      OnePass(s, n);
      PassEach(f, k);
    }
  }
}
