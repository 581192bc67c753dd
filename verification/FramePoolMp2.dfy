/** The MP2 contiguous frame pool: an inline bitmap, least significant pair first, a nested search, and
    a linked list of pools. */
module FramePoolMp2 {
  import opened FrameStates

  const BITS_PER_FRAME := 2
  const MAX_FRAMES := 8192
  const MAX_FRAME := 0x10_0000

  // ---------------------------------------------------------------- packing

  /** The two bits at bit offset `off` of a byte. */
  function Pair(b: bv8, off: nat): bv8
    requires off < 8 && off % 2 == 0
  {
    match off
    case 0 => b & 3
    case 2 => (b >> 2) & 3
    case 4 => (b >> 4) & 3
    case _ => (b >> 6) & 3
  }

  /** Clearing the pair, then setting it. */
  function WithPair(b: bv8, off: nat, v: bv8): bv8
    requires off < 8 && off % 2 == 0
  {
    match off
    case 0 => (b & !3) | v
    case 2 => (b & !(3 << 2)) | (v << 2)
    case 4 => (b & !(3 << 4)) | (v << 4)
    case _ => (b & !(3 << 6)) | (v << 6)
  }

  /** The number of a state in the enumeration. */
  function Code(s: FrameState): bv8 {
    match s
    case Free => 0
    case Used => 1
    case HoS => 2
  }

  lemma PairUpdated(b: bv8, off: nat, s: FrameState, o: nat)
    requires off < 8 && off % 2 == 0 && o < 8 && o % 2 == 0
    ensures Pair(WithPair(b, off, Code(s)), o) == if o == off then Code(s) else Pair(b, o)
  {
    var v := Code(s);
    assert v == 0 || v == 1 || v == 2;
  }

  function RawAt(bytes: seq<bv8>, idx: nat): bv8
    requires idx < 4 * |bytes|
  {
    Pair(bytes[idx * BITS_PER_FRAME / 8], idx * BITS_PER_FRAME % 8)
  }

  lemma RawUpdated(bytes: seq<bv8>, idx: nat, s: FrameState, j: nat)
    requires idx < 4 * |bytes| && j < 4 * |bytes|
    ensures var p := idx * BITS_PER_FRAME;
            RawAt(bytes[p / 8 := WithPair(bytes[p / 8], p % 8, Code(s))], j) ==
            if j == idx then Code(s) else RawAt(bytes, j)
  {
    hide Pair, WithPair;
    PairUpdated(bytes[idx * BITS_PER_FRAME / 8], idx * BITS_PER_FRAME % 8, s, j * BITS_PER_FRAME % 8);
  }

  function Decode(v: bv8): FrameState {
    if v == 0 then Free else if v == 1 then Used else HoS
  }

  /** Four frames a byte, the first one in the bottom two bits: 0 is free, 1 is used, 2 a head. */
  lemma PackedFromBottom(bytes: seq<bv8>, i: nat)
    requires i < |bytes|
    ensures var b := bytes[i];
            && RawAt(bytes, 4 * i) == b & 3 && RawAt(bytes, 4 * i + 1) == (b >> 2) & 3
            && RawAt(bytes, 4 * i + 2) == (b >> 4) & 3 && RawAt(bytes, 4 * i + 3) == b >> 6
    ensures Code(Free) == 0 && Code(Used) == 1 && Code(HoS) == 2
  {
  }

  // ---------------------------------------------------------------- the pool

  class ContFramePool {
    const base_frame_no: nat
    const n_frames: nat
    const bitmap: array<bv8>
    var next: ContFramePool?
    var prev: ContFramePool?

    ghost predicate Valid()
      reads bitmap
    {
      && n_frames <= MAX_FRAMES && bitmap.Length == MAX_FRAMES * BITS_PER_FRAME / 8
      && base_frame_no + n_frames <= MAX_FRAME
      && forall i | 0 <= i < n_frames :: RawAt(bitmap[..], i) != 3
    }

    predicate Owns(f: nat) {
      base_frame_no <= f < base_frame_no + n_frames
    }

    ghost function View(): (s: States)
      requires Valid()
      reads bitmap
      ensures |s| == n_frames
      ensures forall i | 0 <= i < n_frames :: s[i] == Decode(RawAt(bitmap[..], i))
    {
      seq(n_frames, i requires 0 <= i < n_frames reads bitmap => Decode(RawAt(bitmap[..], i)))
    }

    /** The raw state; comparing it with the code of a state is comparing states. */
    function GetState(f: nat): (v: bv8)
      requires Valid() && Owns(f)
      reads bitmap
      ensures forall s: FrameState :: v == Code(s) <==> View()[f - base_frame_no] == s
    {
      var bit_pos := (f - base_frame_no) * BITS_PER_FRAME;
      assert RawAt(bitmap[..], f - base_frame_no) != 3;
      Pair(bitmap[bit_pos / 8], bit_pos % 8)
    }

    method SetState(f: nat, s: FrameState)
      requires Valid() && Owns(f)
      modifies bitmap
      ensures Valid() && View() == old(View())[f - base_frame_no := s]
    {
      var bit_pos := (f - base_frame_no) * BITS_PER_FRAME;
      ghost var bytes := bitmap[..];
      bitmap[bit_pos / 8] := WithPair(bitmap[bit_pos / 8], bit_pos % 8, Code(s));
      forall j | 0 <= j < n_frames
        ensures RawAt(bitmap[..], j) == if j == f - base_frame_no then Code(s) else RawAt(bytes, j)
      {
        RawUpdated(bytes, f - base_frame_no, s, j);
      }
    }

    constructor (base: nat, n: nat)
      requires base + n <= MAX_FRAME && n <= MAX_FRAMES
      ensures Valid() && fresh(bitmap) && base_frame_no == base && n_frames == n && next == null && prev == null
      ensures View() == Initial(n, 0)
    {
      base_frame_no := base;
      n_frames := n;
      bitmap := new bv8[MAX_FRAMES * BITS_PER_FRAME / 8];
      next, prev := null, null;
      new;
      var bytes := (n * BITS_PER_FRAME + 7) / 8;
      for i := 0 to bytes
        modifies bitmap
        invariant forall j | 0 <= j < i :: bitmap[j] == 0
      {
        bitmap[i] := 0;
      }
      assert forall j | 0 <= j < n :: j * BITS_PER_FRAME / 8 < bytes && RawAt(bitmap[..], j) == 0;
    }

    method MarkSequence(f: nat, k: nat)
      requires Valid() && 1 <= k && base_frame_no <= f && f + k <= base_frame_no + n_frames
      modifies bitmap
      ensures Valid() && View() == Marked(old(View()), f - base_frame_no, k)
    {
      SetState(f, HoS);
      for j := 1 to k
        invariant Valid() && View() == Marked(old(View()), f - base_frame_no, j)
      {
        SetState(f + j, Used);
      }
    }

    /** Allocates the lowest run of `k` free frames; 0 and no change if there is none. Of no frames the
        first one always is such a run, and it becomes a head whatever it was. */
    method GetFrames(k: nat) returns (r: nat)
      requires Valid() && 0 < n_frames && k <= n_frames
      modifies bitmap
      ensures Valid() && (k == 0 ==> r == base_frame_no)
      ensures NoFit(old(View()), k) ==> r == 0 && View() == old(View())
      ensures !NoFit(old(View()), k) ==>
                && base_frame_no <= r && FirstFit(old(View()), k, r - base_frame_no)
                && View() == Marked(old(View()), r - base_frame_no, if k == 0 then 1 else k)
    {
      ghost var s := View();
      var i := 0;
      while i <= n_frames - k
        invariant Valid() && View() == s && 0 <= i <= n_frames - k + 1
        invariant forall a | 0 <= a < i :: !FreeRun(s, a, k)
        invariant k == 0 ==> i == 0
      {
        var found := true;
        var j := 0;
        while j < k
          invariant 0 <= j <= k && (found ==> forall a | i <= a < i + j :: s[a] == Free)
          invariant !found ==> !FreeRun(s, i, k)
        {
          if GetState(base_frame_no + i + j) != Code(Free) {
            assert s[i + j] != Free;
            found := false;
            break;
          }
          j := j + 1;
        }
        if found {
          assert FreeRun(s, i, k) && (k == 0 ==> i == 0);
          MarkSequence(base_frame_no + i, if k == 0 then 1 else k);
          return base_frame_no + i;
        }
        i := i + 1;
      }
      return 0;
    }

    method MarkInaccessible(f: nat, k: nat)
      requires Valid() && Owns(f) && f + k <= base_frame_no + n_frames
      modifies bitmap
      ensures Valid() && View() == Marked(old(View()), f - base_frame_no, if k == 0 then 1 else k)
    {
      MarkSequence(f, if k == 0 then 1 else k);
    }

    /** The freeing part of release_frames, for a head of this pool. */
    method FreeSequence(f: nat)
      requires Valid() && Owns(f) && GetState(f) == Code(HoS)
      modifies bitmap
      ensures Valid() && View() == Released(old(View()), f - base_frame_no)
    {
      hide Released, UsedRun, Cleared, AllUsed;
      ghost var s := View();
      var start := f - base_frame_no;
      ClearedNext(s, start, start);
      UsedNext(s, start + 1, start + 1);
      SetState(f, Free);
      var i := start + 1;
      while i < n_frames && GetState(base_frame_no + i) == Code(Used)
        invariant Valid() && start < i <= n_frames
        invariant AllUsed(s, start + 1, i) && View() == Cleared(s, start, i)
      {
        ClearedNext(s, start, i);
        UsedNext(s, start + 1, i);
        SetState(base_frame_no + i, Free);
        i := i + 1;
      }
      if i < n_frames {
        ClearedNext(s, start, i);
      }
      ClearedIsReleased(s, start, i);
    }
  }

  // ---------------------------------------------------------------- the linked list of pools

  datatype Outcome = Done | NoOwner | NotHead

  class PoolList {
    var head: ContFramePool?
    ghost var pools: seq<ContFramePool>

    ghost predicate Valid()
      reads this, pools, set p | p in pools :: p.bitmap
    {
      && head == (if pools == [] then null else pools[0])
      && (forall i, j | 0 <= i < j < |pools| :: pools[i] != pools[j])
      && (forall p | p in pools :: p.Valid())
      && (forall i | 0 <= i < |pools| :: LinkedAt(pools, i))
    }

    static ghost predicate LinkedAt(pools: seq<ContFramePool>, i: nat)
      requires i < |pools|
      reads pools
    {
      pools[i].next == At(pools, i + 1) && pools[i].prev == At(pools, i - 1)
    }

    /** Pool `i`, null outside the list. */
    static ghost function At(pools: seq<ContFramePool>, i: int): ContFramePool? {
      if 0 <= i < |pools| then pools[i] else null
    }

    constructor ()
      ensures Valid() && pools == []
    {
      head := null;
      pools := [];
    }

    /** The registration at the end of the pool constructor: append at the tail. */
    method Register(p: ContFramePool)
      requires Valid() && p.Valid() && p !in pools && p.next == null && p.prev == null
      modifies this, pools, p
      ensures Valid() && pools == old(pools) + [p]
    {
      if head == null {
        head := p;
      } else {
        var current: ContFramePool := head;
        ghost var i := 0;
        while current.next != null
          invariant 0 <= i < |pools| && current == pools[i]
          decreases |pools| - i
        {
          assert LinkedAt(pools, i);
          current := current.next;
          i := i + 1;
        }
        assert LinkedAt(pools, i);
        current.next := p;
        p.prev := current;
      }
      ghost var n := |pools|;
      pools := pools + [p];
      forall i | 0 <= i <= n
        ensures LinkedAt(pools, i)
      {
        if i < n {
          assert old(LinkedAt(pools, i)) && pools[i] == old(pools)[i];
        }
      }
    }

    method FindPoolByFrame(f: nat) returns (pool: ContFramePool?, i: int)
      requires Valid()
      ensures pool == null ==> i == -1 && forall p | p in pools :: !p.Owns(f)
      ensures pool != null ==>
                && 0 <= i < |pools| && pool == pools[i] && pool.Owns(f)
                && forall j | 0 <= j < i :: !pools[j].Owns(f)
    {
      pool := head;
      i := 0;
      while pool != null
        invariant 0 <= i <= |pools| && pool == if i < |pools| then pools[i] else null
        invariant forall j | 0 <= j < i :: !pools[j].Owns(f)
        decreases |pools| - i
      {
        if pool.Owns(f) {
          return;
        }
        assert LinkedAt(pools, i);
        pool := pool.next;
        i := i + 1;
      }
      i := -1;
    }

    /** Frees the sequence headed by `f` in the first pool that contains it. The other outcomes are the
        two assertions that stop the machine, before anything is changed. */
    method ReleaseFrames(f: nat) returns (o: Outcome, owner: int)
      requires Valid()
      modifies set p | p in pools :: p.bitmap
      ensures pools == old(pools) && -1 <= owner < |pools|
      ensures o == NoOwner <==> owner == -1
      ensures owner == -1 ==> forall p | p in pools :: !p.Owns(f)
      ensures 0 <= owner ==> pools[owner].Owns(f) && forall j | 0 <= j < owner :: !pools[j].Owns(f)
      ensures 0 <= owner ==>
                var p := pools[owner];
                && p.Valid()
                && (o == Done <==> old(p.View())[f - p.base_frame_no] == HoS)
                && p.View() == (if o == Done then Released(old(p.View()), f - p.base_frame_no) else old(p.View()))
      ensures forall q | q in pools && (owner < 0 || q.bitmap != pools[owner].bitmap) ::
                q.bitmap[..] == old(q.bitmap[..])
    {
      hide Released, UsedRun, Pair;
      var pool;
      pool, owner := FindPoolByFrame(f);
      if pool == null {
        return NoOwner, owner;
      }
      if pool.GetState(f) != Code(HoS) {
        return NotHead, owner;
      }
      pool.FreeSequence(f);
      return Done, owner;
    }
  }
}
