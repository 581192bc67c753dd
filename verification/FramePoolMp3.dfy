/** The MP3 contiguous frame pool: a packed bitmap, most significant pair first, and a one-pass scan. */
module FramePoolMp3 {
  import opened FrameStates

  const FRAME_SIZE := 4096
  const MAX_POOLS := 8
  const MAX_FRAME := 0x10_0000

  // ---------------------------------------------------------------- packing

  /** The two bits of frame `k` of a byte. */
  function Pair(b: bv8, k: nat): bv8
    requires k < 4
  {
    match k
    case 0 => (b >> 6) & 3
    case 1 => (b >> 4) & 3
    case 2 => (b >> 2) & 3
    case _ => b & 3
  }

  function WithPair(b: bv8, k: nat, v: bv8): bv8
    requires k < 4
  {
    match k
    case 0 => (b & !(3 << 6)) | (v << 6)
    case 1 => (b & !(3 << 4)) | (v << 4)
    case 2 => (b & !(3 << 2)) | (v << 2)
    case _ => (b & !3) | v
  }

  function Decode(v: bv8): FrameState {
    if v == 0 then Free else if v == 1 then Used else HoS
  }

  function Encode(s: FrameState): bv8 {
    match s
    case Free => 0
    case Used => 1
    case HoS => 2
  }

  /** Storing a pair sets that pair and leaves the other three of the byte alone. */
  lemma PairUpdated(b: bv8, k: nat, s: FrameState, j: nat)
    requires k < 4 && j < 4
    ensures Decode(Pair(WithPair(b, k, Encode(s)), j)) == if j == k then s else Decode(Pair(b, j))
  {
    var v := Encode(s);
    assert v == 0 || v == 1 || v == 2;
  }

  function StateAt(bytes: seq<bv8>, idx: nat): FrameState
    requires idx < 4 * |bytes|
  {
    Decode(Pair(bytes[idx / 4], idx % 4))
  }

  /** Four frames a byte, the first one in the top two bits: 0 is free, 1 is used, anything else a head. */
  lemma PackedFromTop(bytes: seq<bv8>, i: nat)
    requires i < |bytes|
    ensures var b := bytes[i];
            && StateAt(bytes, 4 * i) == (if b & 0xC0 == 0 then Free else if b & 0xC0 == 0x40 then Used else HoS)
            && StateAt(bytes, 4 * i + 1) == (if b & 0x30 == 0 then Free else if b & 0x30 == 0x10 then Used else HoS)
            && StateAt(bytes, 4 * i + 2) == (if b & 0x0C == 0 then Free else if b & 0x0C == 0x04 then Used else HoS)
            && StateAt(bytes, 4 * i + 3) == (if b & 0x03 == 0 then Free else if b & 0x03 == 0x01 then Used else HoS)
  {
  }

  lemma StateUpdated(bytes: seq<bv8>, idx: nat, s: FrameState, j: nat)
    requires idx < 4 * |bytes| && j < 4 * |bytes|
    ensures StateAt(bytes[idx / 4 := WithPair(bytes[idx / 4], idx % 4, Encode(s))], j) ==
            if j == idx then s else StateAt(bytes, j)
  {
    PairUpdated(bytes[idx / 4], idx % 4, s, j % 4);
  }

  // ---------------------------------------------------------------- info frames

  function NeededInfoFrames(n: nat): (r: nat)
  {
    n / (FRAME_SIZE * 4) + if n % (FRAME_SIZE * 4) > 0 then 1 else 0
  }

  /** The number of info frames is the least whose bytes hold four states each for all frames. */
  lemma NeededIsLeast(n: nat, r: nat)
    ensures n <= 4 * (4096 * NeededInfoFrames(n))
    ensures n <= 4 * (4096 * r) <==> NeededInfoFrames(n) <= r
    ensures NeededInfoFrames(n) <= n
  {
  }

  // ---------------------------------------------------------------- the pool

  class ContFramePool {
    const base_frame_no: nat
    const n_frames: nat
    const n_info_frames: nat
    const bitmap: array<bv8>

    ghost predicate Valid()
      reads bitmap
    {
      n_frames <= 4 * bitmap.Length && base_frame_no + n_frames <= MAX_FRAME
    }

    predicate Owns(f: nat) {
      base_frame_no <= f < base_frame_no + n_frames
    }

    ghost function View(): (s: States)
      requires Valid()
      reads bitmap
      ensures |s| == n_frames
      ensures forall i | 0 <= i < n_frames :: s[i] == StateAt(bitmap[..], i)
    {
      seq(n_frames, i requires 0 <= i < n_frames reads bitmap => StateAt(bitmap[..], i))
    }

    function GetState(f: nat): (s: FrameState)
      requires Valid() && Owns(f)
      reads bitmap
      ensures s == View()[f - base_frame_no]
    {
      var idx := f - base_frame_no;
      Decode(Pair(bitmap[idx / 4], idx % 4))
    }

    method SetState(f: nat, s: FrameState)
      requires Valid() && Owns(f)
      modifies bitmap
      ensures Valid() && View() == old(View())[f - base_frame_no := s]
    {
      var idx := f - base_frame_no;
      ghost var bytes := bitmap[..];
      bitmap[idx / 4] := WithPair(bitmap[idx / 4], idx % 4, Encode(s));
      forall j | 0 <= j < n_frames
        ensures StateAt(bitmap[..], j) == if j == idx then s else StateAt(bytes, j)
      {
        StateUpdated(bytes, idx, s, j);
      }
    }

    /** `storage` is the memory at the info frames; with `info` 0 those are the first frames of the
        pool, and they are marked as in use. */
    constructor (base: nat, n: nat, info: nat, storage: array<bv8>)
      requires base + n <= MAX_FRAME && (info == 0 ==> 0 < n)
      requires storage.Length == FRAME_SIZE * NeededInfoFrames(n)
      modifies storage
      ensures Valid() && bitmap == storage && base_frame_no == base && n_frames == n
      ensures View() == Initial(n, if info == 0 then NeededInfoFrames(n) else 0)
    {
      base_frame_no := base;
      n_frames := n;
      n_info_frames := NeededInfoFrames(n);
      bitmap := storage;
      new;
      NeededIsLeast(n, 0);
      for i := 0 to n
        invariant Valid() && forall j | 0 <= j < i :: View()[j] == Free
      {
        SetState(base + i, Free);
      }
      if info == 0 {
        SetState(base, HoS);
        for i := 1 to n_info_frames
          invariant Valid()
          invariant forall j | 0 <= j < n :: View()[j] == if j >= i then Free else if j == 0 then HoS else Used
        {
          SetState(base + i, Used);
        }
      }
    }

    /** Marks frames [f, f + k) as one sequence. */
    method MarkSequence(f: nat, k: nat)
      requires Valid() && 1 <= k && base_frame_no <= f && f + k <= base_frame_no + n_frames
      modifies bitmap
      ensures Valid() && View() == Marked(old(View()), f - base_frame_no, k)
    {
      SetState(f, HoS);
      for j := f + 1 to f + k
        invariant Valid()
        invariant View() == Marked(old(View()), f - base_frame_no, j - f)
      {
        SetState(j, Used);
      }
    }

    /** Allocates the lowest run of `k` free frames; 0 and no change if there is none. */
    method GetFrames(k: nat) returns (r: nat)
      requires Valid()
      modifies bitmap
      ensures Valid()
      ensures k == 0 || NoFit(old(View()), k) ==> r == 0 && View() == old(View())
      ensures 0 < k && !NoFit(old(View()), k) ==>
                && base_frame_no <= r && FirstFit(old(View()), k, r - base_frame_no)
                && View() == Marked(old(View()), r - base_frame_no, k)
    {
      hide FreeRun, NoFit, FirstFit, RunEndsAt, NoRunBefore, Marked;
      var run_start, run_len := 0, 0;
      ghost var s := View();
      var i := base_frame_no;
      ScanStart(s, k);
      while i < base_frame_no + n_frames
        invariant Valid() && View() == s && base_frame_no <= i <= base_frame_no + n_frames
        invariant k == 0 || run_len < k
        invariant run_len <= i - base_frame_no && (0 < run_len ==> run_start == i - run_len)
        invariant 0 < k ==> RunEndsAt(s, i - base_frame_no, run_len) && NoRunBefore(s, k, i - base_frame_no)
      {
        ghost var (end, len) := (i - base_frame_no, run_len);
        if GetState(i) == Free {
          if run_len == 0 {
            run_start := i;
          }
          run_len := run_len + 1;
          if 0 < k {
            ScanFree(s, end, len, k);
          }
          if run_len == k {
            FitIsRun(s, k, run_start - base_frame_no);
            MarkSequence(run_start, k);
            return run_start;
          }
        } else {
          if 0 < k {
            ScanUsed(s, end, len, k);
          }
          run_len := 0;
        }
        i := i + 1;
      }
      if 0 < k {
        ScanOver(s, k);
      }
      return 0;
    }

    method MarkInaccessible(f: nat, k: nat)
      requires Valid() && Owns(f) && f + k <= base_frame_no + n_frames
      modifies bitmap
      ensures Valid() && View() == Marked(old(View()), f - base_frame_no, if k == 0 then 1 else k)
    {
      MarkSequence(f, if k == 0 then 1 else k);
    }

    /** The freeing part of release_frames, for a head of this pool. */
    method FreeSequence(f: nat)
      requires Valid() && Owns(f) && GetState(f) == HoS
      modifies bitmap
      ensures Valid() && View() == Released(old(View()), f - base_frame_no)
    {
      hide Released, UsedRun, Cleared, AllUsed, Pair;
      ghost var (s, h) := (View(), f - base_frame_no);
      ghost var e := h + 1;
      ClearedNext(s, h, h);
      UsedNext(s, h + 1, e);
      SetState(f, Free);
      var i := f + 1;
      while i < base_frame_no + n_frames && GetState(i) == Used
        invariant Valid() && i == base_frame_no + e && h < e <= n_frames
        invariant AllUsed(s, h + 1, e) && View() == Cleared(s, h, e)
      {
        ClearedNext(s, h, e);
        UsedNext(s, h + 1, e);
        SetState(i, Free);
        i := i + 1;
        e := e + 1;
      }
      if e < n_frames {
        ClearedNext(s, h, e);
      }
      ClearedIsReleased(s, h, e);
    }
  }

  // ---------------------------------------------------------------- the static pool list

  datatype Outcome = Done | NoOwner | NotHead

  class PoolList {
    var pool_list: seq<ContFramePool>

    ghost predicate Valid()
      reads this, set p | p in pool_list :: p.bitmap
    {
      |pool_list| <= MAX_POOLS && forall p | p in pool_list :: p.Valid()
    }

    constructor ()
      ensures Valid() && pool_list == []
    {
      pool_list := [];
    }

    /** The registration at the end of the pool constructor; false is the failing assertion. */
    method Register(p: ContFramePool) returns (ok: bool)
      requires Valid() && p.Valid()
      modifies this
      ensures Valid() && (ok <==> |old(pool_list)| < MAX_POOLS)
      ensures pool_list == if ok then old(pool_list) + [p] else old(pool_list)
    {
      ok := |pool_list| < MAX_POOLS;
      if ok {
        pool_list := pool_list + [p];
      }
    }

    /** Index of the first registered pool that contains frame `f`, or -1. */
    method FindOwner(f: nat) returns (i: int)
      ensures -1 <= i < |pool_list|
      ensures i == -1 ==> forall p | p in pool_list :: !p.Owns(f)
      ensures 0 <= i ==> pool_list[i].Owns(f) && forall j | 0 <= j < i :: !pool_list[j].Owns(f)
    {
      i := 0;
      while i < |pool_list| && !pool_list[i].Owns(f)
        invariant 0 <= i <= |pool_list|
        invariant forall j | 0 <= j < i :: !pool_list[j].Owns(f)
      {
        i := i + 1;
      }
      if i == |pool_list| {
        i := -1;
      }
    }

    /** Frees the sequence headed by `f` in the first pool that contains it. The other outcomes are the
        two assertions that stop the machine, before anything is changed. */
    method ReleaseFrames(f: nat) returns (o: Outcome, owner: int)
      requires Valid()
      modifies set p | p in pool_list :: p.bitmap
      ensures pool_list == old(pool_list) && -1 <= owner < |pool_list|
      ensures o == NoOwner <==> owner == -1
      ensures owner == -1 ==> forall p | p in pool_list :: !p.Owns(f)
      ensures 0 <= owner ==> pool_list[owner].Owns(f) && forall j | 0 <= j < owner :: !pool_list[j].Owns(f)
      ensures 0 <= owner ==>
                var p := pool_list[owner];
                && p.Valid()
                && (o == Done <==> old(p.View())[f - p.base_frame_no] == HoS)
                && p.View() == (if o == Done then Released(old(p.View()), f - p.base_frame_no) else old(p.View()))
      ensures forall q | q in pool_list && (owner < 0 || q.bitmap != pool_list[owner].bitmap) ::
                q.bitmap[..] == old(q.bitmap[..])
    {
      hide Released, UsedRun, Pair;
      owner := FindOwner(f);
      if owner == -1 {
        return NoOwner, owner;
      }
      var pool := pool_list[owner];
      if pool.GetState(f) != HoS {
        return NotHead, owner;
      }
      pool.FreeSequence(f);
      return Done, owner;
    }
  }
}
