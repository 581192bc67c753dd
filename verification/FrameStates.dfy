/** Contiguous frame allocation on the abstract state of a pool: one state per frame, where a
    head-of-sequence frame and the used frames behind it form one allocated interval. */
module FrameStates {
  datatype FrameState = Free | Used | HoS

  type States = seq<FrameState>

  // ---------------------------------------------------------------- operations

  ghost predicate FreeRun(s: States, i: int, k: nat) {
    0 <= i && i + k <= |s| && forall j | i <= j < i + k :: s[j] == Free
  }

  /** `i` is the lowest place where `k` free frames are found. */
  ghost predicate FirstFit(s: States, k: nat, i: int) {
    FreeRun(s, i, k) && forall j | 0 <= j < i :: !FreeRun(s, j, k)
  }

  ghost predicate NoFit(s: States, k: nat) {
    forall j :: !FreeRun(s, j, k)
  }

  /** Frames [i, i + k) become one sequence, whatever they were. */
  function Marked(s: States, i: nat, k: nat): (r: States)
    requires 1 <= k && i + k <= |s|
    ensures |r| == |s|
    ensures forall j | 0 <= j < |s| :: r[j] == if j == i then HoS else if i < j < i + k then Used else s[j]
  {
    seq(|s|, j requires 0 <= j < |s| => if j == i then HoS else if i < j < i + k then Used else s[j])
  }

  /** How many used frames follow without a gap from `i` on. */
  function UsedRun(s: States, i: nat): (r: nat)
    requires i <= |s|
    ensures i + r <= |s|
    ensures forall j | i <= j < i + r :: s[j] == Used
    ensures i + r < |s| ==> s[i + r] != Used
    decreases |s| - i
  {
    if i < |s| && s[i] == Used then 1 + UsedRun(s, i + 1) else 0
  }

  /** The sequence headed by `h` becomes free. */
  function Released(s: States, h: nat): (r: States)
    requires h < |s|
    ensures |r| == |s|
    ensures forall j | 0 <= j < |s| :: r[j] == if h <= j <= h + UsedRun(s, h + 1) then Free else s[j]
  {
    seq(|s|, j requires 0 <= j < |s| => if h <= j <= h + UsedRun(s, h + 1) then Free else s[j])
  }

  /** Frames [from, to) become free. */
  function Cleared(s: States, from: nat, to: nat): (r: States)
    requires from <= to <= |s|
    ensures |r| == |s|
  {
    seq(|s|, j requires 0 <= j < |s| => if from <= j < to then Free else s[j])
  }

  /** A new pool of `n` frames whose first `info` frames hold its bitmap. */
  function Initial(n: nat, info: nat): (s: States)
    requires info <= n
    ensures |s| == n
    ensures forall j | 0 <= j < n :: s[j] == if j >= info then Free else if j == 0 then HoS else Used
  {
    seq(n, j => if j >= info then Free else if j == 0 then HoS else Used)
  }

  // ---------------------------------------------------------------- steps of the loops

  ghost predicate AllUsed(s: States, from: nat, to: nat) {
    from <= to <= |s| && forall j | from <= j < to :: s[j] == Used
  }

  lemma UsedNext(s: States, from: nat, to: nat)
    requires from <= |s|
    ensures AllUsed(s, from, from)
    ensures AllUsed(s, from, to) && to < |s| && s[to] == Used ==> AllUsed(s, from, to + 1)
  {
  }

  /** Clearing a head and the used frames up to where they end releases the sequence. */
  lemma ClearedIsReleased(s: States, h: nat, end: nat)
    requires h < end <= |s| && AllUsed(s, h + 1, end) && (end < |s| ==> s[end] != Used)
    ensures Released(s, h) == Cleared(s, h, end)
  {
    UsedRunIs(s, h + 1, end - h - 1);
  }

  lemma ClearedNext(s: States, from: nat, to: nat)
    requires from <= to < |s|
    ensures Cleared(s, from, to)[to := Free] == Cleared(s, from, to + 1)
    ensures Cleared(s, from, to)[to] == s[to] && Cleared(s, from, from) == s
  {
  }

  /** The frames right before `end` that are free number exactly `len`. */
  ghost predicate RunEndsAt(s: States, end: nat, len: nat) {
    && len <= end <= |s| && (forall j | end - len <= j < end :: s[j] == Free)
    && (len < end ==> s[end - len - 1] != Free)
  }

  /** No `k` free frames lie before `end`. */
  ghost predicate NoRunBefore(s: States, k: nat, end: nat) {
    forall j | j + k <= end :: !FreeRun(s, j, k)
  }

  lemma ScanStart(s: States, k: nat)
    ensures RunEndsAt(s, 0, 0) && (0 < k ==> NoRunBefore(s, k, 0))
  {
  }

  lemma ScanFree(s: States, end: nat, len: nat, k: nat)
    requires end < |s| && RunEndsAt(s, end, len) && s[end] == Free && 0 < k && len < k && NoRunBefore(s, k, end)
    ensures RunEndsAt(s, end + 1, len + 1)
    ensures len + 1 < k ==> NoRunBefore(s, k, end + 1)
    ensures len + 1 == k ==> FirstFit(s, k, end + 1 - k)
  {
    if len + 1 < k {
      forall j | j + k <= end + 1
        ensures !FreeRun(s, j, k)
      {
        if 0 <= j && j + k == end + 1 {
          assert j <= end - len - 1 < j + k;
        }
      }
    }
  }

  lemma ScanUsed(s: States, end: nat, len: nat, k: nat)
    requires end < |s| && RunEndsAt(s, end, len) && s[end] != Free && 0 < k && NoRunBefore(s, k, end)
    ensures RunEndsAt(s, end + 1, 0) && NoRunBefore(s, k, end + 1)
  {
  }

  lemma ScanOver(s: States, k: nat)
    requires 0 < k && NoRunBefore(s, k, |s|)
    ensures NoFit(s, k)
  {
  }

  lemma FitIsRun(s: States, k: nat, i: nat)
    requires FirstFit(s, k, i)
    ensures i + k <= |s| && !NoFit(s, k)
  {
  }

  // ---------------------------------------------------------------- single frames

  ghost predicate HasFree(s: States) {
    exists j :: 0 <= j < |s| && s[j] == Free
  }

  /** The frame that a request for one frame returns. */
  ghost function FirstFree(s: States): (i: nat)
    requires HasFree(s)
    ensures i < |s| && s[i] == Free && forall j | 0 <= j < i :: s[j] != Free
  {
    if s[0] == Free then 0 else
      var j :| 0 <= j < |s| && s[j] == Free;
      assert s[1..][j - 1] == Free;
      1 + FirstFree(s[1..])
  }

  lemma FirstFreeFits(s: States)
    ensures HasFree(s) <==> !NoFit(s, 1)
    ensures forall i: nat | FirstFit(s, 1, i) :: HasFree(s) && i == FirstFree(s)
  {
    if HasFree(s) {
      assert FreeRun(s, FirstFree(s), 1);
    }
    forall i: nat | FreeRun(s, i, 1)
      ensures s[i] == Free
    {
    }
  }

  /** The lowest free frame is number `i`; it becomes a sequence of its own, and nothing else changes. */
  ghost predicate TakesLowest(s: States, i: int, t: States) {
    && 0 <= i < |s| && s[i] == Free && (forall j | 0 <= j < i :: s[j] != Free)
    && t == s[i := HoS]
  }

  lemma FirstFreeTaken(s: States)
    requires HasFree(s)
    ensures TakesLowest(s, FirstFree(s), Marked(s, FirstFree(s), 1))
  {
  }

  // ---------------------------------------------------------------- sequences as intervals

  /** A used frame belongs to a sequence: right before it is a used frame or a head. */
  predicate Linked(s: States, j: nat)
    requires j < |s|
  {
    s[j] == Used ==> 0 < j && s[j - 1] != Free
  }

  ghost predicate WellFormed(s: States) {
    forall j | 0 <= j < |s| :: Linked(s, j)
  }

  /** The allocated sequences: head frame to length. */
  function Intervals(s: States): map<nat, nat> {
    map h: nat | h < |s| && s[h] == HoS :: 1 + UsedRun(s, h + 1)
  }

  lemma IntervalAt(s: States, h: nat)
    ensures h in Intervals(s) <==> h < |s| && s[h] == HoS
    ensures h in Intervals(s) ==> Intervals(s)[h] == 1 + UsedRun(s, h + 1)
  {
  }

  ghost predicate Covers(m: map<nat, nat>, h: nat, f: int) {
    h in m && h <= f < h + m[h]
  }

  /** The run of used frames from `i` has length `r` when it is used throughout and then stops. */
  lemma {:induction false} UsedRunIs(s: States, i: nat, r: nat)
    requires i + r <= |s| && forall j | i <= j < i + r :: s[j] == Used
    requires i + r < |s| ==> s[i + r] != Used
    ensures UsedRun(s, i) == r
    decreases r
  {
    if r > 0 {
      UsedRunIs(s, i + 1, r - 1);
    }
  }

  /** No operation, not even marking a range that is partly in use, breaks well-formedness. */
  lemma MarkedWellFormed(s: States, i: nat, k: nat)
    requires WellFormed(s) && 1 <= k && i + k <= |s|
    ensures WellFormed(Marked(s, i, k))
  {
    var t := Marked(s, i, k);
    forall j | 0 <= j < |t|
      ensures Linked(t, j)
    {
      assert Linked(s, j);
    }
  }

  lemma ReleasedWellFormed(s: States, h: nat)
    requires WellFormed(s) && h < |s|
    ensures WellFormed(Released(s, h))
  {
    var t := Released(s, h);
    forall j | 0 <= j < |t|
      ensures Linked(t, j)
    {
      assert Linked(s, j);
    }
  }

  /** A free run ends before a frame that is not used. */
  lemma FreeRunEnds(s: States, i: nat, k: nat)
    requires WellFormed(s) && 1 <= k && FreeRun(s, i, k)
    ensures i + k < |s| ==> s[i + k] != Used
  {
    if i + k < |s| {
      assert Linked(s, i + k) && s[i + k - 1] == Free;
    }
  }

  /** Marking a free range adds exactly one interval. */
  lemma MarkedAdds(s: States, i: nat, k: nat)
    requires WellFormed(s) && 1 <= k && FreeRun(s, i, k)
    ensures Intervals(Marked(s, i, k)) == Intervals(s)[i := k]
  {
    hide Intervals, WellFormed;
    var t := Marked(s, i, k);
    FreeRunEnds(s, i, k);
    UsedRunIs(t, i + 1, k - 1);
    forall h: nat
      ensures h in Intervals(t) <==> h in Intervals(s)[i := k]
      ensures h in Intervals(t) ==> Intervals(t)[h] == Intervals(s)[i := k][h]
    {
      IntervalAt(s, h);
      IntervalAt(t, h);
      if h < |s| && s[h] == HoS {
        MarkedKeepsRun(s, i, k, h);
      }
    }
  }

  lemma MarkedKeepsRun(s: States, i: nat, k: nat, h: nat)
    requires 1 <= k && FreeRun(s, i, k) && h < |s| && s[h] == HoS
    ensures Marked(s, i, k)[h] == HoS && UsedRun(Marked(s, i, k), h + 1) == UsedRun(s, h + 1)
  {
    var (t, r) := (Marked(s, i, k), UsedRun(s, h + 1));
    assert s[i] == Free;
    UsedRunIs(t, h + 1, r);
  }

  /** Releasing a head removes exactly its interval. */
  lemma ReleasedRemoves(s: States, h: nat)
    requires WellFormed(s) && h < |s| && s[h] == HoS
    ensures Intervals(Released(s, h)) == Intervals(s) - {h}
  {
    hide Intervals, WellFormed;
    var t := Released(s, h);
    forall g: nat
      ensures g in Intervals(t) <==> g in Intervals(s) && g != h
      ensures g in Intervals(t) ==> Intervals(t)[g] == Intervals(s)[g]
    {
      IntervalAt(s, g);
      IntervalAt(t, g);
      if g < |s| && s[g] == HoS && g != h {
        ReleasedKeepsRun(s, h, g);
      }
    }
  }

  lemma ReleasedKeepsRun(s: States, h: nat, g: nat)
    requires h < |s| && s[h] == HoS && g < |s| && s[g] == HoS && g != h
    ensures Released(s, h)[g] == HoS && UsedRun(Released(s, h), g + 1) == UsedRun(s, g + 1)
  {
    var (t, r) := (Released(s, h), UsedRun(s, g + 1));
    assert s[h] != Used && s[g] != Used;
    UsedRunIs(t, g + 1, r);
  }

  /** Allocating and releasing restores every frame of the pool. */
  lemma AllocateReleaseRestores(s: States, i: nat, k: nat)
    requires WellFormed(s) && 1 <= k && FreeRun(s, i, k)
    ensures Released(Marked(s, i, k), i) == s
  {
    FreeRunEnds(s, i, k);
    UsedRunIs(Marked(s, i, k), i + 1, k - 1);
  }

  /** The intervals of a pool are disjoint and inside it. */
  lemma IntervalsDisjoint(s: States, g: nat, h: nat)
    requires g in Intervals(s) && h in Intervals(s) && g < h
    ensures g + Intervals(s)[g] <= h && h + Intervals(s)[h] <= |s|
  {
    IntervalAt(s, g);
    IntervalAt(s, h);
  }

  lemma UsedIsLinked(s: States, f: nat)
    requires WellFormed(s) && f < |s| && s[f] == Used
    ensures 0 < f && s[f - 1] != Free
  {
    assert Linked(s, f);
  }

  /** A covered frame is in use. */
  lemma CoveredInUse(s: States, h: nat, f: nat)
    requires Covers(Intervals(s), h, f)
    ensures f < |s| && s[f] != Free
  {
    IntervalAt(s, h);
  }

  /** A frame is in use exactly when some interval covers it. */
  lemma {:induction false} CoveredIffInUse(s: States, f: nat)
    requires WellFormed(s) && f < |s|
    ensures s[f] != Free <==> exists h :: Covers(Intervals(s), h, f)
    decreases f
  {
    hide Intervals, UsedRun, WellFormed;
    IntervalAt(s, f);
    if s[f] == HoS {
      assert Covers(Intervals(s), f, f);
    } else if s[f] == Used {
      UsedIsLinked(s, f);
      CoveredIffInUse(s, f - 1);
      var h :| Covers(Intervals(s), h, f - 1);
      RunGoesOn(s, h, f);
    } else {
      forall h
        ensures !Covers(Intervals(s), h, f)
      {
        if Covers(Intervals(s), h, f) {
          CoveredInUse(s, h, f);
        }
      }
    }
  }

  lemma RunGoesOn(s: States, h: nat, f: nat)
    requires 0 < f < |s| && s[f] == Used && Covers(Intervals(s), h, f - 1)
    ensures Covers(Intervals(s), h, f)
  {
    hide Intervals;
    IntervalAt(s, h);
  }

  /** The intervals determine the state of every frame. */
  lemma IntervalsDetermine(s: States, t: States)
    requires WellFormed(s) && WellFormed(t) && |s| == |t| && Intervals(s) == Intervals(t)
    ensures s == t
  {
    hide Intervals, UsedRun, WellFormed;
    forall f | 0 <= f < |s|
      ensures s[f] == t[f]
    {
      CoveredIffInUse(s, f);
      CoveredIffInUse(t, f);
      IntervalAt(s, f);
      IntervalAt(t, f);
    }
  }

  // ---------------------------------------------------------------- marking a range in use

  /** `x` frames from `end` on belong to an interval that starts before `end`. */
  ghost predicate Overhang(m: map<nat, nat>, end: nat, x: nat) {
    if x == 0 then forall g: nat | g < end :: !Covers(m, g, end)
    else exists g: nat :: g < end && Covers(m, g, end) && g + m[g] == end + x
  }

  /** The intervals after marking [i, i + k): those that start before are cut off at `i`, those that start
      inside vanish, and the new one takes over the `x` frames that overhang its end. */
  function Cut(m: map<nat, nat>, i: nat, k: nat, x: nat): map<nat, nat> {
    map h: nat | h in m.Keys + {i} && !(i < h < i + k) ::
      if h == i then k + x else if h < i < h + m[h] then i - h else m[h]
  }

  lemma CutAt(m: map<nat, nat>, i: nat, k: nat, x: nat, h: nat)
    ensures h in Cut(m, i, k, x) <==> h == i || (h in m && !(i < h < i + k))
    ensures h in Cut(m, i, k, x) ==>
              Cut(m, i, k, x)[h] == if h == i then k + x else if h < i < h + m[h] then i - h else m[h]
  {
  }

  /** A run of used frames goes on from any place in it. */
  lemma {:induction false} RunFrom(s: States, a: nat, b: nat)
    requires a <= |s| && a <= b <= a + UsedRun(s, a)
    ensures a + UsedRun(s, a) == b + UsedRun(s, b)
    decreases b - a
  {
    if a < b {
      RunFrom(s, a + 1, b);
    }
  }

  lemma OverhangIs(s: States, end: nat)
    requires WellFormed(s) && 0 < end <= |s|
    ensures Overhang(Intervals(s), end, UsedRun(s, end))
  {
    hide Intervals, WellFormed;
    if end < |s| && s[end] == Used {
      CoveredIffInUse(s, end);
      var g: nat :| Covers(Intervals(s), g, end);
      IntervalAt(s, g);
      RunFrom(s, g + 1, end);
    } else {
      forall g: nat | g < end
        ensures !Covers(Intervals(s), g, end)
      {
        IntervalAt(s, g);
      }
    }
  }

  lemma MarkedRunHere(s: States, i: nat, k: nat)
    requires 1 <= k && i + k <= |s|
    ensures UsedRun(Marked(s, i, k), i + 1) == k - 1 + UsedRun(s, i + k)
  {
    hide UsedRun;
    UsedRunIs(Marked(s, i, k), i + 1, k - 1 + UsedRun(s, i + k));
  }

  /** Head `h` before, at or behind the marked range. */
  lemma MarkedRun(s: States, i: nat, k: nat, h: nat)
    requires 1 <= k && i + k <= |s| && h < |s| && !(i < h < i + k) && (h == i || s[h] == HoS)
    ensures 1 + UsedRun(Marked(s, i, k), h + 1) ==
            if h == i then k + UsedRun(s, i + k)
            else if h < i <= h + UsedRun(s, h + 1) then i - h
            else 1 + UsedRun(s, h + 1)
  {
    hide UsedRun;
    var (t, r) := (Marked(s, i, k), UsedRun(s, h + 1));
    if h == i {
      MarkedRunHere(s, i, k);
    } else if h < i <= h + r {
      UsedRunIs(t, h + 1, i - h - 1);
    } else {
      UsedRunIs(t, h + 1, r);
    }
  }

  predicate SameAt(m: map<nat, nat>, t: map<nat, nat>, h: nat) {
    (h in m <==> h in t) && (h in m ==> m[h] == t[h])
  }

  lemma SameMaps(m: map<nat, nat>, t: map<nat, nat>)
    requires forall h: nat :: SameAt(m, t, h)
    ensures m == t
  {
    forall h: nat
      ensures (h in m <==> h in t) && (h in m ==> m[h] == t[h])
    {
      assert SameAt(m, t, h);
    }
  }

  lemma MarkedCutsAt(s: States, i: nat, k: nat, h: nat)
    requires 1 <= k && i + k <= |s|
    ensures SameAt(Intervals(Marked(s, i, k)), Cut(Intervals(s), i, k, UsedRun(s, i + k)), h)
  {
    hide Intervals, Cut, UsedRun;
    CutAt(Intervals(s), i, k, UsedRun(s, i + k), h);
    IntervalAt(s, h);
    IntervalAt(Marked(s, i, k), h);
    if h in Intervals(Marked(s, i, k)) {
      MarkedRun(s, i, k, h);
    }
  }

  /** What marking any range does to the intervals. */
  lemma MarkedCuts(s: States, i: nat, k: nat)
    requires WellFormed(s) && 1 <= k && i + k <= |s|
    ensures Overhang(Intervals(s), i + k, UsedRun(s, i + k))
    ensures Intervals(Marked(s, i, k)) == Cut(Intervals(s), i, k, UsedRun(s, i + k))
  {
    hide Intervals, WellFormed, Cut, Overhang, UsedRun, Marked, SameAt;
    OverhangIs(s, i + k);
    var (m, t) := (Intervals(Marked(s, i, k)), Cut(Intervals(s), i, k, UsedRun(s, i + k)));
    forall h: nat
      ensures SameAt(m, t, h)
    {
      MarkedCutsAt(s, i, k, h);
    }
    SameMaps(m, t);
  }

  // ---------------------------------------------------------------- conservation

  function FreeCount(s: States, n: nat): nat
    requires n <= |s|
  {
    if n == 0 then 0 else FreeCount(s, n - 1) + if s[n - 1] == Free then 1 else 0
  }

  /** The sum of the lengths of the intervals with head below `n`. */
  function TotalLength(m: map<nat, nat>, n: nat): nat {
    if n == 0 then 0 else TotalLength(m, n - 1) + if n - 1 in m then m[n - 1] else 0
  }

  /** Up to `n`: free frames, plus interval lengths, minus what the last interval has beyond `n`. */
  lemma {:induction false} CountUpTo(s: States, n: nat)
    requires WellFormed(s) && n <= |s|
    ensures FreeCount(s, n) + TotalLength(Intervals(s), n) ==
            n + if 0 < n && s[n - 1] != Free then UsedRun(s, n) else 0
  {
    if n > 0 {
      CountUpTo(s, n - 1);
      IntervalAt(s, n - 1);
      assert Linked(s, n - 1);
      hide Intervals, WellFormed;
    }
  }

  /** Free frames and allocated lengths always sum to the size of the pool. */
  lemma FramesConserved(s: States)
    requires WellFormed(s)
    ensures FreeCount(s, |s|) + TotalLength(Intervals(s), |s|) == |s|
  {
    CountUpTo(s, |s|);
  }

  // ---------------------------------------------------------------- whole runs

  /** A request to a pool, in frame indices. `Mark` is mark_inaccessible. */
  datatype Request = Get(k: nat) | Release(h: nat) | Mark(i: nat, k: nat)

  datatype Reply = Frame(i: nat) | Nothing | Halt

  /** One request. Releasing what is not a head stops the machine; so nothing more happens. */
  ghost predicate Serves(s: States, q: Request, r: Reply, t: States) {
    match q
    case Get(k) =>
      1 <= k && if NoFit(s, k) then r == Nothing && t == s
                else r.Frame? && FirstFit(s, k, r.i) && t == Marked(s, r.i, k)
    case Release(h) =>
      h < |s| && if s[h] == HoS then r == Nothing && t == Released(s, h) else r == Halt && t == s
    case Mark(i, k) =>
      1 <= k && i + k <= |s| && r == Nothing && t == Marked(s, i, k)
  }

  ghost predicate IsRun(ss: seq<States>, qs: seq<Request>, rs: seq<Reply>) {
    |ss| == |qs| + 1 == |rs| + 1 && forall j | 0 <= j < |qs| :: Serves(ss[j], qs[j], rs[j], ss[j + 1])
  }

  /** One request on a finite map from head to length of disjoint intervals in [0, n). */
  ghost predicate AbsServes(n: nat, m: map<nat, nat>, q: Request, r: Reply, m1: map<nat, nat>) {
    match q
    case Get(k) =>
      if r.Frame? then Vacant(n, m, r.i, k) && (forall j | 0 <= j < r.i :: !Vacant(n, m, j, k)) && m1 == m[r.i := k]
      else r == Nothing && (forall j :: !Vacant(n, m, j, k)) && m1 == m
    case Release(h) => if h in m then r == Nothing && m1 == m - {h} else r == Halt && m1 == m
    case Mark(i, k) =>
      && r == Nothing && (Vacant(n, m, i, k) ==> m1 == m[i := k])
      && exists x :: Overhang(m, i + k, x) && m1 == Cut(m, i, k, x)
  }

  /** No interval covers any of the frames [i, i + k). */
  ghost predicate Vacant(n: nat, m: map<nat, nat>, i: int, k: nat) {
    0 <= i && i + k <= n && forall f, h: nat | i <= f < i + k :: !Covers(m, h, f)
  }

  lemma VacantIffFree(s: States, i: int, k: nat)
    requires WellFormed(s)
    ensures Vacant(|s|, Intervals(s), i, k) <==> FreeRun(s, i, k)
  {
    hide Intervals, UsedRun, WellFormed, Covers;
    if 0 <= i && i + k <= |s| {
      forall f, h: nat | i <= f < i + k && Covers(Intervals(s), h, f)
        ensures s[f] != Free
      {
        CoveredInUse(s, h, f);
      }
      forall f | i <= f < i + k && s[f] != Free
        ensures exists h: nat :: Covers(Intervals(s), h, f)
      {
        CoveredIffInUse(s, f);
      }
    }
  }

  lemma IntervalsOf(s: States, q: Request, r: Reply)
    ensures q.Release? ==> (q.h in Intervals(s) <==> q.h < |s| && s[q.h] == HoS)
  {
  }

  lemma ServesRefines(s: States, q: Request, r: Reply, t: States)
    requires WellFormed(s) && Serves(s, q, r, t)
    ensures WellFormed(t) && |t| == |s|
    ensures AbsServes(|s|, Intervals(s), q, r, Intervals(t))
  {
    IntervalsOf(s, q, r);
    hide Intervals, UsedRun, WellFormed, Vacant, Overhang, Cut;
    match q
    case Get(k) =>
      forall j: int
        ensures Vacant(|s|, Intervals(s), j, k) <==> FreeRun(s, j, k)
      {
        VacantIffFree(s, j, k);
      }
      if r.Frame? {
        MarkedAdds(s, r.i, k);
        MarkedWellFormed(s, r.i, k);
      }
    case Release(h) =>
      if s[h] == HoS {
        ReleasedRemoves(s, h);
        ReleasedWellFormed(s, h);
      }
    case Mark(i, k) =>
      MarkedWellFormed(s, i, k);
      MarkedCuts(s, i, k);
      VacantIffFree(s, i, k);
      if FreeRun(s, i, k) {
        MarkedAdds(s, i, k);
      }
  }

  /** Over every run of requests from a new pool, including marks of ranges in use, the pool stays
      well-formed, its size is conserved, and each request acts on the interval map as specified. */
  lemma PoolRefinesIntervals(ss: seq<States>, qs: seq<Request>, rs: seq<Reply>, n: nat, info: nat)
    requires IsRun(ss, qs, rs) && info <= n && ss[0] == Initial(n, info)
    ensures forall j | 0 <= j < |ss| ::
              && WellFormed(ss[j]) && |ss[j]| == n
              && FreeCount(ss[j], n) + TotalLength(Intervals(ss[j]), n) == n
    ensures forall j | 0 <= j < |qs| :: AbsServes(n, Intervals(ss[j]), qs[j], rs[j], Intervals(ss[j + 1]))
  {
    hide WellFormed, AbsServes, Intervals, FreeCount, TotalLength;
    RunWellFormed(ss, qs, rs, n, info);
    forall j | 0 <= j < |qs|
      ensures AbsServes(n, Intervals(ss[j]), qs[j], rs[j], Intervals(ss[j + 1]))
    {
      ServesRefines(ss[j], qs[j], rs[j], ss[j + 1]);
    }
    forall j | 0 <= j < |ss|
      ensures FreeCount(ss[j], n) + TotalLength(Intervals(ss[j]), n) == n
    {
      FramesConserved(ss[j]);
    }
  }

  lemma {:induction false} RunWellFormed(ss: seq<States>, qs: seq<Request>, rs: seq<Reply>, n: nat, info: nat)
    requires IsRun(ss, qs, rs) && info <= n && ss[0] == Initial(n, info)
    ensures forall j | 0 <= j < |ss| :: WellFormed(ss[j]) && |ss[j]| == n
    decreases |qs|
  {
    var l := |qs|;
    if l == 0 {
      assert forall j | 0 <= j < n :: Linked(Initial(n, info), j);
    } else {
      hide WellFormed, AbsServes, Intervals, Serves;
      RunWellFormed(ss[..l], qs[..l - 1], rs[..l - 1], n, info);
      assert ss[..l][l - 1] == ss[l - 1];
      ServesRefines(ss[l - 1], qs[l - 1], rs[l - 1], ss[l]);
      forall j | 0 <= j < l
        ensures WellFormed(ss[j]) && |ss[j]| == n
      {
        assert ss[..l][j] == ss[j];
      }
    }
  }

  /** The request gives back a sequence whose head is among the first `info` frames. */
  predicate GivesBack(q: Request, r: Reply, info: nat) {
    q.Release? && r == Nothing && q.h < info
  }

  /** Frames set aside for the bitmap at the start stay in use and are never handed out, as long as no
      sequence that starts among them is released; whatever is marked inaccessible. */
  lemma {:induction false} InfoFramesKept(ss: seq<States>, qs: seq<Request>, rs: seq<Reply>, n: nat, info: nat)
    requires IsRun(ss, qs, rs) && info <= n && ss[0] == Initial(n, info)
    requires forall j | 0 <= j < |qs| :: !GivesBack(qs[j], rs[j], info)
    ensures |ss[|qs|]| == n && forall f | 0 <= f < info :: ss[|qs|][f] != Free
    ensures forall j | 0 <= j < |qs| && rs[j].Frame? :: info <= rs[j].i
    decreases |qs|
  {
    var l := |qs|;
    if l > 0 {
      InfoFramesKept(ss[..l], qs[..l - 1], rs[..l - 1], n, info);
      assert ss[..l][l - 1] == ss[l - 1];
      hide UsedRun;
      var (s, q, r, t) := (ss[l - 1], qs[l - 1], rs[l - 1], ss[l]);
      assert Serves(s, q, r, t) && !GivesBack(q, r, info);
      if r.Frame? {
        assert s[r.i] == Free;
      }
      forall j | 0 <= j < l && rs[j].Frame?
        ensures info <= rs[j].i
      {
        if j < l - 1 {
          assert rs[..l - 1][j] == rs[j];
        }
      }
    }
  }

  /** When the marks miss them, they also keep their states: one sequence from the start of the pool. */
  lemma {:induction false} InfoStatesKept(ss: seq<States>, qs: seq<Request>, rs: seq<Reply>, n: nat, info: nat)
    requires IsRun(ss, qs, rs) && info <= n && ss[0] == Initial(n, info)
    requires forall j | 0 <= j < |qs| :: !GivesBack(qs[j], rs[j], info) && (qs[j].Mark? ==> info <= qs[j].i)
    ensures |ss[|qs|]| == n && forall f | 0 <= f < info :: ss[|qs|][f] == if f == 0 then HoS else Used
    decreases |qs|
  {
    var l := |qs|;
    if l > 0 {
      InfoStatesKept(ss[..l], qs[..l - 1], rs[..l - 1], n, info);
      InfoFramesKept(ss, qs, rs, n, info);
      assert ss[..l][l - 1] == ss[l - 1];
      hide UsedRun;
      var (q, r) := (qs[l - 1], rs[l - 1]);
      assert Serves(ss[l - 1], q, r, ss[l]) && !GivesBack(q, r, info);
    }
  }
}
