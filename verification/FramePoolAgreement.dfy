/** The MP2 nested search and the MP3 one-pass scan are interchangeable. */
module FramePoolAgreement {
  import opened FrameStates
  import Mp2 = FramePoolMp2
  import Mp3 = FramePoolMp3

  /** On equal pools both return the same frame and leave equal pools; with a positive base the common
      answer is 0 exactly when no run of `k` free frames exists. Only a request of no frames tells them
      apart: the one-pass scan refuses it, and the nested search makes the first frame a head. */
  method AllocateInBoth(a: Mp2.ContFramePool, b: Mp3.ContFramePool, k: nat) returns (ra: nat, rb: nat)
    requires a.Valid() && b.Valid() && a.bitmap != b.bitmap
    requires a.base_frame_no == b.base_frame_no && a.View() == b.View() && 0 < a.n_frames && k <= a.n_frames
    modifies a.bitmap, b.bitmap
    ensures a.Valid() && b.Valid()
    ensures 0 < k ==> ra == rb && a.View() == b.View()
    ensures 0 < k && 0 < a.base_frame_no ==> (ra == 0 <==> NoFit(old(a.View()), k))
    ensures k == 0 ==> rb == 0 && b.View() == old(b.View())
    ensures k == 0 ==> ra == a.base_frame_no && a.View() == old(a.View())[0 := HoS]
  {
    ghost var s := a.View();
    ra := a.GetFrames(k);
    assert b.View() == s;
    rb := b.GetFrames(k);
    if k == 0 {
      assert FreeRun(s, 0, 0);
    } else if !NoFit(s, k) {
      FirstFitUnique(s, k, ra - a.base_frame_no, rb - b.base_frame_no);
    }
  }

  /** There is at most one lowest fit. */
  lemma FirstFitUnique(s: States, k: nat, i: int, j: int)
    requires FirstFit(s, k, i) && FirstFit(s, k, j)
    ensures i == j
  {
  }

  /** Allocating and then releasing through the pool list restores pool number `i`, provided no pool
      before it claims its frames, and leaves the bitmaps of the other pools alone. */
  method AllocateAndRelease(list: Mp3.PoolList, i: nat, k: nat) returns (r: nat, o: Mp3.Outcome)
    requires list.Valid() && i < |list.pool_list|
    requires var p := list.pool_list[i];
             && WellFormed(p.View()) && 1 <= k && 0 < p.base_frame_no
             && forall j, f | 0 <= j < i && p.Owns(f) :: !list.pool_list[j].Owns(f)
    modifies set q | q in list.pool_list :: q.bitmap
    ensures list.Valid() && list.pool_list == old(list.pool_list)
    ensures var p := list.pool_list[i];
            && p.View() == old(p.View()) && (r == 0 <==> NoFit(old(p.View()), k))
            && (r != 0 ==> o == Mp3.Done && p.Owns(r))
    ensures forall q | q in list.pool_list && q.bitmap != list.pool_list[i].bitmap :: q.bitmap[..] == old(q.bitmap[..])
  {
    hide Marked, Released;
    var p := list.pool_list[i];
    ghost var s := p.View();
    r := p.GetFrames(k);
    o := Mp3.NoOwner;
    if r != 0 {
      AllocateReleaseRestores(s, r - p.base_frame_no, k);
      MarkedHead(s, r - p.base_frame_no, k);
      assert p.Owns(r);
      var owner;
      o, owner := list.ReleaseFrames(r);
      assert owner == i;
    }
  }

  lemma MarkedHead(s: States, i: nat, k: nat)
    requires 1 <= k && i + k <= |s|
    ensures Marked(s, i, k)[i] == HoS
  {
  }
}
