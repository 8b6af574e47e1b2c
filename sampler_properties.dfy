/**
 * What the sampling loop of extraction.py guarantees, proved about its
 * specification `Scan` (and so, through the ensures of
 * `ExtractFramesWithChanges`, about the returned list of paths).
 *
 * Throughout, `A` is the list of per-frame decisions and `E` the list of
 * emissions of `Scan(p, fs)`; a "check" is a frame that set the baseline,
 * that is the seed frame or a compared one.
 */
module SamplerProperties {
  import opened Wrappers
  import opened PyStr
  import opened Extraction

  /** Index of the most recent check among `actions`, or -1 when there is none. */
  function LastCheck(actions: seq<Action>): (j: int)
    ensures -1 <= j < |actions|
    ensures j >= 0 ==> IsCheck(actions[j])
    ensures forall k :: j < k < |actions| ==> !IsCheck(actions[k])
  {
    if actions == [] then -1
    else if IsCheck(actions[|actions| - 1]) then |actions| - 1
    else LastCheck(actions[..|actions| - 1])
  }

  /** A check followed only by waits is the last check. */
  lemma LastCheckIs(actions: seq<Action>, i: nat)
    requires i < |actions| && IsCheck(actions[i])
    requires forall m :: i < m < |actions| ==> actions[m] == Wait
    ensures LastCheck(actions) == i
  {
  }

  /** One decision per frame consumed, and `frame_idx` ends at the number of
      frames read; the baseline is set exactly when some frame was read, and
      a stream of at most one frame emits nothing. */
  lemma {:induction false} ScanShape<F>(p: Params<F>, fs: seq<TimedFrame<F>>)
    ensures |Scan(p, fs).actions| == |fs|
    ensures Scan(p, fs).state.frameIdx == |fs|
    ensures Scan(p, fs).state.prevRoi.Some? <==> fs != []
    ensures |fs| <= 1 ==> Scan(p, fs).emitted == []
  {
    if fs != [] {
      ScanShape(p, fs[..|fs| - 1]);
    }
  }

  /** Running on a prefix of the stream gives a prefix of the decisions and
      of the emissions: later frames never change earlier outcomes. */
  lemma {:induction false} ScanPrefix<F>(p: Params<F>, fs: seq<TimedFrame<F>>, k: nat)
    requires k <= |fs|
    ensures |Scan(p, fs).actions| == |fs|
    ensures Scan(p, fs[..k]).actions == Scan(p, fs).actions[..k]
    ensures Scan(p, fs[..k]).emitted <= Scan(p, fs).emitted
    decreases |fs|
  {
    ScanShape(p, fs);
    if k == |fs| {
      assert fs[..k] == fs;
    } else {
      var init := fs[..|fs| - 1];
      assert init[..k] == fs[..k];
      ScanPrefix(p, init, k);
      ScanShape(p, init);
    }
  }

  /** The decision on frame k is `Decide` applied to the state left by the
      frames before it. */
  lemma ActionAt<F>(p: Params<F>, fs: seq<TimedFrame<F>>, k: nat)
    requires k < |fs|
    ensures |Scan(p, fs).actions| == |fs|
    ensures Scan(p, fs).actions[k] == Decide(p, Scan(p, fs[..k]).state, fs[k])
  {
    ScanShape(p, fs);
    ScanPrefix(p, fs, k + 1);
    ScanExtend(p, fs, k);
  }

  /** The first frame read only seeds the baseline; no later frame does. */
  lemma FirstFrameSeeds<F>(p: Params<F>, fs: seq<TimedFrame<F>>)
    requires fs != []
    ensures |Scan(p, fs).actions| == |fs|
    ensures Scan(p, fs).actions[0] == Seed
    ensures forall k :: 0 < k < |fs| ==> Scan(p, fs).actions[k] != Seed
  {
    ActionAt(p, fs, 0);
    forall k | 0 < k < |fs|
      ensures Scan(p, fs).actions[k] != Seed
    {
      ActionAt(p, fs, k);
      ScanShape(p, fs[..k]);
    }
  }

  /** After any non-empty stream the baseline image and the last-check second
      are those of the most recent check, emitted or not: the baseline moves
      on every comparison and stays put while frames are only waited on. */
  lemma {:induction false} BaselineIsLastCheck<F>(p: Params<F>, fs: seq<TimedFrame<F>>)
    requires fs != []
    ensures var j := LastCheck(Scan(p, fs).actions);
      0 <= j < |fs|
      && Scan(p, fs).state.prevRoi == Some(RoiOf(p, fs[j].frame))
      && Scan(p, fs).state.lastTs == TsOf(fs[j])
  {
    var init := fs[..|fs| - 1];
    ScanShape(p, fs);
    ScanShape(p, init);
    var a := Decide(p, Scan(p, init).state, fs[|fs| - 1]);
    assert Scan(p, fs).actions == Scan(p, init).actions + [a];
    if !IsCheck(a) {
      assert init != [];
      BaselineIsLastCheck(p, init);
      assert Scan(p, fs).actions[..|fs| - 1] == Scan(p, init).actions;
    }
  }

  /** The whole decision rule for every frame after the first, in terms of
      the input alone: with j the last check before frame k, frame k is
      compared exactly when its second is at least `checkInterval` past
      frame j's, and a compared frame is emitted exactly when
      `1 - ssim(roi_k, roi_j)` reaches the threshold. */
  lemma Decision<F>(p: Params<F>, fs: seq<TimedFrame<F>>, k: nat)
    requires 0 < k < |fs|
    ensures |Scan(p, fs).actions| == |fs|
    ensures var A := Scan(p, fs).actions;
      var j := LastCheck(A[..k]);
      0 <= j < k
      && (A[k].Compare? <==> (TsOf(fs[k]) - TsOf(fs[j])) as real >= p.checkInterval)
      && (A[k].Wait? <==> (TsOf(fs[k]) - TsOf(fs[j])) as real < p.checkInterval)
      && (A[k].Compare? ==>
            (A[k].emit <==> 1.0 - p.ssim(RoiOf(p, fs[k].frame), RoiOf(p, fs[j].frame)) >= p.threshold))
  {
    ActionAt(p, fs, k);
    ScanPrefix(p, fs, k);
    BaselineIsLastCheck(p, fs[..k]);
  }

  /** Two consecutive checks are at least `checkInterval` seconds apart. */
  lemma ConsecutiveChecksSpaced<F>(p: Params<F>, fs: seq<TimedFrame<F>>, i: nat, k: nat)
    requires i < k < |fs|
    requires |Scan(p, fs).actions| == |fs|
    requires IsCheck(Scan(p, fs).actions[i]) && IsCheck(Scan(p, fs).actions[k])
    requires forall m :: i < m < k ==> Scan(p, fs).actions[m] == Wait
    ensures (TsOf(fs[k]) - TsOf(fs[i])) as real >= p.checkInterval
  {
    var A := Scan(p, fs).actions;
    LastCheckIs(A[..k], i);
    Decision(p, fs, k);
  }

  /** With a positive interval, any two checks (not only consecutive ones)
      are at least `checkInterval` seconds apart, so checked seconds strictly
      increase. */
  lemma {:induction false} CheckTimesIncrease<F>(p: Params<F>, fs: seq<TimedFrame<F>>, i: nat, k: nat)
    requires p.checkInterval > 0.0
    requires i < k < |fs|
    requires |Scan(p, fs).actions| == |fs|
    requires IsCheck(Scan(p, fs).actions[i]) && IsCheck(Scan(p, fs).actions[k])
    ensures (TsOf(fs[k]) - TsOf(fs[i])) as real >= p.checkInterval
    decreases k
  {
    var A := Scan(p, fs).actions;
    Decision(p, fs, k);
    var j := LastCheck(A[..k]);
    assert A[..k][i] == A[i];
    if j != i {
      assert A[..k][j] == A[j];
      CheckTimesIncrease(p, fs, i, j);
    }
  }

  /** The emissions are exactly the compared frames that changed enough, in
      stream order: each carries its frame's second, index and full frame,
      the indices strictly increase, and no such frame is missing. */
  lemma EmissionsAreChangedChecks<F>(p: Params<F>, fs: seq<TimedFrame<F>>)
    ensures |Scan(p, fs).actions| == |fs|
    ensures var A, E := Scan(p, fs).actions, Scan(p, fs).emitted;
      (forall m :: 0 <= m < |E| ==>
         E[m].idx < |fs| && A[E[m].idx] == Compare(true)
         && E[m].ts == TsOf(fs[E[m].idx]) && E[m].frame == fs[E[m].idx].frame)
      && (forall m, n :: 0 <= m < n < |E| ==> E[m].idx < E[n].idx)
      && (forall k :: 0 <= k < |fs| && A[k] == Compare(true) ==>
            exists m :: 0 <= m < |E| && E[m].idx == k)
  {
    EmissionsAreChecks(p, fs);
    ChangedChecksEmitted(p, fs);
  }

  /** The last step of `Scan`: one decision appended, and one emission
      appended exactly when that decision is a compare that emits. */
  lemma ScanLast<F>(p: Params<F>, fs: seq<TimedFrame<F>>)
    requires fs != []
    ensures var init := fs[..|fs| - 1];
      var A0, E0 := Scan(p, init).actions, Scan(p, init).emitted;
      var A, E := Scan(p, fs).actions, Scan(p, fs).emitted;
      A == A0 + [A[|fs| - 1]]
      && (A[|fs| - 1] == Compare(true) ==>
            E == E0 + [Emission(TsOf(fs[|fs| - 1]), |fs| - 1, fs[|fs| - 1].frame)])
      && (A[|fs| - 1] != Compare(true) ==> E == E0)
  {
    ScanShape(p, fs[..|fs| - 1]);
  }

  /** Every emission is a compared, changed frame with its own second, index
      and full frame, and emission indices strictly increase. */
  lemma {:induction false} EmissionsAreChecks<F>(p: Params<F>, fs: seq<TimedFrame<F>>)
    ensures var A, E := Scan(p, fs).actions, Scan(p, fs).emitted;
      (forall m :: 0 <= m < |E| ==>
         E[m].idx < |fs| && A[E[m].idx] == Compare(true)
         && E[m].ts == TsOf(fs[E[m].idx]) && E[m].frame == fs[E[m].idx].frame)
      && (forall m, n :: 0 <= m < n < |E| ==> E[m].idx < E[n].idx)
  {
    if fs != [] {
      var init := fs[..|fs| - 1];
      EmissionsAreChecks(p, init);
      ScanLast(p, fs);
      var A0, E0 := Scan(p, init).actions, Scan(p, init).emitted;
      var A, E := Scan(p, fs).actions, Scan(p, fs).emitted;
      forall m | 0 <= m < |E|
        ensures E[m].idx < |fs| && A[E[m].idx] == Compare(true)
        ensures E[m].ts == TsOf(fs[E[m].idx]) && E[m].frame == fs[E[m].idx].frame
      {
        if m < |E0| {
          assert E[m] == E0[m] && A[E0[m].idx] == A0[E0[m].idx] && fs[E0[m].idx] == init[E0[m].idx];
        }
      }
      forall m, n | 0 <= m < n < |E|
        ensures E[m].idx < E[n].idx
      {
        assert E[m] == E0[m];
        if n < |E0| {
          assert E[n] == E0[n];
        }
      }
    }
  }

  /** Every compared frame that changed enough is emitted. */
  lemma {:induction false} ChangedChecksEmitted<F>(p: Params<F>, fs: seq<TimedFrame<F>>)
    ensures var A, E := Scan(p, fs).actions, Scan(p, fs).emitted;
      forall k :: 0 <= k < |fs| && A[k] == Compare(true) ==>
        exists m :: 0 <= m < |E| && E[m].idx == k
  {
    if fs != [] {
      var init := fs[..|fs| - 1];
      ChangedChecksEmitted(p, init);
      ScanLast(p, fs);
      var A0, E0 := Scan(p, init).actions, Scan(p, init).emitted;
      var A, E := Scan(p, fs).actions, Scan(p, fs).emitted;
      forall k | 0 <= k < |fs| && A[k] == Compare(true)
        ensures exists m :: 0 <= m < |E| && E[m].idx == k
      {
        if k == |fs| - 1 {
          assert E[|E| - 1].idx == k;
        } else {
          assert A0[k] == Compare(true);
          var m :| 0 <= m < |E0| && E0[m].idx == k;
          assert E[m] == E0[m];
        }
      }
    }
  }

  /** If every frame's second is less than `checkInterval` past the first
      frame's, nothing is ever compared and the result is empty. */
  lemma {:induction false} NoCheckWithinFirstInterval<F>(p: Params<F>, fs: seq<TimedFrame<F>>)
    requires fs != []
    requires forall k :: 0 <= k < |fs| ==> (TsOf(fs[k]) - TsOf(fs[0])) as real < p.checkInterval
    ensures |Scan(p, fs).actions| == |fs|
    ensures forall k :: 0 < k < |fs| ==> Scan(p, fs).actions[k] == Wait
    ensures Scan(p, fs).emitted == []
  {
    ScanShape(p, fs);
    if |fs| > 1 {
      var init := fs[..|fs| - 1];
      NoCheckWithinFirstInterval(p, init);
      FirstFrameSeeds(p, init);
      LastCheckIs(Scan(p, init).actions, 0);
      BaselineIsLastCheck(p, init);
      assert Scan(p, fs).actions == Scan(p, init).actions + [Wait];
    }
  }

  /** With a positive interval, emitted seconds are at least `checkInterval`
      apart and so strictly increase along the result. */
  lemma EmittedTimesIncrease<F>(p: Params<F>, fs: seq<TimedFrame<F>>)
    requires p.checkInterval > 0.0
    ensures var E := Scan(p, fs).emitted;
      forall m, n :: 0 <= m < n < |E| ==>
        (E[n].ts - E[m].ts) as real >= p.checkInterval && E[m].ts < E[n].ts
  {
    var E := Scan(p, fs).emitted;
    EmissionsAreChangedChecks(p, fs);
    forall m, n | 0 <= m < n < |E|
      ensures (E[n].ts - E[m].ts) as real >= p.checkInterval && E[m].ts < E[n].ts
    {
      CheckTimesIncrease(p, fs, E[m].idx, E[n].idx);
    }
  }

  /** While the decoder positions stay in [0, 10^6) seconds, the returned paths
      are in strictly increasing string order, so sorting them by name (as the
      caller does) keeps the order in which they were found. A negative
      second is written `-0000N`, and such names sort in reverse time order,
      so negative positions are excluded. */
  lemma PathsSorted<F>(p: Params<F>, videoPath: string, fs: seq<TimedFrame<F>>)
    requires p.checkInterval > 0.0
    requires forall k :: 0 <= k < |fs| ==> 0 <= fs[k].ms < 1000000000
    ensures var P := Paths(OutDir(videoPath), Scan(p, fs).emitted);
      forall m, n :: 0 <= m < n < |P| ==> LexLess(P[m], P[n]) && P[m] != P[n]
  {
    var E := Scan(p, fs).emitted;
    var dir := OutDir(videoPath);
    EmissionsAreChangedChecks(p, fs);
    EmittedTimesIncrease(p, fs);
    var P := Paths(dir, E);
    forall m, n | 0 <= m < n < |P|
      ensures LexLess(P[m], P[n]) && P[m] != P[n]
    {
      assert 0 <= E[m].ts < E[n].ts < 1000000;
      PathsAt(dir, E, m);
      PathsAt(dir, E, n);
      OutputPathOrder(dir, E[m], E[n]);
    }
  }

  /** Output paths of an earlier and a later second, in one directory, are in
      string order. */
  lemma OutputPathOrder<F>(dir: string, e1: Emission<F>, e2: Emission<F>)
    requires 0 <= e1.ts < e2.ts < 1000000
    ensures LexLess(OutputPath(dir, e1), OutputPath(dir, e2))
    ensures OutputPath(dir, e1) != OutputPath(dir, e2)
  {
    LexLessIrreflexive(OutputPath(dir, e1));
    FileNameOrder(e1.ts, e1.idx, e2.ts, e2.idx);
    JoinKeepsOrder(dir, FileName(e1.ts, e1.idx), FileName(e2.ts, e2.idx));
  }

  /** A threshold of zero or less emits every compared frame, provided the
      similarity never exceeds 1 (as a structural similarity does not). */
  lemma NonPositiveThresholdEmitsEveryCheck<F>(p: Params<F>, fs: seq<TimedFrame<F>>)
    requires p.threshold <= 0.0
    requires forall a, b :: p.ssim(a, b) <= 1.0
    ensures |Scan(p, fs).actions| == |fs|
    ensures forall k :: 0 <= k < |fs| && Scan(p, fs).actions[k].Compare? ==>
      Scan(p, fs).actions[k] == Compare(true)
  {
    ScanShape(p, fs);
    forall k | 0 <= k < |fs| && Scan(p, fs).actions[k].Compare?
      ensures Scan(p, fs).actions[k] == Compare(true)
    {
      ActionAt(p, fs, k);
    }
  }
}
