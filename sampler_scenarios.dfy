/**
 * Proved scenarios: the sampler's policy worked out on small inputs.
 */
module SamplerScenarios {
  import opened Wrappers
  import opened Extraction

  /** A 1x1 intensity image. */
  function Pixel(v: int): (img: Image) { [[v]] }

  /** A full-frame ROI over 1x1 frames cuts out the frame itself. */
  lemma PixelRoi(v: int)
    ensures RoiSlice(Pixel(v), Roi(0, 0, 1, 1)) == Pixel(v)
  {
    var r := RoiSlice(Pixel(v), Roi(0, 0, 1, 1));
    assert |r| == 1 && r[0] == [v];
  }

  /** Neighbouring frames of the drift are 0.95 similar; the last and the
      first only 0.85. */
  function DriftSsim(a: Image, b: Image): (score: real)
  {
    if a == Pixel(2) && b == Pixel(0) then 0.85 else 0.95
  }

  function DriftParams(): (p: Params<Image>)
  {
    Params(Roi(0, 0, 1, 1), 0.1, 5.0, (f: Image) => f, DriftSsim)
  }

  function DriftVideo(): (fs: seq<TimedFrame<Image>>)
  {
    [TimedFrame(0, Pixel(0)), TimedFrame(5000, Pixel(1)), TimedFrame(10000, Pixel(2))]
  }

  /** Baseline drift: each check sees a change of 0.05, below the threshold
      0.1, so nothing is emitted, although the last frame differs from the
      first by 0.15, above it. The baseline follows every check, so the
      change is never summed across intervals. */
  lemma BaselineDriftScenario()
    ensures Scan(DriftParams(), DriftVideo()).actions == [Seed, Compare(false), Compare(false)]
    ensures Scan(DriftParams(), DriftVideo()).emitted == []
    ensures 1.0 - DriftSsim(Pixel(2), Pixel(0)) >= DriftParams().threshold
  {
    var p, fs := DriftParams(), DriftVideo();
    PixelRoi(0);
    PixelRoi(1);
    PixelRoi(2);
    assert fs[..0] == [];
    ScanExtend(p, fs, 0);
    ScanExtend(p, fs, 1);
    ScanExtend(p, fs, 2);
    assert Scan(p, fs[..1]).state == SamplerState(Some(Pixel(0)), 0, 1);
    assert Scan(p, fs[..2]).state == SamplerState(Some(Pixel(1)), 5, 2);
    assert fs[..3] == fs;
  }

  /** Similarity 1 for equal images and 0 otherwise. */
  function ExactSsim(a: Image, b: Image): (score: real)
  {
    if a == b then 1.0 else 0.0
  }

  function CutParams(): (p: Params<Image>)
  {
    Params(Roi(0, 0, 1, 1), 0.1, 5.0, (f: Image) => f, ExactSsim)
  }

  /** The picture shown at second `s` of a video whose content changes once,
      sharply, at second 12. */
  function CutPicture(s: int): (img: Image)
  {
    if s < 12 then Pixel(0) else Pixel(1)
  }

  /** Twenty seconds at one frame per second. */
  function CutVideo(): (fs: seq<TimedFrame<Image>>)
  {
    seq(20, k => TimedFrame(1000 * k, CutPicture(k)))
  }

  /** The state after the first i frames of CutVideo: the baseline is the
      frame of the last multiple of five seconds before frame i. */
  function CutState(i: nat): (st: SamplerState)
  {
    if i == 0 then Start
    else
      var c := if i <= 5 then 0 else if i <= 10 then 5 else if i <= 15 then 10 else 15;
      SamplerState(Some(CutPicture(c)), c, i)
  }

  /** A 20-second video checked every 5 seconds with threshold 0.1, whose
      content changes only at second 12: the checks fall on seconds 5, 10
      and 15, so exactly one frame is emitted, the one at second 15. */
  lemma SharpChangeScenario()
    ensures Scan(CutParams(), CutVideo()).emitted == [Emission(15, 15, Pixel(1))]
  {
    var p, fs := CutParams(), CutVideo();
    PixelRoi(0);
    PixelRoi(1);
    assert fs[..0] == [];
    var i := 0;
    while i < 20
      invariant 0 <= i <= 20
      invariant Scan(p, fs[..i]).state == CutState(i)
      invariant Scan(p, fs[..i]).emitted == if i > 15 then [Emission(15, 15, Pixel(1))] else []
    {
      ScanExtend(p, fs, i);
      assert fs[i] == TimedFrame(1000 * i, CutPicture(i));
      assert TsOf(fs[i]) == i;
      assert RoiOf(p, fs[i].frame) == CutPicture(i);
      var a := Decide(p, CutState(i), fs[i]);
      if i == 0 {
        assert a == Seed;
      } else if i == 5 || i == 10 || i == 15 {
        assert a == Compare(i == 15);
      } else {
        assert a == Wait;
      }
      i := i + 1;
    }
    assert fs[..20] == fs;
  }
}
