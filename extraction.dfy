/**
 * The change-detection sampler of extraction.py.
 *
 * A video is a finite stream of frames, each paired with the position in
 * milliseconds that the decoder reports for it. The sampler converts each
 * frame to grayscale, cuts out a fixed region of interest (ROI), and every
 * `checkInterval` whole seconds compares that region with the region seen at
 * the previous check; a frame whose change score `1 - SSIM` reaches the
 * threshold is saved under a name built from its second and its frame index.
 *
 * Frames are a type parameter `F`. The grayscale conversion and the
 * structural-similarity score come from image libraries this model does not
 * contain, so they are passed in as function values and nothing is assumed
 * about them (in particular SSIM is not assumed to lie in [0, 1]).
 */
module Extraction {
  import opened Wrappers
  import opened PyStr

  /** A single-channel intensity image, row by row. */
  type Image = seq<seq<int>>

  /** The ROI tuple `(row, col, height, width)` the sampler indexes as
      roi[0]..roi[3]; the caller only ever builds it from non-negative values. */
  datatype Roi = Roi(row: nat, col: nat, height: nat, width: nat)

  /** The caller-chosen settings plus the two image-library functions. */
  datatype Params<!F> = Params(
    roi: Roi,
    threshold: real,
    checkInterval: real,
    toGray: F -> Image,
    ssim: (Image, Image) -> real)

  /** One decoded frame and the decoder position (milliseconds) read after it. */
  datatype TimedFrame<F> = TimedFrame(ms: int, frame: F)

  /** What opening the video path yields. */
  datatype Video<F> = Unopenable | Opened(frames: seq<TimedFrame<F>>)

  datatype VideoError = CannotOpenVideo(path: string)

  /** One call of the image writer: where, and the full frame written there. */
  datatype ImageWrite<F> = ImageWrite(path: string, frame: F)

  function Min(a: int, b: int): (m: int) { if a <= b then a else b }

  /** Python's `s[lo:hi]` for non-negative bounds: bounds past the end are
      clipped to the length, and an empty range gives an empty slice. */
  function PySlice<T>(s: seq<T>, lo: nat, hi: nat): (r: seq<T>)
    ensures |r| == if hi <= lo || |s| <= lo then 0 else Min(hi, |s|) - lo
    ensures forall i :: 0 <= i < |r| ==> r[i] == s[lo + i]
  {
    var start := Min(lo, |s|);
    var stop := Min(hi, |s|);
    if stop <= start then [] else s[start..stop]
  }

  /** `gray[roi[0]:roi[0]+roi[2], roi[1]:roi[1]+roi[3]]`: the rows of the
      ROI, each cut to the ROI's columns. */
  function RoiSlice(gray: Image, roi: Roi): (r: Image)
    ensures |r| == |PySlice(gray, roi.row, roi.row + roi.height)|
    ensures forall i :: 0 <= i < |r| ==>
      r[i] == PySlice(gray[roi.row + i], roi.col, roi.col + roi.width)
  {
    var rows := PySlice(gray, roi.row, roi.row + roi.height);
    seq(|rows|, i requires 0 <= i < |rows| => PySlice(rows[i], roi.col, roi.col + roi.width))
  }

  /** An image whose rows all have `width` columns. */
  ghost predicate Rectangular(img: Image, height: nat, width: nat)
  {
    |img| == height && forall i :: 0 <= i < height ==> |img[i]| == width
  }

  /** An ROI inside the frame (what the caller's input bounds guarantee)
      gives exactly a height-by-width cut whose (i, j) pixel is the frame's
      (row + i, col + j) pixel. */
  lemma RoiInsideFrame(gray: Image, roi: Roi, frameHeight: nat, frameWidth: nat)
    requires Rectangular(gray, frameHeight, frameWidth)
    requires roi.row + roi.height <= frameHeight && roi.col + roi.width <= frameWidth
    ensures Rectangular(RoiSlice(gray, roi), roi.height, roi.width)
    ensures forall i, j :: 0 <= i < roi.height && 0 <= j < roi.width ==>
      RoiSlice(gray, roi)[i][j] == gray[roi.row + i][roi.col + j]
  {
  }

  /** `int(ts_ms // 1000)`: the decoder position floored to whole seconds. */
  function Seconds(ms: int): (s: int)
    ensures s * 1000 <= ms < s * 1000 + 1000
  {
    ms / 1000
  }

  /** `f"{ts:06d}s_frame{idx:05d}.png"`. */
  function FileName(ts: int, idx: nat): (name: string)
    ensures |name| >= 22 && name[0] != '/'
  {
    ZeroPad(ts, 6) + IndexSuffix(idx)
  }

  /** The part of a file name after the seconds field. */
  function IndexSuffix(idx: nat): (s: string)
    ensures |s| >= 16
  {
    "s_frame" + ZeroPad(idx, 5) + ".png"
  }

  /** Reads a name of the fixed 22-character shape back into (second, index). */
  function ParseFileName(name: string): (r: Option<(nat, nat)>)
    ensures r.Some? ==> |name| == 22 && name[6..13] == "s_frame" && name[18..] == ".png"
  {
    if |name| == 22 && AllDigits(name[..6]) && name[6..13] == "s_frame"
       && AllDigits(name[13..18]) && name[18..] == ".png"
    then Some((DecimalValue(name[..6]), DecimalValue(name[13..18])))
    else None
  }

  /** The index part of a name, for an index that fits five digits. */
  lemma IndexSuffixShape(idx: nat)
    requires idx < 100000
    ensures var t := IndexSuffix(idx);
      |t| == 16 && t[..7] == "s_frame" && t[7..12] == FixedWidth(idx, 5) && t[12..] == ".png"
  {
    assert Pow10(5) == 100000;
    ZeroPadFits(idx, 5);
    var b := FixedWidth(idx, 5);
    var t := IndexSuffix(idx);
    assert t == "s_frame" + b + ".png";
  }

  /** The fields of a name whose second fits six digits and index five. */
  lemma FileNameShape(ts: nat, idx: nat)
    requires ts < 1000000 && idx < 100000
    ensures var name := FileName(ts, idx);
      |name| == 22 && name[..6] == FixedWidth(ts, 6) && name[6..13] == "s_frame"
      && name[13..18] == FixedWidth(idx, 5) && name[18..] == ".png"
  {
    assert Pow10(6) == 1000000;
    ZeroPadFits(ts, 6);
    IndexSuffixShape(idx);
    var t := IndexSuffix(idx);
    var name := FileName(ts, idx);
    assert name == FixedWidth(ts, 6) + t;
    assert name[6..] == t;
    assert name[6..13] == t[..7];
    assert name[13..18] == t[7..12];
    assert name[18..] == t[12..];
  }

  /** While the second fits six digits and the index five, the name has the
      fixed 22-character shape and encodes the pair without loss. */
  lemma FileNameRoundTrip(ts: nat, idx: nat)
    requires ts < 1000000 && idx < 100000
    ensures |FileName(ts, idx)| == 22
    ensures ParseFileName(FileName(ts, idx)) == Some((ts, idx))
  {
    assert Pow10(6) == 1000000 && Pow10(5) == 100000;
    FileNameShape(ts, idx);
    FixedWidthRoundTrip(ts, 6);
    FixedWidthRoundTrip(idx, 5);
  }

  /** Names of earlier seconds sort first, whatever the frame indices, while
      the seconds are non-negative and fit the six-digit field. */
  lemma FileNameOrder(ts1: nat, idx1: nat, ts2: nat, idx2: nat)
    requires ts1 < ts2 < 1000000
    ensures LexLess(FileName(ts1, idx1), FileName(ts2, idx2))
  {
    assert Pow10(6) == 1000000;
    ZeroPadFits(ts1, 6);
    ZeroPadFits(ts2, 6);
    FixedWidthOrder(ts1, ts2, 6);
    LexLessExtend(ZeroPad(ts1, 6), ZeroPad(ts2, 6), IndexSuffix(idx1), IndexSuffix(idx2));
  }

  /** `total_frames // 2` in get_sample_frame: floor division, also for a
      negative reported count. */
  function Midpoint(totalFrames: int): (mid: int)
    ensures 2 * mid <= totalFrames < 2 * mid + 2
    ensures totalFrames >= 1 ==> 0 <= mid < totalFrames
  {
    totalFrames / 2
  }

  // ---------------------------------------------------------------------
  // Specification of the sampling loop
  // ---------------------------------------------------------------------

  /** The loop-carried variables `prev_roi`, `last_ts` and `frame_idx`. */
  datatype SamplerState = SamplerState(prevRoi: Option<Image>, lastTs: int, frameIdx: nat)

  const Start: SamplerState := SamplerState(None, -1, 0)

  /** What the loop did with one frame: seed the baseline, wait because the
      interval has not elapsed, or compare (and emit or not). */
  datatype Action = Seed | Wait | Compare(emit: bool)

  predicate IsCheck(a: Action) { a.Seed? || a.Compare? }

  /** A frame judged changed: its second, its index, and the full frame. */
  datatype Emission<F> = Emission(ts: int, idx: nat, frame: F)

  /** The state after a prefix of the stream, what was done with each frame
      of it, and what was emitted, in order. */
  datatype Trace<F> = Trace(state: SamplerState, actions: seq<Action>, emitted: seq<Emission<F>>)

  function RoiOf<F>(p: Params<F>, f: F): (roi: Image)
  {
    RoiSlice(p.toGray(f), p.roi)
  }

  function TsOf<F>(tf: TimedFrame<F>): (s: int)
  {
    Seconds(tf.ms)
  }

  /** The decision for one frame given the state before it: seed when there
      is no baseline yet, compare once the interval has elapsed since the last
      check, and emit a compared frame whose change reaches the threshold. */
  function Decide<F>(p: Params<F>, st: SamplerState, tf: TimedFrame<F>): (a: Action)
    ensures a == Seed <==> st.prevRoi.None?
    ensures a.Compare? <==> st.prevRoi.Some? && (TsOf(tf) - st.lastTs) as real >= p.checkInterval
    ensures a.Compare? ==>
      (a.emit <==> 1.0 - p.ssim(RoiOf(p, tf.frame), st.prevRoi.value) >= p.threshold)
  {
    if st.prevRoi.None? then Seed
    else if (TsOf(tf) - st.lastTs) as real >= p.checkInterval then
      Compare(1.0 - p.ssim(RoiOf(p, tf.frame), st.prevRoi.value) >= p.threshold)
    else Wait
  }

  /** The state after one frame: a seed or a check moves the baseline and the
      last-check second to this frame; every frame advances the index. */
  function Advance<F>(p: Params<F>, st: SamplerState, tf: TimedFrame<F>): (next: SamplerState)
    ensures next.frameIdx == st.frameIdx + 1
    ensures next.prevRoi.Some?
    ensures IsCheck(Decide(p, st, tf)) ==>
      next.prevRoi == Some(RoiOf(p, tf.frame)) && next.lastTs == TsOf(tf)
    ensures !IsCheck(Decide(p, st, tf)) ==>
      next.prevRoi == st.prevRoi && next.lastTs == st.lastTs
  {
    if IsCheck(Decide(p, st, tf)) then SamplerState(Some(RoiOf(p, tf.frame)), TsOf(tf), st.frameIdx + 1)
    else st.(frameIdx := st.frameIdx + 1)
  }

  /** The sampler run over a stream, one frame at a time from the front. */
  function Scan<F>(p: Params<F>, fs: seq<TimedFrame<F>>): (t: Trace<F>)
    ensures |t.actions| == |fs| && t.state.frameIdx == |fs|
    ensures |t.emitted| <= |fs|
    decreases |fs|
  {
    if fs == [] then Trace(Start, [], [])
    else
      var t := Scan(p, fs[..|fs| - 1]);
      var tf := fs[|fs| - 1];
      var a := Decide(p, t.state, tf);
      Trace(Advance(p, t.state, tf), t.actions + [a],
            if a == Compare(true) then t.emitted + [Emission(TsOf(tf), t.state.frameIdx, tf.frame)]
            else t.emitted)
  }

  /** One more frame of the same stream extends the trace by one decision. */
  lemma ScanExtend<F>(p: Params<F>, fs: seq<TimedFrame<F>>, i: nat)
    requires i < |fs|
    ensures var t := Scan(p, fs[..i]);
      var a := Decide(p, t.state, fs[i]);
      Scan(p, fs[..i + 1]).state == Advance(p, t.state, fs[i])
      && Scan(p, fs[..i + 1]).actions == t.actions + [a]
      && Scan(p, fs[..i + 1]).emitted ==
         if a == Compare(true) then t.emitted + [Emission(TsOf(fs[i]), t.state.frameIdx, fs[i].frame)]
         else t.emitted
  {
    assert fs[..i + 1][..i] == fs[..i];
  }

  /** `os.path.join(os.path.dirname(video_path), "screenshots")`. */
  function OutDir(videoPath: string): (dir: string)
    ensures |DirName(videoPath)| + 11 <= |dir| <= |DirName(videoPath)| + 12
  {
    var d := DirName(videoPath);
    JoinShape(d, "screenshots");
    Join(d, "screenshots")
  }

  /** The output directory is the video's directory, then at most one '/',
      then `screenshots`: it sits next to the video. */
  lemma OutDirShape(videoPath: string)
    ensures var d, dir := DirName(videoPath), OutDir(videoPath);
      dir[..|d|] == d && dir[|dir| - 11..] == "screenshots"
      && (d == [] || d[|d| - 1] == '/' <==> |dir| == |d| + 11)
      && (|dir| == |d| + 12 ==> dir[|d|] == '/')
  {
    JoinShape(DirName(videoPath), "screenshots");
  }

  function OutputPath<F>(outDir: string, e: Emission<F>): (path: string)
  {
    Join(outDir, FileName(e.ts, e.idx))
  }

  /** The returned list: one path per emission, in emission order. */
  function Paths<F>(outDir: string, es: seq<Emission<F>>): (r: seq<string>)
    ensures |r| == |es|
  {
    if es == [] then [] else Paths(outDir, es[..|es| - 1]) + [OutputPath(outDir, es[|es| - 1])]
  }

  /** Entry k of the returned list is the path of emission k. */
  lemma {:induction false} PathsAt<F>(outDir: string, es: seq<Emission<F>>, k: nat)
    requires k < |es|
    ensures Paths(outDir, es)[k] == OutputPath(outDir, es[k])
    decreases |es|
  {
    if k < |es| - 1 {
      PathsAt(outDir, es[..|es| - 1], k);
    }
  }

  function WriteOf<F>(outDir: string, e: Emission<F>): (w: ImageWrite<F>)
  {
    ImageWrite(OutputPath(outDir, e), e.frame)
  }

  /** The image writes: one per emission, of the full frame, at its path. */
  function Writes<F>(outDir: string, es: seq<Emission<F>>): (r: seq<ImageWrite<F>>)
    ensures |r| == |es|
  {
    if es == [] then [] else Writes(outDir, es[..|es| - 1]) + [WriteOf(outDir, es[|es| - 1])]
  }

  /** Write k goes to the path of emission k and holds its full frame. */
  lemma {:induction false} WritesAt<F>(outDir: string, es: seq<Emission<F>>, k: nat)
    requires k < |es|
    ensures Writes(outDir, es)[k].path == OutputPath(outDir, es[k])
    ensures Writes(outDir, es)[k].frame == es[k].frame
    decreases |es|
  {
    if k < |es| - 1 {
      WritesAt(outDir, es[..|es| - 1], k);
    }
  }

  /** One more emission appends one path and one write. */
  lemma OutputsSnoc<F>(outDir: string, es: seq<Emission<F>>, e: Emission<F>)
    ensures Paths(outDir, es + [e]) == Paths(outDir, es) + [OutputPath(outDir, e)]
    ensures Writes(outDir, es + [e]) == Writes(outDir, es) + [WriteOf(outDir, e)]
  {
    assert (es + [e])[..|es|] == es;
  }

  // ---------------------------------------------------------------------
  // The sampling loop
  // ---------------------------------------------------------------------

  /**
   * `extract_frames_with_changes`: open the video, walk its frames once, and
   * return the paths of the frames judged changed; `writes` records the
   * image writes in the order they happen. The result of each write is not
   * looked at, so a failed write never stops the scan.
   */
  method ExtractFramesWithChanges<F>(videoPath: string, video: Video<F>, p: Params<F>)
    returns (result: Result<seq<string>, VideoError>, writes: seq<ImageWrite<F>>)
    ensures video.Unopenable? ==> result == Failure(CannotOpenVideo(videoPath)) && writes == []
    ensures video.Opened? ==>
      var t := Scan(p, video.frames);
      result == Success(Paths(OutDir(videoPath), t.emitted))
      && writes == Writes(OutDir(videoPath), t.emitted)
  {
    if video.Unopenable? {
      return Failure(CannotOpenVideo(videoPath)), [];
    }
    var frames := video.frames;
    var outputFiles: seq<string> := [];
    var prevRoi: Option<Image> := None;
    var lastTs := -1;
    var frameIdx: nat := 0;
    var outDir := OutDir(videoPath);
    writes := [];

    var i := 0;
    while i < |frames|
      invariant 0 <= i <= |frames|
      invariant SamplerState(prevRoi, lastTs, frameIdx) == Scan(p, frames[..i]).state
      invariant outputFiles == Paths(outDir, Scan(p, frames[..i]).emitted)
      invariant writes == Writes(outDir, Scan(p, frames[..i]).emitted)
    {
      var tf := frames[i];
      ScanExtend(p, frames, i);
      var gray := p.toGray(tf.frame);
      var roiFrame := RoiSlice(gray, p.roi);
      var tsS := Seconds(tf.ms);

      if prevRoi.None? {
        prevRoi := Some(roiFrame);
        lastTs := tsS;
        frameIdx := frameIdx + 1;
        i := i + 1;
        continue;
      }

      if (tsS - lastTs) as real >= p.checkInterval {
        var ssim := p.ssim(roiFrame, prevRoi.value);
        var diffScore := 1.0 - ssim;
        if diffScore >= p.threshold {
          OutputsSnoc(outDir, Scan(p, frames[..i]).emitted, Emission(tsS, frameIdx, tf.frame));
          var fpath := Join(outDir, FileName(tsS, frameIdx));
          writes := writes + [ImageWrite(fpath, tf.frame)];
          outputFiles := outputFiles + [fpath];
        }
        prevRoi := Some(roiFrame);
        lastTs := tsS;
      }
      frameIdx := frameIdx + 1;
      i := i + 1;
    }
    assert frames[..|frames|] == frames;
    return Success(outputFiles), writes;
  }
}
