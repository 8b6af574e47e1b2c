# Change-detection frame sampler: a Dafny model

This project models the core of a video screenshot extractor. The core is the
change-detection sampler `extract_frames_with_changes` in `extraction.py`. It
reads a video frame by frame and cuts a fixed region of interest (ROI) out of
the grayscale version of each frame. Every `check_interval_s` whole seconds it
compares that region with the region kept at the previous check. When the
change score `1 - SSIM` reaches `threshold`, it saves the full frame as
`{seconds:06d}s_frame{index:05d}.png` in a `screenshots` directory next to the
video, and it returns the list of saved paths. The model also covers the
midpoint arithmetic of `get_sample_frame`.

Files:

- `extraction.dfy`, module `Extraction`: the data model (ROI, timed frames,
  the video as a stream, the sampler state) and the helpers: Python slicing,
  the ROI cut, flooring to seconds, the file name and the midpoint. It holds
  the specification `Scan` of the loop, one decision per frame
  (`Seed | Wait | Compare(emit)`). It holds the loop itself,
  `ExtractFramesWithChanges`, a `method` with a `while` loop over the frame
  sequence. That method carries the source's three loop variables and its
  output list, and it is proved equal to `Scan`.
- `sampler_properties.dfy`, module `SamplerProperties`: what the loop
  guarantees, as lemmas about `Scan`.
- `sampler_scenarios.dfy`, module `SamplerScenarios`: two proved scenarios.
  One shows baseline drift. The other is a 20-second video with one sharp cut.
- `pystr.dfy`, module `PyStr`: the parts of Python's semantics that the
  output names depend on. These are the `0Nd` format, `str` ordering, and
  POSIX `os.path.join` and `os.path.dirname`.
- `wrappers.dfy`, module `Wrappers`: `Option` and `Result`.

Modelling choices:

- Frames are a type parameter `F`. Grayscale conversion (`cv2.cvtColor`) and
  SSIM (`skimage`) are function values in `Params`. Nothing is assumed about
  them; in particular SSIM may be negative or above 1.
- The decoder position is an integer number of milliseconds. `Seconds`
  floors it, as `int(ts_ms // 1000)` does.
- `threshold` and `check_interval_s` are reals, because the source types them
  `float`. Float rounding is not modelled.
- Opening the video yields `Unopenable` or `Opened(frames)`. A failed open
  becomes `Failure(CannotOpenVideo(path))`, which mirrors the `IOError` raised
  at extraction.py:28-29.
- The sampler's `writes` out-parameter records each `cv2.imwrite` call: the
  path and the full frame (not the ROI). The write's result is ignored, as in
  the source, so a failed write never stops the scan.

What the code does, where a reader might expect otherwise:

- The result of `cv2.imwrite` is never looked at (extraction.py:66). The
  path is appended anyway, so a failed write never aborts the scan.
- The SSIM score is used as returned, with no bounds check
  (extraction.py:59-62). The model assumes no bounds on it either.
- `cap.release()` is called only when the loop ends normally
  (extraction.py:74). Handles are not modelled at all (see Left out).
- `check_interval_s` is not checked by the code; any value is accepted. So
  the sampler has no `requires` on it, and only the ordering lemmas ask for a
  positive interval.

## Model

| member | source | states |
|---|---|---|
| `Extraction.ExtractFramesWithChanges` | extraction.py:15-75 | An unopenable video fails with `CannotOpenVideo(path)` and writes nothing. Otherwise the loop returns exactly the paths of `Scan`'s emissions, in order, and writes each emitted full frame at its path. |
| `Extraction.PySlice` | extraction.py:46 | Python `s[lo:hi]` for non-negative bounds clips to the length. An empty range gives an empty slice, and element i is `s[lo + i]`. |
| `Extraction.RoiSlice` | extraction.py:46 | The ROI cut has as many rows as the clipped row slice. Row i is the clipped column slice of frame row `row + i`. |
| `Extraction.RoiInsideFrame` | extraction.py:46 | For an ROI inside an H x W frame (what app.py's input bounds ensure), the cut is exactly height x width, and pixel (i, j) is frame pixel (row + i, col + j). |
| `Extraction.Seconds` | extraction.py:48-49 | The timestamp is the floor of ms / 1000: `s*1000 <= ms < s*1000 + 1000`. |
| `Extraction.FileName` | extraction.py:64 | The name is at least 22 characters long and never starts with '/', so joining it to the output directory keeps the directory. |
| `Extraction.FileNameRoundTrip` | extraction.py:64 | For seconds in [0, 10^6) and index below 10^5, the name is exactly 22 characters. It parses back to the same (seconds, index) pair, so distinct pairs get distinct names. |
| `Extraction.FileNameShape` | extraction.py:64 | For seconds in [0, 10^6) and index below 10^5, the name is six digits of the second, `s_frame`, five digits of the index and `.png`, 22 characters in all. |
| `Extraction.FileNameOrder` | extraction.py:64 | For seconds in [0, 10^6), a name with an earlier second sorts strictly first as a Python string, whatever the frame indices. |
| `PyStr.ZeroPad` | extraction.py:64 | The `0Nd` format is at least N characters long and never truncates. Zero padding is added only up to N: a result longer than N has no leading zero (after the '-' for a negative number). |
| `PyStr.ZeroPadValue` | extraction.py:64 | The digits of the `0Nd` format spell the number: the whole string for a non-negative number, everything after the leading '-' for a negative one. |
| `PyStr.DigitsValue` | extraction.py:64 | The decimal spelling of a number reads back as that number. |
| `PyStr.ZeroPadFits` | extraction.py:64 | A number below 10^N formats to exactly N digits, equal to the fixed-width reference spelling. |
| `PyStr.FixedWidthOrder` | extraction.py:64 | Fixed-width decimal spellings sort as strings in the same order as the numbers they spell. |
| `PyStr.FixedWidthRoundTrip` | extraction.py:64 | A fixed-width spelling reads back as the number it spells. |
| `PyStr.JoinShape` | extraction.py:65 | `os.path.join(a, b)` is `b` when `b` is absolute. Otherwise it is `a`, then a '/' exactly when `a` is non-empty and does not end in '/', then `b`. |
| `PyStr.JoinKeepsOrder` | extraction.py:65 | Joining one directory to two relative names keeps their string order. |
| `PyStr.DirName` | extraction.py:37 | `os.path.dirname` is a prefix of the path, ending at or before its last '/'. It is empty exactly when the path has no '/'. Only slashes lie between it and the last component. If everything up to the last '/' is slashes, it keeps them all. Otherwise it ends in a character other than '/'. |
| `Extraction.OutDir` | extraction.py:37 | The output directory is 11 or 12 characters longer than the video's directory; `OutDirShape` says what those characters are. |
| `Extraction.OutDirShape` | extraction.py:37 | The output directory starts with the video's directory and ends with `screenshots`. A separating character is added exactly when the directory is non-empty and does not already end in '/', and that character is '/'. |
| `Extraction.Midpoint` | extraction.py:87-88 | `total // 2` is floor division. For a count of at least 1 it is a valid frame index, so a one-frame video gives index 0. |
| `Extraction.Paths` | extraction.py:64-67 | The returned list has one entry per emission. |
| `Extraction.PathsAt` | extraction.py:64-67 | Entry k of the returned list is the output directory joined with the name of emission k's second and index. |
| `Extraction.Writes` | extraction.py:64-66 | There is one image write per emission. |
| `Extraction.WritesAt` | extraction.py:64-66 | Write k goes to emission k's path and contains its full frame. |
| `Extraction.OutputsSnoc` | extraction.py:64-67 | One more emission appends exactly one path and one write at the end, and leaves the earlier ones as they were. |
| `Extraction.Decide` | extraction.py:51-62 | One frame's decision, given the state before it: seed exactly when there is no baseline; compare exactly when there is one and the frame's second is at least the interval past the last check; emit a compared frame exactly when `1 - ssim` reaches the threshold. Over a whole stream this is characterised by `Decision`. |
| `Extraction.Advance` | extraction.py:51-72 | Every frame advances `frame_idx` by one and leaves a baseline set. A seed or a compare moves the baseline and `last_ts` to this frame; a wait leaves both unchanged. Over a whole stream this is characterised by `BaselineIsLastCheck`. |
| `Extraction.Scan` | extraction.py:40-72 | The loop over a stream: one decision per frame, `frame_idx` ends at the number of frames, and there are at most as many emissions as frames. Its emissions are characterised by `EmissionsAreChangedChecks`. |
| `SamplerProperties.LastCheck` | extraction.py:69-70 | The index of the most recent frame that set the baseline (a seed or a comparison). Every later frame only waited. |
| `SamplerProperties.ScanShape` | extraction.py:51-72 | `frame_idx` ends equal to the number of frames read, with one decision per frame. The baseline is set exactly when a frame was read. A stream of zero or one frame emits nothing. |
| `SamplerProperties.ScanPrefix` | extraction.py:40-72 | Decisions and emissions on a prefix of the stream are prefixes of those on the whole stream: later frames never change earlier outcomes. |
| `SamplerProperties.ActionAt` | extraction.py:51-72 | The decision on frame k depends only on the state that frames 0..k-1 left behind. |
| `SamplerProperties.FirstFrameSeeds` | extraction.py:51-55 | The first frame only seeds the baseline and is never compared or emitted. No later frame seeds. |
| `SamplerProperties.BaselineIsLastCheck` | extraction.py:58-70 | After any non-empty stream, `prev_roi` and `last_ts` are the ROI and second of the most recent check, whether or not that check emitted. Waiting frames leave both unchanged. |
| `SamplerProperties.Decision` | extraction.py:58-67 | Let j be the last check before frame k > 0. Frame k is compared iff its second is at least the interval past frame j's, and it waits otherwise. A compared frame is emitted iff `1 - ssim(roi_k, roi_j) >= threshold`. |
| `SamplerProperties.ConsecutiveChecksSpaced` | extraction.py:58-70 | Two consecutive checks are at least `check_interval_s` seconds apart. |
| `SamplerProperties.CheckTimesIncrease` | extraction.py:58-70 | With a positive interval, any two checks are at least the interval apart, so checked seconds strictly increase. |
| `SamplerProperties.EmissionsAreChangedChecks` | extraction.py:62-67 | The emissions are exactly the compared frames whose change reached the threshold, in stream order. Each carries its own second, frame index and full frame, and the indices strictly increase. |
| `SamplerProperties.EmissionsAreChecks` | extraction.py:62-67 | Every emission is a compared frame whose change reached the threshold, with its own second, index and full frame; emission indices strictly increase. |
| `SamplerProperties.ChangedChecksEmitted` | extraction.py:62-67 | Every compared frame whose change reached the threshold is emitted. |
| `SamplerProperties.NoCheckWithinFirstInterval` | extraction.py:51-58 | If every frame is less than one interval past the first frame, nothing is compared and the result is empty. |
| `SamplerProperties.EmittedTimesIncrease` | extraction.py:58-70 | With a positive interval, emitted seconds are at least the interval apart and strictly increase. |
| `SamplerProperties.PathsSorted` | extraction.py:64-67 | With a positive interval and decoder positions in [0, 10^9) ms, the returned paths strictly increase as Python strings. So the caller's `sorted(outs)` keeps the order of discovery, and no path is returned twice. |
| `SamplerProperties.OutputPathOrder` | extraction.py:64-65 | In one directory, the path of an earlier second sorts strictly before, and so differs from, the path of a later one, while both seconds are in [0, 10^6). |
| `SamplerProperties.NonPositiveThresholdEmitsEveryCheck` | extraction.py:59-62 | With threshold <= 0 and a similarity that never exceeds 1, every compared frame is emitted. |
| `SamplerScenarios.BaselineDriftScenario` | extraction.py:58-70 | Three frames 5 s apart. Each step changes by 0.05, below the 0.1 threshold, while first to last changes by 0.15. Nothing is emitted, because the baseline follows every check. |
| `SamplerScenarios.SharpChangeScenario` | extraction.py:40-72 | A 20 s video at 1 frame per second is checked every 5 s with threshold 0.1 and cuts only at second 12. Exactly one frame is emitted: second 15, index 15. |

## Left out

- OpenCV video I/O (`cv2.VideoCapture`, `cap.read`, `cap.get`, `cap.release`) is not modelled. The stream is an input sequence of (milliseconds, frame) pairs, and a failed open is the `Unopenable` input.
- `os.makedirs` for the output directory, and its failures, are not modelled.
- Writing the image file is recorded in a write log but not performed. Its return value is ignored, as in the source.
- Grayscale conversion and SSIM are foreign floating-point library code. They are parameters with no properties assumed. A zero-area ROI is passed to them unchanged, and what SSIM does with it is not modelled.
- Exceptions raised by foreign calls are not modelled. In particular `compare_ssim` raises on images smaller than its 7x7 window (extraction.py:59), and app.py:65-70 and app.py:80-85 allow an ROI as small as 1x1. The real scan then aborts with an exception, and files already written stay on disk; the model's `ssim` parameter always returns a value.
- The default `check_interval_s = 5.0` (extraction.py:19) is not modelled; the interval is always passed explicitly.
- Midpoint: the `int(...)` truncation of the float frame count (extraction.py:87) is not modelled; the count is already an integer.
- `get_video_dimensions` only reads decoder properties and is not modelled.
- The seek and read in `get_sample_frame`, and its "Could not read frame at midpoint" error, are not modelled. Only the midpoint arithmetic is.
- ROI bounds are `nat`. Python's negative indices, which wrap from the end, are not modelled; the only caller (app.py) builds the ROI from non-negative inputs.
- Decoder positions are whole milliseconds. A fractional position is floored the same way, but its sub-millisecond part is not represented.
- Python float arithmetic on `threshold`, `check_interval_s` and `1 - ssim` is modelled as exact real arithmetic.
- PathsSorted: states the name order only while seconds stay below 10^6, because wider seconds break the fixed-width field and the order with it, and only for non-negative seconds: a negative second is written `-0000N`, and such names sort in reverse time order.
- FileNameRoundTrip: states decoding only for names whose fields fit their widths (seconds in [0, 10^6), index below 10^5).
- app.py (the Streamlit interface, zip packaging, slide export) and ocr.py (a text-recognition wrapper) are outside the core. `add_image_and_text_slides`, which app.py imports, is not part of this model.
