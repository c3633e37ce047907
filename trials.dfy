/**
 * The trial table and the shared frame window of the animation script.
 *
 * Every trial is one row of the input table: the frame at which contact
 * starts, the frame at which the headset shows the reaction ("motion to
 * photon", MtP) and the headset label. All trials are cut to one shared
 * window length so that they can be tiled side by side.
 */
module Trials {
  import opened Wrappers

  /** Frames kept before a trial's start frame (a negative offset). */
  const Before: int := -20
  /** Frames kept after the longest trial's end frame. */
  const After: int := 20

  /** One row of the input table. The image file name pattern is not modelled. */
  datatype Trial = Trial(frameStart: int, frameEnd: int, hmd: string)

  /** The ways the script aborts. */
  datatype Error =
    | EmptyTable                        // the maximum over no rows is NaN; the window cannot be built
    | UnboundLatch(frameIndex: int)     // MtP is drawn before any value was ever latched
    | NoFrameOpened                     // no image was opened, so there is no frame size
    | NoVideos                          // the first video is asked for, but there is none
    | FrameOutOfRange(vid: nat, fid: nat) // a video is longer than the first one

  /** The reaction span of a trial, in frames. */
  function Span(t: Trial): int {
    t.frameEnd - t.frameStart
  }

  /** The largest span over a non-empty table. */
  function MaxSpan(trials: seq<Trial>): (m: int)
    requires |trials| > 0
    ensures forall t :: t in trials ==> Span(t) <= m
    ensures exists t :: t in trials && Span(t) == m
  {
    if |trials| == 1 then Span(trials[0])
    else
      var rest := MaxSpan(trials[1..]);
      assert trials == [trials[0]] + trials[1..];
      if Span(trials[0]) >= rest then Span(trials[0]) else rest
  }

  /**
   * The window length shared by every trial: the margins around the largest
   * span. It is the least length that holds every trial's span plus both
   * margins. There is none for an empty table.
   */
  function FullLength(trials: seq<Trial>): (r: Option<int>)
    ensures r.None? <==> |trials| == 0
    ensures r.Some? ==> forall t :: t in trials ==> Span(t) - Before + After <= r.value
    ensures r.Some? ==> exists t :: t in trials && Span(t) - Before + After == r.value
  {
    if |trials| == 0 then None else Some(-Before + MaxSpan(trials) + After)
  }

  /** The number of frames a window of the given length holds (an empty range when it is not positive). */
  function FrameCount(fullLength: int): nat {
    if fullLength > 0 then fullLength else 0
  }

  /** The first source frame of a trial's window. */
  function WindowStart(t: Trial): int {
    t.frameStart + Before
  }

  /** The offset in a trial's window at which the source frame is the trial's end frame. */
  function CaptureOffset(t: Trial): int {
    t.frameEnd - WindowStart(t)
  }

  /** Whether a window of n frames contains the trial's end frame. */
  predicate Captures(t: Trial, n: nat) {
    0 <= CaptureOffset(t) < n
  }

  /**
   * Every trial whose end frame is not before its window start has its end
   * frame inside its window of the shared length: the longest trial does
   * not cut any other trial short.
   */
  lemma EveryEndFrameInWindow(trials: seq<Trial>, t: Trial)
    requires t in trials
    requires t.frameEnd >= WindowStart(t)
    ensures Captures(t, FrameCount(FullLength(trials).value))
  {
    var len := FullLength(trials).value;
    assert Span(t) - Before + After <= len;
    assert CaptureOffset(t) == Span(t) - Before;
  }
}
