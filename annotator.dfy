/**
 * The per-trial annotator: for every offset of a trial's window, which
 * overlays the frame carries.
 *
 * Images are opaque here; an annotated frame is the record of the source
 * frame it was read from and the texts drawn on it. Timestamps are kept as
 * integer frame ticks (one tick is 1/120 s) instead of formatted
 * milliseconds.
 *
 * The MtP value is latched in a single script-wide variable: it is set at
 * the offset whose source frame is the trial's end frame, read on every
 * later frame, and never reset, not even between trials.
 */
module Annotator {
  import opened Wrappers
  import opened Trials

  /**
   * One annotated frame: the source frame it shows, the headset label, the
   * timestamp in ticks, whether "Contact!" is drawn, and the MtP value drawn
   * (None when MtP is not drawn).
   */
  datatype Annotation = Annotation(frameIndex: int, hmd: string, tick: int, contact: bool, mtp: Option<int>)

  /**
   * The latch when the loop reaches offset i of trial t, starting from
   * latchIn: the timestamp of the capture offset once that offset is passed,
   * the incoming value otherwise. The captured value is the trial's span.
   */
  function LatchBefore(t: Trial, latchIn: Option<int>, i: nat): (r: Option<int>)
    ensures 0 <= CaptureOffset(t) < i ==> r == Some(Span(t))
    ensures !(0 <= CaptureOffset(t) < i) ==> r == latchIn
  {
    if 0 <= CaptureOffset(t) < i then Some(Before + CaptureOffset(t)) else latchIn
  }

  /** The annotation of offset i of trial t, when the latch held latchIn as the trial began. */
  function AnnotationAt(t: Trial, latchIn: Option<int>, i: nat): (a: Annotation)
    ensures a.frameIndex == t.frameStart + Before + i
    ensures a.hmd == t.hmd && a.tick == Before + i
    ensures a.contact <==> i >= -Before
    ensures a.mtp.Some? ==> a.frameIndex >= t.frameEnd
    ensures a.frameIndex >= t.frameEnd && CaptureOffset(t) >= 0 ==> a.mtp == Some(Span(t))
    ensures a.frameIndex >= t.frameEnd && CaptureOffset(t) < 0 ==> a.mtp == latchIn
  {
    var frameIndex := WindowStart(t) + i;
    Annotation(frameIndex, t.hmd, Before + i, frameIndex >= t.frameStart,
               if frameIndex >= t.frameEnd then LatchBefore(t, latchIn, i + 1) else None)
  }

  /** The annotated frames of a window of n frames of trial t, in increasing offset order. */
  function TrialFrames(t: Trial, latchIn: Option<int>, n: nat): seq<Annotation> {
    seq(n, j requires 0 <= j => AnnotationAt(t, latchIn, j))
  }

  /**
   * Whether annotating a window of n frames aborts: MtP must be drawn from
   * the first frame on, but the end frame lies before the window, so nothing
   * is captured, and no earlier trial left a value in the latch.
   */
  predicate Fails(t: Trial, latchIn: Option<int>, n: nat) {
    latchIn.None? && n > 0 && t.frameEnd < WindowStart(t)
  }

  /**
   * Annotates the window of trial t: fullLength frames from its window
   * start, in increasing frame order. The latch comes in and goes out.
   */
  method AnnotateTrial(t: Trial, fullLength: int, latchIn: Option<int>)
    returns (r: Result<seq<Annotation>, Error>, latchOut: Option<int>)
    ensures r.Err? <==> Fails(t, latchIn, FrameCount(fullLength))
    ensures r.Err? ==> r.error == UnboundLatch(WindowStart(t))
    ensures r.Ok? ==> r.value == TrialFrames(t, latchIn, FrameCount(fullLength))
    ensures r.Ok? ==> |r.value| == FrameCount(fullLength)
    ensures r.Ok? ==> forall j :: 0 <= j < |r.value| ==> r.value[j] == AnnotationAt(t, latchIn, j)
    ensures r.Ok? ==> latchOut == LatchBefore(t, latchIn, FrameCount(fullLength))
    ensures r.Ok? && latchIn.Some? ==> latchOut.Some?
    ensures r.Ok? ==> forall j, k :: 0 <= j <= k < |r.value| && r.value[j].mtp.Some? ==> r.value[k].mtp == r.value[j].mtp
  {
    var frameStart := t.frameStart + Before;
    var frameEnd := frameStart + fullLength;
    var video: seq<Annotation> := [];
    var latch := latchIn;
    var i := 0;
    var frameIndex := frameStart;
    while frameIndex < frameEnd
      invariant frameIndex == frameStart + i
      invariant 0 <= i <= FrameCount(fullLength)
      invariant |video| == i
      invariant forall j :: 0 <= j < i ==> video[j] == AnnotationAt(t, latchIn, j)
      invariant latch == LatchBefore(t, latchIn, i)
      invariant !Fails(t, latchIn, i)
    {
      if frameIndex == t.frameEnd {
        latch := Some(Before + i);
      }
      var mtp := None;
      if frameIndex >= t.frameEnd {
        if latch.None? {
          return Err(UnboundLatch(frameIndex)), latch;
        }
        mtp := latch;
      }
      var contact := frameIndex >= t.frameStart;
      video := video + [Annotation(frameIndex, t.hmd, Before + i, contact, mtp)];
      i := i + 1;
      frameIndex := frameIndex + 1;
    }
    r, latchOut := Ok(video), latch;
    assert video == TrialFrames(t, latchIn, i);
    forall j, k | 0 <= j <= k < |video| && video[j].mtp.Some?
      ensures video[k].mtp == video[j].mtp
    {
      assert video[j] == AnnotationAt(t, latchIn, j);
      assert video[k] == AnnotationAt(t, latchIn, k);
    }
  }

  /** The annotated video of trial k: its window of the shared length, with the latch the earlier trials left. */
  function TrialVideo(trials: seq<Trial>, fullLength: int, k: nat): seq<Annotation>
    requires k < |trials|
  {
    TrialFrames(trials[k], LatchAfter(trials, fullLength, k), FrameCount(fullLength))
  }

  /** The annotated videos of all trials, in table order. */
  function Videos(trials: seq<Trial>, fullLength: int): seq<seq<Annotation>> {
    seq(|trials|, k requires 0 <= k < |trials| => TrialVideo(trials, fullLength, k))
  }

  /** The latch after the first k trials have been annotated; the script starts with it unset. */
  function LatchAfter(trials: seq<Trial>, fullLength: int, k: nat): Option<int>
    requires k <= |trials|
  {
    if k == 0 then None
    else LatchBefore(trials[k - 1], LatchAfter(trials, fullLength, k - 1), FrameCount(fullLength))
  }

  /** Whether the script aborts while annotating trial m, with the latch the earlier trials left. */
  predicate TrialFails(trials: seq<Trial>, fullLength: int, m: nat)
    requires m < |trials|
  {
    Fails(trials[m], LatchAfter(trials, fullLength, m), FrameCount(fullLength))
  }

  /** Whether the script aborts while annotating one of the first k trials. */
  predicate AnyFails(trials: seq<Trial>, fullLength: int, k: nat)
    requires k <= |trials|
  {
    exists m :: 0 <= m < k && TrialFails(trials, fullLength, m)
  }

  /** The first k + 1 trials abort exactly when the first k do or trial k does. */
  lemma AnyFailsStep(trials: seq<Trial>, fullLength: int, k: nat)
    requires k < |trials|
    ensures AnyFails(trials, fullLength, k + 1) <==> AnyFails(trials, fullLength, k) || TrialFails(trials, fullLength, k)
  {
    if AnyFails(trials, fullLength, k + 1) {
      var m :| 0 <= m < k + 1 && TrialFails(trials, fullLength, m);
      if m < k {
        assert AnyFails(trials, fullLength, k);
      }
    }
  }

  /** Annotates every trial in table order, threading the one script-wide latch through them. */
  method AnnotateAll(trials: seq<Trial>, fullLength: int) returns (r: Result<seq<seq<Annotation>>, Error>)
    ensures r.Err? <==> AnyFails(trials, fullLength, |trials|)
    ensures r.Err? ==> r.error.UnboundLatch?
    ensures r.Ok? ==> r.value == Videos(trials, fullLength)
    ensures r.Ok? ==> |r.value| == |trials|
    ensures r.Ok? ==> forall k :: 0 <= k < |trials| ==> r.value[k] == TrialVideo(trials, fullLength, k)
  {
    var videos: seq<seq<Annotation>> := [];
    var latch: Option<int> := None;
    var k := 0;
    while k < |trials|
      invariant 0 <= k <= |trials|
      invariant |videos| == k
      invariant forall m :: 0 <= m < k ==> videos[m] == TrialVideo(trials, fullLength, m)
      invariant latch == LatchAfter(trials, fullLength, k)
      invariant !AnyFails(trials, fullLength, k)
    {
      var video, latchOut := AnnotateTrial(trials[k], fullLength, latch);
      if video.Err? {
        assert TrialFails(trials, fullLength, k);
        return Err(video.error);
      }
      assert latchOut == LatchAfter(trials, fullLength, k + 1);
      AnyFailsStep(trials, fullLength, k);
      videos := videos + [video.value];
      latch := latchOut;
      k := k + 1;
    }
    assert videos == Videos(trials, fullLength);
    r := Ok(videos);
  }

  /** Once some trial has captured a value, no later trial resets the latch. */
  lemma {:induction false} LatchNeverReset(trials: seq<Trial>, fullLength: int, k1: nat, k2: nat)
    requires k1 <= k2 <= |trials|
    requires LatchAfter(trials, fullLength, k1).Some?
    ensures LatchAfter(trials, fullLength, k2).Some?
    decreases k2
  {
    if k1 < k2 {
      LatchNeverReset(trials, fullLength, k1, k2 - 1);
    }
  }

  /**
   * After k trials the latch holds the span of the last trial among them
   * whose window contained its end frame.
   */
  lemma {:induction false} LatchIsLastCapture(trials: seq<Trial>, fullLength: int, j: nat, k: nat)
    requires j < k <= |trials|
    requires Captures(trials[j], FrameCount(fullLength))
    requires forall m :: j < m < k ==> !Captures(trials[m], FrameCount(fullLength))
    ensures LatchAfter(trials, fullLength, k) == Some(Span(trials[j]))
    decreases k
  {
    if j < k - 1 {
      LatchIsLastCapture(trials, fullLength, j, k - 1);
    }
  }

  /** If none of the first k trials captured a value, the latch is still unset. */
  lemma {:induction false} LatchUnsetWithoutCapture(trials: seq<Trial>, fullLength: int, k: nat)
    requires k <= |trials|
    requires forall m :: 0 <= m < k ==> !Captures(trials[m], FrameCount(fullLength))
    ensures LatchAfter(trials, fullLength, k) == None
    decreases k
  {
    if k > 0 {
      LatchUnsetWithoutCapture(trials, fullLength, k - 1);
    }
  }

  /**
   * A trial whose end frame lies before its window shows, on every frame,
   * the MtP value of the last earlier trial that captured one.
   */
  lemma StaleMtp(trials: seq<Trial>, fullLength: int, j: nat, k: nat, i: nat)
    requires j < k < |trials|
    requires Captures(trials[j], FrameCount(fullLength))
    requires forall m :: j < m < k ==> !Captures(trials[m], FrameCount(fullLength))
    requires trials[k].frameEnd < WindowStart(trials[k])
    requires i < FrameCount(fullLength)
    ensures Videos(trials, fullLength)[k][i].mtp == Some(Span(trials[j]))
  {
    LatchIsLastCapture(trials, fullLength, j, k);
  }

  /**
   * A trial whose end frame lies before its window, with no earlier capture,
   * aborts the script (when its window is not empty).
   */
  lemma FirstStaleTrialFails(trials: seq<Trial>, fullLength: int, k: nat)
    requires k < |trials|
    requires forall m :: 0 <= m < k ==> !Captures(trials[m], FrameCount(fullLength))
    requires trials[k].frameEnd < WindowStart(trials[k])
    requires fullLength > 0
    ensures AnyFails(trials, fullLength, |trials|)
  {
    LatchUnsetWithoutCapture(trials, fullLength, k);
    assert TrialFails(trials, fullLength, k);
  }
}
