/**
 * The whole animation script: size the shared window, annotate every
 * trial's frames, tile them into one composite per offset and write the
 * composites as numbered files.
 *
 * Opening, drawing on and saving images are not modelled: a written file is
 * its number and the composite canvas written under it, and the frame size
 * is a parameter.
 */
module Script {
  import opened Wrappers
  import opened Trials
  import opened Annotator
  import opened Grid

  /**
   * Writes the composites in order: composite k under file number k. The
   * result is the output directory, by file number.
   */
  method Save<F>(frames: seq<Canvas<F>>) returns (files: map<nat, Canvas<F>>)
    ensures forall k: nat :: k in files <==> k < |frames|
    ensures forall k: nat :: k < |frames| ==> files[k] == frames[k]
  {
    files := map[];
    var k := 0;
    while k < |frames|
      invariant 0 <= k <= |frames|
      invariant forall m: nat :: m in files <==> m < k
      invariant forall m: nat :: m < k ==> files[m] == frames[m]
    {
      files := files[k := frames[k]];
      k := k + 1;
    }
  }

  /**
   * File k shows, at each trial's origin, that trial's annotated frame at
   * offset k, annotated with the latch the earlier trials left.
   */
  ghost predicate ShowsTrialFrames(trials: seq<Trial>, fullLength: int, files: map<nat, Canvas<Annotation>>, frameWidth: nat, frameHeight: nat) {
    forall k, vid :: k in files && 0 <= vid < |trials| ==>
      Origin(vid, frameWidth, frameHeight) in files[k] &&
      k < |TrialVideo(trials, fullLength, vid)| &&
      files[k][Origin(vid, frameWidth, frameHeight)] == TrialVideo(trials, fullLength, vid)[k]
  }

  /** At trial vid's origin, composite k shows trial vid's annotated frame at offset k. */
  lemma CompositeShowsTrial(trials: seq<Trial>, fullLength: int, k: nat, frameWidth: nat, frameHeight: nat, vid: nat)
    requires k < fullLength && vid < |trials|
    requires frameWidth > 0 && frameHeight > 0
    ensures var c := CompositeAfter(Videos(trials, fullLength), |trials|, k, frameWidth, frameHeight);
      Origin(vid, frameWidth, frameHeight) in c &&
      k < |TrialVideo(trials, fullLength, vid)| &&
      c[Origin(vid, frameWidth, frameHeight)] == TrialVideo(trials, fullLength, vid)[k]
  {
    var vs := Videos(trials, fullLength);
    assert vs[vid] == TrialVideo(trials, fullLength, vid);
    CompositeHoldsFrame(vs, |vs|, k, frameWidth, frameHeight, vid);
  }

  /**
   * The written files show the composites of the annotated videos: file k
   * holds, at each trial's origin, that trial's annotated frame at offset k.
   */
  lemma FilesShowTrials(trials: seq<Trial>, fullLength: int, files: map<nat, Canvas<Annotation>>, frameWidth: nat, frameHeight: nat)
    requires forall k: nat :: k in files <==> k < fullLength
    requires forall k: nat :: k in files ==>
      files[k] == CompositeAfter(Videos(trials, fullLength), |trials|, k, frameWidth, frameHeight)
    ensures frameWidth > 0 && frameHeight > 0 ==> ShowsTrialFrames(trials, fullLength, files, frameWidth, frameHeight)
  {
    forall k, vid | k in files && 0 <= vid < |trials| && frameWidth > 0 && frameHeight > 0
      ensures Origin(vid, frameWidth, frameHeight) in files[k]
      ensures k < |TrialVideo(trials, fullLength, vid)|
      ensures files[k][Origin(vid, frameWidth, frameHeight)] == TrialVideo(trials, fullLength, vid)[k]
    {
      CompositeShowsTrial(trials, fullLength, k, frameWidth, frameHeight, vid);
    }
  }

  /** The written files hold frames only at the trials' origins. */
  lemma FilesShowOnlyTrials(trials: seq<Trial>, fullLength: int, files: map<nat, Canvas<Annotation>>, frameWidth: nat, frameHeight: nat)
    requires forall k: nat :: k in files ==>
      files[k] == CompositeAfter(Videos(trials, fullLength), |trials|, k, frameWidth, frameHeight)
    ensures forall k, p :: k in files && p in files[k] ==>
      exists vid :: 0 <= vid < |trials| && Origin(vid, frameWidth, frameHeight) == p
  {
    var vs := Videos(trials, fullLength);
    forall k, p | k in files && p in files[k]
      ensures exists vid :: 0 <= vid < |trials| && Origin(vid, frameWidth, frameHeight) == p
    {
      CompositeHoldsOnlyFrames(vs, |vs|, k, frameWidth, frameHeight, p);
    }
  }

  /**
   * Runs the script over the trial table, with frames of the given size.
   * It aborts on an empty table, when MtP must be drawn before any value was
   * latched, and when the window is empty (no image is ever opened, so there
   * is no frame size). Otherwise it writes fullLength files; file k shows,
   * at each trial's cell, that trial's annotated frame at offset k.
   */
  method Run(trials: seq<Trial>, frameWidth: nat, frameHeight: nat)
    returns (r: Result<map<nat, Canvas<Annotation>>, Error>)
    ensures |trials| == 0 ==> r == Err(EmptyTable)
    ensures |trials| > 0 ==>
      (r.Err? <==> FullLength(trials).value <= 0 || AnyFails(trials, FullLength(trials).value, |trials|))
    ensures |trials| > 0 && FullLength(trials).value <= 0 ==> r == Err(NoFrameOpened)
    ensures |trials| > 0 && AnyFails(trials, FullLength(trials).value, |trials|) ==> r.Err? && r.error.UnboundLatch?
    ensures r.Ok? ==> forall k: nat :: k in r.value <==> k < FullLength(trials).value
    ensures r.Ok? && frameWidth > 0 && frameHeight > 0 ==>
      ShowsTrialFrames(trials, FullLength(trials).value, r.value, frameWidth, frameHeight)
    ensures r.Ok? ==> forall k, p :: k in r.value && p in r.value[k] ==>
      exists vid :: 0 <= vid < |trials| && Origin(vid, frameWidth, frameHeight) == p
  {
    if |trials| == 0 {
      return Err(EmptyTable);
    }
    var fullLength := FullLength(trials).value;
    var videos := AnnotateAll(trials, fullLength);
    if videos.Err? {
      return Err(videos.error);
    }
    if fullLength <= 0 {
      return Err(NoFrameOpened);
    }
    ghost var vs := Videos(trials, fullLength);
    assert videos.value == vs;
    assert forall vid :: 0 <= vid < |vs| ==> |vs[vid]| == |vs[0]|;
    var composites := Composite(videos.value, frameWidth, frameHeight);
    if composites.Err? {
      // Every video has fullLength frames, so none is longer than the first.
      assert false;
    }
    var canvases := composites.value[..];
    var files := Save(canvases);
    forall k: nat | k in files
      ensures files[k] == CompositeAfter(vs, |trials|, k, frameWidth, frameHeight)
    {
      assert k < composites.value.Length;
      assert files[k] == canvases[k] == composites.value[k];
    }
    FilesShowTrials(trials, fullLength, files, frameWidth, frameHeight);
    FilesShowOnlyTrials(trials, fullLength, files, frameWidth, frameHeight);
    r := Ok(files);
  }
}
