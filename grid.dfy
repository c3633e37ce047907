/**
 * The grid compositor: trial vid's frames are tiled into cell
 * (vid / Columns, vid % Columns) of a Columns x Rows grid, one composite
 * canvas per window offset.
 *
 * A canvas is modelled by its placements: the pixel origin of each paste
 * and the frame pasted there. A blank canvas has none; a later paste at the
 * same origin replaces the earlier one.
 */
module Grid {
  import opened Wrappers
  import opened Trials

  const Rows: nat := 2
  const Columns: nat := 3

  /** A grid cell. */
  datatype Cell = Cell(row: nat, col: nat)

  /** A pixel origin on the canvas. */
  datatype Point = Point(x: int, y: int)

  /** A composite canvas, by the frames pasted at each origin. */
  type Canvas<F> = map<Point, F>

  /** The cell of trial vid: the row-major position vid in a grid Columns wide. */
  function CellOf(vid: nat): (c: Cell)
    ensures c.col < Columns
    ensures c.row * Columns + c.col == vid
  {
    Cell(vid / Columns, vid % Columns)
  }

  /** The pixel origin at which trial vid's frames are pasted. */
  function Origin(vid: nat, frameWidth: nat, frameHeight: nat): Point {
    var c := CellOf(vid);
    Point(c.col * frameWidth, c.row * frameHeight)
  }

  /** Distinct trials get distinct cells. */
  lemma CellsDistinct(v1: nat, v2: nat)
    requires v1 != v2
    ensures CellOf(v1) != CellOf(v2)
  {
  }

  /** With frames of positive size, distinct trials are pasted at distinct origins. */
  lemma OriginsDistinct(v1: nat, v2: nat, frameWidth: nat, frameHeight: nat)
    requires v1 != v2
    requires frameWidth > 0 && frameHeight > 0
    ensures Origin(v1, frameWidth, frameHeight) != Origin(v2, frameWidth, frameHeight)
  {
    var c1, c2 := CellOf(v1), CellOf(v2);
    CellsDistinct(v1, v2);
    if c1.col != c2.col {
      MulInjective(c1.col, c2.col, frameWidth);
    } else {
      MulInjective(c1.row, c2.row, frameHeight);
    }
  }

  /** Scaling by a positive size keeps distinct numbers distinct. */
  lemma MulInjective(a: nat, b: nat, m: nat)
    requires a != b && m > 0
    ensures a * m != b * m
  {
    if a < b {
      assert a * m < b * m by { MulStrict(a, b, m); }
    } else {
      assert b * m < a * m by { MulStrict(b, a, m); }
    }
  }

  /** Scaling by a positive size keeps strict order. */
  lemma MulStrict(a: nat, b: nat, m: nat)
    requires a < b && m > 0
    ensures a * m < b * m
  {
    assert b * m == a * m + (b - a) * m;
  }

  /**
   * The first Rows * Columns trials are pasted wholly inside the
   * (Columns * frameWidth) x (Rows * frameHeight) canvas.
   */
  lemma CellInsideCanvas(vid: nat, frameWidth: nat, frameHeight: nat)
    requires vid < Rows * Columns
    ensures var p := Origin(vid, frameWidth, frameHeight);
      0 <= p.x && p.x + frameWidth <= Columns * frameWidth &&
      0 <= p.y && p.y + frameHeight <= Rows * frameHeight
  {
    var c := CellOf(vid);
    assert c.row < Rows;
    assert (c.col + 1) * frameWidth <= Columns * frameWidth by { MulMono(c.col + 1, Columns, frameWidth); }
    assert (c.row + 1) * frameHeight <= Rows * frameHeight by { MulMono(c.row + 1, Rows, frameHeight); }
  }

  /** Scaling keeps order. */
  lemma MulMono(a: nat, b: nat, m: nat)
    requires a <= b
    ensures a * m <= b * m
  {
    assert b * m == a * m + (b - a) * m;
  }

  /** Trials beyond the grid's capacity are pasted below the canvas, where nothing of them shows. */
  lemma CellBelowCanvas(vid: nat, frameWidth: nat, frameHeight: nat)
    requires vid >= Rows * Columns
    ensures Origin(vid, frameWidth, frameHeight).y >= Rows * frameHeight
  {
    var c := CellOf(vid);
    assert c.row >= Rows;
    MulMono(Rows, c.row, frameHeight);
  }

  /**
   * Composite k after the frames of the first n videos have been pasted in
   * video order: video vid contributes its frame k at its origin when it has
   * one.
   */
  function CompositeAfter<F>(videos: seq<seq<F>>, n: nat, k: nat, frameWidth: nat, frameHeight: nat): Canvas<F>
    requires n <= |videos|
  {
    if n == 0 then map[]
    else
      var c := CompositeAfter(videos, n - 1, k, frameWidth, frameHeight);
      if k < |videos[n - 1]| then c[Origin(n - 1, frameWidth, frameHeight) := videos[n - 1][k]] else c
  }

  /**
   * With frames of positive size, composite k holds frame k of every video
   * that has one, at that video's origin.
   */
  lemma {:induction false} CompositeHoldsFrame<F>(videos: seq<seq<F>>, n: nat, k: nat, frameWidth: nat, frameHeight: nat, vid: nat)
    requires vid < n <= |videos|
    requires k < |videos[vid]|
    requires frameWidth > 0 && frameHeight > 0
    ensures Origin(vid, frameWidth, frameHeight) in CompositeAfter(videos, n, k, frameWidth, frameHeight)
    ensures CompositeAfter(videos, n, k, frameWidth, frameHeight)[Origin(vid, frameWidth, frameHeight)] == videos[vid][k]
    decreases n
  {
    if vid < n - 1 {
      CompositeHoldsFrame(videos, n - 1, k, frameWidth, frameHeight, vid);
      OriginsDistinct(vid, n - 1, frameWidth, frameHeight);
    }
  }

  /** Composite k holds nothing but the frames k of the videos that have one. */
  lemma {:induction false} CompositeHoldsOnlyFrames<F>(videos: seq<seq<F>>, n: nat, k: nat, frameWidth: nat, frameHeight: nat, p: Point)
    requires n <= |videos|
    requires p in CompositeAfter(videos, n, k, frameWidth, frameHeight)
    ensures exists vid :: 0 <= vid < n && k < |videos[vid]| && Origin(vid, frameWidth, frameHeight) == p
    decreases n
  {
    if p != Origin(n - 1, frameWidth, frameHeight) || k >= |videos[n - 1]| {
      CompositeHoldsOnlyFrames(videos, n - 1, k, frameWidth, frameHeight, p);
    }
  }

  /**
   * Builds the composites: one blank canvas per frame of the first video,
   * then, video by video and frame by frame, frame fid of video vid pasted
   * into canvas fid at the video's origin. Fails when there is no video, or
   * when a video has more frames than the first.
   */
  method Composite<F>(videos: seq<seq<F>>, frameWidth: nat, frameHeight: nat) returns (r: Result<array<Canvas<F>>, Error>)
    ensures r.Err? <==> |videos| == 0 || exists vid :: 0 <= vid < |videos| && |videos[vid]| > |videos[0]|
    ensures r.Ok? ==> fresh(r.value) && r.value.Length == |videos[0]|
    ensures r.Ok? ==> forall k :: 0 <= k < r.value.Length ==>
      r.value[k] == CompositeAfter(videos, |videos|, k, frameWidth, frameHeight)
  {
    if |videos| == 0 {
      return Err(NoVideos);
    }
    var finalVideo := new Canvas<F>[|videos[0]|](_ => map[]);
    var vid := 0;
    while vid < |videos|
      invariant 0 <= vid <= |videos|
      invariant forall m :: 0 <= m < vid ==> |videos[m]| <= |videos[0]|
      invariant forall k :: 0 <= k < finalVideo.Length ==>
        finalVideo[k] == CompositeAfter(videos, vid, k, frameWidth, frameHeight)
    {
      var video := videos[vid];
      var origin := Origin(vid, frameWidth, frameHeight);
      var fid := 0;
      while fid < |video|
        invariant 0 <= fid <= |video|
        invariant fid <= finalVideo.Length
        invariant forall k :: 0 <= k < fid ==>
          finalVideo[k] == CompositeAfter(videos, vid + 1, k, frameWidth, frameHeight)
        invariant forall k :: fid <= k < finalVideo.Length ==>
          finalVideo[k] == CompositeAfter(videos, vid, k, frameWidth, frameHeight)
      {
        if fid >= finalVideo.Length {
          return Err(FrameOutOfRange(vid, fid));
        }
        finalVideo[fid] := finalVideo[fid][origin := video[fid]];
        fid := fid + 1;
      }
      forall k | fid <= k < finalVideo.Length
        ensures finalVideo[k] == CompositeAfter(videos, vid + 1, k, frameWidth, frameHeight)
      {
      }
      vid := vid + 1;
    }
    return Ok(finalVideo);
  }
}
