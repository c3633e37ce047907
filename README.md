# Motion-to-photon animation script: a Dafny model

The script `code/animate.py` builds a montage of recorded headset trials.
Every row of its input table is one trial: the frame at which contact
starts, the frame at which the headset shows the reaction, a headset label
and an image file pattern. The script does three things:

1. It sizes one window shared by all trials. That length is the largest reaction
   span plus 20 frames before the start frame and 20 frames after.
2. It reads each trial's window frame by frame and draws the overlays: the label,
   the timestamp, "Contact!" from the start frame on, and "MtP" from the end frame on.
   The MtP value is latched in one script-wide variable, which is set when the
   frame index equals the end frame and is never reset.
3. It tiles the trials into a 2 x 3 grid, one composite per window offset, and
   writes the composites as numbered files.

The model keeps this bookkeeping and treats images as opaque values:

- An annotated frame is the record of the source frame it was read from and
  what was drawn on it.
- A canvas is the map from paste origins to the frames pasted there.
- The output directory is the map from file numbers to canvases.

Timestamps are kept as integer frame ticks. The script shows tick × 1000 / 120
milliseconds.

Modules:

- `Wrappers`: `Option` and `Result`.
- `Trials` (`trials.dfy`): the margins, the trial record, the script's failure
  cases and the shared window length.
- `Annotator` (`annotator.dfy`): the per-trial frame loop and its latch. It also
  threads the latch across trials.
- `Grid` (`grid.dfy`): cell and origin arithmetic, and the composite loop, which
  pastes into an array of canvases in place.
- `Script` (`script.dfy`): the whole run and the save loop.

The script has no functions. Its loops become methods proved against
specification functions (`AnnotationAt`, `LatchAfter`, `Videos`,
`CompositeAfter`), and lemmas prove what the script promises about those
functions.

Trials beyond the sixth do not wrap around to cell (0, 0): the trial at
index 6 (the seventh) gets row 6 // 3 = 2 and is pasted at y = 2 × frame height, below the 2-row
canvas, where nothing of it shows and nothing collides
(`Grid.CellBelowCanvas`, `Grid.OriginsDistinct`).

## Model

| member | source | states |
|---|---|---|
| `Trials.MaxSpan` | code/animate.py:33 | the largest `frame end - frame start` over a non-empty table: at least every trial's span and equal to one of them |
| `Trials.FullLength` | code/animate.py:33 | the shared window length exists exactly when the table is non-empty; it is the least length that holds every trial's span plus both margins (attained by some trial) |
| `Trials.EveryEndFrameInWindow` | code/animate.py:33-43 | every trial whose end frame is not before its window start has its end frame inside its own window of the shared length |
| `Annotator.LatchBefore` | code/animate.py:55-56 | once the loop has passed the offset whose frame index equals the end frame, the latch holds the trial's span (end - start); before that, or when no such offset lies in the window, it holds the incoming value |
| `Annotator.AnnotationAt` | code/animate.py:40-64 | offset i reads source frame `frame start + before + i`; the label and the timestamp `before + i` are always drawn; "Contact!" is drawn exactly when `i >= -before` (frame index >= frame start); MtP is drawn only from the end frame on, with the trial's span when the end frame is in the window and the previous trials' latch otherwise |
| `Annotator.AnnotateTrial` | code/animate.py:40-65 | the frame loop fails exactly when MtP must be drawn on the first frame with the latch unset (the unbound-variable error at the window start); otherwise it yields one annotated frame per frame of the window (`fullLength` of them when positive, none otherwise), frame j being `AnnotationAt` offset j, in increasing source frame order; the outgoing latch is the incoming one updated by the capture offset, and is never reset; all drawn MtP values in one trial are equal |
| `Annotator.AnnotateAll` | code/animate.py:37-66 | annotating all trials in table order with one latch that starts unset fails exactly when some trial fails with the latch the earlier ones left (an unbound-latch error); otherwise it yields one video per trial, in table order, trial k's video being its window of the shared length annotated with the latch the first k trials left |
| `Annotator.LatchNeverReset` | code/animate.py:55-59 | once some trial has set the latch, it stays set for all later trials |
| `Annotator.LatchIsLastCapture` | code/animate.py:55-56 | after k trials the latch holds the span of the last of them whose window contained its end frame |
| `Annotator.LatchUnsetWithoutCapture` | code/animate.py:55-59 | if none of the first k trials contained its end frame, the latch is still unset |
| `Annotator.StaleMtp` | code/animate.py:55-60 | a trial whose end frame lies before its window shows on every frame the MtP value of the last earlier trial that captured one |
| `Annotator.FirstStaleTrialFails` | code/animate.py:58-59 | such a trial with no earlier capture makes the script abort when the window is not empty |
| `Grid.CellOf` | code/animate.py:87-88 | trial vid's cell is the row-major position vid in a grid 3 columns wide: column below 3 and `row * 3 + column == vid` |
| `Grid.CellsDistinct` | code/animate.py:87-88 | distinct trials get distinct cells |
| `Grid.OriginsDistinct` | code/animate.py:87-91 | with frames of positive size, distinct trials are pasted at distinct origins |
| `Grid.CellInsideCanvas` | code/animate.py:74-90 | each of the first rows × columns (6) trials is pasted wholly inside the (3 × width) × (2 × height) canvas |
| `Grid.CellBelowCanvas` | code/animate.py:87-91 | a trial beyond the grid's capacity is pasted at y >= rows × height, below the canvas |
| `Grid.CompositeHoldsFrame` | code/animate.py:85-91 | with frames of positive size, composite k holds frame k of every video that has one, at that video's origin |
| `Grid.CompositeHoldsOnlyFrames` | code/animate.py:80-91 | composite k holds frames only at the origins of videos that have a frame k |
| `Grid.Composite` | code/animate.py:80-91 | one blank canvas per frame of the first video, then each video's frame fid pasted into canvas fid at the video's origin, video by video; fails when there is no video or a video is longer than the first; on success canvas k equals `CompositeAfter` of all videos |
| `Script.Save` | code/animate.py:93-94 | the output holds exactly file numbers 0 to n - 1, and file k is composite k |
| `Script.CompositeShowsTrial` | code/animate.py:85-91 | with frames of positive size, composite k holds trial vid's annotated frame at offset k at trial vid's origin |
| `Script.FilesShowTrials` | code/animate.py:80-94 | with frames of positive size, every written file k shows every trial's annotated frame at offset k, at that trial's origin |
| `Script.FilesShowOnlyTrials` | code/animate.py:80-94 | a written file holds frames only at the origins of the trials |
| `Script.Run` | code/animate.py:33-94 | the script aborts with the empty-table error on an empty table, with the no-image error on an empty window, and with an unbound-latch error when some trial draws MtP with the latch unset, and only then; otherwise it writes exactly `fullLength` files, and file k shows trial vid's annotated frame at offset k (with the latch the earlier trials left) at trial vid's origin, and nothing elsewhere |

## Left out

- Image opening, text rendering, fonts, colours, positions and the pixel semantics of `paste` are library calls. An image is opaque, and a paste records a placement. A later paste at the same origin replaces the earlier one. Clipping and the overlap of different-size frames are not modelled.
- A missing or unreadable image file is not modelled. Neither is the quote stripping and formatting of the file name pattern.
- Reading the table is not modelled either. Frame columns are assumed to hold integers; missing or non-numeric values are not modelled.
- The timestamp's conversion to milliseconds (`/ 120 * 1000`) and its 3-decimal formatting are floating point. The model keeps the integer tick `before + i`, and MtP holds the latched tick. The unused `fps` constant is left out.
- The frame size comes from the last opened image in the script. Here it is a parameter. The script aborts when no image was opened, and the model reproduces that abort (an empty window).
- The file name format (`anim_{:05d}.png`), the progress bar and the encoding command in the trailing comment are I/O or an external tool. A written file is modelled by its number.
- Script.Run: the statement that file k shows every trial at its origin is given only for frames of positive width and height. With a zero width, the origins of the trials in one row coincide; with a zero height, those of the trials in one column coincide (all of them for a 0 × 0 frame). At a shared origin a later paste replaces an earlier one, so only the last trial pasted there remains.
- Annotator.AnnotateTrial: the error records only the frame index at which the script stops. The frames already opened before the abort are not part of the result.
- code/udon.cs is not part of this model. It is an engine behaviour driven by per-frame callbacks, delayed events and floating-point time and distance.
