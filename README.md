# BGGONE mask editor: a Dafny model

This project models the mask-editing engine of BGGONE-V3, a browser photo
touch-up tool. After an AI step cuts the subject out of a photo, the user
refines the cutout's transparency with a brush, steps through an undo/redo
history, zooms, and exports the result over a chosen background. The model
covers:

- the edit session of `ResultArea.tsx` as a class `Editor.EditSession`. It
  holds the canvas buffer (`array<Pixel>`, row-major like ImageData), the
  history of full-frame snapshots with its cursor, the brush settings and
  generated tip, the stroke state (`drawing`, `prev`), the context's global
  alpha and composite operation, the view and the export background;
- brush-tip synthesis (`BrushTip`), stamping and blending (`Blend`, over the
  Porter-Duff operators of section 9.1 of W3C Compositing and Blending
  Level 1 in `Compositing`), and stroke interpolation (`Stroke`);
- the bounded undo/redo history as pure functions on a `State`
  (`History`), which the session's methods are proved against;
- display-to-buffer coordinate mapping and the zoom controls (`Geometry`);
- the export rules of `handleDownload`: background layer, gradient presets,
  cover-fit, file name and MIME type, and flattening (`Export`);
- upload validation (`Upload`, with a class for the drop zone);
- the before/after compare slider (`Slider`, with a class for its state).

Pixels are non-premultiplied RGBA with `real` components in [0, 1]. A
canvas stores 8-bit channels (0–255) with premultiplied alpha, and
ImageData presents them as 8-bit integers; the model uses exact reals
instead (see "## Left out"). Pixel offsets are `y·w + x` (`Grid`).

A stamp is specified as a function on buffer values (`Blend.StampImage`).
The session's `Paint` writes it into the array cell by cell and is proved
equal to that function. `Stamp`, `Draw`, `StartDrawing` and the touch
handlers are proved equal to `Blend.ApplyStamps` over the stamp centres that
`Stroke.MoveStamps` defines. Undo, redo and commit are proved equal to
`History.Undo`, `History.Redo` and `History.Commit`. The class invariant
`Valid` keeps:

- the buffer of width·height valid pixels;
- the brush within its slider ranges;
- the history well-shaped (empty with cursor −1, or at most 20 entries with
  the cursor on one);
- every snapshot the size of the buffer;
- the global alpha back at 1 between stamps.

Each method's `modifies` clause names the only fields it can change. So, for
example, the stroke methods cannot touch the history: no snapshot is
committed mid-stroke.

Three behaviours of the code a reader might not expect (the model follows
the code):

- On a pointer move no longer than the stamp spacing, `prev` is left where
  it was (ResultArea.tsx:262-270), not set to the new point. So two short
  moves can leave stamps two steps apart (`Stroke.StrokeGapCanReachTwoSteps`).
- A gradient value that names none of the four presets sets a white fill
  style that is never painted. If the value contains "gradient", a
  gradient with no colour stops is filled instead, and that paints nothing.
  Otherwise nothing is filled (ResultArea.tsx:386-393,
  `Export.UnknownGradientHasNoStops`). There is no white fallback.
- JPEG export gets no explicit fill under transparent areas. The background
  layer is exactly what the background choice paints.

## Model

| member | source | states |
|---|---|---|
| Editor.EditSession.constructor | src/components/ResultArea.tsx:20-54 | the session starts unloaded with an empty history at cursor −1. The brush is size 20, hardness 100, opacity 100, Erase, with the tip generated for it. The view is Fit at zoom 1, the background transparent, no original loaded. The tip's distance function must be Euclidean, and the session keeps exactly that function. |
| Editor.EditSession.Load | src/components/ResultArea.tsx:109-131 | after the cutout decodes, the buffer holds exactly its pixels at its size, the view switches to Fit and the operation is source-over. An empty history becomes exactly [that frame] with cursor 0; a non-empty history is kept as it was. |
| Editor.EditSession.DrawCutout | src/components/ResultArea.tsx:111-123 | resizing the canvas and drawing the cutout gives a fresh buffer equal to the cutout's pixels, with the context reset and the session loaded |
| Editor.EditSession.Resize | src/components/ResultArea.tsx:116-117 | setting the canvas size installs the new buffer and resets the context's alpha to 1 and its operation to source-over |
| Editor.NewBuffer | src/components/ResultArea.tsx:116-120 | the new canvas buffer is fresh and holds exactly the given pixels |
| Editor.EditSession.SeedHistory | src/components/ResultArea.tsx:126-130 | seeding gives History.Seed of the buffer: one snapshot, cursor 0 |
| Editor.EditSession.LoadOriginal | src/components/ResultArea.tsx:99-105 | once the original photo decodes, the restore tool uses it |
| Editor.EditSession.ExitEdit | src/components/ResultArea.tsx:132-141 | leaving edit mode empties the history with cursor −1 and resets the view to Fit at zoom 1. Tool, hardness and opacity return to Erase, 100 and 100, with the tip regenerated; nothing else changes. |
| Editor.EditSession.ClearHistory | src/components/ResultArea.tsx:134-135 | the history becomes empty with cursor −1 |
| Editor.EditSession.ResetBrush | src/components/ResultArea.tsx:138-140 | tool Erase, hardness 100, opacity 100, and the tip matches the new hardness |
| Editor.EditSession.NewImage | src/components/ResultArea.tsx:146-152 | a new photo resets the background to transparent, empties the history, sets the zoom level to 1 while keeping the scale mode, and selects Erase |
| Editor.EditSession.ChooseBackground | src/components/ResultArea.tsx:663-671 | the background buttons set the export background and nothing else |
| Editor.EditSession.SetBrushSize | src/components/ResultArea.tsx:558 | the size slider (5..100) sets the size and regenerates the tip for the new size |
| Editor.EditSession.SetHardness | src/components/ResultArea.tsx:562 | the hardness slider (0..100) sets the hardness and regenerates the tip |
| Editor.EditSession.SetOpacity | src/components/ResultArea.tsx:566 | the opacity slider (1..100) sets the opacity |
| Editor.EditSession.SetTool | src/components/ResultArea.tsx:522-529 | the Erase/Restore buttons set the tool |
| Editor.EditSession.Paint | src/components/ResultArea.tsx:198-222 | the per-cell write loop leaves the buffer equal to Blend.StampImage of the old buffer. The loops cover only the footprint clipped to the buffer. |
| Editor.EditSession.Stamp | src/components/ResultArea.tsx:187-227 | a stamp leaves the buffer equal to Blend.StampAt of the old buffer at the centre, or unchanged before loading. The operation becomes StampOp of the tool and original: destination-out for erase, source-over for restore with an original. The global alpha is back at 1 afterwards (Valid). |
| Editor.EditSession.StartDrawing | src/components/ResultArea.tsx:243-251 | pointer-down records the mapped point as prev, starts a stroke and stamps exactly once there, leaving the stamp's operation selected. Before loading it changes nothing. |
| Editor.EditSession.Draw | src/components/ResultArea.tsx:253-273 | during a stroke, a move applies exactly the stamps of Stroke.MoveStamps from the old prev to the mapped point, in order. prev becomes Stroke.NextPrev, and the operation is the stamp's. Outside a stroke nothing changes. |
| Editor.EditSession.MoveTo | src/components/ResultArea.tsx:258-272 | the stamps of one move, given its length, are MoveStamps applied in order; prev moves only when the length exceeds the spacing; the operation is the stamp's |
| Editor.EditSession.StampSegment | src/components/ResultArea.tsx:262-268 | the interpolation loop applies exactly Stroke.SegmentStamps: the centres at 0, step, 2·step, … below the move's length, leaving the stamp's operation selected |
| Editor.SegmentCentre | src/components/ResultArea.tsx:264-267 | while the loop distance i = n·step is below the length, the point it stamps is the n-th centre of SegmentStamps |
| Editor.EditSession.StampNext | src/components/ResultArea.tsx:264-267 | one loop iteration takes the buffer from the first n stamps of the segment to the first n + 1 |
| Editor.StampOp | src/components/ResultArea.tsx:198-221 | erase selects destination-out, restore with an original selects source-over, and restore without one leaves the operation as it was |
| Editor.StampOpIdempotent | src/components/ResultArea.tsx:198-221 | a further stamp with the same tool and original leaves the operation as the first stamp set it |
| Editor.EditSession.StopDrawing | src/components/ResultArea.tsx:275-279 | pointer-up commits exactly one snapshot (History.Commit of the buffer) and ends the stroke only if a stroke was in progress; otherwise nothing changes |
| Editor.EditSession.SaveToHistory | src/components/ResultArea.tsx:281-299 | the slice/push/shift code yields exactly History.Commit of the buffer, and every snapshot still fits the buffer |
| Editor.EditSession.RestoreState | src/components/ResultArea.tsx:317-325 | the buffer becomes the snapshot verbatim and the operation source-over |
| Editor.CopyInto | src/components/ResultArea.tsx:324 | writing the snapshot back leaves the buffer equal to it |
| Editor.EditSession.Undo | src/components/ResultArea.tsx:301-307 | the cursor moves as History.Undo does; if it moved, the buffer is overwritten with the snapshot at the new cursor and the operation is source-over, otherwise both are unchanged |
| Editor.EditSession.Redo | src/components/ResultArea.tsx:309-315 | the cursor moves as History.Redo does; if it moved, the buffer is overwritten with the snapshot at the new cursor and the operation is source-over, otherwise both are unchanged |
| Editor.EditSession.TouchStart | src/components/ResultArea.tsx:453-461 | as pointer-down, at the first touch point |
| Editor.EditSession.TouchMove | src/components/ResultArea.tsx:463-488 | as a pointer move, following the first touch point |
| Editor.EditSession.TouchEnd | src/components/ResultArea.tsx:490-493 | as pointer-up |
| Editor.EditSession.HandleZoomIn | src/components/ResultArea.tsx:327-330 | the view becomes Geometry.ZoomIn of the old view |
| Editor.EditSession.HandleZoomOut | src/components/ResultArea.tsx:332-335 | the view becomes Geometry.ZoomOut of the old view |
| Editor.EditSession.HandleFitScreen | src/components/ResultArea.tsx:337-340 | the view becomes Fit at zoom 1 |
| Editor.ApplyMove | src/components/ResultArea.tsx:258-272 | the stamps of a move are those of its segment, when the move is longer than a step, followed by one at the end point |
| Editor.CommitKeepsFrames | src/components/ResultArea.tsx:286-298 | a commit of a buffer-sized snapshot keeps the history well-shaped and every snapshot buffer-sized. The entries are the prefix up to the cursor plus the snapshot, minus the oldest beyond 20. |
| Editor.StampKeepsOutside | src/components/ResultArea.tsx:192-200 | a stamp changes no cell outside its footprint |
| History.SlicePrefix | src/components/ResultArea.tsx:289 | slice(0, n) clamps n into [0, length] and keeps only existing entries |
| History.Commit | src/components/ResultArea.tsx:286-298 | after a commit, the cursor is on the last entry and that entry is the snapshot |
| History.CommitShape | src/components/ResultArea.tsx:289-298 | a commit keeps the history well-shaped, so at most 20 entries. The entries are the last 20 of (entries up to the cursor) ++ [snapshot]. |
| History.CommitAddsOnlySnapshot | src/components/ResultArea.tsx:289-290 | a commit adds no entry but the snapshot |
| History.CommitClearsRedo | src/components/ResultArea.tsx:289-298 | after a commit there is nothing to redo |
| History.Undo | src/components/ResultArea.tsx:301-307 | undo moves the cursor back exactly one place when it is above 0 and otherwise changes nothing; the entries never change |
| History.Redo | src/components/ResultArea.tsx:309-315 | redo moves the cursor forward exactly one place when it is before the last entry and otherwise changes nothing |
| History.Seed | src/components/ResultArea.tsx:126-130 | the seeded history has one entry, cursor 0, nothing to undo or redo |
| History.CanUndo | src/components/ResultArea.tsx:548 | the undo button is enabled exactly when undo would change the history state |
| History.CanRedo | src/components/ResultArea.tsx:549 | the redo button is enabled exactly when redo would change the history state |
| History.UndoAfterCommit | src/components/ResultArea.tsx:286-307 | undo straight after a commit shows the snapshot that was current before it, even when the commit evicted the oldest entry |
| History.UndoRedoInverse | src/components/ResultArea.tsx:301-315 | redo undoes an undo and undo undoes a redo |
| History.CommitKeepsLatest | src/components/ResultArea.tsx:289-298 | one more commit onto a history holding the latest snapshots keeps the latest 20 |
| History.CommitAllKeepsLatest | src/components/ResultArea.tsx:289-298 | any run of commits from empty keeps exactly the last 20 snapshots in order, cursor on the newest |
| History.TwentyOneCommitsDropTheFirst | src/components/ResultArea.tsx:293-295 | after 21 commits from empty, the 2nd through 21st remain and the cursor is on the last |
| Stroke.CeilingCount | src/components/ResultArea.tsx:264 | the count of loop iterations is a whole number whose multiple of the step reaches the length, and the least one |
| Stroke.StepCount | src/components/ResultArea.tsx:264 | the number of loop iterations: the least n with n·step ≥ dist |
| Stroke.StepCountSpec | src/components/ResultArea.tsx:264 | iteration m runs exactly when m·step < dist |
| Stroke.SegmentStamps | src/components/ResultArea.tsx:262-268 | the n-th interpolated centre lies at distance n·step along the segment, for exactly StepCount centres |
| Stroke.MoveStamps | src/components/ResultArea.tsx:258-272 | a move ends with a stamp at the new point. A short move stamps only there. A long move starts at prev and stamps at least three times. |
| Stroke.AlongSqDist | src/components/ResultArea.tsx:263-266 | two points on the segment are as far apart as their distances along it differ |
| Stroke.Spacing | src/components/ResultArea.tsx:260 | the stamp spacing is a tenth of the brush size, positive for any non-empty brush |
| Stroke.Along | src/components/ResultArea.tsx:264-266 | the interpolated point is prev at distance 0 and the new point at the move's full length |
| Stroke.AlongDelta | src/components/ResultArea.tsx:264-266 | moving from distance i to j along the segment moves by (j − i)/length of the whole displacement, on each axis |
| Stroke.NextPrev | src/components/ResultArea.tsx:262-270 | prev becomes the new point or stays. It stays whenever the move stamped only at the new point, and moves only when the move interpolated, with at least three stamps |
| Stroke.ConsecutiveStampsOneStepApart | src/components/ResultArea.tsx:264-267 | consecutive interpolated stamps are exactly one step apart |
| Stroke.LastStampWithinStep | src/components/ResultArea.tsx:264-272 | the last interpolated stamp falls short of the new point, within one step of it |
| Stroke.MoveGapFree | src/components/ResultArea.tsx:258-272 | within one move, consecutive stamps are at most one step apart. The first stamp is within a step of prev, and the new prev within a step of the last stamp. |
| Stroke.StrokeGapCanReachTwoSteps | src/components/ResultArea.tsx:262-272 | since prev stays put on short moves, two successive short moves can leave stamps two steps apart |
| Stroke.Ceil | src/components/ResultArea.tsx:264 | the least integer not below q |
| Geometry.MapToBuffer | src/components/ResultArea.tsx:230-240 | mapping is not clamped: a pointer left of or above the canvas maps below 0, one right of or below it maps beyond the buffer size, in both directions |
| Geometry.MapThenDisplay | src/components/ResultArea.tsx:230-240 | mapping to the buffer and back to the display gives the pointer again |
| Geometry.DisplayThenMap | src/components/ResultArea.tsx:230-240 | a buffer point shown on screen maps back to itself |
| Geometry.MapScaleInvariant | src/components/ResultArea.tsx:230-240 | scaling the display rectangle and the buffer by the same factor leaves mapped points unchanged |
| Geometry.ZoomIn | src/components/ResultArea.tsx:327-330 | zoom-in switches to Custom, adds 0.25 or caps at 3, and never leaves [0.25, 3] |
| Geometry.ZoomOut | src/components/ResultArea.tsx:332-335 | zoom-out switches to Custom, subtracts 0.25 or floors at 0.25, and never leaves [0.25, 3] |
| Geometry.FitScreen | src/components/ResultArea.tsx:337-340 | fit-to-screen gives Fit at zoom 1 |
| Geometry.ZoomOutUndoesZoomIn | src/components/ResultArea.tsx:327-335 | below the upper cap, zoom-out undoes zoom-in (up to the mode, which becomes Custom) |
| Geometry.ZoomInUndoesZoomOut | src/components/ResultArea.tsx:327-335 | above the lower cap, zoom-in undoes zoom-out |
| Geometry.ZoomSaturates | src/components/ResultArea.tsx:329-334 | at the caps the buttons leave the zoom at 3 or 0.25 |
| BrushTip.Falloff | src/components/ResultArea.tsx:174-178 | coverage 1 up to the inner radius, 0 from the radius on, strictly between in between, always in [0, 1] |
| BrushTip.Coverage | src/components/ResultArea.tsx:168-181 | the tip's coverage at a distance lies in [0, 1] |
| BrushTip.TexelCoverage | src/components/ResultArea.tsx:159-181 | each texel's coverage lies in [0, 1] |
| BrushTip.GenerateTip | src/components/ResultArea.tsx:155-184 | the tip is size×size values, each in [0, 1] |
| BrushTip.TipTexel | src/components/ResultArea.tsx:159-181 | texel (i, j) holds the coverage at that texel's distance from the centre |
| BrushTip.HardTipIsDisc | src/components/ResultArea.tsx:168-172 | with a Euclidean distance, the hard tip is the disc of radius size/2: a texel is 1 exactly when its centre offset (dx, dy) has dx² + dy² ≤ r², and 0 exactly when it lies outside |
| BrushTip.SoftTipFalloff | src/components/ResultArea.tsx:173-181 | below hardness 100, the tip is opaque within radius·hardness/100, clear beyond the radius, and partial between |
| BrushTip.CoverageDecreasing | src/components/ResultArea.tsx:168-181 | coverage never increases with distance from the centre |
| BrushTip.HarderCoversMore | src/components/ResultArea.tsx:168-181 | a harder brush covers at least as much at every distance |
| Compositing.Composite | src/components/ResultArea.tsx:198-222 | a composite of valid pixels is valid, with alpha αs·Fa + αb·Fb for the operator's factors |
| Compositing.DestinationOutScalesAlpha | src/components/ResultArea.tsx:199-200 | destination-out keeps the backdrop's colour and scales its alpha by (1 − αs·globalAlpha) |
| Compositing.SourceInTakesSourceColour | src/components/ResultArea.tsx:213-218 | source-in takes the source's colour with alpha αs·αb |
| Compositing.SourceOverOpaque | src/components/ResultArea.tsx:408 | source-over with an opaque source replaces the backdrop |
| Compositing.SourceOverInvisible | src/components/ResultArea.tsx:221-222 | source-over with an invisible source leaves the backdrop's look |
| Compositing.SourceOverOntoClear | src/components/ResultArea.tsx:221-222 | source-over onto a transparent backdrop yields the scaled source |
| Blend.PixelAt | src/components/ResultArea.tsx:214-218 | the original's pixel at a position, transparent outside the image |
| Blend.StampAlpha | src/components/ResultArea.tsx:196 | global alpha is opacity/100, in [0, 1], 1 at full opacity |
| Blend.Origin | src/components/ResultArea.tsx:192-194 | the footprint corner is centre − size/2 snapped down to the pixel grid: at most that value and within one pixel of it |
| Blend.StampPixel | src/components/ResultArea.tsx:196-222 | one covered pixel after erase or restore is a valid pixel |
| Blend.OriginalAt | src/components/ResultArea.tsx:202 | a restore source exists exactly when an original is loaded |
| Blend.TipAt | src/components/ResultArea.tsx:200 | the tip texel over a footprint cell lies in [0, 1] |
| Blend.StampedCell | src/components/ResultArea.tsx:192-222 | a cell inside the footprint gets StampPixel with its tip texel and original pixel; any other cell keeps its value |
| Blend.StampImage | src/components/ResultArea.tsx:187-227 | a stamp keeps the buffer's size and validity and changes each cell as StampedCell says |
| Blend.StampAt | src/components/ResultArea.tsx:192-194 | a stamp at a centre keeps the buffer's size and validity |
| Blend.ApplyStamps | src/components/ResultArea.tsx:258-272 | stamping a sequence of centres keeps the buffer's size and validity |
| Blend.ApplyOneMore | src/components/ResultArea.tsx:264-268 | stamping n + 1 centres is stamping n and then the next |
| Blend.StampOnlyTouchesFootprint | src/components/ResultArea.tsx:192-200 | a stamp changes only cells of the size×size square at centre − size/2 |
| Blend.EraseScalesAlpha | src/components/ResultArea.tsx:196-200 | an erase stamp scales each alpha by (1 − tip·opacity/100), only lowers it, and keeps the colour |
| Blend.RestoreWithoutOriginalIsNoOp | src/components/ResultArea.tsx:201-224 | restore with no original loaded leaves the buffer unchanged |
| Blend.RestoreStrokeWithoutOriginalIsNoOp | src/components/ResultArea.tsx:201-224 | a whole restore stroke with no original leaves the buffer unchanged |
| Blend.EraseStrokeLowersAlpha | src/components/ResultArea.tsx:198-200 | a whole erase stroke never raises any pixel's alpha |
| Blend.RestoreRecoversErased | src/components/ResultArea.tsx:198-222 | full erase makes a pixel transparent, and full restore then brings back the original's pixel |
| Blend.EraseThenRestoreCell | src/components/ResultArea.tsx:198-222 | over a fully covered footprint cell at full opacity, erase then restore shows the original photo's pixel |
| Export.StopsFrom | src/components/ResultArea.tsx:382-385 | the first preset whose key colour occurs in the value gives the two stops; none gives no stops |
| Export.FirstPresetWins | src/components/ResultArea.tsx:382-385 | the first matching preset decides, even when later ones also match |
| Export.UnknownGradientHasNoStops | src/components/ResultArea.tsx:386-393 | a value naming no preset colour gets a gradient with no colour stops |
| Export.BackgroundLayer | src/components/ResultArea.tsx:375-405 | transparent paints nothing and color fills. A gradient fills only when its value contains "gradient". An image is placed exactly when the value is non-empty and the image loaded. |
| Export.GradientStops | src/components/ResultArea.tsx:380-393 | a gradient has no stops exactly when no preset key colour occurs in the value; otherwise it has the two stops of a preset whose key occurs |
| Export.CoverFit | src/components/ResultArea.tsx:398-400 | the scale is the larger of the two canvas-to-image ratios, and the scaled image is centred on the canvas |
| Export.CoverFitCovers | src/components/ResultArea.tsx:398-401 | the cover-fit scale covers the canvas in both directions and fits it exactly in one. The offsets are ≤ 0, and the image is centred. |
| Export.MimeType | src/components/ResultArea.tsx:413 | image/png exactly for "png", image/jpeg for any other format |
| Export.FileName | src/components/ResultArea.tsx:412 | the file name is "removed-bg." followed by the format |
| Export.ExportJob | src/components/ResultArea.tsx:351-373 | a download happens exactly when the cutout decodes, at the cutout's size |
| Export.Flatten | src/components/ResultArea.tsx:408 | the cutout drawn source-over onto the background has alpha αc + αb·(1 − αc) at each pixel |
| Export.FlattenOntoOpaqueIsOpaque | src/components/ResultArea.tsx:375-408 | over an opaque background the export is opaque everywhere |
| Export.FlattenOntoNothingKeepsCutout | src/components/ResultArea.tsx:375-408 | with a transparent background the export looks like the cutout |
| Export.OpaqueCutoutHidesBackground | src/components/ResultArea.tsx:408 | where the cutout is opaque the background does not show |
| Upload.Check | src/components/UploadArea.tsx:25-42 | a file is accepted exactly when its type is JPEG, PNG or WebP and it is at most 10 MiB. A bad type reports the type error even when the file is also too large; otherwise an oversized file reports the size error. |
| Upload.LimitIsInclusive | src/components/UploadArea.tsx:36 | exactly 10 MiB is accepted; one byte more is too large |
| Upload.UploadArea.constructor | src/components/UploadArea.tsx:11-12 | no error, no drag highlight, nothing handed on |
| Upload.UploadArea.ValidateAndProcess | src/components/UploadArea.tsx:25-42 | the error becomes Check of the file, and the file is handed on exactly once when accepted, never when rejected |
| Upload.UploadArea.HandleDrop | src/components/UploadArea.tsx:44-51 | a drop ends the highlight and validates only the first file; an empty drop changes nothing else |
| Upload.UploadArea.HandleChange | src/components/UploadArea.tsx:53-57 | choosing files validates only the first; an empty choice changes nothing |
| Upload.UploadArea.DragOver | src/components/UploadArea.tsx:15-18 | drag-over turns the highlight on |
| Upload.UploadArea.DragLeave | src/components/UploadArea.tsx:20-23 | drag-leave turns the highlight off |
| Slider.Clamp | src/components/CompareSlider.tsx:37 | the clamped value lies in [lo, hi], equals v inside it, and is the nearer bound outside it |
| Slider.DragPercent | src/components/CompareSlider.tsx:37-38 | the position lies in [0, 100]. It is 0 left of the container, 100 right of it, and the offset's share of the width in between. |
| Slider.KeyPosition | src/components/CompareSlider.tsx:84-87 | ArrowLeft gives max(0, p − 5), ArrowRight gives min(100, p + 5), and any other key leaves p |
| Slider.DragMonotone | src/components/CompareSlider.tsx:37-38 | dragging further right never moves the divider left |
| Slider.ArrowKeysInverse | src/components/CompareSlider.tsx:85-86 | inside [5, 95] the two arrow keys undo each other |
| Slider.CompareSlider.constructor | src/components/CompareSlider.tsx:12-13 | the divider starts at 50 and no drag is in progress |
| Slider.CompareSlider.PointerDown | src/components/CompareSlider.tsx:17 | mouse or touch down starts a drag without moving the divider |
| Slider.CompareSlider.PointerUp | src/components/CompareSlider.tsx:20 | mouse up or touch end stops the drag without moving the divider |
| Slider.CompareSlider.MouseMove | src/components/CompareSlider.tsx:22-40 | while dragging, the divider goes to DragPercent of the pointer; otherwise it stays put |
| Slider.CompareSlider.TouchMove | src/components/CompareSlider.tsx:43-49 | while dragging, the divider follows the first touch point; otherwise it stays put |
| Slider.CompareSlider.KeyDown | src/components/CompareSlider.tsx:84-87 | the divider moves to KeyPosition of the key and stays in [0, 100] |

## Left out

- Decoding images, object URLs, `toBlob`/`toDataURL` encoding, the download link, and saving the edit (`handleSaveEdit`) are browser I/O. The model takes decoded pixels and sizes as parameters, and `ExportJob` describes what is drawn and named, not the encoded file.
- `Math.hypot`, `Math.atan2`, `cos` and `sin` are not modelled. A move's length is passed in with the requirement that it is the Euclidean distance (`Stroke.IsHypot`), and interpolated points are `prev + (p1 − prev)·i/dist` over reals. Floating-point accumulation in `i += step` is not modelled.
- The canvas rasteriser is not modelled: anti-aliasing of the tip's arc and radial gradient, and the sub-pixel resampling of `drawImage` at fractional positions. The tip is built from the exact Euclidean distance of each texel centre, through a distance function fixed when the session is created and required to be Euclidean (reals have no square root here). The footprint's top-left corner is snapped to the pixel grid with floor.
- Editor.EditSession.Load: requires that a non-empty history already holds frames of the new cutout's pixel count. Editor.EditSession.DrawCutout and Editor.EditSession.Resize, which only Load calls, carry the same requirement. Reloading a differently sized cutout without first clearing the history (which the component does on leaving edit mode and on a new image) is not modelled.
- Canvas pixels are 8-bit per channel and stored with premultiplied alpha, so every composite is rounded. The model composites exact non-premultiplied reals. Repeated partial erases therefore approach alpha 0 without reaching it (`Blend.EraseScalesAlpha`), while the canvas reaches 0 after finitely many stamps; colour drift from premultiplied rounding at low alpha is not modelled.
- Colour strings are not parsed: a colour background's `fillStyle` is carried as its string, and a string the canvas rejects (which leaves the previous fill style in place) is not distinguished from a valid one.
- Editor.EditSession.TipMatches: that the tip is the one generated for the current size and hardness is a separate predicate. The constructor and the size and hardness setters establish it, and other methods cannot change size, hardness or tip (their `modifies` clauses). It is not part of `Valid`.
- Editor.EditSession.Stamp: does not model the early return when the scratch canvas has no 2D context (ResultArea.tsx:206-207), which would leave the global alpha at opacity/100.
- React's state batching and stale closures are not modelled: each handler sees the state left by the previous one. `saveToHistory` reading a `history` captured by an older render, and effects firing in render order, are not modelled.
- Geometry.MapToBuffer: requires a display rectangle of positive size. A zero-size rectangle makes the source divide by zero (NaN coordinates), which the model does not represent. The same holds for the slider's container width (`Slider.DragPercent`, `Slider.CompareSlider.MouseMove`, `Slider.CompareSlider.TouchMove`).
- The brush cursor overlay, JSX rendering, view-mode toggles and styling are user interface only.
- The `stampBrush` guard on a missing tip canvas is not modelled: the tip canvas always exists once the component mounts.
- A failed background image load is modelled as "no background layer" (`bgSize` is None); the logging is left out.
