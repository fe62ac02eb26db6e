# Background replacement: mask refinement and compositing

A Dafny model of the per-frame core of a browser background-replacement
app (`script.js`). Each tick, the app asks a segmenter for a person mask,
rejects masks that are nearly empty, refines the mask, and blends the video
frame over a background image weighted by that mask. Modelled here:

- `improveMask`: binarise the mask's red channel at 128 and mirror it
  horizontally in the same pass, then run a 3x3 min/max scan over interior
  pixels, then expand the result back to grey RGBA with alpha 255
  (`MaskRefinement`). The three phases are imperative methods that write
  into zero-initialised arrays. Phase 2 only reads the binarised mask, so it
  takes the mask as a sequence value. Each phase is proved equal to a
  specification function (`Binarized`, `Eroded`/`Dilated`, `Improved`).
- The sparsity gate of `getSegmentationMask`: a counting loop over every
  fourth byte, with a rejection below 50 non-zero pixels (`Segmentation`).
  The count is proved equal to the size of the set of non-zero pixels.
- The blend loop of `compositeFrame`, and the lazily created `blendCache`
  (`Compositing`). The blend is modelled as the exact weighted average
  rounded to the nearest integer.
- `hasValidMask` and the branching of `loop`: pass-through, composite, draw
  nothing, or fall back to the raw video on an exception (`FrameLoop`).

Two places where the code does something other than its own comment, or
the app's evident intent, suggests. The model follows the code in both:

- The comment at script.js:283 says "erosion + dilation", but both the
  minimum (`eroded`) and the maximum (`dilated`) are taken over the
  *binarised* mask, and only `dilated` is used. The refinement is therefore
  a plain 3x3 dilation, not an opening. `OpeningWithinMask` proves that a
  real opening (`Dilated(Eroded(m))`) never adds foreground.
  `DilationIsNotOpening` shows a 4x3 input where `improveMask` turns on a
  pixel that is off in both the binarised mask and its opening.
- A background-replacement app evidently means to show the raw video when
  it has no usable person mask. But when the mask is null or fails
  `hasValidMask`, the tick draws nothing, so the previous picture (possibly
  an old composite) stays on screen. Only an exception leads to the raw
  video.

Border pixels of the refined mask are never written and stay 0. Frames
narrower or lower than three pixels come out entirely black (alpha aside).

## Model

| member | source | states |
|---|---|---|
| `MaskRefinement.BinarizedAt` | script.js:275-281 | mask pixel (w-1-x, y) is the threshold of source pixel (x, y)'s red value: 255 iff it is above 128, so 128 maps to 0 |
| `MaskRefinement.BinarizeMirror` | script.js:271-281 | the fused loop fills a fresh zero-initialised buffer with exactly the binarised, mirrored mask |
| `MaskRefinement.ScanWindowRow` | script.js:294-298 | folding the three pixels of window row `y + dy`, left to right, into a running minimum and maximum yields the smaller of the old minimum and the row's minimum, and the larger of the old maximum and the row's maximum |
| `MaskRefinement.Neighbourhood` | script.js:286-299 | the nested offset loops return the running minimum (from 255) and maximum (from 0) over the 3x3 window, in scan order |
| `MaskRefinement.ScanRow` | script.js:289-303 | scanning the interior pixels of row `y` leaves both buffers final up to the first interior pixel of row `y + 1` and still 0 after it |
| `MaskRefinement.MinMaxScan` | script.js:284-304 | `eroded` and `dilated` hold the window minimum and maximum on interior pixels and keep 0 on the border |
| `MaskRefinement.ExpandToRgba` | script.js:306-315 | each result pixel is the dilated value in R, G and B with alpha 255 |
| `MaskRefinement.ImproveMask` | script.js:269-320 | for a non-empty frame (`new ImageData` at script.js:307 throws on a zero size), the returned image equals `Improved`: dilation of the binarised mirrored mask, expanded to RGBA; `eroded` has no effect |
| `MaskRefinementProperties.RowMaxBounds` | script.js:294-298 | the running maximum over a partial window row bounds the scanned pixels and equals one of them |
| `MaskRefinementProperties.WindowMaxBounds` | script.js:290-302 | the 3x3 maximum bounds every window pixel and equals one of them |
| `MaskRefinementProperties.RowMinBounds` | script.js:294-296 | the running minimum over a partial window row is at most every scanned pixel |
| `MaskRefinementProperties.WindowMinBounds` | script.js:290-301 | the 3x3 minimum is at most every window pixel |
| `MaskRefinementProperties.ImprovedAt` | script.js:288-310 | the result's value at (x, y) is the 3x3 maximum of the binarised mask on the interior and 0 on the border |
| `MaskRefinementProperties.WindowMaxBinary` | script.js:290-302 | the maximum over a binary window is 0 or 255 |
| `MaskRefinementProperties.ImprovedShape` | script.js:307-315 | every result pixel has R = G = B, each 0 or 255, and alpha 255 |
| `MaskRefinementProperties.ImprovedBorderZero` | script.js:284-289 | pixels in the first or last row or column of the result are 0 |
| `MaskRefinementProperties.ImprovedSmallFrameBlack` | script.js:288-289 | with width or height below 3 every colour channel of the result is 0 |
| `MaskRefinementProperties.ImprovedInterior` | script.js:290-310 | an interior result pixel is 255 iff some pixel of its 3x3 window in the binarised mirrored mask is 255 |
| `MaskRefinementProperties.ImprovedExtensive` | script.js:293-310 | an interior pixel that is 255 in the binarised mask is 255 in the result |
| `MaskRefinementProperties.OpeningWithinMask` | script.js:283-304 | the erosion-then-dilation the comment names never turns on an interior pixel that is off in the mask |
| `MaskRefinementProperties.SpotBinarized` | script.js:275-281 | for a 4x3 frame whose only bright source pixel is (2, 1), only mask pixel (1, 1), its mirror image, is on |
| `MaskRefinementProperties.DilationIsNotOpening` | script.js:293-310 | a single bright pixel spreads to a neighbour that is 0 in the binarised mask and in its opening |
| `Segmentation.CountNonZeroPixels` | script.js:232-235 | the loop counts exactly the pixels whose first channel is non-zero |
| `Segmentation.PixelStartsCount` | script.js:233 | stepping by 4 below n visits ceil(n / 4) offsets |
| `Segmentation.NonZeroPixelsBound` | script.js:232-235 | the count never exceeds the number of pixels |
| `Segmentation.GetSegmentationMask` | script.js:201-266 | null for no mask, an unknown mask kind, an exception, or fewer than 50 non-zero pixels; otherwise the upscaled `improveMask` result |
| `SegmentationProperties.NoNonZeroPixelsIff` | script.js:232-235 | the count is 0 iff every pixel's first channel is 0 |
| `SegmentationProperties.SmallMaskRejected` | script.js:240-243 | a buffer of at most 49 pixels never passes the gate |
| `SegmentationProperties.BlackMaskRejected` | script.js:240-243 | an all-black mask never passes the gate |
| `Compositing.Weighted` | script.js:371-376 | the exact blend, scaled by 255, lies between the frame and background values |
| `Compositing.BlendChannel` | script.js:371-376 | the stored channel is the nearest integer to frame*a + background*(1-a) and lies between the two inputs |
| `Compositing.BlendPixels` | script.js:362-378 | the output buffer equals `Blend`: each colour channel blended with its own pixel's mask value, alpha 255 |
| `Compositing.BlendCache.constructor` | script.js:324-331 | the cache starts empty |
| `Compositing.BlendCache.Prepare` | script.js:337-345 | the canvases are created once, on the first call, with that call's size, and kept afterwards |
| `Compositing.CompositeFrame` | script.js:334-384 | prepares the cache and returns the blend of frame and background under the blurred mask |
| `CompositingProperties.BlendChannelEndpoints` | script.js:371-376 | mask 255 gives the frame's value, mask 0 the background's, exactly |
| `CompositingProperties.BlendOpaque` | script.js:377 | every output alpha is 255 |
| `CompositingProperties.BlendFullMask` | script.js:370-376 | a pixel whose mask is 255 shows the frame's colour |
| `CompositingProperties.BlendEmptyMask` | script.js:370-376 | a pixel whose mask is 0 shows the background's colour |
| `CompositingProperties.BlendAllForeground` | script.js:370-378 | an all-255 mask yields the frame, made opaque |
| `CompositingProperties.BlendAllBackground` | script.js:370-378 | an all-0 mask yields the background, made opaque |
| `CompositingProperties.BlendLocal` | script.js:370-378 | each output channel depends only on the same index of frame and background and on its pixel's mask value |
| `CompositingProperties.BlendAgreeing` | script.js:374-376 | where frame and background agree the output equals them, whatever the mask |
| `FrameLoopProperties.SomeFromIff` | script.js:455 | the `.some` scan from index i is true iff some pixel start from i on holds a value above 50 |
| `FrameLoopProperties.HasValidMaskIff` | script.js:455 | `hasValidMask` is true iff some pixel's first channel is above 50 |
| `FrameLoopProperties.ValidMaskIsNonEmpty` | script.js:454-457 | a buffer `hasValidMask` accepts has at least one non-zero pixel start in that same buffer, as the gate would count it |
| `FrameLoopProperties.PassThrough` | script.js:420-421 | with `showOriginal` the raw video is drawn and the mask is neither requested nor replaced |
| `FrameLoopProperties.CompositeOrNothing` | script.js:449-460 | without an exception, the tick composites iff the mask is non-null and valid, and otherwise draws nothing |
| `FrameLoopProperties.FaultShowsVideo` | script.js:471-474 | any exception in the tick ends with the raw video on screen |
| `FrameLoopProperties.ShownCompositesAreValid` | script.js:454-459 | over any run of ticks, a composite on screen always used a mask that passed `hasValidMask` |
| `FrameLoopProperties.ShownCompositesAreValidFromStart` | script.js:415-477 | from the loop's initial state, with nothing on screen, any run of ticks shows a composite only for a mask that passed `hasValidMask` |
| `FrameLoopProperties.PassThroughRun` | script.js:419-421 | a run of pass-through ticks shows the raw video and leaves the mask alone |

## Left out

- The profile form, colour pickers and their storage (script.js:11-81): UI and persistence.
- The background gallery, `loadImage` and the cached-image check (script.js:84-113, 424-429): browser image loading.
- A background image that fails to load stalls the loop for good (script.js:107-113, 427). `loadImage` resolves only in `onload` and has no error path, so the `await` never returns and the tick never reaches `requestAnimationFrame` (script.js:476). The last picture stays frozen on screen. This is not modelled: every tick of `Run` completes.
- Camera start, segmenter set-up and the segmenter call (script.js:128-198): device I/O and a foreign library. Its outcome is the `SegmenterOutput` parameter.
- The canvas read-back, the upscaling `drawImage`, and the background and mask blur filters (script.js:217-229, 249-259, 352-360, 431-447): browser graphics calls. The upscale and the mask blur are the `upscale` and `blur` parameters.
- The scale factors 0.7 and 0.4, timings and the FPS read-out (script.js:206-208, 432-434, 465-469): floating point and clocks. The segmentation size is a parameter.
- `requestAnimationFrame` scheduling and the `await`s inside a tick: asynchrony. A tick is one step of `Tick`.
- An exception thrown by the raw-video draw inside the `catch` block (script.js:473) escapes `loop` and stops it. In the model that draw always succeeds.
- `Compositing.BlendChannel`: the source computes in double precision. The model uses exact arithmetic rounded to nearest. The exact value is never within 1/510 of a halfway point, far more than the rounding error of a few double operations, so both round the same way. This argument is not proved.
- `Segmentation.GetSegmentationMask`: every exception caught by its `catch` is the single `Failed` case, and the upscale never throws.
- `Compositing.CompositeFrame`: the cache records only its canvases' size. The app always calls it with the same output size, so canvases of another size never occur and are not modelled.
- `FrameLoop.Tick`: a drawing is abstracted to which picture it shows (`Video`, or `Composite` with its mask), not its pixels.
