# MultiChannelViewer imaging core, modelled in Dafny

MultiChannelViewer shows two camera streams side by side. One is a white-light (WL) colour camera and the other a 16-bit near-infrared (NIR) camera. A third view overlays a false-colour NIR image on the WL image. This project models the arithmetic and array logic behind those views:

- **`median_filter.dfy` (module `MedianFilter`)**: `Camera::medianFilter`. A sliding-histogram median filter walks a (2r+1)² window over the frame in snake order. It keeps a 4096-bin histogram of the window and rescans it after every slide. Results go to a zeroed scratch buffer, which is then copied over the frame. The capture path applies it to Mono16 frames with radius 3.
- **`auto_expose.dfy` (module `AutoExposure`)**: the `AutoExpose` controller. It converts RGB to a 12-bit luminance and masks out dark pixels. It histograms WL luminance and NIR counts over the mask and finds the 95% cutoff bin. It turns the cutoff into a multiplier clamped to [0.9, 1.1], then scales and clamps each exposure.
- **`histograms.dfy` (module `Histograms`)**: the masked histogram, bin range sums and the "first bin whose running sum exceeds a percentage" search. Auto-exposure and the NIR thresholds share these.
- **`nir_colour.dfy` (module `NirFalseColour`)**: the percentile false-colour map of `renderFrame_NIR_Cam`. Raw values above the calibrated threshold are histogrammed. Five thresholds go at 17/34/51/68/85% of that mass, with the tie-break that keeps them strictly increasing. Seven flat colour bands follow. The module also has the arithmetic of `calibrate_NIR_thresh`.
- **`viewer.dfy` (module `Viewer`)**: the main window state the render steps read: `opacity_val`, `thresh_calibrated`, `monochrome` and the exposures. It holds the handlers that set them, the calibration loop, and the NIR and composite render steps.
- **`compositor.dfy` (module `Compositor`)**: the per-pixel rules of the composite view and the recording repeat counts. The monochrome underlay sets R = G = B. A black overlay pixel is fully transparent, and any other gets alpha `255 * opacity`.
- **`even_split.dfy` (module `EvenSplit`)**: the earlier main window (root `multichannelviewer.cpp`). Its `renderFrame_Cam2` places seven thresholds evenly between `minVal` and `maxVal`. It ramps the colour between them with C++ integer division and stores the result into `unsigned char` components. Its slider and spin-box handlers keep `maxVal` at least 100 above `minVal`.
- **`frames.dfy` (module `Frames`)**: the frame constants, pixel types, the `ULONG_PADDING` macro and the integer-storage wraps.

Modelling choices:

- **Integer widths.**
  - Integers are unbounded.
  - Where the source stores an `int` into an `unsigned char` or `unsigned short`, the model keeps the value modulo 256 or 65536 (`ToByte`, `ToU16`).
  - C++ `int` division truncates toward zero (`EvenSplit.CDiv`), and conversion of a double to an integer truncates (`Compositor.Truncate`).
- **Floating point.**
  - Double arithmetic becomes exact `real` arithmetic or scaled integer comparisons. For example, `sum / pixel_count > 0.17` becomes `100 * sum > 17 * pixel_count`.
  - The luminance `(0.21 r + 0.72 g + 0.07 b) * 16` is taken exactly and then truncated.
- **`coord(x, y, w)`.** The median filter addresses pixels with `coord(x, y, w)`. That helper is not part of this model. Its uses (x runs along the width) imply `y * w + x`, and the model assumes this.
- **Exposure multiplier.** The cutoff is a whole bin number, so the clamped multiplier `1 - (cutoff - 3000) / 3000` is always a whole number of 3000ths. The model keeps that count (`MultiplierNum`), and the truncated product becomes an integer division by 3000. `ScaledIsTruncatedProduct` proves this equals the truncated real product.
- **Counting conditions.** `AutoExposure.Mask` and `NirFalseColour.AboveThreshold` are the source's `if` conditions written as definitions. What they mean for `pixel_count` is proved by `ValidPixelsAreBright` and `NirCountAbove`, and the histograms built over them by `HistogramsCountValidPixels` and `CountAbove`.
- **`qGray`.** Qt's `qGray` is not part of this model: the grey conversion takes it as a function parameter.
- **Unfound thresholds.** In `renderFrame_NIR_Cam`, `int thresh1, ..., thresh6 = 0` initialises only `thresh6`. The model makes each placed threshold an `Option`.
  - When `thresh6` alone is never found, it keeps its 0. The frame is coloured with thresh6 = 0, so every sample above thresh5 is white and the red band is empty (`UnfoundThresh6PaintsWhite`).
  - When `thresh5` is never found, no later threshold is found either. `thresh5`, and possibly earlier ones, stay uninitialised, so the model has no colour image (`FrameThresholds` is `None`).
  - A frame whose counted samples are all below 4096, with at least one counted, always finds all five.

Where the documented behaviour and the code differ, the model follows the code:

- **Empty frames.** Auto-exposure does not skip a frame without valid pixels. The cutoff stays 0, the multiplier is 1.1 and the exposure rises (`EmptyFrameRaisesExposure`).
- **Step bound.** The documented step bound is ±30%. The code bounds a step by about ±10% (multiplier clamp) plus one (truncation). `ExposureStep` proves both.
- **Median border.** Median filter border pixels are not left unfiltered. They end up 0, because the scratch buffer is zeroed and copied over the whole frame.
- **Median of later windows.** Every median window after the first writes the scan's final `k`, which is the median bin plus one. `Filter` keeps this behaviour because it is what the code does. The corrected rule `MedianPixel` writes the median everywhere, and its frames meet the range the auto-exposure's NIR histogram requires (see Findings).
- **Viewer exposures.** The viewer's own `exposure_WL`/`exposure_NIR` (used only for recording repeat counts) are set by its constructor. None of the modelled handlers change them: the exposure spin boxes forward to the controller's `ChangeExposure_*`.

## Model

| member | source | states |
|---|---|---|
| Frames.UlongPadding | src/multichannelviewer.h:44 | padding is at most 3, makes x a multiple of 4, is 0 exactly when x is, and equals (4 − x mod 4) mod 4 |
| Frames.LineSize | src/multichannelviewer.cpp:275-276 | an RGB line padded to a multiple of four bytes is between 3·width and 3·width + 3 bytes |
| Frames.FrameLinesUnpadded | src/multichannelviewer.h:28 | a 640-pixel RGB line needs no padding, so the line size is 1920 bytes |
| Frames.ToByte | src/multichannelviewer.cpp:586-588 | storing an int into an unsigned char keeps it modulo 256, unchanged when already in 0..255 |
| Frames.ToU16 | multichannelviewer.h:160-161 | storing an int into an unsigned short keeps it modulo 65536 |
| MedianFilter.RowStartIsProduct | src/camera.cpp:287 | the row offset used for pixel addressing is y·w |
| MedianFilter.CoordDistinct | src/camera.cpp:322 | distinct pixels of a frame have distinct flat indices, so each write hits its own pixel |
| MedianFilter.SlideAcross | src/camera.cpp:308-312 | sliding the window one column removes the leaving column and adds the entering one |
| MedianFilter.SlideDown | src/camera.cpp:331-335 | sliding the window one row removes the leaving row and adds the entering one |
| MedianFilter.WindowCountAll | src/camera.cpp:279 | in a 12-bit frame the window's histogram sums to the window size (2r+1)² |
| MedianFilter.MedianIsOrderStatistic | src/camera.cpp:291-299 | the median is the rank-`middle_element` value: at most `middle` pixels below it, more than `middle` at or below it |
| MedianFilter.ConstantMedian | src/camera.cpp:291-299 | the median of a window of a constant frame is that constant |
| MedianFilter.MiddleIsHalfSquare | src/camera.cpp:281 | the rank `middle_element`, defined by its growth of 4r from radius r − 1, is (2r+1)²/2, that is 2r² + 2r |
| MedianFilter.MiddleInWindow | src/camera.cpp:281 | `middle_element` is less than the window size, so the scan always stops inside the histogram |
| MedianFilter.FilteredPixel | src/camera.cpp:273-391 | the value the filter leaves at a pixel is in 0..4096 |
| MedianFilter.FilteredPixelBound | src/camera.cpp:310-322 | every value the filter leaves is in 0..4096, and 0 within r of an edge |
| MedianFilter.ConstantFrame | src/camera.cpp:314-322 | a constant frame c comes out as c at (r, r), c + 1 at every other interior pixel, 0 on the border |
| MedianFilter.MedianOfAgree | src/camera.cpp:283-320 | frames that agree on a window have the same median there |
| MedianFilter.SaturatedFrameGives4096 | src/camera.cpp:314-322 | a 640×480 frame of 4095s, filtered with radius 3, holds 4096 at (4, 3) |
| MedianFilter.MedianPixel | src/camera.cpp:291-300 | the intended output rule (the window median, with `k--`) stays within 0..4095 |
| MedianFilter.MedianPixelConstant | src/camera.cpp:291-300 | under the intended rule a constant frame c comes out as c at every interior pixel, 0 on the border |
| MedianFilter.Alternate | src/camera.cpp:306-369 | consecutive rows are walked in opposite directions |
| MedianFilter.AccumulateFirstWindow | src/camera.cpp:283-289 | after the loop each histogram bin counts the pixels of that value in the first window |
| MedianFilter.ExchangeColumns | src/camera.cpp:308-312 | after the loop, for each of the n rows the leaving column's pixel is removed from the histogram and the entering column's pixel added |
| MedianFilter.ExchangeRows | src/camera.cpp:331-335 | after the loop, for each of the n columns the leaving row's pixel is removed from the histogram and the entering row's pixel added |
| MedianFilter.SlideRight | src/camera.cpp:308-312 | the exchange loop turns the histogram of one window into that of the window one column right |
| MedianFilter.SlideLeft | src/camera.cpp:351-355 | the exchange loop turns the histogram of one window into that of the window one column left |
| MedianFilter.SlideRows | src/camera.cpp:331-335 | the exchange loop turns the histogram of one window into that of the window one row down |
| MedianFilter.ScanHistogram | src/camera.cpp:314-320 | the scan stops at one past the window's median bin |
| MedianFilter.NextValue | src/camera.cpp:314-321 | the value written at every window after the first is the median plus one |
| MedianFilter.WindowRight | src/camera.cpp:306-322 | one slide right keeps the histogram equal to the window's counts and yields the new centre's value |
| MedianFilter.WindowLeft | src/camera.cpp:348-366 | one slide left keeps the histogram equal to the window's counts and yields the new centre's value |
| MedianFilter.WindowDown | src/camera.cpp:331-345 | one slide down keeps the histogram equal to the window's counts and yields the new centre's value |
| MedianFilter.Emit | src/camera.cpp:322 | storing the value for the pixel the walk moves to keeps every written pixel final and every other pixel 0 |
| MedianFilter.StepRight | src/camera.cpp:306-322 | one step right keeps the histogram equal to the counts of the window moved one column and writes the new pixel's final value |
| MedianFilter.StepLeft | src/camera.cpp:348-366 | one step left keeps the histogram equal to the counts of the window moved one column and writes the new pixel's final value |
| MedianFilter.SweepRight | src/camera.cpp:306-323 | a rightward row leaves every pixel up to the row's end written with its final value, the rest 0 |
| MedianFilter.SweepLeft | src/camera.cpp:348-367 | a leftward row leaves every pixel up to the row's start written with its final value, the rest 0 |
| MedianFilter.MoveDown | src/camera.cpp:374-388 | stepping down at a row's end writes exactly the pixel below |
| MedianFilter.FirstWindow | src/camera.cpp:283-300 | the first window writes the true median at (r, r) |
| MedianFilter.WrittenStep | src/camera.cpp:302-390 | each step of the snake walk writes exactly one new pixel, so each interior pixel is written once |
| MedianFilter.Finished | src/camera.cpp:326-329 | when y + r reaches h after the last row, every pixel holds its final value |
| MedianFilter.RightHalf | src/camera.cpp:306-345 | the rightward sweep, then either the walk ends with every pixel final or the window steps down at the row's end |
| MedianFilter.LeftHalf | src/camera.cpp:348-388 | the leftward sweep, then either the walk ends with every pixel final or the window steps down at the row's start |
| MedianFilter.WalkFrame | src/camera.cpp:302-390 | the snake walk leaves every pixel holding its filtered value |
| MedianFilter.Filter | src/camera.cpp:270-393 | after the call every pixel of the frame holds FilteredPixel of the original frame |
| MedianFilter.SevenBySeven | src/camera.cpp:165 | radius 3 gives a 7×7 window with middle element 24 |
| MedianFilter.CaptureFilter | src/camera.cpp:163-165 | a Mono16 frame is filtered with radius 3 in place; any other frame is unchanged |
| Histograms.KeptCountsPositions | autoexpose.cpp:107-114 | the number of set flags is the number of positions holding one |
| Histograms.HistogramTotal | autoexpose.cpp:105-115 | a masked histogram's bins sum to the number of kept values |
| Histograms.HistogramUpToPrefix | autoexpose.cpp:105-115 | the histogram a pixel loop holds after n pixels is the masked histogram of the first n values |
| Histograms.HistogramUpToAll | autoexpose.cpp:105-115 | after the last pixel the loop's histogram is the masked histogram of the whole frame |
| Histograms.HistogramOutside | src/multichannelviewer.cpp:377-385 | bins outside the range the kept values fall in are empty |
| Histograms.RangeSumMonotone | autoexpose.cpp:122-130 | the running sum never decreases as bins are added |
| Histograms.FirstCrossing | autoexpose.cpp:122-130 | the result is the first bin whose running sum exceeds the percentage, or none when no bin does |
| Histograms.FirstCrossingUnique | autoexpose.cpp:122-130 | any bin meeting the first-crossing conditions is the one found |
| Histograms.FirstCrossingExtend | src/multichannelviewer.cpp:399-427 | scanning one more bin keeps an earlier crossing or finds the new bin exactly when it crosses |
| Histograms.FirstCrossingOrdered | src/multichannelviewer.cpp:402-426 | a lower percentage crosses no later than a higher one |
| Histograms.FirstCrossingFound | src/multichannelviewer.cpp:399-427 | when the scanned bins hold all of a positive mass, every percentage below 100 is crossed |
| AutoExposure.Luminance | autoexpose.cpp:94-97 | luminance is the truncated (0.21r + 0.72g + 0.07b)·16 and at most 4080, so it indexes the 4096-bin histogram |
| AutoExposure.ValidPixelsAreBright | autoexpose.cpp:105-115 | `pixel_count` is the number of pixels of the frame whose luminance exceeds 32 |
| AutoExposure.Lumas | autoexpose.cpp:91-99 | every pixel gets its luminance, each below 4096 and so a histogram bin |
| AutoExposure.Cutoff | autoexpose.cpp:117-130 | the cutoff is the first bin whose running sum exceeds 95% of the count, or 0 when none does |
| AutoExposure.MultiplierNum | autoexpose.cpp:140-153 | the clamped multiplier in 3000ths is in [2700, 3300], below 3000 for a cutoff above 3000, above 3000 for one below, 3000 at 3000 |
| AutoExposure.Multiplier | autoexpose.cpp:140-153 | the multiplier is in [0.9, 1.1], below 1 for a cutoff above 3000 and above 1 for a cutoff below |
| AutoExposure.Scaled | autoexpose.cpp:155-156 | the unclamped new exposure is non-negative and the whole part of prev·n/3000, n the multiplier in 3000ths |
| AutoExposure.NextExposure | autoexpose.cpp:155-168 | the new exposure lies within [100, cap] |
| AutoExposure.HistogramsCountValidPixels | autoexpose.cpp:105-115 | both histograms sum to `pixel_count`, the number of masked-in pixels |
| AutoExposure.EmptyFrameRaisesExposure | autoexpose.cpp:117-153 | a frame with no valid pixels gives cutoff 0, multiplier 1.1 and a higher exposure |
| AutoExposure.CutoffOfEmpty | autoexpose.cpp:117-129 | a histogram holding nothing has no bin passing 95%, so the cutoff keeps its initial 0 |
| AutoExposure.FullStepRaises | autoexpose.cpp:140-168 | at cutoff 0 the exposure below the cap strictly rises |
| AutoExposure.MultiplierCases | autoexpose.cpp:140-148 | the multiplier is 1.1 up to cutoff 2700, 0.9 from 3300, and 1 − (cutoff − 3000)/3000 between |
| AutoExposure.ScaledIsTruncatedProduct | autoexpose.cpp:155-156 | the integer division by 3000 is the truncation of the exposure times the real multiplier |
| AutoExposure.ScaledBounds | autoexpose.cpp:140-156 | before clamping, the new exposure does not rise for a cutoff at or above 3000, does not fall at or below, and stays within a tenth, less one for truncation |
| AutoExposure.ExposureDirection | src/autoexpose.h:26-30 | a cutoff above 3000 never increases the exposure and one below never decreases it |
| AutoExposure.ExposureStep | src/autoexpose.h:32-34 | a step changes the exposure by at most a tenth plus one, so well within the documented 30% |
| AutoExposure.ToMono | autoexpose.cpp:91-99 | the conversion loop yields the luminance of every pixel |
| AutoExposure.JointHistograms | autoexpose.cpp:101-115 | the loop builds both masked histograms and the valid-pixel count |
| AutoExposure.MaskedHistogram | autoexpose.cpp:197-208 | the WL-only loop builds the masked histogram and count |
| AutoExposure.CutoffScan | autoexpose.cpp:122-130 | the scan with early break computes the cutoff |
| AutoExposure.AutoExpose.constructor | autoexpose.cpp:7-8 | the controller starts at 80000 / 300000 |
| AutoExposure.AutoExpose.ChangeExposureWL | autoexpose.cpp:11-14 | stores its argument unclamped, the NIR exposure unchanged |
| AutoExposure.AutoExpose.ChangeExposureNIR | autoexpose.cpp:16-19 | stores its argument unclamped, the WL exposure unchanged |
| AutoExposure.AutoExpose.TwoCams | autoexpose.cpp:21-180 | both exposures are stepped from their cutoffs, end within their caps, and exactly those values are sent |
| AutoExposure.AutoExpose.WLCam | autoexpose.cpp:182-243 | the WL exposure is stepped and capped, the NIR exposure unchanged |
| NirFalseColour.NirCountAbove | src/multichannelviewer.cpp:377-385 | `pixel_count` is the number of samples of the frame above `thresh_calibrated` |
| NirFalseColour.Threshold | src/multichannelviewer.cpp:396-427 | a threshold is found exactly when its percentage is crossed, and never before that crossing |
| NirFalseColour.ThresholdsIncrease | src/multichannelviewer.cpp:409-424 | a found threshold implies the previous one was found and lies strictly below it; thresh2 exceeds thresh1 |
| NirFalseColour.ThresholdNearCrossing | src/multichannelviewer.cpp:409-424 | the tie-break moves thresh_j at most j bins past its own crossing |
| NirFalseColour.ThresholdKept | src/multichannelviewer.cpp:399-427 | scanning one more bin keeps a threshold already found, because its `found_j` flag blocks the test |
| NirFalseColour.ThresholdFound | src/multichannelviewer.cpp:399-427 | an unfound threshold is found at bin k exactly when the running sum through k crosses its percentage, and then lies at k or one past the previous threshold |
| NirFalseColour.AllFoundWhen12Bit | src/multichannelviewer.cpp:399 | when all counted mass lies below 4096 every threshold is found |
| NirFalseColour.Band | src/multichannelviewer.cpp:442-492 | the band is 0 exactly for values at most thresh1 |
| NirFalseColour.BandCountsThresholdsBelow | src/multichannelviewer.cpp:442-492 | with increasing thresholds the band is the number of thresholds below the value |
| NirFalseColour.BandMonotone | src/multichannelviewer.cpp:442-492 | brighter values never get a lower band |
| NirFalseColour.BandColour | src/multichannelviewer.cpp:442-492 | band 0 alone is black and band 6 alone is white |
| NirFalseColour.NirColour | src/multichannelviewer.cpp:442-492 | a pixel is black iff its value is at most thresh1 and white iff it exceeds every threshold |
| NirFalseColour.ColourMap | src/multichannelviewer.cpp:434-508 | the colour image has the frame's size; a pixel is black exactly when its value is at most thresh1, white exactly when above every threshold |
| NirFalseColour.FrameThresholds | src/multichannelviewer.cpp:389-427 | thresholds exist exactly when thresh5 is found; they start at `thresh_calibrated` and strictly increase through thresh5; thresh6 is the placed value, above thresh5, when found and its initialiser 0 when not |
| NirFalseColour.UnfoundThresh6PaintsWhite | src/multichannelviewer.cpp:442-492 | with thresh6 unfound (0), a sample is white exactly when above thresh5, and none is red |
| NirFalseColour.EmptyFrameHasNoThresholds | src/multichannelviewer.cpp:374-427 | with no counted pixel no threshold is found and no colour image is defined |
| NirFalseColour.TwelveBitFrameHasThresholds | src/multichannelviewer.cpp:374-427 | a frame with counted pixels all below 4096 finds all five thresholds, and they strictly increase |
| NirFalseColour.CalibratedThreshold | src/multichannelviewer.cpp:707-708 | `thresh_calibrated` is 2 plus the whole part of the interior mean: (t − 2)·306081 ≤ interior sum < (t − 1)·306081 |
| NirFalseColour.CalibrationBounds | src/multichannelviewer.cpp:699-708 | the calibrated threshold lies between the interior's least and greatest value, plus 2 |
| NirFalseColour.CalibrationIgnoresFirstRowAndColumn | src/multichannelviewer.cpp:699-701 | frames that agree outside row 0 and column 0 calibrate alike |
| NirFalseColour.CountAbove | src/multichannelviewer.cpp:374-385 | the loop builds the 65535-bin histogram of values above the threshold and their count |
| NirFalseColour.PlaceThresholds | src/multichannelviewer.cpp:396-427 | the loop with found-flags yields exactly the five thresholds Threshold specifies |
| NirFalseColour.TestBin | src/multichannelviewer.cpp:401-426 | one iteration's five tests advance every threshold by one bin |
| NirFalseColour.TestThreshold | src/multichannelviewer.cpp:402-426 | one `if (!found_j && sum/pixel_count > p)` test at bin k turns the threshold of the bins before k into the threshold of the bins through k |
| NirFalseColour.Paint | src/multichannelviewer.cpp:434-508 | the pixel loop colours every value by the band map |
| NirFalseColour.ColourFrame | src/multichannelviewer.cpp:365-508 | a colour image exists exactly when thresh2 .. thresh5 are found, and it is the band map of the frame under the frame's thresholds (thresh6 = 0 when unfound) |
| Compositor.GreyPixel | src/multichannelviewer.cpp:581-588 | a grey pixel has R = G = B, each its grey level modulo 256 |
| Compositor.Monochrome | src/multichannelviewer.cpp:572-590 | every pixel of the monochrome underlay has R = G = B |
| Compositor.MonochromeIdempotent | src/multichannelviewer.cpp:579-590 | with a grey function that fixes grey pixels, turning an image grey twice equals once |
| Compositor.ToMonochrome | src/multichannelviewer.cpp:574-590 | the in-place loop leaves the monochrome image of the original |
| Compositor.Truncate | src/multichannelviewer.cpp:614 | conversion to int truncates toward zero |
| Compositor.Alpha | src/multichannelviewer.cpp:614 | for an opacity in [0, 1], alpha is 255·opacity truncated |
| Compositor.Overlay | src/multichannelviewer.cpp:608-616 | the overlay pixel keeps the NIR colour; its alpha is 0 exactly when the colour is black or 255·opacity truncates to 0, and otherwise is that alpha |
| Compositor.SliderAlpha | src/multichannelviewer.cpp:848 | slider positions 1..10 give alpha 255·position/10, in 25..255 |
| Compositor.TransparentIffBlack | src/multichannelviewer.cpp:604-619 | with the slider above 0 an overlay pixel is transparent iff its NIR colour is black |
| Compositor.OverlayImage | src/multichannelviewer.cpp:604-619 | the overlay image has the NIR image's size and colours, and is fully transparent exactly at black pixels (everywhere when the alpha is 0) |
| Compositor.TransparencyPass | src/multichannelviewer.cpp:601-619 | the loop builds the overlay image of the NIR frame |
| Compositor.RepeatCount | src/multichannelviewer.cpp:349 | a recorded frame is written ⌊24·exposure/10⁶⌋ + 1 ≥ 1 times |
| Compositor.RepeatCountMonotone | src/multichannelviewer.cpp:553 | a longer exposure never repeats a frame fewer times |
| Compositor.CompositeExposure | src/multichannelviewer.cpp:683 | the composite records at the shorter of the two exposures |
| Compositor.CompositeRepeats | src/multichannelviewer.cpp:683-685 | the composite repeat count is the smaller of the WL and NIR repeat counts |
| Viewer.SumInterior | src/multichannelviewer.cpp:699-706 | the nested loop sums rows 1..479, columns 1..639 |
| Viewer.SumRow | src/multichannelviewer.cpp:701-704 | the inner loop sums columns 1..639 of one row |
| Viewer.SaturatedNirOverflowsHistogram | autoexpose.cpp:101-112 | a saturated Mono16 frame, filtered on capture, holds 4096 under a bright WL pixel, outside the 4096-bin NIR histogram |
| Viewer.MedianNirFitsHistogram | autoexpose.cpp:101-112 | with the median written at every window, every filtered sample fits the NIR histogram |
| Viewer.MultiChannelViewer.constructor | src/multichannelviewer.cpp:17-22 | opacity 0.1, threshold 2, colour underlay, exposures 60000 / 500000 |
| Viewer.MultiChannelViewer.OnOpacitySliderChanged | src/multichannelviewer.cpp:846-849 | opacity becomes a tenth of the slider value, nothing else changes |
| Viewer.MultiChannelViewer.OnNirThreshChanged | src/multichannelviewer.cpp:970-973 | the threshold becomes the spin-box value, nothing else changes |
| Viewer.MultiChannelViewer.OnMonochromeChanged | src/multichannelviewer.cpp:838-844 | checked turns monochrome on, unchecked off, partial leaves it |
| Viewer.MultiChannelViewer.CalibrateNirThresh | src/multichannelviewer.cpp:689-712 | on OK the threshold becomes the truncated interior mean plus 2; on cancel nothing changes |
| Viewer.MultiChannelViewer.RenderNir | src/multichannelviewer.cpp:365-508 | the NIR view exists exactly when thresh2 .. thresh5 are found under the current threshold, and is the band map under the frame's thresholds (thresh6 = 0 when unfound) |
| Viewer.MultiChannelViewer.RenderComposite | src/multichannelviewer.cpp:565-622 | the underlay is the WL image, grey in monochrome mode; the overlay is the transparency image at the current opacity |
| Viewer.MultiChannelViewer.RecordingRepeats | src/multichannelviewer.cpp:683-685 | the composite repeats min(WL, NIR) times, at least once |
| EvenSplit.CDiv | multichannelviewer.cpp:334 | C++ `int` division truncates toward zero: the Euclidean quotient for a non-negative dividend, minus the quotient of its absolute value for a negative one |
| EvenSplit.Space | multichannelviewer.cpp:334 | for minVal ≤ maxVal, `space` is the truncated sixth of the gap |
| EvenSplit.Thresh | multichannelviewer.cpp:332-339 | thresh_i is minVal + (i − 1)·space for i ≤ 6, and thresh7 is maxVal |
| EvenSplit.LastGap | multichannelviewer.cpp:333-339 | thresh7 − thresh6 is space plus (maxVal − minVal) mod 6 |
| EvenSplit.ThresholdsIncrease | multichannelviewer.cpp:332-339 | with a gap of at least 6 the thresholds strictly increase, each step at least space ≥ 1 |
| EvenSplit.EvenBand | multichannelviewer.cpp:354-401 | the band is at most 7; band 0 exactly when the value is at most minVal; with minVal ≤ maxVal, band 7 exactly when it is above maxVal |
| EvenSplit.EvenColour | multichannelviewer.cpp:354-401 | a pixel is black iff its value is at most minVal, and white above maxVal |
| EvenSplit.FadingBands | multichannelviewer.cpp:376-387 | blue in (t3, t4] and green in (t5, t6] stay 255 and are 0 only at the band's end |
| EvenSplit.RisingRed | multichannelviewer.cpp:380 | red in (t4, t5] is 255·(counts − t4)/space, within 0..255 and non-decreasing |
| EvenSplit.LastBandInRange | multichannelviewer.cpp:390-395 | in (t6, t7] green and blue equal 255·(counts − t6)/space without wrapping up to t6 + space |
| EvenSplit.LastBandWrapsAtDefaults | multichannelviewer.cpp:390-395 | at minVal 10, maxVal 200 the value 200 computes 287 and is stored as (255, 31, 31) |
| EvenSplit.EvenColourMap | multichannelviewer.cpp:344-407 | the colour image is black exactly where the raw value is at most minVal |
| EvenSplit.GapDefinesAll | multichannelviewer.cpp:634-646 | a gap of at least 100 gives space ≥ 16, so no pixel divides by zero |
| EvenSplit.ClampMin | multichannelviewer.cpp:619-632 | the new minVal is the value when more than 100 below maxVal, else maxVal − 100, and keeps the gap |
| EvenSplit.ClampMax | multichannelviewer.cpp:634-646 | the new maxVal is the value when more than 100 above minVal, else minVal + 100, and keeps the gap |
| EvenSplit.MultiChannelViewer.constructor | multichannelviewer.cpp:18-19 | minVal 10 and maxVal 200, which satisfy the gap |
| EvenSplit.MultiChannelViewer.OnMinValChanged | multichannelviewer.cpp:619-632 | stores the clamped minVal, keeps maxVal, and keeps the gap for non-negative values |
| EvenSplit.MultiChannelViewer.OnMaxValChanged | multichannelviewer.cpp:634-646 | stores the clamped maxVal, keeps minVal, and keeps the gap and the slider range |
| EvenSplit.MultiChannelViewer.OnMinValSpinboxChanged | multichannelviewer.cpp:648-662 | the same state change as the minVal slider |
| EvenSplit.MultiChannelViewer.OnMaxValSpinboxChanged | multichannelviewer.cpp:664-678 | the same state change as the maxVal slider |
| EvenSplit.MultiChannelViewer.RenderFrame | multichannelviewer.cpp:344-407 | the pixel loop colours every raw value by the even-split map |

## Left out

- PvAPI camera I/O: capture setup, the frame queue and retry loop, unplug handling, binning and the vendor checks. These are foreign SDK calls. Writing the exposure to the camera is modelled as the value a method returns.
- Threads, signals and slots, and the mutexes around frame copies. This is concurrency, not arithmetic. The inputs of the controller are arrays that are only read.
- Bayer interpolation, `QImage` mirroring and format conversion, and `QPainter` compositing. These are library calls. `qGray` is a parameter.
- The recording blend `wl·(1 − opacity) + nir·opacity`: floating point that adds nothing beyond the transparency rule. FFMPEG writing is modelled only as the repeat count.
- Screenshots, timestamps, `mkdir`, message boxes, UI geometry and the `sliderMoved` handlers, which only touch widgets.
- `AutoExposure_NIR_Cam`: it is declared in src/autoexpose.h but has no body in this repository.
- Floating-point rounding in the luminance, multiplier, threshold fractions and opacity. The model computes these exactly.
- AutoExposure.NextExposure: does not model the overflow of a double-to-`unsigned int` conversion. Exposures stay far below 2³², so this cannot occur from an in-range start.
- NirFalseColour.FrameThresholds: when thresh5 is never found, C++ colours the frame with uninitialised thresholds (at least thresh5 has no value). The model has no thresholds for such a frame. The case where only thresh6 is unfound is modelled, with thresh6 = 0.
- NirFalseColour.ColourFrame: has no colour image for a frame whose thresh5 is never found, for the same reason.
- Viewer.MultiChannelViewer.RenderNir: has no NIR view for a frame whose thresh5 is never found, for the same reason.
- Viewer.MultiChannelViewer.CalibrateNirThresh: the closing `ui->NIR_Thresh->setValue(thresh_calibrated)` (src/multichannelviewer.cpp:709) re-enters `on_NIR_Thresh_valueChanged` (970-973), which stores the spin box's value clamped to a range set in the UI file. The UI file is not part of this model, so the model stores the computed threshold unclamped.
- Viewer.MultiChannelViewer.OnOpacitySliderChanged: the slider range (0..10) is set by the UI file, which is not part of this model. The handler is modelled for any int.
- EvenSplit.MultiChannelViewer.OnMinValChanged: values outside 0..65535 wrap on storage as in C++. The gap is promised only for the non-negative values the 0..4095 slider gives.
- EvenSplit.MultiChannelViewer.OnMaxValChanged: the gap and the 4095 bound are promised only for values the slider gives and a maxVal already within the slider range.
- MedianFilter.Filter and MedianFilter.CaptureFilter: require every sample below 4096. A larger sample indexes past the 4096-bin `Histogram` (src/camera.cpp:279, 287), which is undefined behaviour in C++ and not modelled.
- AutoExposure.AutoExpose.TwoCams: requires `NirInRange`, every NIR sample under a bright WL pixel below 4096. A larger sample indexes past `Histogram_NIR[4096]` (autoexpose.cpp:102, 111-112), which is undefined behaviour and not modelled. The filtered frame can hold 4096 (see Findings).
- NirFalseColour.FrameThresholds and Viewer.MultiChannelViewer.RenderNir: require `thresh_calibrated` ≥ −1. Below that, the scan from `thresh_calibrated + 1` (src/multichannelviewer.cpp:399) reads bins before the start of `Histogram_NIR`.
- NirFalseColour.FrameThresholds and Viewer.MultiChannelViewer.RenderNir: require every counted sample below 65535 (`CountedFit`). The sample 65535 indexes one past `Histogram_NIR[65535]` (src/multichannelviewer.cpp:374, 382).

## Findings

| source | as written | input that shows it | evidently intended | confidence | as-written member | corrected member |
|---|---|---|---|---|---|---|
| src/camera.cpp:314-322 | every window after the first writes the scan's final `k`, one past the median bin, so a 12-bit frame can come out holding 4096 | a Mono16 frame of 4095s under a white WL frame: pixel (4, 3) becomes 4096, and `Histogram_NIR[NIR]++` on `int[4096]` (autoexpose.cpp:102, 111-112) writes one past the end | `k--` after every scan, as after the first, so every pixel gets its window's median within 0..4095 | not executed | MedianFilter.SaturatedFrameGives4096, Viewer.SaturatedNirOverflowsHistogram | MedianFilter.MedianPixel, Viewer.MedianNirFitsHistogram |
