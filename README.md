# bad-kitty-bot: a verified model of the detection-to-event core

This project models the per-frame logic of a cat-detector bot. A camera frame is letterboxed onto the square canvas the detector expects. The detector's rows are mapped back to frame coordinates and filtered down to confident "cat" rows. A debouncer turns per-frame sightings into one event per sustained presence.

The four parts are:

- `onnx_loader.dfy`, module `OnnxLoader`. It covers the letterbox geometry:
  - the uniform scale;
  - the rounded resized size, with Python's `round` modelled as round-half-to-even;
  - the centring padding.

  Class `YoloOnnx` holds the canvas side. Its methods fill the canvas with 114 and paste the resized image. They also pack the canvas into a 1×3×H×W tensor, reversing the colour order. They pick the detections out of the engine's output and rewrite the box columns of a copy in place.
- `postprocess.dfy`, module `Postprocess`. It covers `filter_cats`: keep a row if and only if `score >= thr` and the class, truncated toward zero, is 15.
- `pipeline.dfy`, module `Pipeline`. It covers `fourcc_to_str`, the `cat_active_since` debouncer and the FPS frame counter of the main loop. Class `PipelineLoop` holds the loop state, and its `Tick` method runs one loop iteration.
- `capture.dfy`, module `Capture`. It covers the sliding-window variant: a deque of in-region sighting times that is appended, pruned from the front and cleared on an event. This is class `PersistenceWindow`, with an `Update` method whose prune is a `while` loop. `in_roi` and the clock are inputs.

Floats are Dafny `real` and pixel sizes are `int`. Channel values use a `byte` newtype. Detector rows are a `Row` datatype with the six columns `x1, y1, x2, y2, score, cls`. The inference engine's answer is passed in as an `EngineOutput`: a 2-D row matrix, or a batched 3-D output.

## Model

| member | source | states |
|---|---|---|
| OnnxLoader.RoundHalfEven | src/detector/onnx_loader.py:20 | Python `round`: the result is within 0.5 of x, and an exact tie goes to the even neighbour |
| OnnxLoader.RoundMonotone | src/detector/onnx_loader.py:20 | rounding never reverses the order of two values |
| OnnxLoader.Scale | src/detector/onnx_loader.py:19 | the scale is positive, is at most both axis ratios and equals one of them (the minimum) |
| OnnxLoader.ResizedAxisFits | src/detector/onnx_loader.py:19-20 | a rounded resized axis lies in [0, new_size], and the limiting axis rounds to exactly new_size |
| OnnxLoader.Fit | src/detector/onnx_loader.py:18-24 | the geometry: positive scale; nh and nw within the canvas, with the limiting axis filling it; top and left non-negative; the paste rectangle inside the canvas; the padding centred, with any odd pixel below or to the right |
| OnnxLoader.UnmapForwardRoundTrip | src/detector/onnx_loader.py:44-46 | the inverse box map undoes the letterbox placement `x*scale + pad`, and the placement undoes the inverse map |
| OnnxLoader.UnmapKeepsOrder | src/detector/onnx_loader.py:44-46 | the inverse map leaves score and class unchanged, and x1 <= x2 and y1 <= y2 hold after it exactly when they held before |
| OnnxLoader.UnmapRow | src/detector/onnx_loader.py:45-46 | one row's inverse map; UnmapForwardRoundTrip and UnmapKeepsOrder state its properties |
| OnnxLoader.Detections | src/detector/onnx_loader.py:38 | a 2-D output is used as is, a batched one gives its first slice, and the result is an error exactly when the batch dimension is empty |
| OnnxLoader.YoloOnnx.constructor | src/detector/onnx_loader.py:7-8 | the adapter keeps the canvas side it is given |
| OnnxLoader.YoloOnnx.Letterbox | src/detector/onnx_loader.py:17-26 | a fresh new_size×new_size×3 canvas: cells in the rectangle [top, top+nh)×[left, left+nw) hold `resized[i-top, j-left]` and all other cells hold 114; scale, left and top are those of the geometry |
| OnnxLoader.YoloOnnx.Paste | src/detector/onnx_loader.py:22-25 | a fresh canvas of side new_size filled with 114, with the resized image copied cell by cell into the rectangle at (top, left) |
| OnnxLoader.YoloOnnx.Pack | src/detector/onnx_loader.py:31-32 | the tensor has shape 1×3×H×W and `x[0,c,i,j] = lb[i,j,2-c] / 255` |
| OnnxLoader.YoloOnnx.MapBack | src/detector/onnx_loader.py:44-47 | the same number of rows; each row has x columns shifted by pad_x, y columns by pad_y, all four divided by the one scale, and score and class untouched |
| OnnxLoader.YoloOnnx.Infer | src/detector/onnx_loader.py:28-47 | the input tensor is the packed letterbox canvas cell by cell; an empty batch is an error; otherwise every detection row is mapped back, and an output with no rows gives no rows |
| Postprocess.Truncate | src/detector/postprocess.py:11 | `astype(int)` truncates toward zero on both signs |
| Postprocess.CatClassRange | src/detector/postprocess.py:5-11 | a class value counts as a cat exactly when it lies in [15, 16) |
| Postprocess.IsCat | src/detector/postprocess.py:11 | the mask of one row: score at least the threshold and class truncating to 15; CatClassRange gives the class test as the interval [15, 16) |
| Postprocess.KeepCats | src/detector/postprocess.py:11-12 | the masked rows: no more rows than the input; every kept row passes both tests; a row is kept exactly when it is an input row that passes |
| Postprocess.FilterCats | src/detector/postprocess.py:7-12 | an empty input is returned unchanged; every returned row passes both tests; every input row that passes both is returned |
| Postprocess.KeepCatsCount | src/detector/postprocess.py:11-12 | each passing row appears in the output as often as in the input, and a failing row never appears |
| Postprocess.KeepCatsSubsequence | src/detector/postprocess.py:12 | the output is a subsequence of the input: order kept, rows unmodified |
| Postprocess.FilterCatsStable | src/detector/postprocess.py:7-12 | filter_cats is a subsequence of its input with exactly the passing rows' multiplicities |
| Postprocess.KeepCatsAllPass | src/detector/postprocess.py:11-12 | an input whose rows all pass is kept whole |
| Postprocess.FilterIdempotent | src/detector/postprocess.py:7-12 | filtering twice with one threshold equals filtering once |
| Postprocess.SawCat | src/vision/pipeline.py:78-82 | a frame shows a cat exactly when some detection row passes the filter |
| Pipeline.ByteOf | src/vision/pipeline.py:12 | `(v >> 8i) & 0xFF` is a byte in [0, 256) |
| Pipeline.FourccToStr | src/vision/pipeline.py:9-14 | exactly four characters: character i is byte i of int(v), least significant first; `"????"` when int() fails on NaN or infinity |
| Pipeline.FourccLow32Bits | src/vision/pipeline.py:11-12 | reassembling the four characters gives back the integer modulo 2^32 |
| Pipeline.FourccMjpg | src/vision/pipeline.py:9-14 | the Motion-JPEG code 1196444237 decodes to "MJPG" |
| Pipeline.ToInt | src/vision/pipeline.py:11 | `int(v)` succeeds exactly on finite values and truncates toward zero on both signs |
| Pipeline.Debounce | src/vision/pipeline.py:85-101 | a firing frame saw a cat and clears the run; an active run after the frame saw a cat, did not fire, and keeps its start or starts at now; the full transition table is DebounceTransitions and FirstSighting |
| Pipeline.Step | src/vision/pipeline.py:73-75 | a failed read leaves the run start alone and fires nothing; an event needs a processed sighting and clears the run; its runs are characterised by ActiveRunWitness, FiredMeansPersisted and PersistedFires |
| Pipeline.CountFrame | src/vision/pipeline.py:117-122 | the count resets to 0, with last_print := now, exactly when 2 s have elapsed since last_print; otherwise it grows by one and last_print is kept; runs are CounterCountsProcessed |
| Pipeline.DebounceTransitions | src/vision/pipeline.py:85-101 | a miss clears the run and fires nothing; a first sighting starts it at now; a short continued run is left alone; it fires exactly when the cat is seen and now − start >= persistence; firing clears the run |
| Pipeline.FirstSighting | src/vision/pipeline.py:87-91 | a first sighting fires exactly when the persistence threshold is <= 0 |
| Pipeline.ActiveRunWitness | src/vision/pipeline.py:85-101 | an active run started at a processed sighting, and every processed frame since saw a cat |
| Pipeline.FiredMeansPersisted | src/vision/pipeline.py:85-98 | an event at frame k means a cat was seen in every processed frame of a stretch, ending at k, that lasts at least the persistence time |
| Pipeline.RunStartsBy | src/vision/pipeline.py:73-98 | with a clock that does not run backwards, during a stretch that starts with a processed sighting and sees a cat in every processed frame (failed reads skipped), the run either fired or began no later than the stretch |
| Pipeline.PersistedFires | src/vision/pipeline.py:73-98 | a stretch that starts and ends with a processed sighting, sees a cat in every processed frame between (failed reads skipped) and lasts at least the persistence time raises an event within the stretch |
| Pipeline.SteadyRunFiresOnce | src/vision/pipeline.py:85-98 | sightings at 0.0, 0.1, …, 0.8 s with a 0.7 s threshold fire exactly once, at 0.7 s |
| Pipeline.GapResetsRun | src/vision/pipeline.py:85-101 | a miss restarts the run: sightings at 0.0 and 0.3 s, a miss at 0.4 s, then sightings at 0.5 and 1.3 s fire only at 1.3 s |
| Pipeline.CounterCountsProcessed | src/vision/pipeline.py:116-122 | the frame count never exceeds the processed frames and equals them until the 2 s window elapses; last_print is the start time or the clock of a processed frame |
| Pipeline.PipelineLoop.constructor | src/vision/pipeline.py:60-63 | no active run, a zero frame count and last_print set to the start time |
| Pipeline.PipelineLoop.Tick | src/vision/pipeline.py:68-122 | a failed read changes nothing and fires nothing; otherwise the run start and the event follow the debouncer on "some row passes filter_cats", and the counter counts the frame, resetting with last_print := now once 2 s have elapsed |
| Capture.Appended | src/vision/capture.py:43 | now is appended exactly when the cat is in the region, and the window is otherwise unchanged |
| Capture.Prune | src/vision/capture.py:45-46 | the window minus its StaleCount front entries; its properties (suffix, fresh front, all fresh when sorted) are WindowStepShape and PrunedAllFresh |
| Capture.ValidEvent | src/vision/capture.py:48 | a non-empty window whose last and first entries are at least the window apart; FiresOnlyOnExactSpan shows it holds after the prune only at exact equality |
| Capture.WindowStep | src/vision/capture.py:41-53 | append, prune, test and clear as one function; WindowStepShape, StepKeepsSorted and StepFiresOnExactGap state its properties, and PersistenceWindow.Update is proved equal to it |
| Capture.CheckedWindowStep | src/vision/capture.py:45-48 | the corrected step, testing the span before the prune; CheckedKeepsFirst, CheckedFiresOnPresence and CheckedFiresOnCadence state its properties |
| Capture.StaleCount | src/vision/capture.py:45-46 | the prune pops exactly the longest front run of entries more than the window old |
| Capture.WindowStepShape | src/vision/capture.py:41-53 | the event is the span test on the pruned window and empties it; otherwise the window is a suffix of the appended one whose front is within the window of now |
| Capture.PrunedAllFresh | src/vision/capture.py:45-46 | in a sorted window, every entry left after the prune is within the window of now |
| Capture.StepKeepsSorted | src/vision/capture.py:43-46 | with a clock that does not run backwards, the window stays sorted and holds no future time |
| Capture.FiresOnlyOnExactSpan | src/vision/capture.py:45-48 | when no entry is after now, the pruned span is at most the window, so the event condition holds only at exact equality |
| Capture.InRoiTimesSorted | src/vision/capture.py:43 | the appended in-region times are sorted under a clock that does not run backwards |
| Capture.WindowIsSuffix | src/vision/capture.py:43-53 | between frames the window is a suffix of the in-region times |
| Capture.WindowAfterShort | src/vision/capture.py:48-53 | between frames the window never meets the event condition |
| Capture.StepFiresOnExactGap | src/vision/capture.py:41-53 | one frame fires only if it is in the region and some window entry lies exactly the window length before now |
| Capture.FiresOnlyOnExactGap | src/vision/capture.py:41-53 | over a whole run, a frame fires only if it is in the region and an in-region frame no later than it lies exactly the window length before it |
| Capture.ContinuousPresenceNeverFires | src/vision/capture.py:45-48 | as written, a cat in the region on every frame at a 0.3 s cadence never fires with a 0.7 s window, though it is present for longer than the window |
| Capture.CheckedKeepsFirst | src/vision/capture.py:45-48 | with the span tested before the prune, a continuous run keeps its first time at the front until it fires |
| Capture.CheckedFiresOnPresence | src/vision/capture.py:45-48 | with the span tested before the prune, a run of in-region frames starting from an empty window (every frame from the first in the region) raises an event once its last clock is at least the window after its first |
| Capture.CheckedFiresOnCadence | src/vision/capture.py:45-48 | with the span tested before the prune, the 0.3 s cadence fires once four frames have been seen |
| Capture.PersistenceWindow.constructor | src/vision/capture.py:21-22 | the window starts empty with the configured length |
| Capture.PersistenceWindow.Update | src/vision/capture.py:41-53 | the append, the prune loop, the span test and the clear leave the window and the event exactly as one step of the window function |

## Left out

- Camera I/O is not modelled: opening, configuring, reading and releasing the device, and backend selection. A read is only its `ok` flag.
- The preview window, box drawing, key handling, console prints and the snapshot written on an event are not modelled. The event is the boolean that `Tick` and `Update` return.
- The ONNX runtime session is not modelled: creating it, its input and output names, and `session.run`. Its output is a parameter of `Infer`.
- Only the two output shapes the code distinguishes are modelled: 2-D, and anything else indexed by its first axis. Rows are assumed to be six columns wide.
- The interpolation inside `cv2.resize` is not modelled. The resized image is an input array whose extent is required to be the rounded (nh, nw). `cv2.resize`'s own error on a zero target size is not modelled.
- The BGR-to-RGB conversion, the float32 `/255.0` and box arithmetic are exact real arithmetic here. float32 rounding is not modelled.
- YAML and JSON configuration loading is not modelled. Thresholds and the window length are constructor parameters.
- `bbox_roi_overlap` is not part of this model. `in_roi` is an input to `PersistenceWindow.Update`, and its loop over detections is not modelled.
- The FPS division and its printout are not modelled. Only the frame counter and its 2 s reset are.
- NaN and infinite floats are modelled only for the capture property that `fourcc_to_str` decodes (`PropValue`). Detector rows hold reals, so `filter_cats` on a NaN class is not modelled.
- `YoloOnnx` always builds a square canvas and an NCHW tensor and never inspects the engine's input layout, so layout introspection is not modelled.
- The per-iteration CPU temperature read (`get_cpu_temp()`, a subprocess call that runs even on a failed read and raises when the tool is absent) is not modelled; an iteration is its read flag, detections and clock.
- A NaN score, which the `>=` test silently drops, is not modelled: scores are reals.
- A frame of zero height or width is excluded by `Letterbox`'s and `Infer`'s `requires h > 0 && w > 0`; the source raises ZeroDivisionError there (src/detector/onnx_loader.py:19), and that error path is not modelled.
- Clocks are inputs (`now`). The run-level lemmas assume a clock that does not run backwards; the step functions take any value.

## Findings

| source | as written | input that shows it | evidently intended | confidence | as-written member | corrected member |
|---|---|---|---|---|---|---|
| src/vision/capture.py:45-48 | the window is pruned of entries older than `persist_window_s` before the span test, so the span is at most `persist_window_s` and the test `>=` passes only at exact equality | a cat in the region every frame at 0.0, 0.3, 0.6, 0.9, 1.2 s with `persist_window_s` = 0.7: no two sightings are exactly 0.7 s apart, so no event is raised | an event once the cat has stayed in the region for `persist_window_s` | high; not executed | Capture.ContinuousPresenceNeverFires | Capture.CheckedFiresOnCadence |
