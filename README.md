# Medicine segmentation server: detection post-processing

The server receives an uploaded photo on `POST /segment`. It runs an instance-segmentation
network on the photo, keeps the confident detections that do not overlap an earlier one, and
cuts out each kept detection's pixels under its mask. It answers with the cut-outs as base64
JPEG strings, or with an error status.

This project models and proves the part of `server.py` that is plain logic:

- **Geometry** (`geometry.dfy`): integer boxes and `calculate_iou`. `calculate_iou` is a loop
  that appends one intersection-over-union value per saved box. The value is an exact real:
  the intersection is clamped at 0, and a union that is not positive gives 0.
- **Selection** (`selection.dfy`): the specification functions for the confidence filter and
  the greedy overlap suppression. The filter keeps scores strictly above the threshold, in
  emission order. The greedy fold keeps a candidate when its IoU with every box kept earlier is
  below the IoU threshold. This module also proves the selection's properties.
- **Regions** (`regions.dfy`): the masked crop. The image is a 2-D array of opaque pixels and
  the mask a 2-D array of probabilities. Both are cropped to `[top:bottom, left:right]` with
  Python's slice rules, including negative bounds. A fresh black buffer of the crop's shape is
  then filled in place wherever the mask is above 0.5.
- **Pipeline** (`pipeline.dfy`): the loop of `segment_medicines` after inference, with its
  `(images, None)` / `(None, message)` outcome modelled as `Result`. Every `IndexError` the
  loop can raise is a `Failure`:
  - a candidate without a box;
  - an accepted candidate without a mask;
  - a mask whose crop differs in shape from the image's crop.
- **Handler** (`handler.dfy`): the decision table of `segment`, stated as a function over the
  uploaded field, the pipeline and the encoder, and the method with the loop that encodes the
  regions.
- `wrappers.dfy` holds the `Option` and `Result` datatypes.

Two behaviours of the code are easy to miss, and the model keeps both:

- `if error:` is false for an empty message. A pipeline failure whose exception text is empty
  therefore answers 404 "No medicines detected", not 500 (`Handler.EmptyErrorMessageIsNotFound`).
- Sequences of different lengths are not rejected up front. The loop fails only when it actually
  reads a missing index:
  - `boxes[i]` is read for every candidate;
  - `masks[i]` is read only for accepted candidates.

  Extra masks or boxes are never noticed.

## Model

| member | source | states |
|---|---|---|
| Geometry.IntersectionBounded | server.py:63-68 | the clamped intersection is never negative, and a positive one is at most the area of each box |
| Geometry.IoUBounds | server.py:58-74 | every IoU value lies in [0, 1], for all integer boxes, well-formed or not |
| Geometry.IoUSymmetric | server.py:59-71 | the IoU of a pair does not depend on which box is the candidate and which is saved |
| Geometry.IoUSelf | server.py:59-71 | a box with positive width and height has IoU exactly 1 with itself |
| Geometry.IoUDisjoint | server.py:68-71 | boxes that share no interior point have IoU 0, because the intersection is clamped at 0 |
| Geometry.CalculateIoU | server.py:58-74 | returns one value per saved box, in saved-box order, each the IoU with that box and within [0, 1]; no saved boxes give an empty list |
| Selection.Candidates | server.py:35 | every candidate is an index of a score strictly above the threshold, and the candidates are strictly increasing (emission order) |
| Selection.CandidatesComplete | server.py:35 | an index is a candidate if and only if its score is strictly above the threshold, so a score equal to the threshold is excluded |
| Selection.BoxesAtAppend | server.py:51-52 | appending an index to the kept indices appends its box to `saved_boxes` |
| Selection.Greedy | server.py:40-52 | the indices the loop keeps are valid box indices |
| Selection.GreedyStep | server.py:40-52 | visiting one more candidate appends it exactly when it is below the IoU threshold against every box saved so far, and otherwise leaves the kept indices unchanged |
| Selection.GreedySubsequence | server.py:40-52 | every kept index is a candidate, and the kept indices are strictly increasing when the candidates are |
| Selection.GreedyAppendOnly | server.py:51-52 | what is kept after a prefix of the candidates is a prefix of what is kept at the end; later candidates never remove anything |
| Selection.GreedyKeepsFirst | server.py:40-44 | the first candidate is always kept, because `all` over no saved boxes is true |
| Selection.PairwiseExtend | server.py:44-52 | appending an accepted candidate keeps every pair of kept boxes below the IoU threshold |
| Selection.GreedyPairwise | server.py:40-52 | every two distinct kept boxes have IoU strictly below the IoU threshold |
| Selection.GreedyKeepsAccepted | server.py:44-52 | a candidate accepted when it is visited sits right after the indices kept before it, in the final kept list |
| Selection.GreedyRejected | server.py:40-52 | every candidate that is not kept has IoU at or above the threshold with some kept box of smaller index |
| Selection.ExampleCandidatesPrefix | server.py:35 | scores [0.9, 0.4] at threshold 0.5 leave only index 0 |
| Selection.ExampleCandidates | server.py:35 | scores [0.9, 0.4, 0.95] at threshold 0.5 leave indices 0 and 2 |
| Selection.ExampleKeepsFirstOnly | server.py:40-52 | with boxes [0,0,10,10], [100,100,110,110], [0,0,10,10], candidates 0 and 2 at IoU threshold 0.5 keep only index 0 |
| Regions.SliceBound | server.py:46-47 | a slice bound lands within the dimension: it is kept when it lies inside, clamped to the length when it lies past the end, counted from the end when it is negative, and clamped to 0 when it is below minus the length |
| Regions.SliceLength | server.py:46-47 | a slice fits in the dimension, is empty when stop is not past start, has length stop - start inside the dimension and is clamped at the end |
| Regions.ExtractRegion | server.py:45-49 | fails exactly when the mask's crop differs in shape from the image's crop; otherwise returns a fresh array of the crop's shape holding the image pixel wherever the mask is above 0.5 and black elsewhere |
| Regions.BackgroundMaskIsBlack | server.py:45-49 | a mask with no probability above 0.5 yields an all-black region |
| Regions.SameShapeMaskAgrees | server.py:45-49 | a mask with the image's shape never makes the copy fail, and a zero-width or zero-height box yields an empty region |
| Pipeline.AllBelowAccepts | server.py:42-44 | `all(iou < iou_threshold ...)` over the values of `calculate_iou` holds exactly when the box is accepted against the saved boxes |
| Pipeline.KeptSelection | server.py:35-52 | the indices whose regions are returned are strictly increasing, score above the threshold and overlap pairwise below the IoU threshold, and include the first candidate |
| Pipeline.ExtractedAppend | server.py:49-52 | appending the masked crop of a fitting detection keeps `segmented_images` in step with the kept indices |
| Pipeline.CropAccepted | server.py:45-49 | for an accepted index, fails exactly when its mask is missing or its crop does not fit, and otherwise yields a fresh masked crop that extends the regions so far |
| Pipeline.SelectAndExtract | server.py:37-54 | the loop succeeds exactly when every candidate has a box and every kept index a fitting mask; on success it returns one fresh masked crop per kept index, in selection order |
| Pipeline.NotCompletes | server.py:40-56 | an accepted candidate whose mask is missing or does not fit is among the final kept indices, so the loop cannot complete |
| Pipeline.SegmentMedicines | server.py:19-56 | a failed decode or inference passes its message through; otherwise the result is a success exactly when the loop completes, and then holds one fresh masked crop per kept index in order; every failure of the loop carries a non-empty message |
| Handler.EncodeAll | server.py:112-118 | on success, one encoded string per region, in region order; on failure, the message of some region's failed encoding |
| Handler.EncodeAllFirstFailure | server.py:112-118 | the error reported is that of the first region whose encoding fails |
| Handler.EncodeAllFailurePersists | server.py:112-118 | once encoding a prefix has failed, encoding the whole list fails with the same error |
| Handler.EncodeAllStep | server.py:112-118 | a failure among all but the last region is the failure of the whole list |
| Handler.Respond | server.py:77-129 | answers 200 exactly when the field is present and non-empty, the pipeline yields at least one region and every region encodes; a 200 has a count equal to the number of regions and the images in selection order; 400 exactly when the field is missing or empty; a missing field is 400 "No image provided" and an empty upload 400 "Empty image data"; a pipeline error with a non-empty message is 500 "Processing failed" carrying that message; no regions, or an error with an empty message, is 404 "No medicines detected"; a failed encoding is 500 "Server error" carrying the first encoding error; any other status is 404 or 500 with an error body |
| Handler.EmptyErrorMessageIsNotFound | server.py:97-109 | a pipeline failure with an empty message is answered 404 "No medicines detected" |
| Handler.Segment | server.py:77-129 | the handler, checking in source order and encoding the regions in a loop, answers exactly as `Respond` states |

## Left out

- Model loading and Mask R-CNN inference (server.py:15-17, 23, 28-33) are not modelled. The
  network's scores, boxes and masks enter `SegmentMedicines` as a given `Frame`, and a failed
  decode or inference as a `Failure` message.
- PIL decoding and the RGB-to-BGR swap (server.py:22, 26) are foreign codec calls. Pixels are
  opaque values that are only copied.
- JPEG encoding and base64 (server.py:113-118) are an abstract `encode` function that may fail;
  a failure is the outer handler's 500 "Server error".
- Flask routing, reading the upload and building JSON are I/O. The uploaded field is an
  `Option` of bytes and the answer a status with a body datatype. `Handler.Respond` takes the
  pipeline as a parameter `run` and is not composed with `Pipeline.SegmentMedicines`.
- Pipeline.SelectAndExtract: boxes arrive already truncated to integers; the `.astype(int)`
  truncation toward zero at server.py:41 is not modelled.
- Pipeline.SegmentMedicines: each mask is the single channel `masks[i][0]`; the extra leading
  axis of the network's mask tensor is not modelled.
- Floating point is not modelled. IoU, scores and mask probabilities are exact reals, so
  rounding at exactly the threshold may differ from IEEE behaviour.
- Exception text (`str(e)`) is an opaque string. The model only states which failures occur
  and that the loop's own failures carry a non-empty message.
