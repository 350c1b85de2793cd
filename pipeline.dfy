/**
 * The post-processing of `segment_medicines`: the confidence filter, the greedy selection loop
 * and the masked crops, with every IndexError the loop can raise turned into a `Failure`.
 */
module Pipeline {
  import opened Wrappers
  import opened Geometry
  import opened Selection
  import opened Regions

  /**
   * What decoding and inference hand to the post-processing: the BGR image and the model's
   * parallel per-instance scores, integer boxes and probability masks.
   */
  datatype Frame = Frame(image: array2<Pixel>, scores: seq<real>, boxes: seq<Box>, masks: seq<array2<real>>)

  /** Every candidate has a box, so `boxes[i]` never raises. */
  predicate BoxesCover(f: Frame, threshold: real) {
    InRange(Candidates(f.scores, threshold), |f.boxes|)
  }

  /** The indices whose regions the loop produces, in order. */
  function Kept(f: Frame, threshold: real, iouThreshold: real): seq<nat>
    requires BoxesCover(f, threshold)
  {
    Greedy(f.boxes, Candidates(f.scores, threshold), iouThreshold)
  }

  /**
   * The regions of a frame come from a strictly increasing subsequence of the indices scoring
   * above the threshold, whose boxes pairwise overlap below the IoU threshold, and the first
   * candidate is always among them.
   */
  lemma KeptSelection(f: Frame, threshold: real, iouThreshold: real)
    requires BoxesCover(f, threshold)
    ensures var kept := Kept(f, threshold, iouThreshold);
      StrictlyIncreasing(kept) && PairwiseBelow(f.boxes, kept, iouThreshold) &&
      (forall k :: 0 <= k < |kept| ==> kept[k] < |f.scores| && f.scores[kept[k]] > threshold) &&
      (|Candidates(f.scores, threshold)| > 0 ==> |kept| > 0 && kept[0] == Candidates(f.scores, threshold)[0])
  {
    var cands := Candidates(f.scores, threshold);
    var kept := Kept(f, threshold, iouThreshold);
    GreedySubsequence(f.boxes, cands, iouThreshold);
    GreedyPairwise(f.boxes, cands, iouThreshold);
    if |cands| > 0 {
      GreedyKeepsFirst(f.boxes, cands, iouThreshold);
    }
    forall k | 0 <= k < |kept| ensures kept[k] < |f.scores| && f.scores[kept[k]] > threshold {
      assert kept[k] in cands;
    }
  }

  /** Every index in `kept` has a mask, and that mask's crop has the shape of the image's crop. */
  predicate MasksFit(f: Frame, kept: seq<nat>)
    requires InRange(kept, |f.boxes|)
  {
    forall k :: 0 <= k < |kept| ==> kept[k] < |f.masks| && CropsAgree(f.image, f.masks[kept[k]], f.boxes[kept[k]])
  }

  /** The loop over `cands` reaches its end: every candidate has a box, and every kept index a fitting mask. */
  predicate LoopCompletes(f: Frame, cands: seq<nat>, iouThreshold: real) {
    InRange(cands, |f.boxes|) && MasksFit(f, Greedy(f.boxes, cands, iouThreshold))
  }

  /** `segment_medicines` reaches its `return segmented_images, None`. */
  predicate Completes(f: Frame, threshold: real, iouThreshold: real) {
    LoopCompletes(f, Candidates(f.scores, threshold), iouThreshold)
  }

  /** `ious[k] < threshold` for every value, as `all(...)` tests it. */
  predicate AllBelow(ious: seq<real>, iouThreshold: real) {
    forall k :: 0 <= k < |ious| ==> ious[k] < iouThreshold
  }

  /** The values of `calculate_iou` are all below the threshold exactly when the box `Accepts`. */
  lemma AllBelowAccepts(ious: seq<real>, box: Box, savedBoxes: seq<Box>, iouThreshold: real)
    requires |ious| == |savedBoxes|
    requires forall k :: 0 <= k < |savedBoxes| ==> ious[k] == IoU(box, savedBoxes[k])
    ensures AllBelow(ious, iouThreshold) <==> Accepts(box, savedBoxes, iouThreshold)
  {
  }

  /** `region` is the masked crop of detection `i`. */
  ghost predicate RegionOf(f: Frame, region: array2<Pixel>, i: nat)
    requires i < |f.boxes| && i < |f.masks|
    reads region, f.image, f.masks[i]
  {
    IsRegion(region, f.image, f.masks[i], f.boxes[i])
  }

  /** `images[k]` is the masked crop of detection `kept[k]`, for every k. */
  ghost predicate Extracted(f: Frame, images: seq<array2<Pixel>>, kept: seq<nat>)
    requires InRange(kept, |f.boxes|)
    reads f.image, set k | 0 <= k < |images| :: images[k], set m | 0 <= m < |f.masks| :: f.masks[m]
  {
    |images| == |kept| && MasksFit(f, kept) &&
    forall k :: 0 <= k < |kept| ==> RegionOf(f, images[k], kept[k])
  }

  /** Appending the masked crop of a fitting detection `i` keeps `Extracted`. */
  lemma ExtractedAppend(f: Frame, images: seq<array2<Pixel>>, kept: seq<nat>, region: array2<Pixel>, i: nat)
    requires InRange(kept, |f.boxes|) && i < |f.boxes| && i < |f.masks|
    requires Extracted(f, images, kept) && CropsAgree(f.image, f.masks[i], f.boxes[i]) && RegionOf(f, region, i)
    ensures InRange(kept + [i], |f.boxes|) && Extracted(f, images + [region], kept + [i])
  {
    var images', kept' := images + [region], kept + [i];
    forall k | 0 <= k < |kept'|
      ensures kept'[k] < |f.masks| && CropsAgree(f.image, f.masks[kept'[k]], f.boxes[kept'[k]])
      ensures RegionOf(f, images'[k], kept'[k])
    {
      if k < |kept| {
        assert images'[k] == images[k] && kept'[k] == kept[k];
      }
    }
  }

  /**
   * `segment_medicines` after inference: `(images, None)` as `Success(images)`, `(None, message)`
   * as `Failure(message)`. A failed decode or inference passes its message through; otherwise
   * the outcome is a success exactly when the loop completes, and then it holds one fresh
   * masked crop per kept index, in selection order.
   */
  method SegmentMedicines(frame: Result<Frame>, threshold: real, iouThreshold: real)
    returns (result: Result<seq<array2<Pixel>>>)
    ensures frame.Failure? ==> result == Failure(frame.message)
    ensures frame.Success? ==> (result.Success? <==> Completes(frame.value, threshold, iouThreshold))
    ensures frame.Success? && result.Failure? ==> result.message != ""
    ensures frame.Success? && result.Success? ==>
      Completes(frame.value, threshold, iouThreshold) &&
      var f := frame.value;
      var kept := Kept(f, threshold, iouThreshold);
      |result.value| == |kept| &&
      forall k :: 0 <= k < |kept| ==> fresh(result.value[k]) && RegionOf(f, result.value[k], kept[k])
  {
    if frame.Failure? {
      return Failure(frame.message);
    }
    var validPredictions := Candidates(frame.value.scores, threshold);
    result := SelectAndExtract(frame.value, validPredictions, iouThreshold);
  }

  /**
   * The `for i in valid_predictions` loop: visits the candidates in order, appends each accepted
   * box to `saved_boxes` and its masked crop to `segmented_images`, and stops at the first
   * IndexError.
   */
  method SelectAndExtract(f: Frame, cands: seq<nat>, iouThreshold: real)
    returns (result: Result<seq<array2<Pixel>>>)
    ensures result.Success? <==> LoopCompletes(f, cands, iouThreshold)
    ensures result.Failure? ==> result.message != ""
    ensures result.Success? ==>
      LoopCompletes(f, cands, iouThreshold) &&
      Extracted(f, result.value, Greedy(f.boxes, cands, iouThreshold)) &&
      forall k :: 0 <= k < |result.value| ==> fresh(result.value[k])
  {
    var segmentedImages: seq<array2<Pixel>> := [];
    var savedBoxes: seq<Box> := [];
    ghost var kept: seq<nat> := [];
    ghost var made: set<array2<Pixel>> := {};
    for n := 0 to |cands|
      invariant InRange(cands[..n], |f.boxes|)
      invariant kept == Greedy(f.boxes, cands[..n], iouThreshold)
      invariant savedBoxes == BoxesAt(f.boxes, kept)
      invariant Extracted(f, segmentedImages, kept)
      invariant fresh(made) && forall k :: 0 <= k < |segmentedImages| ==> segmentedImages[k] in made
    {
      var i := cands[n];
      if i >= |f.boxes| {
        return Failure("index out of bounds for boxes");
      }
      InRangeStep(cands, n, |f.boxes|);
      var box := f.boxes[i];
      var iou := CalculateIoU(box, savedBoxes);
      var accepted := AllBelow(iou, iouThreshold);
      assert accepted == Accepts(box, savedBoxes, iouThreshold) by {
        AllBelowAccepts(iou, box, savedBoxes, iouThreshold);
      }
      assert Greedy(f.boxes, cands[..n + 1], iouThreshold) == if accepted then kept + [i] else kept by {
        GreedyStep(f.boxes, cands, n, iouThreshold);
      }
      if accepted {
        var region := CropAccepted(f, segmentedImages, kept, i);
        if region.Failure? {
          NotCompletes(f, cands, iouThreshold, n);
          return Failure(region.message);
        }
        BoxesAtAppend(f.boxes, kept, i);
        segmentedImages := segmentedImages + [region.value];
        made := made + {region.value};
        savedBoxes := savedBoxes + [box];
        kept := kept + [i];
      }
    }
    assert cands[..|cands|] == cands;
    return Success(segmentedImages);
  }

  /**
   * The loop body for an accepted index `i`: `masks[i]` raises when there is no such mask, and
   * the boolean indexing raises when the mask's crop does not have the image crop's shape;
   * otherwise the masked crop extends the regions extracted so far.
   */
  method CropAccepted(f: Frame, images: seq<array2<Pixel>>, ghost kept: seq<nat>, i: nat)
    returns (region: Result<array2<Pixel>>)
    requires InRange(kept, |f.boxes|) && i < |f.boxes| && Extracted(f, images, kept)
    ensures region.Success? <==> i < |f.masks| && CropsAgree(f.image, f.masks[i], f.boxes[i])
    ensures region.Failure? ==> region.message != ""
    ensures region.Success? ==>
      fresh(region.value) && InRange(kept + [i], |f.boxes|) && Extracted(f, images + [region.value], kept + [i])
  {
    if i >= |f.masks| {
      return Failure("index out of bounds for masks");
    }
    region := ExtractRegion(f.image, f.masks[i], f.boxes[i]);
    if region.Success? {
      ExtractedAppend(f, images, kept, region.value, i);
    }
  }

  /**
   * When the loop accepts candidate `n` and cannot read its mask or copy its crop, that index is
   * among the final kept ones, so the loop cannot complete.
   */
  lemma NotCompletes(f: Frame, cands: seq<nat>, iouThreshold: real, n: nat)
    requires n < |cands| && InRange(cands[..n + 1], |f.boxes|)
    requires Accepts(f.boxes[cands[n]], BoxesAt(f.boxes, Greedy(f.boxes, cands[..n], iouThreshold)), iouThreshold)
    requires cands[n] < |f.masks| ==> !CropsAgree(f.image, f.masks[cands[n]], f.boxes[cands[n]])
    ensures !LoopCompletes(f, cands, iouThreshold)
  {
    if InRange(cands, |f.boxes|) {
      var kept := Greedy(f.boxes, cands, iouThreshold);
      GreedyKeepsAccepted(f.boxes, cands, iouThreshold, n);
      var k := |Greedy(f.boxes, cands[..n], iouThreshold)|;
      assert k < |kept| && kept[k] == cands[n];
    }
  }
}
