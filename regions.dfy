/**
 * The region extractor of `segment_medicines`: binarise the instance mask, crop image and mask
 * to the box with Python slice semantics, and copy the foreground pixels into a zero buffer.
 */
module Regions {
  import opened Wrappers
  import opened Geometry

  /** One pixel of the decoded image; its channel values are carried along, never interpreted. */
  datatype Pixel = Pixel(blue: int, green: int, red: int)

  /** The value `np.zeros_like` fills the buffer with. */
  const Black := Pixel(0, 0, 0)

  /** Python's normalisation of one bound of a step-1 slice on a dimension of length `n`. */
  function SliceBound(i: int, n: nat): (b: nat)
    ensures b <= n
    ensures 0 <= i <= n ==> b == i
    ensures i > n ==> b == n
    ensures i < 0 && i + n >= 0 ==> b == i + n
    ensures i + n < 0 ==> b == 0
  {
    if i < 0 then (if i + n < 0 then 0 else i + n) else if i > n then n else i
  }

  /** The length of `x[start:stop]` on a dimension of length `n`: empty when stop is not past start. */
  function SliceLength(start: int, stop: int, n: nat): (len: nat)
    ensures SliceBound(start, n) + len <= n
    ensures 0 <= start && 0 <= stop <= start ==> len == 0
    ensures 0 <= start <= stop <= n ==> len == stop - start
    ensures 0 <= start <= n <= stop ==> len == n - start
  {
    var lo, hi := SliceBound(start, n), SliceBound(stop, n);
    if hi > lo then hi - lo else 0
  }

  /**
   * The crop of the image and the crop of the mask have the same shape; otherwise numpy's boolean
   * indexing at the copy raises an IndexError.
   */
  predicate CropsAgree(image: array2<Pixel>, mask: array2<real>, box: Box) {
    SliceLength(box.top, box.bottom, image.Length0) == SliceLength(box.top, box.bottom, mask.Length0) &&
    SliceLength(box.left, box.right, image.Length1) == SliceLength(box.left, box.right, mask.Length1)
  }

  /**
   * The pixel at row `i`, column `j` of the crop: the source pixel where the mask probability
   * is above 0.5, black elsewhere.
   */
  function MaskedPixel(image: array2<Pixel>, mask: array2<real>, box: Box, i: nat, j: nat): Pixel
    requires CropsAgree(image, mask, box)
    requires i < SliceLength(box.top, box.bottom, image.Length0)
    requires j < SliceLength(box.left, box.right, image.Length1)
    reads image, mask
  {
    if mask[SliceBound(box.top, mask.Length0) + i, SliceBound(box.left, mask.Length1) + j] > 0.5
    then image[SliceBound(box.top, image.Length0) + i, SliceBound(box.left, image.Length1) + j]
    else Black
  }

  /** `region` has the shape of the box's crop of `image` and holds the masked crop. */
  ghost predicate IsRegion(region: array2<Pixel>, image: array2<Pixel>, mask: array2<real>, box: Box)
    reads region, image, mask
  {
    CropsAgree(image, mask, box) &&
    region.Length0 == SliceLength(box.top, box.bottom, image.Length0) &&
    region.Length1 == SliceLength(box.left, box.right, image.Length1) &&
    forall i, j :: 0 <= i < region.Length0 && 0 <= j < region.Length1 ==>
      region[i, j] == MaskedPixel(image, mask, box, i, j)
  }

  /**
   * Lines 45-49 of the loop body: a fresh zero buffer of the crop's shape into which the
   * foreground pixels are copied in place; fails exactly when the two crops differ in shape.
   */
  method ExtractRegion(image: array2<Pixel>, mask: array2<real>, box: Box) returns (result: Result<array2<Pixel>>)
    ensures result.Success? <==> CropsAgree(image, mask, box)
    ensures result.Failure? ==> result.message != ""
    ensures result.Success? ==> fresh(result.value) && IsRegion(result.value, image, mask, box)
  {
    var height := SliceLength(box.top, box.bottom, image.Length0);
    var width := SliceLength(box.left, box.right, image.Length1);
    if height != SliceLength(box.top, box.bottom, mask.Length0) || width != SliceLength(box.left, box.right, mask.Length1) {
      return Failure("boolean index did not match indexed array");
    }
    var row0, col0 := SliceBound(box.top, image.Length0), SliceBound(box.left, image.Length1);
    var maskRow0, maskCol0 := SliceBound(box.top, mask.Length0), SliceBound(box.left, mask.Length1);
    var region := new Pixel[height, width]((_, _) => Black);
    for i := 0 to height
      invariant forall i', j' :: 0 <= i' < i && 0 <= j' < width ==> region[i', j'] == MaskedPixel(image, mask, box, i', j')
      invariant forall i', j' :: i <= i' < height && 0 <= j' < width ==> region[i', j'] == Black
    {
      for j := 0 to width
        invariant forall i', j' :: 0 <= i' < i && 0 <= j' < width ==> region[i', j'] == MaskedPixel(image, mask, box, i', j')
        invariant forall j' :: 0 <= j' < j ==> region[i, j'] == MaskedPixel(image, mask, box, i, j')
        invariant forall i', j' :: i <= i' < height && 0 <= j' < width && (i' > i || j' >= j) ==> region[i', j'] == Black
      {
        if mask[maskRow0 + i, maskCol0 + j] > 0.5 {
          region[i, j] := image[row0 + i, col0 + j];
        }
      }
    }
    return Success(region);
  }

  /** A mask whose probabilities are all at most 0.5 yields an all-black region. */
  lemma BackgroundMaskIsBlack(region: array2<Pixel>, image: array2<Pixel>, mask: array2<real>, box: Box)
    requires IsRegion(region, image, mask, box)
    requires forall r, c :: 0 <= r < mask.Length0 && 0 <= c < mask.Length1 ==> mask[r, c] <= 0.5
    ensures forall i, j :: 0 <= i < region.Length0 && 0 <= j < region.Length1 ==> region[i, j] == Black
  {
    forall i, j | 0 <= i < region.Length0 && 0 <= j < region.Length1
      ensures region[i, j] == Black
    {
      assert region[i, j] == MaskedPixel(image, mask, box, i, j);
    }
  }

  /**
   * A mask with the image's own shape never makes the extraction fail, and a zero-width or
   * zero-height box (with non-negative coordinates) then yields an empty region.
   */
  lemma SameShapeMaskAgrees(image: array2<Pixel>, mask: array2<real>, box: Box)
    requires mask.Length0 == image.Length0 && mask.Length1 == image.Length1
    ensures CropsAgree(image, mask, box)
    ensures 0 <= box.right <= box.left ==> SliceLength(box.left, box.right, image.Length1) == 0
    ensures 0 <= box.bottom <= box.top ==> SliceLength(box.top, box.bottom, image.Length0) == 0
  {
  }
}
