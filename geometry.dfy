/** Axis-aligned boxes and the intersection-over-union of two boxes (`calculate_iou`). */
module Geometry {

  /** A box after truncation to integers: `[left, top, right, bottom]` in pixel space. */
  datatype Box = Box(left: int, top: int, right: int, bottom: int)

  function Max(x: int, y: int): int { if x >= y then x else y }
  function Min(x: int, y: int): int { if x <= y then x else y }

  /** `(right - left) * (bottom - top)`: no validation, so a malformed box has a zero or negative area. */
  function Area(b: Box): int { (b.right - b.left) * (b.bottom - b.top) }

  /** The overlap of the two boxes, clamped at zero when they do not overlap. */
  function Intersection(a: Box, b: Box): int {
    Max(0, Min(a.right, b.right) - Max(a.left, b.left)) * Max(0, Min(a.bottom, b.bottom) - Max(a.top, b.top))
  }

  function Union(a: Box, b: Box): int { Area(a) + Area(b) - Intersection(a, b) }

  /** Intersection over union of `box` and one saved box; a union that is not positive gives 0. */
  function IoU(box: Box, saved: Box): real {
    var union := Union(box, saved);
    if union > 0 then Intersection(box, saved) as real / union as real else 0.0
  }

  /** Two boxes share no interior point. */
  predicate Disjoint(a: Box, b: Box) {
    a.right <= b.left || b.right <= a.left || a.bottom <= b.top || b.bottom <= a.top
  }

  lemma MulMonotone(x: int, y: int, xm: int, ym: int)
    requires 0 <= x <= xm && 0 <= y <= ym
    ensures x * y <= xm * ym
  {
    assert x * y <= xm * y;
    assert xm * y <= xm * ym;
  }

  /** A positive intersection forces both boxes to be non-degenerate, so it never exceeds either area. */
  lemma IntersectionBounded(a: Box, b: Box)
    ensures 0 <= Intersection(a, b)
    ensures Intersection(a, b) > 0 ==> Intersection(a, b) <= Area(a) && Intersection(a, b) <= Area(b)
  {
    var w := Max(0, Min(a.right, b.right) - Max(a.left, b.left));
    var h := Max(0, Min(a.bottom, b.bottom) - Max(a.top, b.top));
    MulMonotone(w, h, w, h);
    if w * h > 0 {
      MulMonotone(w, h, a.right - a.left, a.bottom - a.top);
      MulMonotone(w, h, b.right - b.left, b.bottom - b.top);
    }
  }

  /** Every IoU value lies in [0, 1], for every integer box, well-formed or not. */
  lemma IoUBounds(a: Box, b: Box)
    ensures 0.0 <= IoU(a, b) <= 1.0
  {
    IntersectionBounded(a, b);
    var inter, union := Intersection(a, b), Union(a, b);
    if union > 0 {
      if inter > 0 {
        assert inter <= union;
      }
      assert inter as real <= union as real;
      DivideAtMostOne(inter as real, union as real);
    }
  }

  lemma DivideAtMostOne(x: real, y: real)
    requires 0.0 <= x <= y && y > 0.0
    ensures 0.0 <= x / y <= 1.0
  {
    assert x / y * y == x;
  }

  /** The per-pair IoU does not depend on which box is the candidate and which is saved. */
  lemma IoUSymmetric(a: Box, b: Box)
    ensures IoU(a, b) == IoU(b, a)
  {
    assert Intersection(a, b) == Intersection(b, a);
  }

  /** A well-formed box with positive area overlaps itself completely. */
  lemma IoUSelf(b: Box)
    requires b.left < b.right && b.top < b.bottom
    ensures IoU(b, b) == 1.0
  {
    var w, h := b.right - b.left, b.bottom - b.top;
    assert Intersection(b, b) == w * h;
    assert w * h > 0 by { MulMonotone(1, 1, w, h); }
    assert Union(b, b) == w * h;
    var a := (w * h) as real;
    assert a / a == 1.0;
  }

  /** Boxes that do not overlap have IoU 0, since the intersection is clamped at zero. */
  lemma IoUDisjoint(a: Box, b: Box)
    requires Disjoint(a, b)
    ensures IoU(a, b) == 0.0
  {
    assert Intersection(a, b) == 0;
  }

  /**
   * `calculate_iou`: one IoU value per saved box, in saved-box order, built by appending in a loop;
   * an empty list of saved boxes gives an empty list.
   */
  method CalculateIoU(box: Box, savedBoxes: seq<Box>) returns (ious: seq<real>)
    ensures |ious| == |savedBoxes|
    ensures forall k :: 0 <= k < |savedBoxes| ==> ious[k] == IoU(box, savedBoxes[k])
    ensures forall k :: 0 <= k < |ious| ==> 0.0 <= ious[k] <= 1.0
  {
    ious := [];
    for n := 0 to |savedBoxes|
      invariant |ious| == n
      invariant forall k :: 0 <= k < n ==> ious[k] == IoU(box, savedBoxes[k])
      invariant forall k :: 0 <= k < n ==> 0.0 <= ious[k] <= 1.0
    {
      var saved := savedBoxes[n];
      var x1 := Max(box.left, saved.left);
      var y1 := Max(box.top, saved.top);
      var x2 := Min(box.right, saved.right);
      var y2 := Min(box.bottom, saved.bottom);
      var interArea := Max(0, x2 - x1) * Max(0, y2 - y1);
      var unionArea := Area(box) + Area(saved) - interArea;
      var iou := if unionArea > 0 then interArea as real / unionArea as real else 0.0;
      IoUBounds(box, saved);
      ious := ious + [iou];
    }
  }
}
