/**
 * The confidence filter and the greedy overlap suppression of `segment_medicines`, as
 * specification functions over the detections' scores and boxes, with their properties.
 */
module Selection {
  import opened Geometry

  predicate StrictlyIncreasing(s: seq<nat>) {
    forall j, k :: 0 <= j < k < |s| ==> s[j] < s[k]
  }

  predicate InRange(indices: seq<nat>, n: nat) {
    forall k :: 0 <= k < |indices| ==> indices[k] < n
  }

  /** A prefix whose next index is in range extends to a longer prefix in range. */
  lemma InRangeStep(indices: seq<nat>, p: nat, n: nat)
    requires p < |indices| && InRange(indices[..p], n) && indices[p] < n
    ensures InRange(indices[..p + 1], n)
  {
    assert forall k :: 0 <= k < p ==> indices[..p + 1][k] == indices[..p][k];
  }

  /**
   * `valid_predictions`: indices whose score is strictly greater than the threshold, in
   * increasing index order (emission order, never re-sorted by score).
   */
  function Candidates(scores: seq<real>, threshold: real): (cands: seq<nat>)
    ensures forall k :: 0 <= k < |cands| ==> cands[k] < |scores| && scores[cands[k]] > threshold
    ensures StrictlyIncreasing(cands)
  {
    if |scores| == 0 then []
    else
      var n := |scores| - 1;
      Candidates(scores[..n], threshold) + (if scores[n] > threshold then [n] else [])
  }

  /** Every index whose score is strictly above the threshold is a candidate; one equal to it is not. */
  lemma {:induction false} CandidatesComplete(scores: seq<real>, threshold: real, i: nat)
    requires i < |scores|
    ensures i in Candidates(scores, threshold) <==> scores[i] > threshold
  {
    var n := |scores| - 1;
    if i < n {
      CandidatesComplete(scores[..n], threshold, i);
    }
  }

  /** The boxes at the given indices, in the same order: `saved_boxes` for a list of kept indices. */
  function BoxesAt(boxes: seq<Box>, kept: seq<nat>): (saved: seq<Box>)
    requires InRange(kept, |boxes|)
  {
    seq(|kept|, k requires 0 <= k < |kept| => boxes[kept[k]])
  }

  /** Appending an index to the kept list appends its box to the saved boxes. */
  lemma BoxesAtAppend(boxes: seq<Box>, kept: seq<nat>, i: nat)
    requires InRange(kept, |boxes|) && i < |boxes|
    ensures InRange(kept + [i], |boxes|)
    ensures BoxesAt(boxes, kept + [i]) == BoxesAt(boxes, kept) + [boxes[i]]
  {
  }

  /** `all(iou < iou_threshold for iou in calculate_iou(box, saved_boxes))`: vacuously true with nothing saved. */
  predicate Accepts(box: Box, savedBoxes: seq<Box>, iouThreshold: real) {
    forall k :: 0 <= k < |savedBoxes| ==> IoU(box, savedBoxes[k]) < iouThreshold
  }

  /**
   * The indices the greedy loop keeps after visiting `cands` in order: a candidate is appended
   * when it is below the IoU threshold against every box kept before it, and nothing is removed.
   */
  function Greedy(boxes: seq<Box>, cands: seq<nat>, iouThreshold: real): (kept: seq<nat>)
    requires InRange(cands, |boxes|)
    ensures InRange(kept, |boxes|)
  {
    if |cands| == 0 then []
    else
      var n := |cands| - 1;
      var prev := Greedy(boxes, cands[..n], iouThreshold);
      if Accepts(boxes[cands[n]], BoxesAt(boxes, prev), iouThreshold) then prev + [cands[n]] else prev
  }

  /**
   * Each candidate the loop visits is kept exactly when it is below the threshold against
   * every box kept among the candidates before it.
   */
  lemma GreedyStep(boxes: seq<Box>, cands: seq<nat>, p: nat, iouThreshold: real)
    requires p < |cands| && InRange(cands[..p + 1], |boxes|)
    ensures var prev := Greedy(boxes, cands[..p], iouThreshold);
      Greedy(boxes, cands[..p + 1], iouThreshold)
        == if Accepts(boxes[cands[p]], BoxesAt(boxes, prev), iouThreshold) then prev + [cands[p]] else prev
  {
    assert cands[..p + 1][..p] == cands[..p];
  }

  /** Every index of `xs` also occurs in `ys`. */
  predicate AllIn(xs: seq<nat>, ys: seq<nat>) {
    forall k :: 0 <= k < |xs| ==> xs[k] in ys
  }

  /**
   * The kept indices are a subsequence of the candidates: each is a candidate, and they are
   * strictly increasing when the candidates are.
   */
  lemma {:induction false} GreedySubsequence(boxes: seq<Box>, cands: seq<nat>, iouThreshold: real)
    requires InRange(cands, |boxes|)
    ensures AllIn(Greedy(boxes, cands, iouThreshold), cands)
    ensures StrictlyIncreasing(cands) ==> StrictlyIncreasing(Greedy(boxes, cands, iouThreshold))
  {
    if |cands| > 0 {
      var n := |cands| - 1;
      var c := cands[n];
      var prev := Greedy(boxes, cands[..n], iouThreshold);
      GreedySubsequence(boxes, cands[..n], iouThreshold);
      assert AllIn(prev, cands) by {
        forall k | 0 <= k < |prev| ensures prev[k] in cands {
          assert prev[k] in cands[..n];
        }
      }
      if Accepts(boxes[c], BoxesAt(boxes, prev), iouThreshold) {
        assert Greedy(boxes, cands, iouThreshold) == prev + [c];
        if StrictlyIncreasing(cands) {
          forall k | 0 <= k < |prev| ensures prev[k] < c {
            assert prev[k] in cands[..n];
            var q :| 0 <= q < n && cands[q] == prev[k];
          }
        }
      } else {
        assert Greedy(boxes, cands, iouThreshold) == prev;
      }
    }
  }

  /** What the loop keeps after a prefix of the candidates is never taken back by later candidates. */
  lemma {:induction false} GreedyAppendOnly(boxes: seq<Box>, cands: seq<nat>, m: nat, iouThreshold: real)
    requires InRange(cands, |boxes|) && m <= |cands|
    ensures Greedy(boxes, cands[..m], iouThreshold) <= Greedy(boxes, cands, iouThreshold)
  {
    if m < |cands| {
      var n := |cands| - 1;
      assert cands[..n][..m] == cands[..m];
      GreedyAppendOnly(boxes, cands[..n], m, iouThreshold);
    } else {
      assert cands[..m] == cands;
    }
  }

  /** The first candidate is always kept, because nothing has been saved when it is visited. */
  lemma GreedyKeepsFirst(boxes: seq<Box>, cands: seq<nat>, iouThreshold: real)
    requires InRange(cands, |boxes|) && |cands| > 0
    ensures var kept := Greedy(boxes, cands, iouThreshold); |kept| > 0 && kept[0] == cands[0]
  {
    GreedyAppendOnly(boxes, cands, 1, iouThreshold);
    GreedyStep(boxes, cands, 0, iouThreshold);
    assert cands[..0] == [];
  }

  /** Every two distinct boxes among `kept` have IoU strictly below the suppression threshold. */
  predicate PairwiseBelow(boxes: seq<Box>, kept: seq<nat>, iouThreshold: real)
    requires InRange(kept, |boxes|)
  {
    forall j, k :: 0 <= j < |kept| && 0 <= k < |kept| && j != k ==>
      IoU(boxes[kept[j]], boxes[kept[k]]) < iouThreshold
  }

  /** Appending a candidate that `Accepts` against the kept boxes keeps them pairwise below the threshold. */
  lemma PairwiseExtend(boxes: seq<Box>, prev: seq<nat>, c: nat, iouThreshold: real)
    requires InRange(prev, |boxes|) && c < |boxes|
    requires PairwiseBelow(boxes, prev, iouThreshold)
    requires Accepts(boxes[c], BoxesAt(boxes, prev), iouThreshold)
    ensures InRange(prev + [c], |boxes|) && PairwiseBelow(boxes, prev + [c], iouThreshold)
  {
    var kept := prev + [c];
    var saved := BoxesAt(boxes, prev);
    forall j, k | 0 <= j < |kept| && 0 <= k < |kept| && j != k
      ensures IoU(boxes[kept[j]], boxes[kept[k]]) < iouThreshold
    {
      if k == |prev| {
        assert saved[j] == boxes[kept[j]];
        IoUSymmetric(boxes[kept[j]], boxes[c]);
      } else if j == |prev| {
        assert saved[k] == boxes[kept[k]];
      } else {
        assert kept[j] == prev[j] && kept[k] == prev[k];
      }
    }
  }

  /** Every two distinct kept boxes have IoU strictly below the suppression threshold. */
  lemma {:induction false} GreedyPairwise(boxes: seq<Box>, cands: seq<nat>, iouThreshold: real)
    requires InRange(cands, |boxes|)
    ensures PairwiseBelow(boxes, Greedy(boxes, cands, iouThreshold), iouThreshold)
  {
    if |cands| > 0 {
      var n := |cands| - 1;
      var c := cands[n];
      var prev := Greedy(boxes, cands[..n], iouThreshold);
      GreedyPairwise(boxes, cands[..n], iouThreshold);
      if Accepts(boxes[c], BoxesAt(boxes, prev), iouThreshold) {
        PairwiseExtend(boxes, prev, c, iouThreshold);
      }
    }
  }

  /**
   * A candidate that passes `Accepts` when the loop visits it is appended right after the
   * indices kept before it, and stays there in the final kept list.
   */
  lemma GreedyKeepsAccepted(boxes: seq<Box>, cands: seq<nat>, iouThreshold: real, p: nat)
    requires InRange(cands, |boxes|) && p < |cands|
    ensures var prev := Greedy(boxes, cands[..p], iouThreshold);
      var kept := Greedy(boxes, cands, iouThreshold);
      Accepts(boxes[cands[p]], BoxesAt(boxes, prev), iouThreshold) ==> |prev| < |kept| && kept[|prev|] == cands[p]
  {
    var prev := Greedy(boxes, cands[..p], iouThreshold);
    GreedyStep(boxes, cands, p, iouThreshold);
    GreedyAppendOnly(boxes, cands, p + 1, iouThreshold);
    if Accepts(boxes[cands[p]], BoxesAt(boxes, prev), iouThreshold) {
      var next := Greedy(boxes, cands[..p + 1], iouThreshold);
      assert next[|prev|] == cands[p];
    }
  }

  /**
   * A candidate that is not kept overlaps, at or above the threshold, some box that was kept
   * earlier (at a smaller index).
   */
  lemma GreedyRejected(boxes: seq<Box>, cands: seq<nat>, iouThreshold: real, p: nat)
    requires InRange(cands, |boxes|) && StrictlyIncreasing(cands)
    requires p < |cands| && cands[p] !in Greedy(boxes, cands, iouThreshold)
    ensures var kept := Greedy(boxes, cands, iouThreshold);
      exists k :: 0 <= k < |kept| && kept[k] < cands[p] && IoU(boxes[cands[p]], boxes[kept[k]]) >= iouThreshold
  {
    var kept := Greedy(boxes, cands, iouThreshold);
    var prev := Greedy(boxes, cands[..p], iouThreshold);
    var c := cands[p];
    var saved := BoxesAt(boxes, prev);
    GreedyKeepsAccepted(boxes, cands, iouThreshold, p);
    var j :| 0 <= j < |saved| && IoU(boxes[c], saved[j]) >= iouThreshold;
    GreedySubsequence(boxes, cands[..p], iouThreshold);
    assert prev[j] in cands[..p];
    var q :| 0 <= q < p && cands[q] == prev[j];
    GreedyAppendOnly(boxes, cands, p, iouThreshold);
    assert kept[j] == prev[j];
  }

  /** The first two scores of the worked scenario leave only candidate 0. */
  lemma ExampleCandidatesPrefix()
    ensures Candidates([0.9, 0.4], 0.5) == [0]
  {
  }

  /** The worked scenario's scores [0.9, 0.4, 0.95] leave candidates 0 and 2 at threshold 0.5. */
  lemma ExampleCandidates()
    ensures Candidates([0.9, 0.4, 0.95], 0.5) == [0, 2]
  {
    ExampleCandidatesPrefix();
    assert [0.9, 0.4, 0.95][..2] == [0.9, 0.4];
  }

  /**
   * The worked scenario: with boxes [[0,0,10,10], [100,100,110,110], [0,0,10,10]] and both
   * thresholds 0.5, candidate 2 repeats the box of candidate 0 (IoU 1.0), so only index 0 is kept.
   */
  lemma ExampleKeepsFirstOnly()
    ensures var boxes := [Box(0, 0, 10, 10), Box(100, 100, 110, 110), Box(0, 0, 10, 10)];
      Greedy(boxes, [0, 2], 0.5) == [0]
  {
    var boxes := [Box(0, 0, 10, 10), Box(100, 100, 110, 110), Box(0, 0, 10, 10)];
    var cands: seq<nat> := [0, 2];
    assert cands[..1] == [0];
    assert cands[..1][..0] == [];
    assert Greedy(boxes, [0], 0.5) == [0];
    IoUSelf(Box(0, 0, 10, 10));
    assert BoxesAt(boxes, [0])[0] == Box(0, 0, 10, 10);
    assert !Accepts(boxes[2], BoxesAt(boxes, [0]), 0.5);
  }
}
