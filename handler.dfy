/**
 * The `/segment` handler: the order in which it checks the upload and the pipeline outcome, the
 * status code and JSON body it answers with, and the loop that encodes every region.
 */
module Handler {
  import opened Wrappers

  type Byte = b: int | 0 <= b < 256

  /** The JSON body: `{"error", "detail"}` or `{"segmented_images", "count"}`. */
  datatype Body = ErrorBody(error: string, detail: string) | ImagesBody(segmentedImages: seq<string>, count: nat)

  datatype Response = Response(status: nat, body: Body)

  /**
   * JPEG-then-base64 encoding of every region, in order, appending to `result_images`; the first
   * encoding that raises ends it with that error.
   */
  function EncodeAll<R>(regions: seq<R>, encode: R -> Result<string>): (out: Result<seq<string>>)
    ensures out.Success? ==>
      |out.value| == |regions| && forall k :: 0 <= k < |regions| ==> encode(regions[k]) == Success(out.value[k])
    ensures out.Failure? ==> exists k :: 0 <= k < |regions| && encode(regions[k]) == Failure(out.message)
  {
    if |regions| == 0 then Success([])
    else
      var n := |regions| - 1;
      var prev := EncodeAll(regions[..n], encode);
      if prev.Failure? then prev
      else
        var last := encode(regions[n]);
        if last.Failure? then Failure(last.message) else Success(prev.value + [last.value])
  }

  /** The error reported is that of the first region whose encoding fails. */
  lemma {:induction false} EncodeAllFirstFailure<R>(regions: seq<R>, encode: R -> Result<string>, k: nat)
    requires k < |regions| && encode(regions[k]).Failure?
    requires forall j :: 0 <= j < k ==> encode(regions[j]).Success?
    ensures EncodeAll(regions, encode) == Failure(encode(regions[k]).message)
  {
    var n := |regions| - 1;
    if k < n {
      EncodeAllFirstFailure(regions[..n], encode, k);
    }
  }

  /** Once encoding a prefix has failed, encoding the whole list fails with the same error. */
  lemma {:induction false} EncodeAllFailurePersists<R>(regions: seq<R>, encode: R -> Result<string>, n: nat)
    requires n <= |regions| && EncodeAll(regions[..n], encode).Failure?
    ensures EncodeAll(regions, encode) == EncodeAll(regions[..n], encode)
  {
    if n < |regions| {
      var m := |regions| - 1;
      assert regions[..m][..n] == regions[..n];
      EncodeAllFailurePersists(regions[..m], encode, n);
      EncodeAllStep(regions, encode);
    } else {
      assert regions[..n] == regions;
    }
  }

  /** A failure in encoding all but the last region is the failure of encoding them all. */
  lemma EncodeAllStep<R>(regions: seq<R>, encode: R -> Result<string>)
    requires |regions| > 0 && EncodeAll(regions[..|regions| - 1], encode).Failure?
    ensures EncodeAll(regions, encode) == EncodeAll(regions[..|regions| - 1], encode)
  {
  }

  /**
   * The response of `segment` for the uploaded `image` field (None when it is missing), where
   * `run` is `segment_medicines` on the uploaded bytes and `encode` the JPEG and base64 encoding.
   * Only a non-empty upload reaches the pipeline; a pipeline error with a non-empty message is a
   * 500; an empty region list, or an error whose message is empty (falsy in `if error:`), is a
   * 404; an encoding error is the outer handler's 500; everything else is a 200 whose count is
   * the number of regions and whose images follow the selection order.
   */
  function Respond<R>(field: Option<seq<Byte>>, run: seq<Byte> -> Result<seq<R>>, encode: R -> Result<string>): (resp: Response)
    ensures resp.status == 200 <==>
      field.Some? && |field.value| > 0 && run(field.value).Success? && |run(field.value).value| > 0 &&
      forall k :: 0 <= k < |run(field.value).value| ==> encode(run(field.value).value[k]).Success?
    ensures resp.status == 200 ==>
      var regions := run(field.value).value;
      resp.body.ImagesBody? && resp.body.count == |resp.body.segmentedImages| == |regions| &&
      forall k :: 0 <= k < |regions| ==> encode(regions[k]) == Success(resp.body.segmentedImages[k])
    ensures resp.status != 200 ==> resp.body.ErrorBody? && resp.status in {400, 404, 500}
    ensures resp.status == 400 <==> field.None? || |field.value| == 0
    ensures field.None? ==> resp == Response(400, ErrorBody("No image provided", "Request must include an image file"))
    ensures field.Some? && |field.value| == 0 ==>
      resp == Response(400, ErrorBody("Empty image data", "The provided image file is empty"))
    ensures field.Some? && |field.value| > 0 && run(field.value).Failure? && run(field.value).message != "" ==>
      resp == Response(500, ErrorBody("Processing failed", run(field.value).message))
    ensures field.Some? && |field.value| > 0 && (run(field.value) == Failure("") || run(field.value) == Success([])) ==>
      resp == Response(404, ErrorBody("No medicines detected", "The model did not detect any medicines in the image"))
    ensures (field.Some? && |field.value| > 0 && run(field.value).Success? && |run(field.value).value| > 0 &&
             EncodeAll(run(field.value).value, encode).Failure?) ==>
      resp == Response(500, ErrorBody("Server error", EncodeAll(run(field.value).value, encode).message))
  {
    match field
    case None => Response(400, ErrorBody("No image provided", "Request must include an image file"))
    case Some(bytes) =>
      if |bytes| == 0 then Response(400, ErrorBody("Empty image data", "The provided image file is empty"))
      else
        var outcome := run(bytes);
        if outcome.Failure? && outcome.message != "" then
          Response(500, ErrorBody("Processing failed", outcome.message))
        else if outcome.Failure? || |outcome.value| == 0 then
          Response(404, ErrorBody("No medicines detected", "The model did not detect any medicines in the image"))
        else
          match EncodeAll(outcome.value, encode)
          case Failure(message) => Response(500, ErrorBody("Server error", message))
          case Success(images) => Response(200, ImagesBody(images, |images|))
  }

  /** A pipeline error whose message is empty is answered as "No medicines detected", not as a failure. */
  lemma EmptyErrorMessageIsNotFound<R>(bytes: seq<Byte>, run: seq<Byte> -> Result<seq<R>>, encode: R -> Result<string>)
    requires |bytes| > 0 && run(bytes) == Failure("")
    ensures Respond(Some(bytes), run, encode) ==
      Response(404, ErrorBody("No medicines detected", "The model did not detect any medicines in the image"))
  {
  }

  /**
   * `segment`: checks the upload, runs the pipeline, and encodes the regions one by one into
   * `result_images`; answers exactly as `Respond` specifies.
   */
  method Segment<R>(field: Option<seq<Byte>>, run: seq<Byte> -> Result<seq<R>>, encode: R -> Result<string>)
    returns (resp: Response)
    ensures resp == Respond(field, run, encode)
  {
    if field.None? {
      return Response(400, ErrorBody("No image provided", "Request must include an image file"));
    }
    var imageBytes := field.value;
    if |imageBytes| == 0 {
      return Response(400, ErrorBody("Empty image data", "The provided image file is empty"));
    }
    var outcome := run(imageBytes);
    if outcome.Failure? && outcome.message != "" {
      return Response(500, ErrorBody("Processing failed", outcome.message));
    }
    if outcome.Failure? || |outcome.value| == 0 {
      return Response(404, ErrorBody("No medicines detected", "The model did not detect any medicines in the image"));
    }
    var segmentedImages := outcome.value;
    var resultImages: seq<string> := [];
    for n := 0 to |segmentedImages|
      invariant EncodeAll(segmentedImages[..n], encode) == Success(resultImages)
    {
      assert segmentedImages[..n + 1][..n] == segmentedImages[..n];
      var encoded := encode(segmentedImages[n]);
      if encoded.Failure? {
        EncodeAllFailurePersists(segmentedImages, encode, n + 1);
        return Response(500, ErrorBody("Server error", encoded.message));
      }
      resultImages := resultImages + [encoded.value];
    }
    assert segmentedImages[..|segmentedImages|] == segmentedImages;
    return Response(200, ImagesBody(resultImages, |resultImages|));
  }
}
