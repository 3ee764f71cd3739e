/**
 * `VideoDescriber.frames_to_base64`: every frame is written as a JPEG and the
 * JPEG bytes are base64-encoded, in order. The JPEG writer is a parameter: a
 * lossy foreign codec that either yields bytes or raises.
 */
module ImageEncoder {
  import opened Wrappers
  import Base64
  import opened FrameSampler

  /**
   * `Image.fromarray(frame).save(buffer, format="JPEG")`: the compressed bytes of a
   * frame, or the message of the exception the writer raised.
   */
  type JpegWriter = Frame -> Result<seq<Base64.byte>, string>

  /** What `frames_to_base64` returns or raises: the first failure stops the batch. */
  function EncodeAll(frames: seq<Frame>, jpeg: JpegWriter): Result<seq<string>, string>
    decreases |frames|
  {
    if |frames| == 0 then Success([])
    else
      match EncodeAll(frames[..|frames| - 1], jpeg)
      case Failure(e) => Failure(e)
      case Success(earlier) =>
        match jpeg(frames[|frames| - 1])
        case Failure(e) => Failure(e)
        case Success(bytes) => Success(earlier + [Base64.Encode(bytes)])
  }

  /** `VideoDescriber.frames_to_base64`. */
  method FramesToBase64(frames: seq<Frame>, jpeg: JpegWriter) returns (images: Result<seq<string>, string>)
    ensures images == EncodeAll(frames, jpeg)
  {
    var encoded: seq<string> := [];
    var i := 0;
    while i < |frames|
      invariant 0 <= i <= |frames|
      invariant EncodeAll(frames[..i], jpeg) == Success(encoded)
    {
      assert frames[..i + 1][..i] == frames[..i];
      var written := jpeg(frames[i]);
      if written.Failure? {
        images := Failure(written.error);
        PrefixFailureStops(frames, jpeg, i + 1);
        return;
      }
      encoded := encoded + [Base64.Encode(written.value)];
      i := i + 1;
    }
    assert frames[..i] == frames;
    images := Success(encoded);
  }

  /** Once a prefix of the batch fails, the whole batch fails with the same message. */
  lemma {:induction false} PrefixFailureStops(frames: seq<Frame>, jpeg: JpegWriter, n: nat)
    requires n <= |frames| && EncodeAll(frames[..n], jpeg).Failure?
    ensures EncodeAll(frames, jpeg) == EncodeAll(frames[..n], jpeg)
    decreases |frames| - n
  {
    if n < |frames| {
      assert frames[..n + 1][..n] == frames[..n];
      PrefixFailureStops(frames, jpeg, n + 1);
    } else {
      assert frames[..n] == frames;
    }
  }

  /**
   * The batch succeeds exactly when every frame can be written; then it has one image
   * per frame, in order, and image i is the base64 of the JPEG of frame i alone.
   */
  lemma {:induction false} EncodeAllSuccess(frames: seq<Frame>, jpeg: JpegWriter)
    ensures EncodeAll(frames, jpeg).Success? <==> forall i :: 0 <= i < |frames| ==> jpeg(frames[i]).Success?
    ensures EncodeAll(frames, jpeg).Success? ==>
      var images := EncodeAll(frames, jpeg).value;
      && |images| == |frames|
      && forall i :: 0 <= i < |frames| ==> images[i] == Base64.Encode(jpeg(frames[i]).value)
    decreases |frames|
  {
    if |frames| > 0 {
      var n := |frames| - 1;
      EncodeAllSuccess(frames[..n], jpeg);
      assert forall i :: 0 <= i < n ==> frames[..n][i] == frames[i];
    }
  }

  /** A failing batch reports the message of its first frame that cannot be written. */
  lemma {:induction false} EncodeAllFailure(frames: seq<Frame>, jpeg: JpegWriter)
    requires EncodeAll(frames, jpeg).Failure?
    ensures exists i :: (0 <= i < |frames| && jpeg(frames[i]) == Failure(EncodeAll(frames, jpeg).error)
      && forall j :: 0 <= j < i ==> jpeg(frames[j]).Success?)
    decreases |frames|
  {
    var n := |frames| - 1;
    if EncodeAll(frames[..n], jpeg).Failure? {
      EncodeAllFailure(frames[..n], jpeg);
      var i :| 0 <= i < n && jpeg(frames[..n][i]) == Failure(EncodeAll(frames[..n], jpeg).error)
        && forall j :: 0 <= j < i ==> jpeg(frames[..n][j]).Success?;
      assert frames[..n][i] == frames[i];
      assert forall j :: 0 <= j < i ==> frames[..n][j] == frames[j];
    } else {
      EncodeAllSuccess(frames[..n], jpeg);
      assert forall j :: 0 <= j < n ==> frames[..n][j] == frames[j];
      assert jpeg(frames[n]) == Failure(EncodeAll(frames, jpeg).error);
    }
  }

  /** Each image of a successful batch decodes back to the JPEG bytes of its frame. */
  lemma ImagesDecodeToJpeg(frames: seq<Frame>, jpeg: JpegWriter)
    requires EncodeAll(frames, jpeg).Success?
    ensures |EncodeAll(frames, jpeg).value| == |frames|
    ensures forall i :: 0 <= i < |frames| ==>
      jpeg(frames[i]).Success? &&
      Base64.Decode(EncodeAll(frames, jpeg).value[i]) == Some(jpeg(frames[i]).value)
  {
    EncodeAllSuccess(frames, jpeg);
    forall i | 0 <= i < |frames|
      ensures Base64.Decode(EncodeAll(frames, jpeg).value[i]) == Some(jpeg(frames[i]).value)
    {
      Base64.DecodeEncode(jpeg(frames[i]).value);
    }
  }
}
