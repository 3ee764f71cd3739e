/**
 * `VideoDescriber.extract_frames`: open a video, check that it has at least three
 * frames, seek to the frames at a quarter, half and three quarters of its length,
 * keep the reads that succeed (normalised to 512x512 RGB) and release the capture.
 *
 * The decoder is an oracle: a `Video` says what the container reports as its frame
 * count and what one read after a seek to index i yields. The capture handle that
 * `extract_frames` drives is the class `Capture`, which records every seek, read
 * and release it is asked for.
 */
module FrameSampler {
  import opened Wrappers

  /** The channel order of a pixel grid: the decoder's native one, or the canonical one. */
  datatype ChannelOrder = BGR | RGB

  /**
   * A picture as the decoder yields it: its size, its channel order and its pixel
   * bytes. The decoder's native order is BGR, but the oracle does not constrain it;
   * nothing in the pipeline inspects these fields, which `Normalise` keeps in the
   * frame it makes.
   */
  datatype Image = Image(width: nat, height: nat, order: ChannelOrder, pixels: seq<int>)

  /** The side of the square every kept frame is resized to. */
  const FrameSide := 512

  /**
   * A frame after colour conversion and resizing. The resampled pixel values are
   * not modelled: a frame records the decoded picture it was made from, whose
   * size and channel order it replaces.
   */
  datatype Frame = Frame(width: nat, height: nat, order: ChannelOrder, decoded: Image)

  /** `cv2.cvtColor(frame, cv2.COLOR_BGR2RGB)` followed by `cv2.resize(..., (512, 512))`. */
  function Normalise(img: Image): Frame
  {
    Frame(FrameSide, FrameSide, RGB, img)
  }

  /**
   * A video container as the decoder sees it: the frame count it reports, and
   * what a read right after a seek to a given index yields (None when it fails).
   */
  datatype Video = Video(reportedFrames: int, decode: nat -> Option<Image>)

  /** What was asked of a capture handle, in order. */
  datatype CaptureOp = SeekTo(index: nat) | ReadAt(index: nat) | Release

  /** `cv2.VideoCapture`: a handle on an open video with a read position. */
  class Capture {
    const video: Video
    var position: nat
    var released: bool
    /** Every seek, read and release asked of this handle since it was opened. */
    ghost var log: seq<CaptureOp>

    /** `cv2.VideoCapture(video_path)`. */
    constructor Open(video: Video)
      ensures this.video == video && position == 0 && !released && log == []
    {
      this.video := video;
      position := 0;
      released := false;
      log := [];
    }

    /** `int(cap.get(cv2.CAP_PROP_FRAME_COUNT))`. */
    function FrameCount(): int
    {
      video.reportedFrames
    }

    /** `cap.set(cv2.CAP_PROP_POS_FRAMES, index)`; a released handle ignores it. */
    method Seek(index: nat)
      modifies this
      ensures position == (if old(released) then old(position) else index)
      ensures released == old(released)
      ensures log == old(log) + [SeekTo(index)]
    {
      if !released {
        position := index;
      }
      log := log + [SeekTo(index)];
    }

    /**
     * `cap.read()`: the frame at the current position, which then advances; a failed
     * read, or any read of a released handle, yields nothing and leaves it in place.
     */
    method Read() returns (frame: Option<Image>)
      modifies this
      ensures frame == (if old(released) then None else video.decode(old(position)))
      ensures position == (if frame.Some? then old(position) + 1 else old(position))
      ensures released == old(released)
      ensures log == old(log) + [ReadAt(old(position))]
    {
      frame := if released then None else video.decode(position);
      if frame.Some? {
        position := position + 1;
      }
      log := log + [ReadAt(old(position))];
    }

    /** `cap.release()`. */
    method Close()
      modifies this
      ensures released && position == old(position)
      ensures log == old(log) + [Release]
    {
      released := true;
      log := log + [Release];
    }
  }

  /** The error `extract_frames` raises for a video that is too short. */
  const TooShort := "Video must have at least 3 frames"

  /** The frames at a quarter, a half and three quarters of the reported length. */
  function SampleIndices(total: int): Result<seq<nat>, string>
  {
    if total < 3 then Failure(TooShort)
    else Success([total / 4, total / 2, 3 * total / 4])
  }

  /** Seek to each index and read it, in order. */
  function ReadLog(indices: seq<nat>): seq<CaptureOp>
    decreases |indices|
  {
    if |indices| == 0 then []
    else ReadLog(indices[..|indices| - 1]) + [SeekTo(indices[|indices| - 1]), ReadAt(indices[|indices| - 1])]
  }

  /** The normalised frames of the indices whose read succeeds, in index order. */
  function Decoded(video: Video, indices: seq<nat>): seq<Frame>
    decreases |indices|
  {
    if |indices| == 0 then []
    else
      var earlier := Decoded(video, indices[..|indices| - 1]);
      match video.decode(indices[|indices| - 1])
      case Some(img) => earlier + [Normalise(img)]
      case None => earlier
  }

  /** The positions (in `indices`) of the reads that succeed, in order. */
  function Kept(video: Video, indices: seq<nat>): seq<nat>
    decreases |indices|
  {
    if |indices| == 0 then []
    else
      var earlier := Kept(video, indices[..|indices| - 1]);
      if video.decode(indices[|indices| - 1]).Some? then earlier + [|indices| - 1] else earlier
  }

  /** What `extract_frames` returns or raises. */
  function ExtractedFrames(video: Video): Result<seq<Frame>, string>
  {
    match SampleIndices(video.reportedFrames)
    case Failure(e) => Failure(e)
    case Success(indices) => Success(Decoded(video, indices))
  }

  /**
   * `VideoDescriber.extract_frames`. The capture it opens is handed back (as a ghost)
   * so that what was asked of it can be stated: nothing at all when the video is too
   * short, otherwise a seek and a read per index and then one release.
   */
  method ExtractFrames(video: Video) returns (frames: Result<seq<Frame>, string>, ghost cap: Capture)
    ensures frames == ExtractedFrames(video)
    ensures cap.video == video
    ensures frames.Failure? ==> cap.log == [] && !cap.released
    ensures frames.Success? ==>
      cap.released && cap.log == ReadLog(SampleIndices(video.reportedFrames).value) + [Release]
  {
    var c := new Capture.Open(video);
    cap := c;
    var total := c.FrameCount();
    if total < 3 {
      frames := Failure(TooShort);
      return;
    }
    var indices: seq<nat> := [total / 4, total / 2, 3 * total / 4];
    var kept: seq<Frame> := [];
    var i := 0;
    while i < |indices|
      invariant 0 <= i <= |indices|
      invariant kept == Decoded(video, indices[..i])
      invariant c.video == video && !c.released
      invariant c.log == ReadLog(indices[..i])
    {
      c.Seek(indices[i]);
      var read := c.Read();
      if read.Some? {
        kept := kept + [Normalise(read.value)];
      }
      assert indices[..i + 1][..i] == indices[..i];
      i := i + 1;
    }
    c.Close();
    assert indices[..i] == indices;
    frames := Success(kept);
  }

  // ---------------------------------------------------------------------------
  // Properties
  // ---------------------------------------------------------------------------

  /**
   * A video reporting fewer than three frames is refused with the message of the
   * source; otherwise the indices are the floors of T/4, T/2 and 3T/4, each within
   * the video and strictly ascending, so no frame is read twice.
   */
  lemma SampleIndicesSpec(total: int)
    ensures SampleIndices(total).Failure? <==> total < 3
    ensures SampleIndices(total).Failure? ==> SampleIndices(total).error == TooShort
    ensures SampleIndices(total).Success? ==>
      var ix := SampleIndices(total).value;
      && |ix| == 3
      && 4 * ix[0] <= total < 4 * ix[0] + 4
      && 2 * ix[1] <= total < 2 * ix[1] + 2
      && 4 * ix[2] <= 3 * total < 4 * ix[2] + 4
      && ix[0] < ix[1] < ix[2] < total
  {
  }

  /**
   * The frames kept are exactly the successful reads, in index order: frame k is the
   * normalised picture read at the k-th successful position, a position is kept if
   * and only if its read succeeds, and there are never more frames than indices.
   */
  lemma {:induction false} DecodedSpec(video: Video, indices: seq<nat>)
    ensures var frames, kept := Decoded(video, indices), Kept(video, indices);
      && |frames| == |kept| <= |indices|
      && (forall k :: 0 <= k < |kept| ==> kept[k] < |indices|)
      && (forall k, l :: 0 <= k < l < |kept| ==> kept[k] < kept[l])
      && (forall p :: 0 <= p < |indices| ==> (p in kept <==> video.decode(indices[p]).Some?))
      && (forall k :: 0 <= k < |kept| ==>
            video.decode(indices[kept[k]]).Some? &&
            frames[k] == Normalise(video.decode(indices[kept[k]]).value))
    decreases |indices|
  {
    if |indices| > 0 {
      var n := |indices| - 1;
      var init := indices[..n];
      DecodedSpec(video, init);
      assert forall p :: 0 <= p < n ==> init[p] == indices[p];
    }
  }

  /** Every frame `extract_frames` returns is 512x512 in RGB order. */
  lemma FramesAreNormalised(video: Video, indices: seq<nat>)
    ensures forall f :: f in Decoded(video, indices) ==>
      f.width == FrameSide && f.height == FrameSide && f.order == RGB
  {
    DecodedSpec(video, indices);
    var frames, kept := Decoded(video, indices), Kept(video, indices);
    forall f | f in frames ensures f.width == FrameSide && f.height == FrameSide && f.order == RGB {
      var k :| 0 <= k < |frames| && frames[k] == f;
    }
  }

  /** When every read succeeds, the frames are those of the indices, one for one. */
  lemma {:induction false} AllReadsSucceed(video: Video, indices: seq<nat>)
    requires forall p :: 0 <= p < |indices| ==> video.decode(indices[p]).Some?
    ensures |Decoded(video, indices)| == |indices|
    ensures forall p :: 0 <= p < |indices| ==>
      Decoded(video, indices)[p] == Normalise(video.decode(indices[p]).value)
    decreases |indices|
  {
    if |indices| > 0 {
      var n := |indices| - 1;
      AllReadsSucceed(video, indices[..n]);
    }
  }

  /** When every read fails, no frame is kept. */
  lemma {:induction false} AllReadsFail(video: Video, indices: seq<nat>)
    requires forall p :: 0 <= p < |indices| ==> video.decode(indices[p]).None?
    ensures Decoded(video, indices) == []
    decreases |indices|
  {
    if |indices| > 0 {
      AllReadsFail(video, indices[..|indices| - 1]);
    }
  }

  /**
   * On the normal path the capture is asked for a seek and then a read at each
   * index, in order, and is released exactly once, after the last read.
   */
  lemma {:induction false} ReleasedOnceAfterReads(indices: seq<nat>)
    ensures var log := ReadLog(indices) + [Release];
      && |log| == 2 * |indices| + 1
      && log[|log| - 1] == Release
      && (forall j :: 0 <= j < |log| - 1 ==> log[j] != Release)
      && (forall p :: 0 <= p < |indices| ==> log[2 * p] == SeekTo(indices[p]) && log[2 * p + 1] == ReadAt(indices[p]))
    decreases |indices|
  {
    if |indices| > 0 {
      var n := |indices| - 1;
      ReleasedOnceAfterReads(indices[..n]);
      var prev := ReadLog(indices[..n]);
      assert ReadLog(indices) == prev + [SeekTo(indices[n]), ReadAt(indices[n])];
      assert forall j :: 0 <= j < |prev| ==> (prev + [Release])[j] == prev[j];
    }
  }
}
