/**
 * `VideoDescriber.get_video_description`: sample the frames, encode them, build
 * the request, ask the inference service, and turn every failure on the way into
 * the text "Error processing video: " followed by the failure's message. The
 * method always returns; it never lets an exception out.
 *
 * The service is a parameter: a function from the request to its reply, which is
 * either a list of completion choices or a fault with a message.
 */
module VideoDescriber {
  import opened Wrappers
  import Base64
  import opened FrameSampler
  import opened ImageEncoder
  import opened DescriptionRequester

  /** One completion choice; the client may leave `message.content` empty (None). */
  datatype Choice = Choice(content: Option<string>)

  /** What `client.chat.completions.create` does: returns its choices, or raises. */
  datatype Reply = Completion(choices: seq<Choice>) | Fault(message: string)

  type InferenceService = Request -> Reply

  /** How a run ends: a description, a completion without text, or a failure and its message. */
  datatype Outcome = Described(text: string) | NoText | Failed(reason: string)

  /** What the catch-all handler puts in front of an exception's message. */
  const ErrorPrefix := "Error processing video: "
  /** The message of the `IndexError` raised by `response.choices[0]` on an empty list. */
  const NoChoiceError := "list index out of range"

  /** What the method returns for an outcome; None is Python's None. */
  function Render(o: Outcome): Option<string>
  {
    match o
    case Described(text) => Some(text)
    case NoText => None
    case Failed(reason) => Some(ErrorPrefix + reason)
  }

  /** The first three stages: the request the run sends, or the message of what it raised. */
  function Prepare(video: Video, jpeg: JpegWriter): Result<Request, string>
  {
    match ExtractedFrames(video)
    case Failure(e) => Failure(e)
    case Success(frames) =>
      match EncodeAll(frames, jpeg)
      case Failure(e) => Failure(e)
      case Success(images) => Success(BuildRequest(images))
  }

  /** `response.choices[0].message.content`, or the failure of the call or of the indexing. */
  function Answer(reply: Reply): Outcome
  {
    match reply
    case Fault(m) => Failed(m)
    case Completion(choices) =>
      if |choices| == 0 then Failed(NoChoiceError)
      else
        match choices[0].content
        case Some(text) => Described(text)
        case None => NoText
  }

  /** The whole run. */
  function Describe(video: Video, jpeg: JpegWriter, service: InferenceService): Outcome
  {
    match Prepare(video, jpeg)
    case Failure(e) => Failed(e)
    case Success(request) => Answer(service(request))
  }

  /** `VideoDescriber.get_video_description`. */
  method GetVideoDescription(video: Video, jpeg: JpegWriter, service: InferenceService)
    returns (description: Option<string>)
    ensures description == Render(Describe(video, jpeg, service))
  {
    var frames;
    ghost var cap;
    frames, cap := ExtractFrames(video);
    if frames.Failure? {
      return Some(ErrorPrefix + frames.error);
    }
    var images := FramesToBase64(frames.value, jpeg);
    if images.Failure? {
      return Some(ErrorPrefix + images.error);
    }
    var request := BuildRequest(images.value);
    var reply := service(request);
    if reply.Fault? {
      return Some(ErrorPrefix + reply.message);
    }
    if |reply.choices| == 0 {
      return Some(ErrorPrefix + NoChoiceError);
    }
    description := reply.choices[0].content;
  }

  // ---------------------------------------------------------------------------
  // Properties
  // ---------------------------------------------------------------------------

  /**
   * A video that reports fewer than three frames ends in the fixed error text,
   * whatever the decoder, the JPEG writer and the service would have done.
   */
  lemma TooShortVideo(video: Video, jpeg: JpegWriter, service: InferenceService)
    requires video.reportedFrames < 3
    ensures Describe(video, jpeg, service) == Failed(TooShort)
    ensures Render(Describe(video, jpeg, service)) == Some(ErrorPrefix + TooShort)
  {
  }

  /**
   * The run always yields a value, and it is one of: the text of the first choice,
   * None when that choice has no text, or the error prefix followed by the message
   * of the failure (too few frames, a JPEG writer fault, a service fault, or no choice).
   * A writer fault is the one of the first frame that cannot be written. Each failure
   * is reported once, with its own message, and the service is asked only
   * when the first three stages succeed.
   */
  lemma ErrorBoundary(video: Video, jpeg: JpegWriter, service: InferenceService)
    ensures var d := Render(Describe(video, jpeg, service));
      || (video.reportedFrames < 3 && d == Some(ErrorPrefix + TooShort))
      || (video.reportedFrames >= 3 && Prepare(video, jpeg).Failure? &&
          var frames := ExtractedFrames(video).value;
          (exists i :: 0 <= i < |frames| && jpeg(frames[i]).Failure? && d == Some(ErrorPrefix + jpeg(frames[i]).error)
             && forall j :: 0 <= j < i ==> jpeg(frames[j]).Success?))
      || (Prepare(video, jpeg).Success? && service(Prepare(video, jpeg).value).Fault? &&
          d == Some(ErrorPrefix + service(Prepare(video, jpeg).value).message))
      || (Prepare(video, jpeg).Success? && service(Prepare(video, jpeg).value) == Completion([]) &&
          d == Some(ErrorPrefix + NoChoiceError))
      || (Prepare(video, jpeg).Success? && service(Prepare(video, jpeg).value).Completion? &&
          |service(Prepare(video, jpeg).value).choices| > 0 &&
          d == service(Prepare(video, jpeg).value).choices[0].content)
  {
    var sampled := SampleIndices(video.reportedFrames);
    if sampled.Success? {
      var frames := ExtractedFrames(video).value;
      if EncodeAll(frames, jpeg).Failure? {
        EncodeAllFailure(frames, jpeg);
        var i :| 0 <= i < |frames| && jpeg(frames[i]) == Failure(EncodeAll(frames, jpeg).error)
          && forall j :: 0 <= j < i ==> jpeg(frames[j]).Success?;
      }
    }
  }

  /**
   * End to end: whenever the first three stages succeed, the video was long enough,
   * and the service is sent the instruction and one image per successful read, in
   * index order, at most three; the k-th image decodes to the JPEG of the picture
   * read at the k-th successful index.
   */
  lemma RequestCarriesFrames(video: Video, jpeg: JpegWriter)
    requires Prepare(video, jpeg).Success?
    ensures video.reportedFrames >= 3
    ensures var indices := SampleIndices(video.reportedFrames).value;
      var kept := Kept(video, indices);
      var read := ReadRequest(Prepare(video, jpeg).value);
      && read.Some? && read.value.0 == Instruction
      && |read.value.1| == |kept| <= 3
      && forall k :: 0 <= k < |kept| ==>
           kept[k] < |indices| &&
           video.decode(indices[kept[k]]).Some? &&
           jpeg(Normalise(video.decode(indices[kept[k]]).value)).Success? &&
           Base64.Decode(read.value.1[k]) == Some(jpeg(Normalise(video.decode(indices[kept[k]]).value)).value)
  {
    var indices := SampleIndices(video.reportedFrames).value;
    var frames := Decoded(video, indices);
    DecodedSpec(video, indices);
    EncodeAllSuccess(frames, jpeg);
    ImagesDecodeToJpeg(frames, jpeg);
    ReadBuiltRequest(EncodeAll(frames, jpeg).value);
  }

  /**
   * When the reads at the three sampled indices all fail (other frames may well
   * decode), the request is still sent, with the instruction alone, and the run
   * ends with whatever the service answers to it.
   */
  lemma ZeroFrameRequestIsSent(video: Video, jpeg: JpegWriter, service: InferenceService)
    requires video.reportedFrames >= 3
    requires var ix := SampleIndices(video.reportedFrames).value;
      forall p :: 0 <= p < |ix| ==> video.decode(ix[p]).None?
    ensures Prepare(video, jpeg) == Success(BuildRequest([]))
    ensures BuildRequest([]).messages[0].content == [Text(Instruction)]
    ensures Describe(video, jpeg, service) == Answer(service(BuildRequest([])))
  {
    AllReadsFail(video, SampleIndices(video.reportedFrames).value);
  }

  const Walking := "A person walks across a room."

  /**
   * A 120-frame video whose reads all succeed: frames 30, 60 and 90 are read, the
   * request carries the instruction and then the JPEGs of those three frames, in that
   * order, and the service's text is returned as it is.
   */
  lemma ScenarioFullVideo(video: Video, pic: nat -> Image, jpeg: JpegWriter, service: InferenceService)
    requires video.reportedFrames == 120 && forall i: nat :: video.decode(i) == Some(pic(i))
    requires forall f :: jpeg(f).Success?
    requires forall r :: service(r) == Completion([Choice(Some(Walking))])
    ensures SampleIndices(120) == Success([30, 60, 90])
    ensures Prepare(video, jpeg).Success?
    ensures |Prepare(video, jpeg).value.messages[0].content| == 4
    ensures var read := ReadRequest(Prepare(video, jpeg).value);
      && read.Some? && read.value.0 == Instruction && |read.value.1| == 3
      && Base64.Decode(read.value.1[0]) == Some(jpeg(Normalise(pic(30))).value)
      && Base64.Decode(read.value.1[1]) == Some(jpeg(Normalise(pic(60))).value)
      && Base64.Decode(read.value.1[2]) == Some(jpeg(Normalise(pic(90))).value)
    ensures Render(Describe(video, jpeg, service)) == Some(Walking)
  {
    var indices: seq<nat> := [30, 60, 90];
    assert SampleIndices(120) == Success(indices);
    AllReadsSucceed(video, indices);
    var frames := Decoded(video, indices);
    assert ExtractedFrames(video) == Success(frames);
    EncodeAllSuccess(frames, jpeg);
    ImagesDecodeToJpeg(frames, jpeg);
    var images := EncodeAll(frames, jpeg).value;
    BuildRequestShape(images);
    ReadBuiltRequest(images);
    assert Prepare(video, jpeg) == Success(BuildRequest(images));
  }

  /**
   * The same video when the read of the middle frame fails: the request carries the
   * JPEGs of frames 30 and 90 only, in that order, and is still sent.
   */
  lemma ScenarioMiddleReadFails(video: Video, pic: nat -> Image, jpeg: JpegWriter, service: InferenceService)
    requires video.reportedFrames == 120
    requires forall i: nat :: video.decode(i) == if i == 60 then None else Some(pic(i))
    requires forall f :: jpeg(f).Success?
    requires forall r :: service(r) == Completion([Choice(Some(Walking))])
    ensures Prepare(video, jpeg).Success?
    ensures |Prepare(video, jpeg).value.messages[0].content| == 3
    ensures var read := ReadRequest(Prepare(video, jpeg).value);
      && read.Some? && read.value.0 == Instruction && |read.value.1| == 2
      && Base64.Decode(read.value.1[0]) == Some(jpeg(Normalise(pic(30))).value)
      && Base64.Decode(read.value.1[1]) == Some(jpeg(Normalise(pic(90))).value)
    ensures Render(Describe(video, jpeg, service)) == Some(Walking)
  {
    var indices: seq<nat> := [30, 60, 90];
    assert SampleIndices(120) == Success(indices);
    var f30, f90 := Normalise(pic(30)), Normalise(pic(90));
    assert indices[..2] == [30, 60] && [30, 60][..1] == [30] && [30][..0] == [];
    assert Decoded(video, [30]) == [f30];
    assert Decoded(video, [30, 60]) == [f30];
    assert Decoded(video, indices) == [f30, f90];
    assert ExtractedFrames(video) == Success([f30, f90]);
    EncodeAllSuccess([f30, f90], jpeg);
    ImagesDecodeToJpeg([f30, f90], jpeg);
    var images := EncodeAll([f30, f90], jpeg).value;
    BuildRequestShape(images);
    ReadBuiltRequest(images);
    assert Prepare(video, jpeg) == Success(BuildRequest(images));
  }

  /** A service that raises: the run returns the prefixed message and does not raise. */
  lemma ScenarioServiceFault(video: Video, jpeg: JpegWriter, service: InferenceService, message: string)
    requires video.reportedFrames >= 3
    requires forall f :: jpeg(f).Success?
    requires forall r :: service(r) == Fault(message)
    ensures Render(Describe(video, jpeg, service)) == Some(ErrorPrefix + message)
  {
    EncodeAllSuccess(Decoded(video, SampleIndices(video.reportedFrames).value), jpeg);
  }
}
