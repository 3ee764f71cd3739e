/**
 * The chat request `get_video_description` builds: one user message whose content
 * is the fixed instruction followed by one `image_url` part per encoded frame, each
 * carrying its image inline as a `data:` URL (RFC 2397) with the JPEG media type.
 */
module DescriptionRequester {
  import opened Wrappers

  /** The model the request names. */
  const Model := "gpt-4o-mini"
  /** The cap on the length of the completion. */
  const MaxTokens := 300
  /** The role of the single message. */
  const UserRole := "user"
  /** The text part. It speaks of three frames whatever the number of images that follow. */
  const Instruction := "These are three frames from a video in chronological order. Please describe what is happening in the video based on these frames."
  /** What precedes the base64 payload in every image URL. */
  const DataUrlPrefix := "data:image/jpeg;base64,"

  /** One element of a message's content list. */
  datatype Part = Text(text: string) | ImageUrl(url: string)

  datatype Message = Message(role: string, content: seq<Part>)

  /** The arguments of `client.chat.completions.create`. */
  datatype Request = Request(model: string, messages: seq<Message>, maxTokens: nat)

  /** `f"data:image/jpeg;base64,{base64_frame}"`. */
  function DataUrl(payload: string): string
  {
    DataUrlPrefix + payload
  }

  /** The payload of a JPEG base64 data URL, if the URL is one. */
  function DataUrlPayload(url: string): Option<string>
  {
    if |DataUrlPrefix| <= |url| && url[..|DataUrlPrefix|] == DataUrlPrefix then
      Some(url[|DataUrlPrefix|..])
    else None
  }

  /** The content list: the instruction, then one image part per encoded frame, in order. */
  function Content(images: seq<string>): seq<Part>
  {
    [Text(Instruction)] + seq(|images|, i requires 0 <= i < |images| => ImageUrl(DataUrl(images[i])))
  }

  /** The request sent for the given encoded frames. */
  function BuildRequest(images: seq<string>): Request
  {
    Request(Model, [Message(UserRole, Content(images))], MaxTokens)
  }

  /** The payloads of a list of image parts, read back; None if some part is not a JPEG data URL. */
  function Payloads(parts: seq<Part>): Option<seq<string>>
    decreases |parts|
  {
    if |parts| == 0 then Some([])
    else
      match parts[0]
      case Text(_) => None
      case ImageUrl(url) =>
        match DataUrlPayload(url)
        case None => None
        case Some(p) =>
          match Payloads(parts[1..])
          case None => None
          case Some(rest) => Some([p] + rest)
  }

  /** What a service receiving the request sees: the instruction and the images, if it is of that shape. */
  function ReadRequest(r: Request): Option<(string, seq<string>)>
  {
    if |r.messages| == 1 && r.messages[0].role == UserRole
       && |r.messages[0].content| >= 1 && r.messages[0].content[0].Text? then
      match Payloads(r.messages[0].content[1..])
      case None => None
      case Some(images) => Some((r.messages[0].content[0].text, images))
    else None
  }

  // ---------------------------------------------------------------------------
  // Properties
  // ---------------------------------------------------------------------------

  /** Reading the payload of a data URL undoes building it, and only such URLs have one. */
  lemma DataUrlRoundTrip(payload: string, url: string)
    ensures DataUrlPayload(DataUrl(payload)) == Some(payload)
    ensures DataUrlPayload(url) == Some(payload) ==> DataUrl(payload) == url
  {
    assert DataUrl(payload)[..|DataUrlPrefix|] == DataUrlPrefix;
    assert DataUrl(payload)[|DataUrlPrefix|..] == payload;
    if DataUrlPayload(url) == Some(payload) {
      assert url == url[..|DataUrlPrefix|] + url[|DataUrlPrefix|..];
    }
  }

  /**
   * The request has 1 + n content parts: the instruction first, then for each
   * encoded frame, in order, an image part whose URL is the data URL of that frame.
   * It names the model and the token cap, and holds one user message.
   */
  lemma BuildRequestShape(images: seq<string>)
    ensures var r := BuildRequest(images);
      && r.model == Model && r.maxTokens == MaxTokens
      && |r.messages| == 1 && r.messages[0].role == UserRole
      && |r.messages[0].content| == 1 + |images|
      && r.messages[0].content[0] == Text(Instruction)
      && forall i :: 0 <= i < |images| ==>
           r.messages[0].content[i + 1].ImageUrl? &&
           DataUrlPayload(r.messages[0].content[i + 1].url) == Some(images[i])
  {
    var content := BuildRequest(images).messages[0].content;
    forall i | 0 <= i < |images|
      ensures content[i + 1].ImageUrl? && DataUrlPayload(content[i + 1].url) == Some(images[i])
    {
      DataUrlRoundTrip(images[i], "");
    }
  }

  /** The payloads of the image parts read back as the encoded frames, in order. */
  lemma {:induction false} PayloadsOfImageParts(images: seq<string>)
    ensures Payloads(Content(images)[1..]) == Some(images)
    decreases |images|
  {
    var parts := Content(images)[1..];
    if |images| > 0 {
      PayloadsOfImageParts(images[1..]);
      DataUrlRoundTrip(images[0], "");
      assert parts[1..] == Content(images[1..])[1..];
      assert [images[0]] + images[1..] == images;
    }
  }

  /** A service reading the request recovers the instruction and exactly the images sent. */
  lemma ReadBuiltRequest(images: seq<string>)
    ensures ReadRequest(BuildRequest(images)) == Some((Instruction, images))
  {
    PayloadsOfImageParts(images);
  }

  /** With no frame at all the request is still built: it holds the instruction alone. */
  lemma EmptyRequest()
    ensures BuildRequest([]).messages[0].content == [Text(Instruction)]
  {
  }
}
