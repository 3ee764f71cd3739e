# VideoDescriber, modelled in Dafny

This project models `VideoDescriber` from `Image_Description_Tests/ImageDescription.py`, the pipeline that produces a text description of a video. It has four stages:

1. It samples three frames from the video, at a quarter, a half and three quarters of its reported length. Each kept frame is converted to RGB and resized to 512x512.
2. It writes each frame as a JPEG and base64-encodes the bytes (RFC 4648, section 4).
3. It builds a chat request. The request holds one text instruction, followed by one `data:image/jpeg;base64,` URL (RFC 2397) per frame.
4. It sends the request to the inference service and returns the text of the first choice.

Every failure along the way becomes the string `"Error processing video: "` followed by the failure's message, so the method always returns a value.

The project has six modules:

| file | module | models |
|---|---|---|
| `wrappers.dfy` | `Wrappers` | `Option` and `Result` |
| `base64.dfy` | `Base64` | `base64.b64encode`, with a strict decoder as its partner |
| `frame_sampler.dfy` | `FrameSampler` | `extract_frames` and the capture handle (class `Capture`) |
| `image_encoder.dfy` | `ImageEncoder` | `frames_to_base64` |
| `description_request.dfy` | `DescriptionRequester` | the request built in `get_video_description` |
| `video_describer.dfy` | `VideoDescriber` | `get_video_description` and its error boundary |

The external pieces become parameters:

- **The decoder** is a `Video` value. It gives the frame count the container reports, and what a read right after a seek to index i yields (`None` when the read fails).
- **The JPEG writer** is a function from a frame to its bytes, or to an error message.
- **The inference service** is a function from a request to a reply. The reply is either a list of choices or a fault with a message.

The stateful capture handle is the class `FrameSampler.Capture`. It has a read position and a released flag, and a ghost log that records every seek, read and release asked of it.

Two facts about the code that the model keeps:

- **No release on the early exit.** `extract_frames` raises at `ImageDescription.py:26`, before its `release()` at line 46, so the handle is not released on that path. `FrameSampler.ExtractFrames` states that no seek, read or release is asked of the handle there; only its frame count was queried.
- **Strictly ascending indices.** For T >= 3 the three sampled indices are strictly ascending, so no frame is read twice; `FrameSampler.SampleIndicesSpec` proves it.

## Model

| member | source | states |
|---|---|---|
| FrameSampler.SampleIndicesSpec | Image_Description_Tests/ImageDescription.py:24-33 | A video reporting fewer than 3 frames is refused with "Video must have at least 3 frames", and only such a video is refused. Otherwise three indices are picked: the floors of T/4, T/2 and 3T/4. They are strictly ascending and all below T. |
| FrameSampler.Capture.Open | Image_Description_Tests/ImageDescription.py:21 | An opened handle is at position 0, is not released, and has been asked nothing yet. |
| FrameSampler.Capture.Seek | Image_Description_Tests/ImageDescription.py:37 | Seeking moves the read position to the index, unless the handle was released. The request is logged. |
| FrameSampler.Capture.Read | Image_Description_Tests/ImageDescription.py:38 | A read yields the decoder's picture at the current position, and the position advances when the read succeeds. A released handle yields nothing. The request is logged. |
| FrameSampler.Capture.Close | Image_Description_Tests/ImageDescription.py:46 | The handle becomes released and the release is logged. |
| FrameSampler.ExtractFrames | Image_Description_Tests/ImageDescription.py:19-47 | The result is the frames of the successful reads at the sampled indices, or the too-short error. On the error path no seek, read or release is asked of the handle. Otherwise it is asked for a seek and a read at each index in turn, then one release. |
| FrameSampler.DecodedSpec | Image_Description_Tests/ImageDescription.py:35-44 | The kept frames are exactly the successful reads, in index order, and there are never more of them than indices. An index is kept if and only if its read succeeds. Frame k is the normalised picture read at the k-th kept index. |
| FrameSampler.FramesAreNormalised | Image_Description_Tests/ImageDescription.py:40-44 | Every kept frame is 512x512 in RGB order. |
| FrameSampler.AllReadsSucceed | Image_Description_Tests/ImageDescription.py:35-44 | When every read succeeds, there is one frame per index and none is skipped. |
| FrameSampler.AllReadsFail | Image_Description_Tests/ImageDescription.py:35-44 | When every read fails, the list of frames is empty. This is not an error. |
| FrameSampler.ReleasedOnceAfterReads | Image_Description_Tests/ImageDescription.py:36-46 | On the normal path the handle is asked for a seek then a read at each index, in order. It is released exactly once, after the last read. |
| Base64.DecodeChar | Image_Description_Tests/ImageDescription.py:60 | Reading a character of the alphabet backwards gives the value that the RFC 4648 table maps to that character. |
| Base64.DigitCharRoundTrip | Image_Description_Tests/ImageDescription.py:60 | Each digit or pad maps to a distinct character of the alphabet or `=`, and that character maps back to it. |
| Base64.CharDigitRoundTrip | Image_Description_Tests/ImageDescription.py:60 | A character that parses as a digit is that digit's character. |
| Base64.ParseRender | Image_Description_Tests/ImageDescription.py:60 | Parsing rendered digits gives them back. |
| Base64.RenderParse | Image_Description_Tests/ImageDescription.py:60 | A text that parses renders back to itself. |
| Base64.JoinSplit | Image_Description_Tests/ImageDescription.py:60 | Splitting three bytes into four six-bit values and joining them again gives back the bytes. |
| Base64.SplitJoin | Image_Description_Tests/ImageDescription.py:60 | Joining four six-bit values and splitting the result again gives back the values. |
| Base64.ToDigitsLength | Image_Description_Tests/ImageDescription.py:60 | n bytes give 4 * ceil(n/3) digits. |
| Base64.EncodeShape | Image_Description_Tests/ImageDescription.py:60 | The encoding of n bytes has 4 * ceil(n/3) characters. Each one is from the standard alphabet or is `=`. |
| Base64.Tail1Decodes | Image_Description_Tests/ImageDescription.py:60 | A final lone byte comes back from its group, which ends in two pads. |
| Base64.Tail2Decodes | Image_Description_Tests/ImageDescription.py:60 | Two final bytes come back from their group, which ends in one pad. |
| Base64.GroupDecodes | Image_Description_Tests/ImageDescription.py:60 | Three bytes come back from their group of four digits. |
| Base64.FromToDigits | Image_Description_Tests/ImageDescription.py:60 | Decoding the digits of any byte string gives the bytes back. |
| Base64.ToFromDigits | Image_Description_Tests/ImageDescription.py:60 | Digits that decode at all are exactly the digits of the bytes they decode to. |
| Base64.DecodeEncode | Image_Description_Tests/ImageDescription.py:60 | Decoding the encoding of any bytes gives the bytes back. |
| Base64.EncodeDecode | Image_Description_Tests/ImageDescription.py:60 | A text that decodes is the encoding of what it decodes to. |
| Base64.DecodeIffEncode | Image_Description_Tests/ImageDescription.py:60 | A text decodes to b if and only if it is the encoding of b. |
| Base64.RfcTestVectorF | Image_Description_Tests/ImageDescription.py:60 | Test vectors from section 10 of RFC 4648: "" encodes to "" and "f" encodes to "Zg==". |
| Base64.RfcTestVectorFo | Image_Description_Tests/ImageDescription.py:60 | Test vector from section 10 of RFC 4648: "fo" encodes to "Zm8=". |
| Base64.RfcTestVectorFoo | Image_Description_Tests/ImageDescription.py:60 | Test vector from section 10 of RFC 4648: "foo" encodes to "Zm9v". |
| Base64.RfcTestVectorLong | Image_Description_Tests/ImageDescription.py:60 | Test vector from section 10 of RFC 4648: "foobar" encodes to "Zm9vYmFy". |
| ImageEncoder.FramesToBase64 | Image_Description_Tests/ImageDescription.py:49-62 | The loop's result is the batch function `EncodeAll`. The properties of `EncodeAll` are proved in the rows below. |
| ImageEncoder.PrefixFailureStops | Image_Description_Tests/ImageDescription.py:52-61 | Once a frame fails to be written, the whole batch fails with that frame's message. |
| ImageEncoder.EncodeAllSuccess | Image_Description_Tests/ImageDescription.py:51-62 | The batch succeeds if and only if every frame can be written. It then has one image per frame, in order, and image i is the base64 of the JPEG of frame i alone. |
| ImageEncoder.EncodeAllFailure | Image_Description_Tests/ImageDescription.py:52-61 | A failed batch reports the message of the first frame that cannot be written. Every earlier frame was written. |
| ImageEncoder.ImagesDecodeToJpeg | Image_Description_Tests/ImageDescription.py:58-61 | Each image of a successful batch decodes back to the JPEG bytes of its frame. |
| DescriptionRequester.DataUrlRoundTrip | Image_Description_Tests/ImageDescription.py:83 | The payload of a JPEG base64 data URL reads back as exactly what was put in. Only the URL built from a payload has that payload. |
| DescriptionRequester.BuildRequestShape | Image_Description_Tests/ImageDescription.py:72-95 | The request names "gpt-4o-mini", caps the completion at 300 tokens and holds one user message. That message has 1 + n parts: the instruction first, then, for each image in order, an image part whose URL carries that image. |
| DescriptionRequester.PayloadsOfImageParts | Image_Description_Tests/ImageDescription.py:80-85 | Reading the image parts gives back the images, in order. |
| DescriptionRequester.ReadBuiltRequest | Image_Description_Tests/ImageDescription.py:72-88 | A reader of the request recovers the instruction and exactly the images sent. |
| DescriptionRequester.EmptyRequest | Image_Description_Tests/ImageDescription.py:72-88 | With no image at all, the request still holds the instruction. |
| VideoDescriber.GetVideoDescription | Image_Description_Tests/ImageDescription.py:64-100 | The method always returns. What it returns is the outcome of the run, `Describe`, rendered as a string (or None). |
| VideoDescriber.TooShortVideo | Image_Description_Tests/ImageDescription.py:24-26 | A video reporting fewer than 3 frames yields "Error processing video: Video must have at least 3 frames". This holds whatever the decoder, the writer and the service would do. |
| VideoDescriber.ErrorBoundary | Image_Description_Tests/ImageDescription.py:66-100 | The result is one of the following, and nothing else: the prefixed too-short message; the prefixed message of the first frame the writer refused (every earlier frame was written); the prefixed message of a service fault; the prefixed "list index out of range" for an empty choice list; or the content of the first choice. The service is consulted only when the first three stages succeed. |
| VideoDescriber.RequestCarriesFrames | Image_Description_Tests/ImageDescription.py:66-95 | Whenever frame sampling and encoding succeed, the video reported at least 3 frames and the service receives the instruction and one image per successful read, at most three and in index order. The picture read at the k-th successful index was written, and image k decodes to its JPEG. |
| VideoDescriber.ZeroFrameRequestIsSent | Image_Description_Tests/ImageDescription.py:66-97 | When the reads at the three sampled indices all fail, the request is still sent, holding the instruction alone, and the run ends with the service's answer to it. Other frames of the video may decode. |
| VideoDescriber.ScenarioFullVideo | Image_Description_Tests/ImageDescription.py:29-97 | For a 120-frame video whose reads all succeed, the sampled indices are 30, 60 and 90, and the request has four parts. It reads back as the instruction followed by three images that decode to the JPEGs of frames 30, 60 and 90, in that order. The service's text is returned unchanged. |
| VideoDescriber.ScenarioMiddleReadFails | Image_Description_Tests/ImageDescription.py:35-97 | For the same video with the read of frame 60 failing, the request has three parts: the instruction, then images that decode to the JPEGs of frames 30 and 90, in that order. It is still sent and the service's text is returned. |
| VideoDescriber.ScenarioServiceFault | Image_Description_Tests/ImageDescription.py:91-100 | When the service fails with message m, the method returns "Error processing video: " followed by m, and does not raise. |

## Left out

- Decoding, seeking, BGR-to-RGB conversion and resizing are OpenCV calls. They are not modelled. A frame records the decoded picture it came from and is tagged 512x512 RGB; its resampled pixel values are not computed.
- The JPEG compression (PIL) is a lossy foreign codec. It is the parameter `ImageEncoder.JpegWriter`.
- The OpenAI client, the network call, and loading the API key with dotenv are not modelled. The service is the parameter `VideoDescriber.InferenceService`, and it cannot hang. Timeouts and cancellation are not modelled.
- The `main` function (argument parsing, the file-existence check, printing) is command-line I/O and is not modelled.
- `downgrade_videos.py` (ffmpeg re-encoding) and `upload_videos.py` (Firebase uploads) are not part of this model. Both are external I/O.
- FrameSampler.SampleIndicesSpec: the indices are modelled as integer floors. The code multiplies the count by 0.25, 0.5 and 0.75 in floating point, which gives the same indices whenever 3T < 2^53. Larger frame counts are not modelled.
- FrameSampler.Capture.Read: the decoder oracle fixes what a read right after a seek to i yields. The model does not capture an inaccurate seek that lands on a different frame, nor a read that depends on earlier reads.
- `str(e)` of an arbitrary exception is modelled as the message the failing stage reports. Exceptions from the decoder itself, such as a file that cannot be opened, are not modelled. An unopenable file reports 0 frames and so takes the too-short path.
- The instruction text says "three frames" whatever the number of images that follow. The model keeps the text verbatim.
