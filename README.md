# Streaming recognition requests, modelled in Dafny

This project models the part of the speech-recognition client sample that has
behaviour of its own: `python/samples/recognize_streaming.py`. It covers two things:

- **`infer_encoding`** picks the audio encoding from the file path by substring
  tests. `".mp3"` anywhere in the path gives MP3. Otherwise `".wav"` anywhere gives
  LINEAR16. Otherwise the encoding is ENCODING_UNSPECIFIED.
- **Request assembly in `sample_recognize`** builds the list sent to a streaming
  recognition call. The list starts with a streaming configuration. That
  configuration holds the inferred encoding, 8000 Hz, `"en-IN"` and one alternative.
  A loop over `range(0, len(audio_content), 10000)` then appends the slices
  `audio_content[i:i+10000]`.

Everything is in `recognize_streaming.dfy`, module `RecognizeStreaming`:

- `InferEncoding` is a pure function. Python's `pat in s` on strings is modelled by
  `Contains`, a search from the left. Its contract proves that it agrees with
  `IsSubstring`, which says that the pattern occurs at some offset. The contract of
  `InferEncoding` gives each of its three results as an if-and-only-if over
  `IsSubstring`.
- `AssembleRequests` is a method with a `while` loop that steps by `ChunkSize`
  (10000) and appends to a request sequence, as the Python loop appends to its list.
  The method is proved equal to the specification function `Requests`. `Requests`
  is built from `Chunks`, the slices the loop takes. Python's clamping slice is
  modelled by `Slice`.
- The contracts of `Chunks` and `Requests` and the lemmas about them prove the
  following. The configuration comes first and only once. The frames concatenate back
  to the audio. The frames have the right sizes. There are ceil(len/10000) of them.
  Any list of frames with these properties is exactly `Chunks`.

The audio bytes and the file path are parameters. The model does not open the file
and does not call the client.

## Model

| member | source | states |
|---|---|---|
| RecognizeStreaming.Contains | python/samples/recognize_streaming.py:7-9 | Python's `in` on a path: true exactly when the pattern occurs at some offset of the path (both directions, over `IsSubstring`). |
| RecognizeStreaming.SubstringOfTail | python/samples/recognize_streaming.py:7-9 | After a failed match at offset 0, the pattern occurs in the string exactly when it occurs in the string without its first character. This is the step of the left-to-right search. |
| RecognizeStreaming.ContainsInfix | python/samples/recognize_streaming.py:7-9 | A pattern is found in any string that has it in the middle, not only at the end. |
| RecognizeStreaming.InferEncoding | python/samples/recognize_streaming.py:6-12 | Models `infer_encoding`. MP3 if and only if ".mp3" occurs anywhere in the path, whatever else it holds. LINEAR16 if and only if ".wav" occurs and ".mp3" does not. ENCODING_UNSPECIFIED if and only if neither occurs. |
| RecognizeStreaming.InferEncodingMatchesInfix | python/samples/recognize_streaming.py:7-10 | Any path of the form prefix + ".mp3" + suffix is MP3, and any prefix + ".wav" + suffix gets a specified encoding. |
| RecognizeStreaming.WavNotAtEnd | python/samples/recognize_streaming.py:9-10 | "a.wav.bak" is LINEAR16: the test is a substring test, not a suffix test. |
| RecognizeStreaming.Mp3NotAtEnd | python/samples/recognize_streaming.py:7-8 | "x.mp3.txt" is MP3: the test is a substring test, not a suffix test. |
| RecognizeStreaming.Mp3BeatsWav | python/samples/recognize_streaming.py:7-10 | "take.wav.mp3" is MP3: the ".mp3" test comes before the ".wav" test. |
| RecognizeStreaming.NoKnownExtension | python/samples/recognize_streaming.py:12 | "notes.txt" falls through both tests to ENCODING_UNSPECIFIED. |
| RecognizeStreaming.Slice | python/samples/recognize_streaming.py:35 | A Python slice `s[i:j]` with non-negative bounds has length min(j, len s) - i, or 0 when it is empty, and element t is s[i + t]. |
| RecognizeStreaming.NumChunks | python/samples/recognize_streaming.py:33 | The number of loop iterations is the least k with k * 10000 >= len(audio_content). |
| RecognizeStreaming.Chunks | python/samples/recognize_streaming.py:33-35 | The frames the loop slices off. There are none exactly when the audio is empty, and otherwise (frames - 1) * 10000 < len <= frames * 10000. Every frame is non-empty and at most 10000 bytes, and every frame but the last is exactly 10000 bytes. FlattenChunks and ChunkingUnique fix its contents. |
| RecognizeStreaming.StreamingConfigFor | python/samples/recognize_streaming.py:21-29 | The streaming config holds the encoding InferEncoding picks for the path, 8000 Hz, "en-IN" and one alternative. |
| RecognizeStreaming.Requests | python/samples/recognize_streaming.py:31-36 | The request list has 1 + ceil(len/10000) elements. Element 0 is the streaming config, and every later element k is a `Chunk` holding frame k - 1, so no other element is a config. AssembleRequests is proved equal to it, and StreamedAudioRoundTrip gives back the audio from it. |
| RecognizeStreaming.AssembleRequests | python/samples/recognize_streaming.py:21-36 | The loop's request list equals `Requests`. It has 1 + ceil(len/10000) elements, and its payloads concatenate back to the audio. |
| RecognizeStreaming.ChunksCons | python/samples/recognize_streaming.py:33-35 | For audio longer than 10000 bytes, the frames are its first 10000 bytes followed by the frames of the rest. |
| RecognizeStreaming.ChunksShort | python/samples/recognize_streaming.py:33-35 | Audio of at most 10000 bytes is one frame holding all of it, or no frame when empty. |
| RecognizeStreaming.FlattenChunks | python/samples/recognize_streaming.py:33-36 | Concatenating the frames in order gives back the audio exactly. |
| RecognizeStreaming.StreamedAudioRoundTrip | python/samples/recognize_streaming.py:31-36 | Concatenating the payloads of the whole request list in order reproduces `audio_content`. |
| RecognizeStreaming.ChunksIsChunking | python/samples/recognize_streaming.py:33-36 | The loop's frames concatenate to the audio and satisfy the size bounds. |
| RecognizeStreaming.ChunkingUnique | python/samples/recognize_streaming.py:33-36 | Any frame list that concatenates to the audio and satisfies the size bounds is exactly the loop's frame list. |

## Left out

- The client construction `speech.SpeechClient(access_token)` (python/samples/recognize_streaming.py:16) and the whole of `python/vernacular/ai/speech/speech_client.py` are left out. They open a gRPC channel and forward messages to generated protobuf and gRPC code (imported at python/vernacular/ai/speech/speech_client.py:1-2), which is not part of this model.
- Reading the file (python/samples/recognize_streaming.py:18-19) is left out because it is file I/O. The bytes are a parameter of `AssembleRequests`.
- The call `speech_client.streaming_recognize(requests)` (python/samples/recognize_streaming.py:38) is left out. It is a network call, and `SpeechClient` (python/vernacular/ai/speech/speech_client.py:6-67) defines only `recognize`, so that method is not part of this model.
- The commented-out printing of results (python/samples/recognize_streaming.py:40-44) is left out. It is dead code and depends on server responses.
- `main` (python/samples/recognize_streaming.py:47-59) is left out. It handles command-line arguments and an environment variable.
- The generated `types` and `enums` classes are not modelled as protobuf messages. They become plain datatypes that hold the fixed values. `AudioEncoding` has only the three values the sample uses.
- Slice: models Python slicing only for non-negative bounds. The loop never produces negative indices.
- Paths are Dafny `string`s, which hold only Unicode scalar values. On POSIX, a Python `str` path decoded from the command line with surrogateescape can hold lone surrogates (U+DC80 to U+DCFF), which a Dafny `string` cannot. This does not change the encoding chosen, because ".mp3" and ".wav" are ASCII, but such paths are not representable in the model.
