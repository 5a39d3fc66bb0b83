/** A model of the streaming-recognition sample (python/samples/recognize_streaming.py):
    how an audio file's path selects the audio encoding, and how the file's bytes
    become the request stream of a streaming recognition call: one streaming
    configuration followed by the audio cut into frames of at most 10000 bytes. */
module RecognizeStreaming {

  // ---------------------------------------------------------------------------
  // Data model
  // ---------------------------------------------------------------------------

  /** The three values of RecognitionConfig.AudioEncoding that the sample uses. */
  datatype AudioEncoding = EncodingUnspecified | Linear16 | Mp3

  type Byte = bv8

  /** The recognition configuration the sample fills in. */
  datatype RecognitionConfig = RecognitionConfig(
    encoding: AudioEncoding,
    sampleRateHertz: nat,
    languageCode: string,
    maxAlternatives: nat)

  /** The configuration message that opens a recognition stream. */
  datatype StreamingRecognitionConfig = StreamingRecognitionConfig(config: RecognitionConfig)

  /** One element of the request list: the opening configuration or a frame of audio bytes. */
  datatype Request =
    | Config(streamingConfig: StreamingRecognitionConfig)
    | Chunk(audioContent: seq<Byte>)

  const SampleRateHertz: nat := 8000
  const LanguageCode: string := "en-IN"
  const MaxAlternatives: nat := 1

  /** The step of the chunking loop and the largest frame it sends. */
  const ChunkSize: nat := 10000

  function Min(a: int, b: int): int { if a <= b then a else b }

  // ---------------------------------------------------------------------------
  // Substring test: Python's `pat in s` on strings
  // ---------------------------------------------------------------------------

  /** `pat` occurs in `s` at offset `i`. */
  ghost predicate OccursAt(s: string, pat: string, i: int) {
    0 <= i && i + |pat| <= |s| && s[i..i + |pat|] == pat
  }

  /** The meaning of `pat in s`: `pat` occurs somewhere in `s`. */
  ghost predicate IsSubstring(pat: string, s: string) {
    exists i :: OccursAt(s, pat, i)
  }

  /** Past a failed match at offset 0, `pat` occurs in `s` exactly when it occurs
      in `s` without its first character. */
  lemma SubstringOfTail(s: string, pat: string)
    requires |pat| <= |s| && s[..|pat|] != pat
    ensures |s| > 0
    ensures IsSubstring(pat, s) <==> IsSubstring(pat, s[1..])
  {
    var t := s[1..];
    if IsSubstring(pat, t) {
      var j :| OccursAt(t, pat, j);
      assert s[j + 1..j + 1 + |pat|] == t[j..j + |pat|];
      assert OccursAt(s, pat, j + 1);
    }
    if IsSubstring(pat, s) {
      var i :| OccursAt(s, pat, i);
      assert i != 0;
      assert t[i - 1..i - 1 + |pat|] == s[i..i + |pat|];
      assert OccursAt(t, pat, i - 1);
    }
  }

  /** Python's `pat in s`, searching start positions from the left: true exactly
      when `pat` occurs somewhere in `s`. */
  function Contains(s: string, pat: string): (r: bool)
    ensures r <==> IsSubstring(pat, s)
    decreases |s|
  {
    if |s| < |pat| then
      false
    else if s[..|pat|] == pat then
      assert OccursAt(s, pat, 0);
      true
    else
      SubstringOfTail(s, pat);
      Contains(s[1..], pat)
  }

  /** A string occurs in any string built around it. */
  lemma ContainsInfix(prefix: string, pat: string, suffix: string)
    ensures Contains(prefix + pat + suffix, pat)
  {
    var s := prefix + pat + suffix;
    assert s[|prefix|..|prefix| + |pat|] == pat;
    assert OccursAt(s, pat, |prefix|);
  }

  // ---------------------------------------------------------------------------
  // infer_encoding
  // ---------------------------------------------------------------------------

  /** The encoding chosen from a file path: ".mp3" anywhere gives MP3 (whatever
      else the path holds), otherwise ".wav" anywhere gives LINEAR16, otherwise
      the encoding is unspecified. */
  function InferEncoding(filePath: string): (e: AudioEncoding)
    ensures e == Mp3 <==> IsSubstring(".mp3", filePath)
    ensures e == Linear16 <==> !IsSubstring(".mp3", filePath) && IsSubstring(".wav", filePath)
    ensures e == EncodingUnspecified
        <==> !IsSubstring(".mp3", filePath) && !IsSubstring(".wav", filePath)
  {
    if Contains(filePath, ".mp3") then Mp3
    else if Contains(filePath, ".wav") then Linear16
    else EncodingUnspecified
  }

  /** A string lacking one of the characters of `pat` does not contain `pat`. */
  lemma LacksCharacter(s: string, pat: string, c: char)
    requires c in pat && c !in s
    ensures !Contains(s, pat)
  {
  }

  /** The tests look for the extension anywhere, not only at the end of the path:
      ".mp3" followed by anything gives MP3 (even next to ".wav"), and ".wav"
      followed by anything gives at least LINEAR16. */
  lemma InferEncodingMatchesInfix(prefix: string, suffix: string)
    ensures InferEncoding(prefix + ".mp3" + suffix) == Mp3
    ensures InferEncoding(prefix + ".wav" + suffix) != EncodingUnspecified
  {
    ContainsInfix(prefix, ".mp3", suffix);
    ContainsInfix(prefix, ".wav", suffix);
  }

  /** A ".wav" that is not at the end of the path still selects LINEAR16. */
  lemma WavNotAtEnd()
    ensures InferEncoding("a.wav.bak") == Linear16
  {
    LacksCharacter("a.wav.bak", ".mp3", '3');
    InferEncodingMatchesInfix("a", ".bak");
    assert "a.wav.bak" == "a" + ".wav" + ".bak";
  }

  /** An ".mp3" that is not at the end of the path still selects MP3. */
  lemma Mp3NotAtEnd()
    ensures InferEncoding("x.mp3.txt") == Mp3
  {
  }

  /** A path holding both extensions selects MP3, even with ".wav" first. */
  lemma Mp3BeatsWav()
    ensures InferEncoding("take.wav.mp3") == Mp3
  {
  }

  /** A path with neither extension leaves the encoding unspecified. */
  lemma NoKnownExtension()
    ensures InferEncoding("notes.txt") == EncodingUnspecified
  {
    LacksCharacter("notes.txt", ".mp3", '3');
    LacksCharacter("notes.txt", ".wav", 'w');
  }

  // ---------------------------------------------------------------------------
  // Request assembly in sample_recognize
  // ---------------------------------------------------------------------------

  /** Python's `s[i:j]` for non-negative bounds: both ends are clamped to `len(s)`,
      and the slice is empty when `j <= i`. */
  function Slice(s: seq<Byte>, i: nat, j: nat): (r: seq<Byte>)
    ensures |r| == if j <= i || |s| <= i then 0 else Min(j, |s|) - i
    ensures forall t :: 0 <= t < |r| ==> r[t] == s[i + t]
  {
    if j <= i || |s| <= i then [] else s[i..Min(j, |s|)]
  }

  /** The number of iterations of `range(0, n, ChunkSize)`: the least `k` with
      `k * ChunkSize >= n`. */
  function NumChunks(n: nat): (k: nat)
    ensures n <= k * ChunkSize
    ensures k == 0 || (k - 1) * ChunkSize < n
  {
    (n + ChunkSize - 1) / ChunkSize
  }

  /** The frames the loop appends, in order: frame `k` is `audio[k*C : k*C + C]`.
      There are ceil(len / ChunkSize) of them, none when the audio is empty; each is
      non-empty and at most ChunkSize bytes, and all but the last are exactly
      ChunkSize bytes. */
  function Chunks(audio: seq<Byte>): (cs: seq<seq<Byte>>)
    ensures |cs| == 0 <==> audio == []
    ensures audio == [] || (|cs| - 1) * ChunkSize < |audio| <= |cs| * ChunkSize
    ensures forall k :: 0 <= k < |cs| ==> 0 < |cs[k]| <= ChunkSize
    ensures forall k :: 0 <= k < |cs| - 1 ==> |cs[k]| == ChunkSize
  {
    seq(NumChunks(|audio|), k requires 0 <= k < NumChunks(|audio|) =>
      Slice(audio, k * ChunkSize, k * ChunkSize + ChunkSize))
  }

  /** The configuration sent first: the inferred encoding and the fixed settings. */
  function StreamingConfigFor(filePath: string): (c: StreamingRecognitionConfig)
    ensures c.config.encoding == InferEncoding(filePath)
    ensures c.config.sampleRateHertz == 8000
    ensures c.config.languageCode == "en-IN"
    ensures c.config.maxAlternatives == 1
  {
    StreamingRecognitionConfig(
      RecognitionConfig(InferEncoding(filePath), SampleRateHertz, LanguageCode, MaxAlternatives))
  }

  /** The request list sample_recognize builds for a file path and its bytes: the
      streaming configuration first, then the frames of the audio in order, so that
      no element but the first is a configuration. */
  function Requests(filePath: string, audio: seq<Byte>): (rs: seq<Request>)
    ensures |rs| == 1 + NumChunks(|audio|)
    ensures rs[0] == Config(StreamingConfigFor(filePath))
    ensures forall k :: 1 <= k < |rs| ==> rs[k].Chunk? && rs[k].audioContent == Chunks(audio)[k - 1]
  {
    var cs := Chunks(audio);
    [Config(StreamingConfigFor(filePath))] + seq(|cs|, k requires 0 <= k < |cs| => Chunk(cs[k]))
  }

  /** The audio a request carries; the configuration carries none. */
  function Payload(r: Request): seq<Byte> {
    match r
    case Config(_) => []
    case Chunk(bytes) => bytes
  }

  /** All byte strings of a list, concatenated in order. */
  function Flatten(parts: seq<seq<Byte>>): seq<Byte> {
    if parts == [] then [] else parts[0] + Flatten(parts[1..])
  }

  /** The audio a request stream delivers: its payloads concatenated in order. */
  function StreamedAudio(requests: seq<Request>): seq<Byte> {
    Flatten(seq(|requests|, k requires 0 <= k < |requests| => Payload(requests[k])))
  }

  /** Builds the request list as sample_recognize does: the streaming configuration,
      then one frame per step of `range(0, len(audioContent), ChunkSize)`. */
  method AssembleRequests(filePath: string, audioContent: seq<Byte>) returns (requests: seq<Request>)
    ensures requests == Requests(filePath, audioContent)
    ensures |requests| == 1 + NumChunks(|audioContent|)
    ensures StreamedAudio(requests) == audioContent
  {
    var streamConfig := StreamingConfigFor(filePath);
    requests := [Config(streamConfig)];
    var i := 0;
    while i < |audioContent|
      invariant 1 <= |requests| <= 1 + NumChunks(|audioContent|)
      invariant i == (|requests| - 1) * ChunkSize
      invariant requests == Requests(filePath, audioContent)[..|requests|]
      decreases |audioContent| - i
    {
      requests := requests + [Chunk(Slice(audioContent, i, i + ChunkSize))];
      i := i + ChunkSize;
    }
    StreamedAudioRoundTrip(filePath, audioContent);
  }

  // ---------------------------------------------------------------------------
  // Properties of the request list
  // ---------------------------------------------------------------------------

  /** Audio longer than one frame: its first frame, then the frames of the rest. */
  lemma ChunksCons(audio: seq<Byte>)
    requires |audio| > ChunkSize
    ensures Chunks(audio) == [audio[..ChunkSize]] + Chunks(audio[ChunkSize..])
  {
    var rest := audio[ChunkSize..];
    var n := NumChunks(|audio|);
    assert n == 1 + NumChunks(|rest|);
    var lhs := Chunks(audio);
    var rhs := [audio[..ChunkSize]] + Chunks(rest);
    forall k | 0 <= k < n ensures lhs[k] == rhs[k] {
      if k > 0 {
        var a := Slice(audio, k * ChunkSize, k * ChunkSize + ChunkSize);
        var b := Slice(rest, (k - 1) * ChunkSize, (k - 1) * ChunkSize + ChunkSize);
        assert a == b;
      }
    }
  }

  /** Audio of at most one frame is sent as a single frame, or none when empty. */
  lemma ChunksShort(audio: seq<Byte>)
    requires |audio| <= ChunkSize
    ensures Chunks(audio) == if audio == [] then [] else [audio]
  {
    if audio != [] {
      assert Chunks(audio)[0] == audio;
    }
  }

  /** Concatenation distributes over list concatenation. */
  lemma {:induction false} FlattenAppend(xs: seq<seq<Byte>>, ys: seq<seq<Byte>>)
    ensures Flatten(xs + ys) == Flatten(xs) + Flatten(ys)
  {
    if xs != [] {
      assert (xs + ys)[1..] == xs[1..] + ys;
      FlattenAppend(xs[1..], ys);
    } else {
      assert xs + ys == ys;
    }
  }

  /** Concatenating the frames in order gives back the audio. */
  lemma {:induction false} FlattenChunks(audio: seq<Byte>)
    ensures Flatten(Chunks(audio)) == audio
    decreases |audio|
  {
    if |audio| <= ChunkSize {
      ChunksShort(audio);
      if audio != [] {
        assert Flatten([audio]) == audio + Flatten([]);
      }
    } else {
      ChunksCons(audio);
      FlattenChunks(audio[ChunkSize..]);
      assert Flatten(Chunks(audio)) == audio[..ChunkSize] + Flatten(Chunks(audio[ChunkSize..]));
      assert audio == audio[..ChunkSize] + audio[ChunkSize..];
    }
  }

  /** Round trip: the payloads of the request list, in order, reproduce the audio. */
  lemma StreamedAudioRoundTrip(filePath: string, audio: seq<Byte>)
    ensures StreamedAudio(Requests(filePath, audio)) == audio
  {
    var rs := Requests(filePath, audio);
    var payloads := seq(|rs|, k requires 0 <= k < |rs| => Payload(rs[k]));
    assert payloads == [[]] + Chunks(audio);
    FlattenAppend([[]], Chunks(audio));
    assert Flatten([[]]) == [];
    FlattenChunks(audio);
  }

  /** What the loop's frames are: they concatenate to the audio, each is non-empty
      and at most ChunkSize bytes, and all but the last are exactly ChunkSize. */
  ghost predicate IsChunking(audio: seq<Byte>, cs: seq<seq<Byte>>) {
    && Flatten(cs) == audio
    && (forall k :: 0 <= k < |cs| ==> 0 < |cs[k]| <= ChunkSize)
    && (forall k :: 0 <= k < |cs| - 1 ==> |cs[k]| == ChunkSize)
  }

  /** The frames of the loop form a chunking of the audio. */
  lemma ChunksIsChunking(audio: seq<Byte>)
    ensures IsChunking(audio, Chunks(audio))
  {
    FlattenChunks(audio);
  }

  /** A chunking is unique: any list of frames with those properties is the loop's. */
  lemma {:induction false} ChunkingUnique(audio: seq<Byte>, cs: seq<seq<Byte>>)
    requires IsChunking(audio, cs)
    ensures cs == Chunks(audio)
    decreases |cs|
  {
    if cs == [] {
      ChunksShort(audio);
    } else if |cs| == 1 {
      assert Flatten(cs) == cs[0] + Flatten([]);
      ChunksShort(audio);
    } else {
      var rest := Flatten(cs[1..]);
      assert audio == cs[0] + rest;
      assert |cs[0]| == ChunkSize;
      assert 0 < |cs[|cs| - 1]|;
      assert |rest| > 0 by {
        FlattenAppend(cs[1..|cs| - 1], [cs[|cs| - 1]]);
        assert cs[1..] == cs[1..|cs| - 1] + [cs[|cs| - 1]];
        assert Flatten([cs[|cs| - 1]]) == cs[|cs| - 1] + Flatten([]);
      }
      assert audio[..ChunkSize] == cs[0];
      assert audio[ChunkSize..] == rest;
      assert IsChunking(rest, cs[1..]) by {
        forall k | 0 <= k < |cs[1..]| ensures 0 < |cs[1..][k]| <= ChunkSize {
          assert cs[1..][k] == cs[k + 1];
        }
        forall k | 0 <= k < |cs[1..]| - 1 ensures |cs[1..][k]| == ChunkSize {
          assert cs[1..][k] == cs[k + 1];
        }
      }
      ChunkingUnique(rest, cs[1..]);
      ChunksCons(audio);
      assert cs == [cs[0]] + cs[1..];
    }
  }
}
