/** `VADConfig` and the `SileroVAD` object of vad.py: fields updated in
    place by `reset`, `process`, `_process_variable_chunk` and `finalize`,
    each method proved to move the object exactly as the state machine of
    vad_spec.dfy says. */
module Vad {
  import opened Base
  import opened VadSpec

  /** The durations of `VADConfig`, in whole milliseconds. The speech
      probability threshold is part of the classifier `isSpeech`. */
  datatype VadConfig = VadConfig(
    minSilenceMs: nat,
    minSpeechMs: nat,
    speechPadMs: nat,
    sampleRate: nat)

  /** `VADConfig()`: 1.0 s of silence, 0.3 s of speech, 0.1 s of pre-roll,
      16 kHz. */
  function DefaultConfig(): (c: VadConfig)
    ensures c.minSilenceMs == 1000 && c.minSpeechMs == 300 && c.speechPadMs == 100
    ensures c.sampleRate == 16000
  {
    VadConfig(1000, 300, 100, 16000)
  }

  /** With 512-sample chunks at 16 kHz (31.25 chunks per second) the
      default configuration gives 31 silence chunks, 9 speech chunks and
      3 pre-roll chunks. */
  lemma DefaultCounts()
    ensures ChunkCount(DefaultConfig().minSilenceMs, 16000, 512) == 31
    ensures ChunkCount(DefaultConfig().minSpeechMs, 16000, 512) == 9
    ensures ChunkCount(DefaultConfig().speechPadMs, 16000, 512) == 3
  {
  }

  class SileroVad {
    const chunkSamples: nat
    const chunkBytes: nat
    const silenceChunksThreshold: nat
    const minSpeechChunks: nat
    const padChunks: nat
    /** The Silero detector followed by `prob >= speech_threshold`. */
    const isSpeech: Bytes -> bool

    var isSpeaking: bool
    var silenceChunks: nat
    var speechChunks: nat
    var audioBuffer: seq<Bytes>
    var preBuffer: seq<Bytes>
    /** The `maxlen` of the `pre_buffer` deque. */
    var preBufferCapacity: nat

    function Params(): Params
    {
      VadSpec.Params(chunkBytes, silenceChunksThreshold, minSpeechChunks, padChunks, isSpeech)
    }

    ghost function State(): VadState
      reads this
    {
      VadState(isSpeaking, silenceChunks, speechChunks, audioBuffer, preBuffer, preBufferCapacity)
    }

    ghost predicate Valid()
      reads this
    {
      chunkBytes > 0 && Inv(Params(), State())
    }

    /** `SileroVAD(config)`: the chunk sizes come from the detector; each
        count is the duration times chunks per second, truncated. */
    constructor (config: VadConfig, chunkSamples: nat, chunkBytes: nat, isSpeech: Bytes -> bool)
      requires chunkSamples > 0 && chunkBytes > 0
      ensures this.chunkSamples == chunkSamples && this.chunkBytes == chunkBytes
      ensures this.isSpeech == isSpeech
      ensures silenceChunksThreshold == ChunkCount(config.minSilenceMs, config.sampleRate, chunkSamples)
      ensures minSpeechChunks == ChunkCount(config.minSpeechMs, config.sampleRate, chunkSamples)
      ensures padChunks == ChunkCount(config.speechPadMs, config.sampleRate, chunkSamples)
      ensures Valid() && State() == Fresh(Params())
    {
      this.chunkSamples := chunkSamples;
      this.chunkBytes := chunkBytes;
      this.isSpeech := isSpeech;
      silenceChunksThreshold := ChunkCount(config.minSilenceMs, config.sampleRate, chunkSamples);
      minSpeechChunks := ChunkCount(config.minSpeechMs, config.sampleRate, chunkSamples);
      padChunks := ChunkCount(config.speechPadMs, config.sampleRate, chunkSamples);
      new;
      Reset();
      FreshInv(Params());
    }

    /** `reset()`: not speaking, both counters zero, empty buffers, and a
        pre-roll deque of capacity `max(1, pad_chunks)`. */
    method Reset()
      modifies this
      ensures State() == Fresh(Params())
      ensures chunkBytes > 0 ==> Valid()
    {
      isSpeaking := false;
      silenceChunks := 0;
      speechChunks := 0;
      audioBuffer := [];
      preBuffer := [];
      preBufferCapacity := Max(1, padChunks);
      FreshInv(Params());
    }

    /** `process(frame)` for a frame of exactly `chunk_bytes` bytes. */
    method ProcessFrame(frame: Bytes) returns (r: Option<Bytes>)
      requires Valid() && |frame| == chunkBytes
      modifies this
      ensures Valid()
      ensures (State(), r) == Step(Params(), old(State()), frame)
    {
      ghost var s0 := State();
      ghost var step := Step(Params(), s0, frame);
      assert Inv(Params(), step.0) by {
        StepInv(Params(), s0, frame);
      }
      r := None;
      if isSpeech(frame) {
        if !isSpeaking {
          isSpeaking := true;
          silenceChunks := 0;
          speechChunks := 0;
          audioBuffer := preBuffer;
        }
        audioBuffer := audioBuffer + [frame];
        speechChunks := speechChunks + 1;
        silenceChunks := 0;
        assert State() == step.0 && r == step.1;
      } else {
        preBuffer := PushBounded(preBuffer, preBufferCapacity, frame);
        if isSpeaking {
          audioBuffer := audioBuffer + [frame];
          silenceChunks := silenceChunks + 1;
          if silenceChunks >= silenceChunksThreshold {
            isSpeaking := false;
            if speechChunks >= minSpeechChunks {
              r := Some(Join(audioBuffer));
            }
            Reset();
            assert State() == step.0 && r == step.1;
          } else {
            assert State() == step.0 && r == step.1;
          }
        } else {
          assert State() == step.0 && r == step.1;
        }
      }
    }

    /** `process(audio_bytes)`: a frame of the right size is one step; any
        other input goes to `_process_variable_chunk`. */
    method Process(audio: Bytes) returns (r: Option<Bytes>)
      requires Valid()
      modifies this
      ensures Valid()
      ensures (State(), r) == VadSpec.Process(Params(), old(State()), audio)
    {
      if |audio| != chunkBytes {
        r := ProcessVariableChunk(audio);
      } else {
        r := ProcessFrame(audio);
      }
    }

    /** `_process_variable_chunk`: every whole chunk in order, keeping the
        last segment returned; a shorter tail is ignored. */
    method ProcessVariableChunk(audio: Bytes) returns (r: Option<Bytes>)
      requires Valid()
      modifies this
      ensures Valid()
      ensures var (s, out) := Run(Params(), old(State()), Chunks(audio, chunkBytes));
        State() == s && r == LastOf(out)
    {
      ghost var s0 := State();
      ghost var done: seq<Bytes> := [];
      var n := chunkBytes;
      r := None;
      var offset := 0;
      ChunkedStart(audio, n);
      while offset + n <= |audio|
        invariant 0 <= offset <= |audio| && n > 0
        invariant Valid()
        invariant ChunkedAt(audio, n, done, offset)
        invariant State() == Run(Params(), s0, done).0
        invariant r == LastOf(Run(Params(), s0, done).1)
        decreases |audio| - offset
      {
        var nextOffset := offset + n;
        var chunk := audio[offset..nextOffset];
        ghost var next := done + [chunk];
        ChunksAdvance(audio, n, done, offset, next, nextOffset);
        r := FeedChunk(chunk, s0, done, next, r);
        offset := nextOffset;
        done := next;
      }
      ChunkedEnd(audio, n, done, offset);
    }

    /** One pass of the loop of `_process_variable_chunk`: the chunk is
        processed, and a segment it returns replaces the one kept so far. */
    method FeedChunk(chunk: Bytes, ghost s0: VadState, ghost done: seq<Bytes>,
                     ghost next: seq<Bytes>, last: Option<Bytes>) returns (r: Option<Bytes>)
      requires Valid() && |chunk| == chunkBytes && next == done + [chunk]
      requires State() == Run(Params(), s0, done).0
      requires last == LastOf(Run(Params(), s0, done).1)
      modifies this
      ensures Valid()
      ensures State() == Run(Params(), s0, next).0
      ensures r == LastOf(Run(Params(), s0, next).1)
    {
      ghost var before := State();
      var chunkResult := ProcessFrame(chunk);
      RunLastSnoc(Params(), s0, done, chunk, next, last, before, State(), chunkResult);
      r := last;
      if chunkResult.Some? {
        r := chunkResult;
      }
    }

    /** `finalize()`: the buffered utterance if one is in progress and long
        enough, and the state `reset()` gives either way. */
    method Finalize() returns (r: Option<Bytes>)
      requires Valid()
      modifies this
      ensures Valid() && State() == Fresh(Params())
      ensures r == FinalSegment(Params(), old(State()))
    {
      if isSpeaking && speechChunks >= minSpeechChunks {
        r := Some(Join(audioBuffer));
        Reset();
        return;
      }
      r := None;
      Reset();
    }
  }
}
