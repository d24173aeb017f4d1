/** The Silero segmenter of vad.py as a pure state machine: one transition
    per fixed-size frame (`Step`), a run over many frames (`Run`), the split
    of an odd-sized input into whole chunks (`Chunks`), and the properties
    the segmenter promises, proved about these functions. The class in
    vad.dfy is specified by them. */
module VadSpec {
  import opened Base

  /** The derived chunk counts of one segmenter and its classifier:
      `isSpeech(frame)` stands for `vad(frame) >= speech_threshold`. */
  datatype Params = Params(
    chunkBytes: nat,
    silenceChunksThreshold: nat,
    minSpeechChunks: nat,
    padChunks: nat,
    isSpeech: Bytes -> bool)

  /** The mutable fields of a `SileroVAD`; `preBufferCapacity` is the
      `maxlen` of the `pre_buffer` deque. */
  datatype VadState = VadState(
    isSpeaking: bool,
    silenceChunks: nat,
    speechChunks: nat,
    audioBuffer: seq<Bytes>,
    preBuffer: seq<Bytes>,
    preBufferCapacity: nat)

  /** The state `reset()` establishes. */
  function Fresh(p: Params): (s: VadState)
    ensures s.preBufferCapacity >= 1 && s.preBufferCapacity >= p.padChunks
  {
    VadState(false, 0, 0, [], [], Max(1, p.padChunks))
  }

  /** The last `n` elements of `s` (all of `s` when it is shorter). */
  function LastN<T>(s: seq<T>, n: nat): (r: seq<T>)
    ensures |r| == if |s| <= n then |s| else n
    ensures r == s[|s| - |r|..]
  {
    if |s| <= n then s else s[|s| - n..]
  }

  /** `deque.append` on a deque with `maxlen == cap`. */
  function PushBounded<T>(q: seq<T>, cap: nat, x: T): seq<T>
  {
    LastN(q + [x], cap)
  }

  /** One call of `process` on a frame of exactly `chunk_bytes` bytes:
      the new state and the returned segment, if any. */
  function Step(p: Params, s: VadState, frame: Bytes): (VadState, Option<Bytes>)
  {
    if p.isSpeech(frame) then
      var started :=
        if s.isSpeaking then s
        else s.(isSpeaking := true, silenceChunks := 0, speechChunks := 0, audioBuffer := s.preBuffer);
      (started.(audioBuffer := started.audioBuffer + [frame],
                speechChunks := started.speechChunks + 1,
                silenceChunks := 0), None)
    else
      var s1 := s.(preBuffer := PushBounded(s.preBuffer, s.preBufferCapacity, frame));
      if !s1.isSpeaking then (s1, None)
      else
        var s2 := s1.(audioBuffer := s1.audioBuffer + [frame], silenceChunks := s1.silenceChunks + 1);
        if s2.silenceChunks >= p.silenceChunksThreshold then
          if s2.speechChunks >= p.minSpeechChunks then (Fresh(p), Some(Join(s2.audioBuffer)))
          else (Fresh(p), None)
        else (s2, None)
  }

  /** Feeding `frames` one by one from `s`: the final state and every
      segment returned on the way, in order. */
  function Run(p: Params, s: VadState, frames: seq<Bytes>): (VadState, seq<Bytes>)
    decreases |frames|
  {
    if frames == [] then (s, [])
    else
      var (s1, out) := Run(p, s, frames[..|frames| - 1]);
      var (s2, r) := Step(p, s1, frames[|frames| - 1]);
      (s2, Emit(out, r))
  }

  function Emit(out: seq<Bytes>, r: Option<Bytes>): seq<Bytes>
  {
    if r.Some? then out + [r.value] else out
  }

  /** What `finalize()` returns; the state afterwards is `Fresh(p)`. */
  function FinalSegment(p: Params, s: VadState): Option<Bytes>
  {
    if s.isSpeaking && s.speechChunks >= p.minSpeechChunks then Some(Join(s.audioBuffer)) else None
  }

  /** The consecutive whole chunks `audio[0..n]`, `audio[n..2n]`, ... that
      `_process_variable_chunk` feeds one by one; a shorter tail is dropped. */
  function Chunks(audio: Bytes, n: nat): (r: seq<Bytes>)
    requires n > 0
    ensures forall i :: 0 <= i < |r| ==> |r[i]| == n
    decreases |audio|
  {
    if |audio| < n then [] else [audio[..n]] + Chunks(audio[n..], n)
  }

  /** The chunks, joined, are the input up to its last whole chunk: fewer
      than `n` bytes are left over. */
  lemma {:induction false} ChunksCover(audio: Bytes, n: nat)
    requires n > 0
    ensures |Join(Chunks(audio, n))| <= |audio|
    ensures Join(Chunks(audio, n)) == audio[..|Join(Chunks(audio, n))|]
    ensures |audio| - |Join(Chunks(audio, n))| < n
    decreases |audio|
  {
    if |audio| >= n {
      ChunksCover(audio[n..], n);
      JoinCons(audio[..n], Chunks(audio[n..], n));
    }
  }

  /** `done` are the chunks before `offset`, and the chunks of the rest
      of the input follow them. */
  ghost predicate ChunkedAt(audio: Bytes, n: nat, done: seq<Bytes>, offset: nat)
    requires n > 0 && offset <= |audio|
  {
    Chunks(audio, n) == done + Chunks(audio[offset..], n)
  }

  /** Nothing is fed before the first chunk. */
  lemma ChunkedStart(audio: Bytes, n: nat)
    requires n > 0
    ensures ChunkedAt(audio, n, [], 0)
  {
    assert audio[0..] == audio;
  }

  /** Taking the chunk at `offset` moves it from the chunks still to come
      to the chunks already fed, as `_process_variable_chunk` does. */
  lemma ChunksAdvance(audio: Bytes, n: nat, done: seq<Bytes>, offset: nat,
                      next: seq<Bytes>, nextOffset: nat)
    requires n > 0 && nextOffset == offset + n <= |audio|
    requires ChunkedAt(audio, n, done, offset)
    requires next == done + [audio[offset..nextOffset]]
    ensures ChunkedAt(audio, n, next, nextOffset)
  {
    assert audio[offset..][n..] == audio[offset + n..];
    assert audio[offset..][..n] == audio[offset..offset + n];
  }

  /** Once less than a chunk is left, every chunk has been fed. */
  lemma ChunkedEnd(audio: Bytes, n: nat, done: seq<Bytes>, offset: nat)
    requires n > 0 && offset <= |audio| && |audio| < offset + n
    requires ChunkedAt(audio, n, done, offset)
    ensures Chunks(audio, n) == done
  {
    assert done + [] == done;
  }

  function LastOf(out: seq<Bytes>): (r: Option<Bytes>)
    ensures r.None? <==> out == []
    ensures r.Some? ==> r.value == out[|out| - 1]
  {
    if out == [] then None else Some(out[|out| - 1])
  }

  /** One call of `process` on input of any length. */
  function Process(p: Params, s: VadState, audio: Bytes): (VadState, Option<Bytes>)
    requires p.chunkBytes > 0
  {
    if |audio| == p.chunkBytes then Step(p, s, audio)
    else
      var (s1, out) := Run(p, s, Chunks(audio, p.chunkBytes));
      (s1, LastOf(out))
  }

  // ---------------------------------------------------------------------
  // The invariant every reachable state satisfies

  predicate NonSpeech(p: Params, frames: seq<Bytes>)
  {
    forall i :: 0 <= i < |frames| ==> !p.isSpeech(frames[i])
  }

  predicate AllSpeech(p: Params, frames: seq<Bytes>)
  {
    forall i :: 0 <= i < |frames| ==> p.isSpeech(frames[i])
  }

  predicate WholeChunks(p: Params, frames: seq<Bytes>)
  {
    forall i :: 0 <= i < |frames| ==> |frames[i]| == p.chunkBytes
  }

  /** The pre-buffer is bounded by `max(1, pad_chunks)` and holds only
      non-speech frames; the audio buffer is empty while idle; the last
      `silence_chunks` buffered frames are non-speech; every stored frame
      has `chunk_bytes` bytes. */
  ghost predicate Inv(p: Params, s: VadState)
  {
    && s.preBufferCapacity == Max(1, p.padChunks)
    && |s.preBuffer| <= s.preBufferCapacity
    && NonSpeech(p, s.preBuffer)
    && WholeChunks(p, s.preBuffer)
    && WholeChunks(p, s.audioBuffer)
    && (!s.isSpeaking ==> s.audioBuffer == [] && s.silenceChunks == 0 && s.speechChunks == 0)
    && (s.isSpeaking ==> 1 <= s.speechChunks
                         && (s.silenceChunks == 0 || s.silenceChunks < p.silenceChunksThreshold))
    && s.speechChunks + s.silenceChunks <= |s.audioBuffer|
    && NonSpeech(p, s.audioBuffer[|s.audioBuffer| - s.silenceChunks..])
  }

  lemma FreshInv(p: Params)
    ensures Inv(p, Fresh(p))
  {
  }

  lemma PushBoundedKeeps(p: Params, q: seq<Bytes>, cap: nat, frame: Bytes)
    requires |q| <= cap && NonSpeech(p, q) && WholeChunks(p, q)
    requires |frame| == p.chunkBytes && !p.isSpeech(frame)
    ensures var q' := PushBounded(q, cap, frame);
      |q'| <= cap && NonSpeech(p, q') && WholeChunks(p, q')
  {
    var all := q + [frame];
    assert NonSpeech(p, all) && WholeChunks(p, all);
    var q' := LastN(all, cap);
    forall i | 0 <= i < |q'|
      ensures !p.isSpeech(q'[i]) && |q'[i]| == p.chunkBytes
    {
      assert q'[i] == all[|all| - |q'| + i];
    }
  }

  lemma SpeechStepInv(p: Params, s: VadState, frame: Bytes)
    requires Inv(p, s) && |frame| == p.chunkBytes && p.isSpeech(frame)
    ensures Inv(p, Step(p, s, frame).0)
  {
    var s' := Step(p, s, frame).0;
    assert s'.silenceChunks == 0;
    assert s'.audioBuffer[|s'.audioBuffer|..] == [];
  }

  lemma SilenceStepInv(p: Params, s: VadState, frame: Bytes)
    requires Inv(p, s) && |frame| == p.chunkBytes && !p.isSpeech(frame)
    ensures Inv(p, Step(p, s, frame).0)
  {
    PushBoundedKeeps(p, s.preBuffer, s.preBufferCapacity, frame);
    var s' := Step(p, s, frame).0;
    if s.isSpeaking && s'.isSpeaking {
      var tail := s.audioBuffer[|s.audioBuffer| - s.silenceChunks..];
      assert s'.audioBuffer[|s'.audioBuffer| - s'.silenceChunks..] == tail + [frame];
    }
  }

  lemma StepInv(p: Params, s: VadState, frame: Bytes)
    requires Inv(p, s) && |frame| == p.chunkBytes
    ensures Inv(p, Step(p, s, frame).0)
  {
    if p.isSpeech(frame) {
      SpeechStepInv(p, s, frame);
    } else {
      SilenceStepInv(p, s, frame);
    }
  }

  lemma {:induction false} RunInv(p: Params, s: VadState, frames: seq<Bytes>)
    requires Inv(p, s) && WholeChunks(p, frames)
    ensures Inv(p, Run(p, s, frames).0)
    decreases |frames|
  {
    if frames != [] {
      RunInv(p, s, frames[..|frames| - 1]);
      StepInv(p, Run(p, s, frames[..|frames| - 1]).0, frames[|frames| - 1]);
    }
  }

  // ---------------------------------------------------------------------
  // One frame at a time

  /** A speech frame while idle starts an utterance whose buffer is the
      pre-roll, oldest first, followed by the frame. */
  lemma OnsetSeedsPreRoll(p: Params, s: VadState, frame: Bytes)
    requires !s.isSpeaking && p.isSpeech(frame)
    ensures var (s', r) := Step(p, s, frame);
      && s'.isSpeaking && s'.audioBuffer == s.preBuffer + [frame]
      && s'.speechChunks == 1 && s'.silenceChunks == 0
      && s'.preBuffer == s.preBuffer && r.None?
  {
  }

  /** A speech frame never returns a segment, zeroes the silence count and,
      during an utterance, is buffered and counted. */
  lemma SpeechResetsSilence(p: Params, s: VadState, frame: Bytes)
    requires p.isSpeech(frame)
    ensures var (s', r) := Step(p, s, frame);
      && s'.isSpeaking && s'.silenceChunks == 0 && r.None?
      && (s.isSpeaking ==> s'.speechChunks == s.speechChunks + 1
                           && s'.audioBuffer == s.audioBuffer + [frame])
  {
  }

  /** A non-speech frame while idle returns nothing, leaves the audio buffer
      empty and is appended to the bounded pre-roll. */
  lemma IdleSilence(p: Params, s: VadState, frame: Bytes)
    requires Inv(p, s) && !s.isSpeaking && !p.isSpeech(frame)
    ensures var (s', r) := Step(p, s, frame);
      && r.None? && !s'.isSpeaking && s'.audioBuffer == []
      && s'.preBuffer == LastN(s.preBuffer + [frame], Max(1, p.padChunks))
  {
  }

  /** The silent frame that brings `silence_chunks` to the threshold closes
      the utterance: the whole buffer is returned if enough speech was heard,
      nothing otherwise, and in both cases the state is reset. */
  lemma CloseOnThreshold(p: Params, s: VadState, frame: Bytes)
    requires s.isSpeaking && !p.isSpeech(frame)
    requires s.silenceChunks + 1 >= p.silenceChunksThreshold
    ensures Step(p, s, frame)
         == (Fresh(p), if s.speechChunks >= p.minSpeechChunks
                       then Some(Join(s.audioBuffer + [frame])) else None)
  {
  }

  // ---------------------------------------------------------------------
  // Many frames

  lemma RunSnoc(p: Params, s: VadState, init: seq<Bytes>, x: Bytes)
    ensures var (s1, out) := Run(p, s, init);
      Run(p, s, init + [x]) == (Step(p, s1, x).0, Emit(out, Step(p, s1, x).1))
  {
    assert (init + [x])[..|init|] == init;
  }

  /** The last segment of a run extended by one step. */
  lemma RunLastSnoc(p: Params, s: VadState, init: seq<Bytes>, x: Bytes, next: seq<Bytes>,
                    prev: Option<Bytes>, s1: VadState, s2: VadState, r: Option<Bytes>)
    requires next == init + [x]
    requires Run(p, s, init).0 == s1 && LastOf(Run(p, s, init).1) == prev
    requires Step(p, s1, x) == (s2, r)
    ensures Run(p, s, next).0 == s2
    ensures LastOf(Run(p, s, next).1) == if r.Some? then r else prev
  {
    RunSnoc(p, s, init, x);
  }

  lemma {:induction false} RunAppend(p: Params, s: VadState, a: seq<Bytes>, b: seq<Bytes>)
    ensures Run(p, s, a + b)
         == (Run(p, Run(p, s, a).0, b).0, Run(p, s, a).1 + Run(p, Run(p, s, a).0, b).1)
    decreases |b|
  {
    if b == [] {
      assert a + b == a;
      assert Run(p, s, a).1 + [] == Run(p, s, a).1;
    } else {
      var b', x := b[..|b| - 1], b[|b| - 1];
      assert b == b' + [x];
      assert a + b == (a + b') + [x];
      RunAppend(p, s, a, b');
      RunSnoc(p, s, a + b', x);
      var sa := Run(p, s, a).0;
      RunSnoc(p, sa, b', x);
      var outA := Run(p, s, a).1;
      var outB := Run(p, sa, b').1;
      var r := Step(p, Run(p, sa, b').0, x).1;
      assert Emit(outA + outB, r) == outA + Emit(outB, r);
    }
  }

  lemma LastNSnoc<T>(q: seq<T>, x: T, cap: nat)
    requires cap >= 1
    ensures LastN(LastN(q, cap) + [x], cap) == LastN(q + [x], cap)
  {
    if |q| > cap {
      assert (q[|q| - cap..] + [x])[1..] == (q + [x])[|q| + 1 - cap..];
    }
  }

  /** Non-speech frames while idle only refill the pre-roll: no segment,
      still idle, and the pre-roll holds the newest `max(1, pad_chunks)`
      of the old pre-roll followed by the frames. */
  lemma {:induction false} IdleSilenceRun(p: Params, s: VadState, frames: seq<Bytes>)
    requires !s.isSpeaking && s.preBufferCapacity >= 1 && |s.preBuffer| <= s.preBufferCapacity
    requires NonSpeech(p, frames)
    ensures Run(p, s, frames)
         == (s.(preBuffer := LastN(s.preBuffer + frames, s.preBufferCapacity)), [])
    decreases |frames|
  {
    if frames == [] {
      assert s.preBuffer + frames == s.preBuffer;
    } else {
      var init := frames[..|frames| - 1];
      var x := frames[|frames| - 1];
      IdleSilenceRun(p, s, init);
      LastNSnoc(s.preBuffer + init, x, s.preBufferCapacity);
      assert s.preBuffer + init + [x] == s.preBuffer + frames;
    }
  }

  /** From the fresh state, a stream of non-speech frames never yields a
      segment. */
  lemma SilenceNeverEmits(p: Params, frames: seq<Bytes>)
    requires NonSpeech(p, frames)
    ensures Run(p, Fresh(p), frames).1 == []
    ensures !Run(p, Fresh(p), frames).0.isSpeaking
  {
    IdleSilenceRun(p, Fresh(p), frames);
  }

  /** Speech frames from idle: the buffer is the pre-roll followed by the
      frames, one speech chunk per frame, no silence, no segment. */
  lemma {:induction false} OnsetRun(p: Params, s: VadState, frames: seq<Bytes>)
    requires !s.isSpeaking && frames != [] && AllSpeech(p, frames)
    ensures Run(p, s, frames)
         == (s.(isSpeaking := true, silenceChunks := 0, speechChunks := |frames|,
                audioBuffer := s.preBuffer + frames), [])
    decreases |frames|
  {
    var init := frames[..|frames| - 1];
    if init == [] {
      assert frames == [frames[0]];
    } else {
      OnsetRun(p, s, init);
      assert s.preBuffer + init + [frames[|frames| - 1]] == s.preBuffer + frames;
    }
  }

  /** The state after quiet `frames` were heard during an utterance. */
  function QuietState(s: VadState, frames: seq<Bytes>): VadState
  {
    s.(audioBuffer := s.audioBuffer + frames,
       silenceChunks := s.silenceChunks + |frames|,
       preBuffer := LastN(s.preBuffer + frames, s.preBufferCapacity))
  }

  /** Non-speech frames while speaking that stay below the threshold are
      buffered and counted, and feed the pre-roll too. */
  lemma {:induction false} QuietTail(p: Params, s: VadState, frames: seq<Bytes>)
    requires s.isSpeaking && s.preBufferCapacity >= 1 && |s.preBuffer| <= s.preBufferCapacity
    requires NonSpeech(p, frames)
    requires frames == [] || s.silenceChunks + |frames| < p.silenceChunksThreshold
    ensures Run(p, s, frames) == (QuietState(s, frames), [])
    decreases |frames|
  {
    if frames == [] {
      assert s.audioBuffer + frames == s.audioBuffer;
      assert s.preBuffer + frames == s.preBuffer;
    } else {
      var init := frames[..|frames| - 1];
      var x := frames[|frames| - 1];
      assert frames == init + [x];
      QuietTail(p, s, init);
      QuietStateStep(p, s, init, x);
      RunSilentSnoc(p, s, init, x, QuietState(s, init), QuietState(s, frames));
    }
  }

  /** One more quiet frame below the threshold extends the quiet state. */
  lemma QuietStateStep(p: Params, s: VadState, init: seq<Bytes>, x: Bytes)
    requires s.isSpeaking && s.preBufferCapacity >= 1
    requires !p.isSpeech(x) && s.silenceChunks + |init| + 1 < p.silenceChunksThreshold
    ensures Step(p, QuietState(s, init), x) == (QuietState(s, init + [x]), None)
  {
    var cap := s.preBufferCapacity;
    var s1 := QuietState(s, init);
    QuietStep(p, s1, x);
    LastNSnoc(s.preBuffer + init, x, cap);
    assert s.preBuffer + init + [x] == s.preBuffer + (init + [x]);
    assert s.audioBuffer + init + [x] == s.audioBuffer + (init + [x]);
  }

  /** A step that returns nothing extends a run that returned nothing. */
  lemma RunSilentSnoc(p: Params, s: VadState, init: seq<Bytes>, x: Bytes, s1: VadState, s2: VadState)
    requires Run(p, s, init) == (s1, []) && Step(p, s1, x) == (s2, None)
    ensures Run(p, s, init + [x]) == (s2, [])
  {
    RunSnoc(p, s, init, x);
  }

  /** One quiet frame while speaking, below the threshold. */
  lemma QuietStep(p: Params, s: VadState, x: Bytes)
    requires s.isSpeaking && !p.isSpeech(x) && s.silenceChunks + 1 < p.silenceChunksThreshold
    ensures Step(p, s, x)
         == (s.(audioBuffer := s.audioBuffer + [x],
                silenceChunks := s.silenceChunks + 1,
                preBuffer := PushBounded(s.preBuffer, s.preBufferCapacity, x)), None)
  {
  }

  /** Right after speech, `max(1, silence_chunks_threshold)` non-speech frames
      close the utterance: the buffer followed by those frames is returned iff
      enough speech was heard, and the state is reset either way. */
  lemma CloseAfterSilence(p: Params, s: VadState, frames: seq<Bytes>)
    requires s.isSpeaking && s.silenceChunks == 0
    requires s.preBufferCapacity >= 1 && |s.preBuffer| <= s.preBufferCapacity
    requires NonSpeech(p, frames) && |frames| == Max(1, p.silenceChunksThreshold)
    ensures Run(p, s, frames)
         == (Fresh(p), if s.speechChunks >= p.minSpeechChunks
                       then [Join(s.audioBuffer + frames)] else [])
  {
    var k := |frames| - 1;
    var init, x := frames[..k], frames[k];
    assert frames == init + [x];
    assert NonSpeech(p, init);
    QuietTail(p, s, init);
    var s1 := Run(p, s, init).0;
    assert s1.isSpeaking && s1.silenceChunks == k && s1.speechChunks == s.speechChunks;
    assert s1.audioBuffer == s.audioBuffer + init;
    assert Run(p, s, init).1 == [];
    RunSnoc(p, s, init, x);
    var r := Step(p, s1, x);
    assert Run(p, s, frames) == (r.0, Emit([], r.1));
    CloseOnThreshold(p, s1, x);
    assert s1.audioBuffer + [x] == s.audioBuffer + frames;
    if s.speechChunks >= p.minSpeechChunks {
      assert r.1 == Some(Join(s.audioBuffer + frames));
      assert Emit([], r.1) == [Join(s.audioBuffer + frames)];
    } else {
      assert r.1 == None;
      assert Emit([], r.1) == [];
    }
  }

  /** A whole utterance heard from idle: speech frames, then enough silence.
      The one segment returned is the pre-roll, the speech and the closing
      silence, byte for byte, if the speech was long enough; either way the
      segmenter ends in the state `reset()` gives. */
  lemma Utterance(p: Params, s: VadState, speech: seq<Bytes>, silence: seq<Bytes>)
    requires Inv(p, s) && !s.isSpeaking
    requires speech != [] && AllSpeech(p, speech)
    requires NonSpeech(p, silence) && |silence| == Max(1, p.silenceChunksThreshold)
    ensures Run(p, s, speech + silence)
         == (Fresh(p), if |speech| >= p.minSpeechChunks
                       then [Join(s.preBuffer + speech + silence)] else [])
  {
    OnsetRun(p, s, speech);
    var s1 := Run(p, s, speech).0;
    assert Run(p, s, speech).1 == [];
    assert s1.isSpeaking && s1.silenceChunks == 0 && s1.speechChunks == |speech|;
    assert s1.preBufferCapacity >= 1 && |s1.preBuffer| <= s1.preBufferCapacity;
    assert s1.audioBuffer == s.preBuffer + speech;
    CloseAfterSilence(p, s1, silence);
    RunAppend(p, s, speech, silence);
    assert [] + Run(p, s1, silence).1 == Run(p, s1, silence).1;
  }

  /** From the fresh state: up to `max(1, pad_chunks)` quiet frames, an
      utterance, then more quiet frames. The quiet frames heard before the
      speech are the segment's pre-roll; the quiet frames heard after the
      utterance closed become the new pre-roll. */
  lemma UtteranceFromFresh(p: Params, pre: seq<Bytes>, speech: seq<Bytes>, closing: seq<Bytes>, after: seq<Bytes>)
    requires |pre| <= Max(1, p.padChunks) && NonSpeech(p, pre) && WholeChunks(p, pre)
    requires speech != [] && AllSpeech(p, speech)
    requires NonSpeech(p, closing) && |closing| == Max(1, p.silenceChunksThreshold)
    requires NonSpeech(p, after)
    ensures Run(p, Fresh(p), pre + speech + closing + after)
         == (Fresh(p).(preBuffer := LastN(after, Max(1, p.padChunks))),
             if |speech| >= p.minSpeechChunks then [Join(pre + speech + closing)] else [])
  {
    assert pre + (speech + closing) == pre + speech + closing;
    var f := Fresh(p);
    var seg: seq<Bytes> := if |speech| >= p.minSpeechChunks then [Join(pre + speech + closing)] else [];
    assert Run(p, f, pre + (speech + closing)) == (f, seg) by {
      IdleSilenceRun(p, f, pre);
      var s1 := Run(p, f, pre).0;
      assert [] + pre == pre;
      assert s1 == f.(preBuffer := pre) && Run(p, f, pre).1 == [];
      FreshInv(p);
      Utterance(p, s1, speech, closing);
      assert Run(p, s1, speech + closing) == (f, seg);
      assert [] + seg == seg;
      RunAppend(p, f, pre, speech + closing);
    }
    assert Run(p, f, after) == (f.(preBuffer := LastN(after, Max(1, p.padChunks))), []) by {
      IdleSilenceRun(p, f, after);
      assert [] + after == after;
    }
    RunAppend(p, f, pre + speech + closing, after);
    assert seg + [] == seg;
  }

  lemma {:induction false} MulAtLeast(n: nat, d: int)
    requires d >= 1
    ensures n * d >= n
    decreases d
  {
    if d > 1 {
      MulAtLeast(n, d - 1);
      assert n * d == n * (d - 1) + n;
    }
  }

  lemma MultipleMod(n: nat, m: nat)
    requires n > 0
    ensures (n * m) % n == 0
  {
    var q, r := (n * m) / n, (n * m) % n;
    assert n * m == n * q + r && 0 <= r < n;
    assert n * (m - q) == r by {
      assert n * (m - q) == n * m - n * q;
    }
    if m - q >= 1 {
      MulAtLeast(n, m - q);
    } else if q - m >= 1 {
      assert n * (q - m) == -r by {
        assert n * (q - m) == n * q - n * m;
      }
      MulAtLeast(n, q - m);
    }
  }

  predicate WholeSegments(n: nat, out: seq<Bytes>)
    requires n > 0
  {
    forall k :: 0 <= k < |out| ==> |out[k]| % n == 0
  }

  /** A segment returned by one step is a whole number of chunks. */
  lemma StepSegmentWhole(p: Params, s: VadState, frame: Bytes)
    requires Inv(p, s) && |frame| == p.chunkBytes && p.chunkBytes > 0
    ensures Step(p, s, frame).1.Some? ==> |Step(p, s, frame).1.value| % p.chunkBytes == 0
  {
    if Step(p, s, frame).1.Some? {
      var buffer := s.audioBuffer + [frame];
      assert Step(p, s, frame).1.value == Join(buffer);
      assert WholeChunks(p, buffer);
      JoinLength(buffer, p.chunkBytes);
      MultipleMod(p.chunkBytes, |buffer|);
    }
  }

  /** Every segment returned is a whole number of `chunk_bytes` chunks. */
  lemma {:induction false} SegmentsAreWholeChunks(p: Params, s: VadState, frames: seq<Bytes>)
    requires Inv(p, s) && WholeChunks(p, frames) && p.chunkBytes > 0
    ensures Inv(p, Run(p, s, frames).0)
    ensures WholeSegments(p.chunkBytes, Run(p, s, frames).1)
    decreases |frames|
  {
    if frames != [] {
      var init := frames[..|frames| - 1];
      var x := frames[|frames| - 1];
      assert WholeChunks(p, init);
      SegmentsAreWholeChunks(p, s, init);
      var s1 := Run(p, s, init).0;
      var out := Run(p, s, init).1;
      StepInv(p, s1, x);
      StepSegmentWhole(p, s1, x);
      var r := Step(p, s1, x).1;
      assert Run(p, s, frames) == (Step(p, s1, x).0, Emit(out, r));
    }
  }

  /** Finalising in the middle of speech that began from idle returns the
      pre-roll and the speech iff the speech was long enough. */
  lemma FinalizeAfterSpeech(p: Params, s: VadState, speech: seq<Bytes>)
    requires !s.isSpeaking && speech != [] && AllSpeech(p, speech)
    ensures FinalSegment(p, Run(p, s, speech).0)
         == if |speech| >= p.minSpeechChunks then Some(Join(s.preBuffer + speech)) else None
  {
    OnsetRun(p, s, speech);
  }

  // ---------------------------------------------------------------------
  // Inputs that are not one chunk long

  lemma FloorUnique(a: nat, n: nat, k: nat)
    requires n > 0 && n * k <= a < n * k + n
    ensures k == a / n
  {
    var q, r := a / n, a % n;
    assert a == n * q + r && 0 <= r < n;
    if k < q {
      assert n * (q - k) == n * q - n * k;
      MulAtLeast(n, q - k);
    } else if k > q {
      assert n * (k - q) == n * k - n * q;
      MulAtLeast(n, k - q);
    }
  }

  /** An input is split into `floor(len / chunk_bytes)` chunks. */
  lemma ChunksCount(audio: Bytes, n: nat)
    requires n > 0
    ensures |Chunks(audio, n)| == |audio| / n
  {
    var r := Chunks(audio, n);
    ChunksCover(audio, n);
    JoinLength(r, n);
    FloorUnique(|audio|, n, |r|);
  }

  /** Bytes after the last whole chunk are never looked at. */
  lemma {:induction false} ChunksIgnoreTail(whole: Bytes, tail: Bytes, n: nat, k: nat)
    requires n > 0 && |whole| == n * k && |tail| < n
    ensures Chunks(whole + tail, n) == Chunks(whole, n)
    decreases k
  {
    if k > 0 {
      assert (whole + tail)[n..] == whole[n..] + tail;
      assert (whole + tail)[..n] == whole[..n];
      assert |whole[n..]| == n * (k - 1);
      ChunksIgnoreTail(whole[n..], tail, n, k - 1);
    }
  }

  /** `process` gives the same result and state whether or not a tail
      shorter than one chunk is appended to its input: the tail is dropped. */
  lemma ProcessDropsTail(p: Params, s: VadState, whole: Bytes, tail: Bytes, k: nat)
    requires p.chunkBytes > 0 && |whole| == p.chunkBytes * k && |tail| < p.chunkBytes
    ensures Process(p, s, whole + tail) == Process(p, s, whole)
  {
    var n := p.chunkBytes;
    if tail == [] {
      assert whole + tail == whole;
    } else {
      if k >= 2 {
        assert n * k == n * (k - 1) + n;
        MulAtLeast(n, k - 1);
        assert |whole| > n && |whole + tail| > n;
      } else if k == 0 {
        assert |whole + tail| < n;
      }
      ChunksIgnoreTail(whole, tail, n, k);
      if k == 1 {
        assert whole[n..] == [];
        assert Chunks(whole, n) == [whole];
        assert [whole][..0] == [];
        var r := Step(p, s, whole);
        assert Run(p, s, [whole]) == (r.0, Emit([], r.1));
        assert LastOf(Emit([], r.1)) == r.1;
      }
    }
  }
}
