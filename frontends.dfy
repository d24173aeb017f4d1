/** The four energy-threshold front ends and what their constants make of
    the shared recorder and gate: subtitle/subtitle.py,
    mlx/subtitle/floating_subtitle_native.py, mlx/subtitle/floating_subtitle.py
    and transcribe_only.py. All four read mono 16-bit frames of `CHUNK` =
    1024 samples at 16 kHz and call a frame loud when its mean magnitude is
    above 500; they differ in how long a silence ends a recording and in
    whether a cleared `running` flag or a failed read can end it early. */
module Frontends {
  import opened Base
  import opened Recorder
  import opened Gate
  import Level

  datatype Frontend = Subtitle | FloatingNative | Floating | TranscribeOnly

  const Rate: nat := 16000
  const Chunk: nat := 1024
  const SilenceThreshold: int := 500

  /** `stream.read(CHUNK)` on a mono `paInt16` stream: two bytes a sample. */
  const FrameBytes: nat := 2 * Chunk

  /** `SILENCE_DURATION`, in milliseconds. */
  function SilenceDurationMs(f: Frontend): nat
  {
    if f == TranscribeOnly then 1500 else 1200
  }

  /** The front ends whose loop runs `while running` and stops on a read
      that raises. */
  predicate Cancellable(f: Frontend)
  {
    f == Subtitle || f == FloatingNative
  }

  /** `chunks_for_silence = int(SILENCE_DURATION * RATE / CHUNK)`: 18 for a
      1.2 s silence, 23 for 1.5 s. */
  function ChunksForSilence(f: Frontend): (n: nat)
    ensures n == if f == TranscribeOnly then 23 else 18
  {
    ChunkCount(SilenceDurationMs(f), Rate, Chunk)
  }

  /** `get_audio_level(data) > SILENCE_THRESHOLD` as the four programs
      compute it, with numpy's int16 `abs` (see level.dfy). */
  predicate IsLoudAsWritten(data: Bytes): (b: bool)
    ensures b <==> (|data| >= 2
      && (Level.SumAbsAsWritten(Level.Samples(data)) as real) / ((|data| / 2) as real) > 500.0)
  {
    Level.LoudAsWritten(data, SilenceThreshold)
  }

  /** The same test with the level as the mean of the true magnitudes. */
  predicate IsLoud(data: Bytes): (b: bool)
    ensures b <==> (|data| >= 2
      && (Level.SumAbs(Level.Samples(data)) as real) / ((|data| / 2) as real) > 500.0)
  {
    Level.Loud(data, SilenceThreshold)
  }

  predicate FullFrames(stream: seq<Bytes>)
  {
    forall j :: 0 <= j < |stream| ==> |stream[j]| == FrameBytes
  }

  /** A recording that ended on silence holds a loud frame and the
      `ChunksForSilence(f) + 1` quiet frames that followed it, at least 20
      frames in all, so with full frames it always passes the `CHUNK * 10`
      byte gate and its text is shown whenever it is not blank. This holds
      whatever the loudness test `loud` is: `IsLoudAsWritten` as the
      programs compute it, or `IsLoud`. */
  lemma SilenceEndedPassesGate(f: Frontend, loud: Bytes -> bool, stream: seq<Bytes>, raw: string)
    requires FullFrames(stream)
    requires Record(stream, loud, ChunksForSilence(f)).Done?
    ensures var audio := Record(stream, loud, ChunksForSilence(f)).audio;
      && |audio| >= (ChunksForSilence(f) + 2) * FrameBytes
      && PlainTurn(audio, Chunk, raw) != TooShort
      && GuardedTurn(audio, Chunk, true, raw, true) != TooShort
  {
    var n := ChunksForSilence(f);
    var c := FirstClose(stream, loud, n).value;
    var audio := Record(stream, loud, n).audio;
    assert audio == Join(Kept(stream[..c], loud));
    ClosedRecordingBytes(stream, loud, n, c, FrameBytes);
    assert (n + 2) * FrameBytes >= 20 * 2048 by {
      assert n == 18 || n == 23;
    }
  }

  /** In mlx/subtitle/floating_subtitle.py and transcribe_only.py, which
      cannot be cancelled, every recording passes the length gate: the
      check never rejects one, whatever the loudness test. */
  lemma PlainNeverTooShort(f: Frontend, loud: Bytes -> bool, stream: seq<Bytes>, raw: string)
    requires !Cancellable(f) && FullFrames(stream)
    requires Record(stream, loud, ChunksForSilence(f)).Done?
    ensures PlainTurn(Record(stream, loud, ChunksForSilence(f)).audio, Chunk, raw).Show?
            <==> Text.Strip(raw) != []
  {
    SilenceEndedPassesGate(f, loud, stream, raw);
  }

  /** A frame of samples 4096 (bytes 0x00 0x10). */
  function LoudFrame(): (r: Bytes)
    ensures |r| == FrameBytes
  {
    seq(FrameBytes, i requires 0 <= i < FrameBytes => if i % 2 == 0 then 0 else 0x10)
  }

  /** The frame is loud by either test: none of its samples is -32768. */
  lemma LoudFrameIsLoud()
    ensures IsLoud(LoudFrame()) && IsLoudAsWritten(LoudFrame())
  {
    var d := LoudFrame();
    forall i | 0 <= i < |d| / 2
      ensures Level.Sample(d[2 * i], d[2 * i + 1]) == 4096
    {
      assert d[2 * i] == 0 && d[2 * i + 1] == 0x10;
    }
    Level.AllAboveIsLoud(d, SilenceThreshold);
    Level.LoudAgrees(d, SilenceThreshold);
  }

  /** In the cancellable front ends a read that raises right after one loud
      frame returns that frame alone: 2048 bytes, which the gate turns away
      while the loop keeps running. */
  lemma FailedReadTooShort(f: Frontend, raw: string)
    requires Cancellable(f)
    ensures RecordOrStop([Frame(LoudFrame()), ReadFailed], IsLoudAsWritten, ChunksForSilence(f))
            == Done(LoudFrame(), 2)
    ensures RecordOrStop([Frame(LoudFrame()), ReadFailed], IsLoud, ChunksForSilence(f))
            == Done(LoudFrame(), 2)
    ensures GuardedTurn(LoudFrame(), Chunk, true, raw, true) == TooShort
  {
    LoudFrameIsLoud();
    LoudThenFailure(LoudFrame(), IsLoudAsWritten, ChunksForSilence(f));
    LoudThenFailure(LoudFrame(), IsLoud, ChunksForSilence(f));
  }
}
