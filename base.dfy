/** Values shared by every part of the model: optional values, PCM byte
    strings, the concatenation `b''.join(frames)`, decoded JSON values and
    the truncating duration-to-chunk-count conversion. */
module Base {

  datatype Option<+T> = None | Some(value: T)

  newtype Byte = b: int | 0 <= b < 256

  /** A `bytes` object: 16-bit little-endian PCM audio, or any payload. */
  type Bytes = seq<Byte>

  /** A JSON value as `json.load` produces it (floats are not modelled). */
  datatype Json =
    | JNull
    | JBool(b: bool)
    | JInt(i: int)
    | JStr(s: string)
    | JList(items: seq<Json>)
    | JObject(fields: map<string, Json>)

  /** `b''.join(frames)`: the frames concatenated in order. */
  function Join(frames: seq<Bytes>): (r: Bytes)
    decreases |frames|
  {
    if frames == [] then [] else Join(frames[..|frames| - 1]) + frames[|frames| - 1]
  }

  lemma {:induction false} JoinAppend(a: seq<Bytes>, b: seq<Bytes>)
    ensures Join(a + b) == Join(a) + Join(b)
    decreases |b|
  {
    if b == [] {
      assert a + b == a;
    } else {
      var b' := b[..|b| - 1];
      assert (a + b)[..|a + b| - 1] == a + b';
      JoinAppend(a, b');
    }
  }

  lemma JoinCons(x: Bytes, rest: seq<Bytes>)
    ensures Join([x] + rest) == x + Join(rest)
  {
    JoinAppend([x], rest);
    assert Join([x]) == Join([]) + x;
  }

  /** Frames that all have `n` bytes join to `n` bytes per frame. */
  lemma {:induction false} JoinLength(frames: seq<Bytes>, n: nat)
    requires forall i :: 0 <= i < |frames| ==> |frames[i]| == n
    ensures |Join(frames)| == n * |frames|
    decreases |frames|
  {
    if frames != [] {
      JoinLength(frames[..|frames| - 1], n);
    }
  }

  /** Python's `int(duration * sample_rate / chunk_samples)` for a duration
      of `durationMs` milliseconds: the number of whole chunks, truncated. */
  function ChunkCount(durationMs: nat, sampleRate: nat, chunkSamples: nat): (r: nat)
    requires chunkSamples > 0
    ensures r * (1000 * chunkSamples) <= durationMs * sampleRate
    ensures durationMs * sampleRate < (r + 1) * (1000 * chunkSamples)
  {
    (durationMs * sampleRate) / (1000 * chunkSamples)
  }

  function Max(a: int, b: int): int
  {
    if a < b then b else a
  }
}
