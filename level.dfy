/** `get_audio_level(data)` of the energy-threshold recorders: the frame is
    read as little-endian signed 16-bit samples, each taken in absolute
    value, and the mean compared against `SILENCE_THRESHOLD`.

    numpy takes the absolute value of an `int16` array in `int16`, so the
    most negative sample, -32768, stays -32768. `LoudAsWritten` keeps that
    wrap-around; `Loud` is the level the code evidently means, the mean of
    the true magnitudes. The recorders take the loudness test as a
    parameter, and the front ends are stated for both.

    The mean is compared without division: `mean > threshold` is
    `sum > threshold * count`, and a frame with no samples has a mean of
    `nan`, which is never above the threshold. */
module Level {
  import opened Base

  /** Two bytes, low byte first, as a signed 16-bit sample. */
  function Sample(lo: Byte, hi: Byte): (v: int)
    ensures -32768 <= v <= 32767
    ensures (v + 65536) % 65536 == lo as int + 256 * hi as int
    ensures v < 0 <==> hi >= 128
  {
    lo as int + 256 * hi as int - (if hi >= 128 then 65536 else 0)
  }

  /** `np.frombuffer(data, dtype=np.int16)`: one sample per two bytes. */
  function Samples(data: Bytes): (r: seq<int>)
    ensures |r| == |data| / 2
    ensures forall i :: 0 <= i < |r| ==> r[i] == Sample(data[2 * i], data[2 * i + 1])
  {
    seq(|data| / 2, i requires 0 <= i < |data| / 2 => Sample(data[2 * i], data[2 * i + 1]))
  }

  /** A value brought into the signed 16-bit range by wrap-around. */
  function Wrap16(x: int): (r: int)
    ensures -32768 <= r <= 32767
    ensures (r - x) % 65536 == 0
  {
    (x + 32768) % 65536 - 32768
  }

  /** `np.abs` on one `int16` sample: the negation wraps around. */
  function AbsAsWritten(v: int): int
  {
    if v < 0 then Wrap16(-v) else v
  }

  /** The magnitude of a sample. */
  function Abs(v: int): (r: nat)
    ensures r == v || r == -v
  {
    if v < 0 then -v else v
  }

  /** The one sample on which `np.abs` on `int16` and the true magnitude
      part: -32768 stays negative. */
  lemma AbsAsWrittenAt(v: int)
    requires -32768 <= v <= 32767
    ensures v == -32768 ==> AbsAsWritten(v) == -32768
    ensures v != -32768 ==> AbsAsWritten(v) == Abs(v)
  {
  }

  function SumAbsAsWritten(s: seq<int>): int
    decreases |s|
  {
    if s == [] then 0 else SumAbsAsWritten(s[..|s| - 1]) + AbsAsWritten(s[|s| - 1])
  }

  function SumAbs(s: seq<int>): nat
    decreases |s|
  {
    if s == [] then 0 else SumAbs(s[..|s| - 1]) + Abs(s[|s| - 1])
  }

  /** For `count > 0` values summing to `sum`, the mean is above
      `threshold` exactly when the sum is above `threshold * count`. */
  lemma MeanAbove(sum: int, count: int, threshold: int)
    requires count > 0
    ensures (sum as real) / (count as real) > threshold as real <==> sum > threshold * count
  {
    var c := count as real;
    var m := (sum as real) / c;
    assert m * c == sum as real;
    assert (threshold * count) as real == (threshold as real) * c;
    if m > threshold as real {
      assert m * c > (threshold as real) * c;
    }
    if sum > threshold * count {
      assert m * c > (threshold as real) * c;
    }
  }

  /** `get_audio_level(data) > threshold` as the code computes it: the
      mean of numpy's int16 `abs` over the samples is above the threshold,
      and a frame with no sample is never loud. */
  predicate LoudAsWritten(data: Bytes, threshold: int): (b: bool)
    ensures b <==> (|data| >= 2
      && (SumAbsAsWritten(Samples(data)) as real) / ((|data| / 2) as real) > threshold as real)
  {
    var s := Samples(data);
    if |s| == 0 then false
    else
      MeanAbove(SumAbsAsWritten(s), |s|, threshold);
      SumAbsAsWritten(s) > threshold * |s|
  }

  /** The mean magnitude of the frame's samples is above `threshold`; a
      frame with no sample is never loud. */
  predicate Loud(data: Bytes, threshold: int): (b: bool)
    ensures b <==> (|data| >= 2
      && (SumAbs(Samples(data)) as real) / ((|data| / 2) as real) > threshold as real)
  {
    var s := Samples(data);
    if |s| == 0 then false
    else
      MeanAbove(SumAbs(s), |s|, threshold);
      SumAbs(s) > threshold * |s|
  }

  /** Each magnitude is at most 32768, so the sum is at most 32768 per
      sample. */
  lemma {:induction false} SumAbsBound(s: seq<int>)
    requires forall i :: 0 <= i < |s| ==> -32768 <= s[i] <= 32767
    ensures SumAbs(s) <= 32768 * |s|
    decreases |s|
  {
    if s != [] {
      SumAbsBound(s[..|s| - 1]);
    }
  }

  /** No frame is loud against a threshold of 32768 or more. */
  lemma LoudBound(data: Bytes, threshold: int)
    requires threshold >= 32768
    ensures !Loud(data, threshold)
  {
    var s := Samples(data);
    SumAbsBound(s);
  }

  /** Without the sample -32768 the two sums are the same. */
  lemma {:induction false} SumsAgree(s: seq<int>)
    requires forall i :: 0 <= i < |s| ==> -32768 < s[i] <= 32767
    ensures SumAbsAsWritten(s) == SumAbs(s)
    decreases |s|
  {
    if s != [] {
      SumsAgree(s[..|s| - 1]);
      AbsAsWrittenAt(s[|s| - 1]);
    }
  }

  /** A frame in which no sample is -32768 is loud as written exactly when
      it is loud. */
  lemma LoudAgrees(data: Bytes, threshold: int)
    requires forall i :: 0 <= i < |data| / 2 ==> Sample(data[2 * i], data[2 * i + 1]) != -32768
    ensures LoudAsWritten(data, threshold) <==> Loud(data, threshold)
  {
    SumsAgree(Samples(data));
  }

  lemma {:induction false} ZeroSumAbs(s: seq<int>)
    requires forall i :: 0 <= i < |s| ==> s[i] == 0
    ensures SumAbs(s) == 0
    decreases |s|
  {
    if s != [] {
      ZeroSumAbs(s[..|s| - 1]);
    }
  }

  /** A frame of digital silence is quiet at any threshold that is not
      negative. */
  lemma SilenceIsQuiet(data: Bytes, threshold: int)
    requires threshold >= 0
    requires forall i :: 0 <= i < |data| ==> data[i] == 0
    ensures !Loud(data, threshold)
  {
    ZeroSumAbs(Samples(data));
  }

  /** Every sample louder than the threshold adds at least one more than
      the threshold to the sum. */
  lemma {:induction false} SumAbsAbove(s: seq<int>, threshold: int)
    requires forall i :: 0 <= i < |s| ==> Abs(s[i]) > threshold
    ensures SumAbs(s) >= threshold * |s| + |s|
    decreases |s|
  {
    if s != [] {
      var p := s[..|s| - 1];
      SumAbsAbove(p, threshold);
      assert threshold * |s| == threshold * |p| + threshold;
    }
  }

  /** A frame whose every sample is louder than the threshold is loud. */
  lemma AllAboveIsLoud(data: Bytes, threshold: int)
    requires |data| >= 2
    requires forall i :: 0 <= i < |data| / 2 ==> Abs(Sample(data[2 * i], data[2 * i + 1])) > threshold
    ensures Loud(data, threshold)
  {
    SumAbsAbove(Samples(data), threshold);
  }

  // ---------------------------------------------------------------------
  // The sample -32768

  /** `k` samples of -32768: the bytes 0x00 0x80, `k` times. */
  function MinFrame(k: nat): (r: Bytes)
    ensures |r| == 2 * k
    ensures forall i :: 0 <= i < k ==> r[2 * i] == 0 && r[2 * i + 1] == 0x80
  {
    seq(2 * k, i requires 0 <= i < 2 * k => if i % 2 == 0 then 0 else 0x80)
  }

  lemma {:induction false} MinSums(s: seq<int>)
    requires forall i :: 0 <= i < |s| ==> s[i] == -32768
    ensures SumAbsAsWritten(s) == -32768 * |s|
    ensures SumAbs(s) == 32768 * |s|
    decreases |s|
  {
    if s != [] {
      MinSums(s[..|s| - 1]);
    }
  }

  /** A frame of full-scale negative samples is the loudest frame there
      is, yet as written its level is -32768 and it counts as quiet. */
  lemma MinFrameMisread(k: nat, threshold: int)
    requires k >= 1 && 0 <= threshold < 32768
    ensures !LoudAsWritten(MinFrame(k), threshold)
    ensures Loud(MinFrame(k), threshold)
  {
    var d := MinFrame(k);
    var s := Samples(d);
    assert forall i :: 0 <= i < |s| ==> s[i] == -32768 by {
      forall i | 0 <= i < |s| ensures s[i] == -32768 {
        assert d[2 * i] == 0 && d[2 * i + 1] == 0x80;
      }
    }
    MinSums(s);
    assert |s| == k;
    MulLess(threshold, 32768, k);
    MulLess(-32768, threshold, k);
  }

  lemma MulLess(a: int, b: int, k: nat)
    requires a < b && k >= 1
    ensures a * k < b * k
  {
  }
}
