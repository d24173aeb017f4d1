/** The energy-threshold `record_until_silence` loop shared by
    subtitle/subtitle.py, mlx/subtitle/floating_subtitle_native.py,
    mlx/subtitle/floating_subtitle.py and transcribe_only.py. Frames are
    read one at a time; nothing is kept until the first loud frame; from
    then on every frame is kept, and the recording ends on the quiet frame
    that makes more than `chunks_for_silence` quiet frames in a row.

    Whether a frame is loud is a parameter (`get_audio_level(data) >
    SILENCE_THRESHOLD`, see level.dfy). The microphone is a finite sequence
    of what `stream.read` yields; a recording that has not ended when the
    sequence runs out is `Waiting`. */
module Recorder {
  import opened Base

  /** What the recorder gives back: the joined frames and how many reads of
      the stream it made, or nothing yet. */
  datatype Recording = Done(audio: Bytes, readCount: nat) | Waiting

  // ---------------------------------------------------------------------
  // The recording, declaratively

  /** The position of the first loud frame of `stream`, or its length. */
  function FirstLoud(stream: seq<Bytes>, loud: Bytes -> bool): (f: nat)
    ensures f <= |stream|
    ensures forall j :: 0 <= j < f ==> !loud(stream[j])
    ensures f < |stream| ==> loud(stream[f])
  {
    if stream == [] || loud(stream[0]) then 0 else 1 + FirstLoud(stream[1..], loud)
  }

  /** The frames the loop keeps out of `stream`: none before the first
      loud frame, all of them from it on, in read order. */
  function Kept(stream: seq<Bytes>, loud: Bytes -> bool): seq<Bytes>
  {
    stream[FirstLoud(stream, loud)..]
  }

  /** How many quiet frames end `stream`. */
  function TrailingQuiet(stream: seq<Bytes>, loud: Bytes -> bool): (t: nat)
    ensures t <= |stream|
    ensures forall j :: |stream| - t <= j < |stream| ==> !loud(stream[j])
    ensures t < |stream| ==> loud(stream[|stream| - t - 1])
    decreases |stream|
  {
    if stream == [] || loud(stream[|stream| - 1]) then 0
    else 1 + TrailingQuiet(stream[..|stream| - 1], loud)
  }

  /** After reading `stream` the loop breaks: speech has started and more
      than `n` quiet frames end it. */
  predicate Closed(stream: seq<Bytes>, loud: Bytes -> bool, n: nat)
  {
    FirstLoud(stream, loud) < |stream| && TrailingQuiet(stream, loud) > n
  }

  /** The number of reads, `from` or more, after which the loop first
      breaks, if it does. */
  function FirstCloseFrom(stream: seq<Bytes>, loud: Bytes -> bool, n: nat, from: nat): (r: Option<nat>)
    requires 1 <= from
    ensures r.Some? ==> from <= r.value <= |stream| && Closed(stream[..r.value], loud, n)
    ensures r.Some? ==> forall c :: from <= c < r.value ==> !Closed(stream[..c], loud, n)
    ensures r.None? ==> forall c :: from <= c <= |stream| ==> !Closed(stream[..c], loud, n)
    decreases |stream| - from
  {
    if from > |stream| then None
    else if Closed(stream[..from], loud, n) then Some(from)
    else FirstCloseFrom(stream, loud, n, from + 1)
  }

  /** The number of reads after which the loop first breaks, if it does. */
  function FirstClose(stream: seq<Bytes>, loud: Bytes -> bool, n: nat): (r: Option<nat>)
    ensures r.Some? ==> 1 <= r.value <= |stream| && Closed(stream[..r.value], loud, n)
    ensures r.Some? ==> forall c :: 1 <= c < r.value ==> !Closed(stream[..c], loud, n)
    ensures r.None? ==> forall c :: 1 <= c <= |stream| ==> !Closed(stream[..c], loud, n)
  {
    FirstCloseFrom(stream, loud, n, 1)
  }

  /** What `record_until_silence` returns on `stream` when nothing stops it. */
  function Record(stream: seq<Bytes>, loud: Bytes -> bool, n: nat): Recording
  {
    match FirstClose(stream, loud, n)
    case Some(c) => Done(Join(Kept(stream[..c], loud)), c)
    case None => Waiting
  }

  // ---------------------------------------------------------------------
  // The loops

  /** One read of the stream as the cancellable loops see it: the `running`
      flag found cleared before the read, a read that raised, or a frame. */
  datatype Event = Stop | ReadFailed | Frame(data: Bytes)

  /** The frames read before the first event that is not a frame. */
  function LeadingFrames(events: seq<Event>): (r: seq<Bytes>)
    ensures |r| <= |events|
    ensures forall j :: 0 <= j < |r| ==> events[j] == Frame(r[j])
    ensures |r| < |events| ==> !events[|r|].Frame?
  {
    if events == [] || !events[0].Frame? then []
    else [events[0].data] + LeadingFrames(events[1..])
  }

  /** What the cancellable `record_until_silence` returns on `events`: the
      plain recording if it ends before the first stop or failed read;
      otherwise what was kept up to that event. */
  function RecordOrStop(events: seq<Event>, loud: Bytes -> bool, n: nat): Recording
  {
    var frames := LeadingFrames(events);
    match FirstClose(frames, loud, n)
    case Some(c) => Done(Join(Kept(frames[..c], loud)), c)
    case None =>
      if |frames| == |events| then Waiting
      else Done(Join(Kept(frames, loud)), if events[|frames|].Stop? then |frames| else |frames| + 1)
  }

  /** One more frame read: the first loud frame stays where it was, or is
      the new frame, and the quiet run grows by one or ends. */
  lemma ReadStep(read: seq<Bytes>, data: Bytes, loud: Bytes -> bool)
    ensures FirstLoud(read + [data], loud) ==
      if FirstLoud(read, loud) < |read| then FirstLoud(read, loud)
      else if loud(data) then |read| else |read| + 1
    ensures TrailingQuiet(read + [data], loud) ==
      if loud(data) then 0 else TrailingQuiet(read, loud) + 1
  {
    var s := read + [data];
    assert s[..|read|] == read;
    var f := FirstLoud(read, loud);
    if f < |read| {
      assert s[f] == read[f];
    }
  }

  /** The loop's variables after reading `read`: `is_speaking` says a
      loud frame has been read, `frames` holds what is kept, and while
      speaking `silent_chunks` counts the quiet frames that end `read`. */
  ghost predicate LoopState(read: seq<Bytes>, loud: Bytes -> bool,
                            frames: seq<Bytes>, silentChunks: nat, isSpeaking: bool)
  {
    && isSpeaking == (FirstLoud(read, loud) < |read|)
    && frames == Kept(read, loud)
    && (isSpeaking ==> silentChunks == TrailingQuiet(read, loud))
  }

  /** One turn of the loop body keeps the loop's variables in step with
      what was read, and it breaks exactly when the stream read so far is
      closed. */
  lemma LoopStep(read: seq<Bytes>, data: Bytes, loud: Bytes -> bool, n: nat,
                 frames: seq<Bytes>, silentChunks: nat, isSpeaking: bool,
                 frames': seq<Bytes>, silentChunks': nat, isSpeaking': bool)
    requires LoopState(read, loud, frames, silentChunks, isSpeaking)
    requires isSpeaking' == (loud(data) || isSpeaking)
    requires frames' == if isSpeaking' then frames + [data] else frames
    requires silentChunks' ==
      if loud(data) then 0 else if isSpeaking then silentChunks + 1 else silentChunks
    ensures LoopState(read + [data], loud, frames', silentChunks', isSpeaking')
    ensures Closed(read + [data], loud, n) <==> (!loud(data) && isSpeaking && silentChunks' > n)
  {
    ReadStep(read, data, loud);
    var s := read + [data];
    var f := FirstLoud(read, loud);
    if f < |read| {
      assert s[f..] == read[f..] + [data];
    } else if loud(data) {
      assert s[|read|..] == [data];
    }
  }

  /** No prefix of `stream` of 1 to `i` frames is closed: the loop has
      run `i` reads without breaking. */
  ghost predicate OpenThrough(stream: seq<Bytes>, loud: Bytes -> bool, n: nat, i: nat)
    requires i <= |stream|
  {
    forall c :: 1 <= c <= i ==> !Closed(stream[..c], loud, n)
  }

  /** A read that does not close the stream keeps the loop open. */
  lemma OpenStep(stream: seq<Bytes>, loud: Bytes -> bool, n: nat, i: nat, next: nat)
    requires next == i + 1 <= |stream| && OpenThrough(stream, loud, n, i)
    requires !Closed(stream[..next], loud, n)
    ensures OpenThrough(stream, loud, n, next)
  {
  }

  /** The loop's first break is at `i` reads when no earlier prefix is
      closed and this one is. */
  lemma FirstCloseAt(stream: seq<Bytes>, loud: Bytes -> bool, n: nat, i: nat, next: nat)
    requires next == i + 1 <= |stream| && Closed(stream[..next], loud, n)
    requires OpenThrough(stream, loud, n, i)
    ensures FirstClose(stream, loud, n) == Some(next)
  {
  }

  /** A stream the loop reads to its end without breaking never closes. */
  lemma FirstCloseNone(stream: seq<Bytes>, loud: Bytes -> bool, n: nat)
    requires OpenThrough(stream, loud, n, |stream|)
    ensures FirstClose(stream, loud, n) == None
  {
  }

  /** `record_until_silence` of mlx/subtitle/floating_subtitle.py and
      transcribe_only.py: `while True`, no way out but silence. */
  method RecordUntilSilence(stream: seq<Bytes>, loud: Bytes -> bool, chunksForSilence: nat)
    returns (r: Recording)
    ensures r == Record(stream, loud, chunksForSilence)
  {
    var frames: seq<Bytes> := [];
    var silentChunks := 0;
    var isSpeaking := false;
    var i := 0;
    while i < |stream|
      invariant 0 <= i <= |stream|
      invariant LoopState(stream[..i], loud, frames, silentChunks, isSpeaking)
      invariant OpenThrough(stream, loud, chunksForSilence, i)
    {
      var data := stream[i];
      var next := i + 1;
      assert stream[..next] == stream[..i] + [data];
      ghost var read, frames0, silent0, speaking0 := stream[..i], frames, silentChunks, isSpeaking;
      if loud(data) {
        isSpeaking := true;
        silentChunks := 0;
        frames := frames + [data];
      } else if isSpeaking {
        frames := frames + [data];
        silentChunks := silentChunks + 1;
        if silentChunks > chunksForSilence {
          LoopStep(read, data, loud, chunksForSilence, frames0, silent0, speaking0,
                   frames, silentChunks, isSpeaking);
          FirstCloseAt(stream, loud, chunksForSilence, i, next);
          r := Done(Join(frames), next);
          return;
        }
      }
      LoopStep(read, data, loud, chunksForSilence, frames0, silent0, speaking0,
               frames, silentChunks, isSpeaking);
      OpenStep(stream, loud, chunksForSilence, i, next);
      i := next;
    }
    FirstCloseNone(stream, loud, chunksForSilence);
    r := Waiting;
  }

  /** `record_until_silence` of subtitle/subtitle.py and
      mlx/subtitle/floating_subtitle_native.py: `while running`, and a read
      that raises ends the loop too. */
  method RecordUntilSilenceOrStop(events: seq<Event>, loud: Bytes -> bool, chunksForSilence: nat)
    returns (r: Recording)
    ensures r == RecordOrStop(events, loud, chunksForSilence)
  {
    ghost var stream := LeadingFrames(events);
    var frames: seq<Bytes> := [];
    var silentChunks := 0;
    var isSpeaking := false;
    var i := 0;
    while i < |events|
      invariant 0 <= i <= |stream|
      invariant LoopState(stream[..i], loud, frames, silentChunks, isSpeaking)
      invariant OpenThrough(stream, loud, chunksForSilence, i)
    {
      if !events[i].Frame? {
        assert i == |stream| && stream[..i] == stream;
        FirstCloseNone(stream, loud, chunksForSilence);
        if events[i].Stop? {
          return Done(Join(frames), i);
        }
        return Done(Join(frames), i + 1);
      }
      var data := events[i].data;
      var next := i + 1;
      assert i < |stream| && stream[i] == data;
      assert stream[..next] == stream[..i] + [data];
      ghost var read, frames0, silent0, speaking0 := stream[..i], frames, silentChunks, isSpeaking;
      if loud(data) {
        isSpeaking := true;
        silentChunks := 0;
        frames := frames + [data];
      } else if isSpeaking {
        frames := frames + [data];
        silentChunks := silentChunks + 1;
        if silentChunks > chunksForSilence {
          LoopStep(read, data, loud, chunksForSilence, frames0, silent0, speaking0,
                   frames, silentChunks, isSpeaking);
          FirstCloseAt(stream, loud, chunksForSilence, i, next);
          return Done(Join(frames), next);
        }
      }
      LoopStep(read, data, loud, chunksForSilence, frames0, silent0, speaking0,
               frames, silentChunks, isSpeaking);
      OpenStep(stream, loud, chunksForSilence, i, next);
      i := next;
    }
    assert i == |stream| == |events|;
    FirstCloseNone(stream, loud, chunksForSilence);
    r := Waiting;
  }

  // ---------------------------------------------------------------------
  // What a recording holds

  /** The loop breaks after a read exactly when the last `n + 1` frames were
      quiet and a loud frame came before them. */
  lemma ClosedShape(stream: seq<Bytes>, loud: Bytes -> bool, n: nat)
    ensures Closed(stream, loud, n) <==>
      && |stream| >= n + 2
      && (forall j :: |stream| - n - 1 <= j < |stream| ==> !loud(stream[j]))
      && (exists j :: 0 <= j < |stream| - n - 1 && loud(stream[j]))
  {
    var t := TrailingQuiet(stream, loud);
    if Closed(stream, loud, n) {
      var j :| 0 <= j < |stream| && loud(stream[j]);
      assert j < |stream| - t;
    }
  }

  /** A recording that ended on silence holds a loud frame followed by
      `n + 1` quiet ones, and at least `n + 2` frames. */
  lemma ClosedRecording(stream: seq<Bytes>, loud: Bytes -> bool, n: nat, c: nat)
    requires FirstClose(stream, loud, n) == Some(c)
    ensures var k := Kept(stream[..c], loud);
      && |k| >= n + 2 && loud(k[0])
      && (forall j :: |k| - n - 1 <= j < |k| ==> !loud(k[j]))
      && k == stream[c - |k|..c]
  {
    var s := stream[..c];
    var k := Kept(s, loud);
    ClosedShape(s, loud, n);
    var j :| 0 <= j < |s| - n - 1 && loud(s[j]);
  }

  /** Until the first stop or failed read the cancellable loop records
      exactly what the plain one does. */
  lemma StopFreeIsPlain(stream: seq<Bytes>, loud: Bytes -> bool, n: nat)
    ensures RecordOrStop(seq(|stream|, i requires 0 <= i < |stream| => Frame(stream[i])), loud, n)
      == Record(stream, loud, n)
  {
    var events := seq(|stream|, i requires 0 <= i < |stream| => Frame(stream[i]));
    assert LeadingFrames(events) == stream;
  }

  /** With frames of `size` bytes, a recording that ended on silence has at
      least `(n + 2) * size` bytes. */
  lemma ClosedRecordingBytes(stream: seq<Bytes>, loud: Bytes -> bool, n: nat, c: nat, size: nat)
    requires FirstClose(stream, loud, n) == Some(c)
    requires forall j :: 0 <= j < |stream| ==> |stream[j]| == size
    ensures |Join(Kept(stream[..c], loud))| >= (n + 2) * size
  {
    var k := Kept(stream[..c], loud);
    ClosedRecording(stream, loud, n, c);
    assert forall j :: 0 <= j < |k| ==> |k[j]| == size by {
      forall j | 0 <= j < |k| ensures |k[j]| == size {
        assert k[j] == stream[c - |k| + j];
      }
    }
    JoinLength(k, size);
    MulMono(n + 2, |k|, size);
  }

  /** A loud frame and then a read that raises: the cancellable loop
      returns that frame alone after two reads. */
  lemma LoudThenFailure(d: Bytes, loud: Bytes -> bool, n: nat)
    requires loud(d)
    ensures RecordOrStop([Frame(d), ReadFailed], loud, n) == Done(d, 2)
  {
    var events := [Frame(d), ReadFailed];
    var frames := LeadingFrames(events);
    assert frames == [d] by {
      assert LeadingFrames(events[1..]) == [];
    }
    assert !Closed(frames[..1], loud, n) by {
      assert frames[..1] == [d];
      assert TrailingQuiet([d], loud) == 0;
    }
    assert FirstClose(frames, loud, n) == None by {
      assert FirstCloseFrom(frames, loud, n, 2) == None;
    }
    assert Kept(frames, loud) == [d];
    assert Join([d]) == d by {
      assert [d][..0] == [];
    }
  }

  lemma MulMono(a: nat, b: nat, size: nat)
    requires a <= b
    ensures a * size <= b * size
  {
  }
}
