/** What one turn of an audio loop does with a recording: it is
    transcribed only when it holds more than `CHUNK * 10` bytes, and the
    stripped text is shown only when it is not empty (and, in the loops
    that can be cancelled, only while the `running` flag is still set).

    The transcriber is not modelled: `raw` is the `text` field of what
    `mlx_whisper.transcribe` returns for the recording. */
module Gate {
  import opened Base
  import opened Text

  /** The outcome of one turn: the loop exits, the recording is too short
      to transcribe, the transcription is blank (or comes too late to be
      shown), or `text` is shown. */
  datatype Turn = Exit | TooShort | NoText | Show(text: string)

  /** The recording is long enough to be transcribed. */
  predicate LongEnough(audio: Bytes, chunk: nat)
  {
    |audio| > chunk * 10
  }

  /** The turn of the `while True` loops of mlx/subtitle/floating_subtitle.py
      and transcribe_only.py. */
  function PlainTurn(audio: Bytes, chunk: nat, raw: string): (t: Turn)
    ensures t != Exit
    ensures t == TooShort <==> !LongEnough(audio, chunk)
    ensures t.Show? <==> LongEnough(audio, chunk) && Strip(raw) != []
    ensures t.Show? ==> t.text == Strip(raw)
  {
    if !LongEnough(audio, chunk) then TooShort
    else
      var text := Strip(raw);
      if text != [] then Show(text) else NoText
  }

  /** The turn of the `while running` loops of subtitle/subtitle.py and
      mlx/subtitle/floating_subtitle_native.py: `runningAfterRecord` is the
      flag as read when the recording returns, `runningAfterTranscribe` as
      read once the text is back. */
  function GuardedTurn(audio: Bytes, chunk: nat, runningAfterRecord: bool,
                       raw: string, runningAfterTranscribe: bool): (t: Turn)
    ensures t == Exit <==> !runningAfterRecord
    ensures t == TooShort <==> runningAfterRecord && !LongEnough(audio, chunk)
    ensures t.Show? <==>
      runningAfterRecord && LongEnough(audio, chunk) && Strip(raw) != [] && runningAfterTranscribe
    ensures t.Show? ==> t.text == Strip(raw)
  {
    if !runningAfterRecord then Exit
    else if !LongEnough(audio, chunk) then TooShort
    else
      var text := Strip(raw);
      if text != [] && runningAfterTranscribe then Show(text) else NoText
  }

  /** The turn of realtime.py: the voice-activity detector may have no
      segment for the frame just read. */
  function SegmentTurn(segment: Option<Bytes>, chunk: nat, raw: string): (t: Turn)
    ensures t != Exit
    ensures t == TooShort <==> segment.None? || !LongEnough(segment.value, chunk)
    ensures t.Show? <==> segment.Some? && LongEnough(segment.value, chunk) && Strip(raw) != []
    ensures t.Show? ==> t.text == Strip(raw)
  {
    match segment
    case None => TooShort
    case Some(audio) => PlainTurn(audio, chunk, raw)
  }

  /** Shown text is never blank and has no whitespace at either end. */
  lemma ShownIsStripped(audio: Bytes, chunk: nat, raw: string)
    requires PlainTurn(audio, chunk, raw).Show?
    ensures var text := PlainTurn(audio, chunk, raw).text;
      && text != [] && Strip(text) == text
      && !IsSpace(text[0]) && !IsSpace(text[|text| - 1])
  {
    StripIdempotent(raw);
    StripEnds(raw);
  }

  /** While the flag stays set, a cancellable turn is a plain one. */
  lemma GuardedIsPlainWhileRunning(audio: Bytes, chunk: nat, raw: string)
    ensures GuardedTurn(audio, chunk, true, raw, true) == PlainTurn(audio, chunk, raw)
  {
  }
}
