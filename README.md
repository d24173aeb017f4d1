# Whisper live client for macOS — a verified model of its core

The repository is a set of small speech-to-text front ends for Apple
Silicon. Each reads 16-bit mono microphone audio at 16 kHz, cuts it into
utterances, has MLX Whisper transcribe them, and shows or prints the text.
This project models in Dafny the deterministic logic around that, and
proves what it does:

- **The Silero voice-activity segmenter** of `vad.py` (modules `VadSpec`
  and `Vad`). The class `Vad.SileroVad` has the fields of `SileroVAD`: the
  speaking flag, the silence and speech counters, the audio buffer, and
  the bounded pre-roll deque. Its methods are proved against the pure
  step function `VadSpec.Step`, and the lemmas of `VadSpec` state how
  utterances are opened, closed, kept or dropped. The neural classifier is
  a parameter `isSpeech`.
- **The energy-threshold recorders.** The `record_until_silence` loops of
  `subtitle/subtitle.py`, `mlx/subtitle/floating_subtitle_native.py`,
  `mlx/subtitle/floating_subtitle.py` and `transcribe_only.py` are the same
  code. `Recorder` models them once: a plain loop, and a cancellable loop
  that also stops on a cleared `running` flag or a failed read. Both are
  proved against a declarative description: the frames kept from the first
  loud one up to the quiet frame that closes the recording.
- **The loudness test.** `get_audio_level(data) > SILENCE_THRESHOLD` is
  modelled in `Level`: the mean of the absolute int16 samples, compared in
  exact integer arithmetic. It is modelled both as written, with numpy's
  int16 `abs` (`Level.LoudAsWritten`, `Frontends.IsLoudAsWritten`), and
  with true magnitudes (`Level.Loud`, `Frontends.IsLoud`); see
  "## Findings".
- **The turn gates** (`Gate`) that decide whether a recording is
  transcribed and whether its text is shown. `Frontends` holds each front
  end's constants and what follows from them.
- **Model resolution.** `resolve_model` and `list_local_models` of
  `realtime.py` (`Realtime`, `LocalModels`), and `get_model_path` and
  `list_available_models` of `subtitle/subtitle.py` (`Subtitle`).
- **The checkpoint converter** `convert/convert.py` (`Convert`, over the
  insertion-ordered dictionaries of `Dict`). It covers the output name, the
  MLX configuration, the weight-name rewriting, the weight conversion, the
  loading of sharded safetensors, the dtype cast and the whole
  `convert_model` flow.
- **The transcript filter** `on_transcription` of `transcribe.py`
  (`Transcribe`). It is a class whose field `displayedSegments` is the
  module-level set. Each identity `(start, end, text)` is printed at most
  once over the whole session.

`Base` holds the shared byte, JSON and option types, `b''.join` and the
truncated chunk count. `Text` holds Python's `str.strip`, `str.replace`,
`in`, `startswith`/`endswith` and `sorted` on strings.

## Model

| member | source | states |
|---|---|---|
| Base.ChunkCount | subtitle/subtitle.py:206 | `int(duration * RATE / CHUNK)` is the floor of the exact quotient: the largest count whose chunks fit in the duration |
| Text.Sort | realtime.py:60 | `sorted` returns its input sorted in code-point order, as a permutation |
| Dict.PutKeys | convert/convert.py:131 | assigning to a dict key keeps the keys distinct; a new key goes last and an existing key keeps its position |
| Dict.PutAt | convert/convert.py:131 | after `d[k] = v` the key `k` maps to `v` and every other key is unchanged |
| Convert.GetModelOutputName | convert/convert.py:16-20 | the output name ends in `-mlx` and before it is the slash-free tail of the repository name |
| Convert.OutputNameOfRepo | convert/convert.py:16-20 | `org/name` becomes `name-mlx` |
| Convert.GetMlxConfig | convert/convert.py:47-61 | eleven fields with `model_type` = `whisper` last; every other value is a value of the HuggingFace configuration or an integer default, and only integers for an empty one (each field's own key and default: `MlxAudioFields`, `MlxTextFields`) |
| Convert.MlxAudioFields | convert/convert.py:50-54 | `n_mels`, `n_audio_ctx`, `n_audio_state`, `n_audio_head` and `n_audio_layer` each read their own key (`num_mel_bins`, `max_source_positions`, `d_model`, `encoder_attention_heads`, `encoder_layers`), with defaults 80, 1500, 1280, 20 and 32 when it is missing |
| Convert.MlxTextFields | convert/convert.py:55-60 | `n_vocab`, `n_text_ctx`, `n_text_state`, `n_text_head` and `n_text_layer` each read their own key (`vocab_size`, `max_target_positions`, `d_model`, `decoder_attention_heads`, `decoder_layers`), with defaults 51865, 448, 1280, 20 and 32; `model_type` is `whisper` |
| Convert.MlxConfigDefaults | convert/convert.py:49-60 | an empty HuggingFace configuration gives 80, 1500, 1280, 20, 32, 51865, 448, 1280, 20 and 32 under the ten field names |
| Convert.MlxConfigDistinct | convert/convert.py:47-61 | every configuration field is written once |
| Convert.MlxConfigFacts | convert/convert.py:52-60 | `n_audio_state` and `n_text_state` both come from `d_model` (1280 when missing), and `model_type` is `whisper` |
| Convert.ConvertKey | convert/convert.py:64-74 | a weight name is dropped exactly when it holds `encoder.embed_positions` after every `model.` is deleted |
| Convert.RenameStripped | convert/convert.py:73-110 | after `model.` is gone, a name is dropped exactly when it holds the encoder positional embedding |
| Convert.RulesKeepPlainKey | convert/convert.py:77-108 | a name containing none of the rewrite patterns passes through the rewrite chain unchanged |
| Convert.ConvertKeepsPlainKey | convert/convert.py:64-110 | a name with no `model.`, no encoder embedding and no rewritten substring converts to itself |
| Convert.ConvertIgnoresModelPrefix | convert/convert.py:70 | a name behind `model.` converts as the bare name does |
| Convert.StripModelShortens | convert/convert.py:70 | deleting every `model.` never lengthens a name, and shortens it when `model.` occurs |
| Convert.ConvertValue | convert/convert.py:126-129 | a 3-D `conv1.weight`/`conv2.weight` tensor `(a, b, c)` becomes `(a, c, b)` by a `(0, 2, 1)` transposition; every other tensor is kept |
| Convert.ConvertWeights | convert/convert.py:113-136 | the loop builds exactly the renamed dict: skipped names dropped, a later entry under the same new name overwriting an earlier one |
| Convert.RenameAllKeys | convert/convert.py:118-131 | the converted dict holds each name once and has no more entries than the input |
| Convert.RenameAllHas | convert/convert.py:118-131 | a name is in the output exactly when some input name converts to it |
| Convert.RenameAllLast | convert/convert.py:118-131 | under a new name sits the converted tensor of the last input entry renamed to it |
| Convert.TargetDType | convert/convert.py:213 | the target is float16 exactly when `dtype == "float16"`, float32 otherwise |
| Convert.CastValue | convert/convert.py:215-216 | only float32 and float64 tensors are cast; shapes never change |
| Convert.CastAll | convert/convert.py:214-216 | the cast keeps every key in its place |
| Convert.CastWeights | convert/convert.py:214-216 | the in-place loop over the dict casts each entry where it stands |
| Convert.CastLeavesNoWideFloat | convert/convert.py:213-216 | after the cast no tensor is float64, and with `float16` none is float32 |
| Convert.WithoutIndex | convert/convert.py:31 | a file is kept exactly when its name has no `index` in it |
| Convert.WithoutIndexSorted | convert/convert.py:28-31 | filtering keeps the sorted file list sorted |
| Convert.WeightFiles | convert/convert.py:28-31 | the files read are the non-index ones, in sorted order |
| Convert.WeightFilesIgnoreListingOrder | convert/convert.py:28-31 | the order in which the directory lists the files does not matter |
| Convert.LoadSafetensors | convert/convert.py:23-44 | with no weight file left it fails with `FileNotFoundError`; otherwise it returns every tensor of every file, in order |
| Convert.LoadAllHas | convert/convert.py:38-42 | a tensor name is loaded exactly when some weight file has it |
| Convert.LaterFileWins | convert/convert.py:38-42 | a name found in several files takes its tensor from the last of them in sorted order |
| Convert.ConvertModel | convert/convert.py:146-243 | the conversion follows the source's steps: skip, download, config check, load, rename, cast, write |
| Convert.ConvertModelOutcome | convert/convert.py:160-216 | the output lives in `output_dir/<name>-mlx`; it is skipped exactly when not forced and both files exist; written weights hold each name once and no float64 |
| VadSpec.Fresh | vad.py:72-79 | `reset()` leaves the pre-roll capacity at `max(1, pad_chunks)`, at least 1 |
| VadSpec.LastN | vad.py:115 | appending to a `maxlen` deque keeps only the newest `maxlen` items, in order |
| VadSpec.FreshInv | vad.py:72-79 | the reset state satisfies the segmenter invariant |
| VadSpec.PushBoundedKeeps | vad.py:114-115 | the pre-roll stays within its capacity and holds only whole non-speech chunks |
| VadSpec.SpeechStepInv | vad.py:101-112 | a speech frame keeps the invariant |
| VadSpec.SilenceStepInv | vad.py:113-133 | a non-speech frame keeps the invariant |
| VadSpec.StepInv | vad.py:98-135 | every `process` step keeps the invariant: pre-roll bounded, idle buffer empty, trailing silence counted, chunks whole |
| VadSpec.RunInv | vad.py:81-135 | the invariant holds after any sequence of frames |
| VadSpec.OnsetSeedsPreRoll | vad.py:101-112 | speech while idle starts an utterance: the buffer is the pre-roll oldest first, then the frame; speech count 1, silence 0 |
| VadSpec.SpeechResetsSilence | vad.py:101-112 | a speech frame never returns a segment and zeroes the silence count |
| VadSpec.IdleSilence | vad.py:113-117 | non-speech while idle returns nothing, leaves the buffer empty and feeds the bounded pre-roll |
| VadSpec.CloseOnThreshold | vad.py:122-133 | the silent frame that reaches the threshold (`>=`) returns the joined buffer iff enough speech was heard, and resets either way |
| VadSpec.Chunks | vad.py:141-148 | the input is cut into consecutive whole chunks of `chunk_bytes` |
| VadSpec.ChunksCover | vad.py:141-148 | the joined chunks are the input up to its last whole chunk, leaving fewer than `chunk_bytes` over |
| VadSpec.ChunksAdvance | vad.py:142-148 | taking the chunk at `offset` moves it from the chunks to come to the chunks fed |
| VadSpec.ChunksCount | vad.py:143-148 | there are `floor(len / chunk_bytes)` chunks |
| VadSpec.ChunksIgnoreTail | vad.py:143 | bytes after the last whole chunk are never looked at |
| VadSpec.ProcessDropsTail | vad.py:137-150 | `process` gives the same result and state with or without a short tail |
| VadSpec.LastOf | vad.py:146-147 | the variable-chunk result is the last segment returned, or `None` when there was none |
| VadSpec.IdleSilenceRun | vad.py:113-117 | quiet frames while idle only refill the pre-roll with the newest frames |
| VadSpec.SilenceNeverEmits | vad.py:113-135 | from the fresh state, non-speech never yields a segment |
| VadSpec.OnsetRun | vad.py:101-112 | speech from idle buffers the pre-roll and then the frames, one speech chunk per frame |
| VadSpec.QuietTail | vad.py:117-121 | silence below the threshold while speaking is buffered and counted |
| VadSpec.CloseAfterSilence | vad.py:117-133 | enough silence after speech closes the utterance: the buffer plus the silence is returned iff speech was long enough |
| VadSpec.Utterance | vad.py:101-133 | a whole utterance from idle returns pre-roll, speech and closing silence byte for byte iff long enough, then resets |
| VadSpec.UtteranceFromFresh | vad.py:101-133 | quiet frames heard before speech become the segment's pre-roll; those after the close become the new pre-roll |
| VadSpec.StepSegmentWhole | vad.py:127-130 | a returned segment is a whole number of chunks |
| VadSpec.SegmentsAreWholeChunks | vad.py:93-135 | every segment returned is a multiple of `chunk_bytes` long |
| VadSpec.FinalizeAfterSpeech | vad.py:152-162 | finalizing mid-speech returns pre-roll plus speech iff the speech was long enough |
| Vad.DefaultConfig | vad.py:13-29 | the default configuration: 1.0 s silence, 0.3 s speech, 0.1 s pre-roll, 16 kHz |
| Vad.DefaultCounts | vad.py:58-67 | with 512-sample chunks the defaults give 31 silence, 9 speech and 3 pre-roll chunks |
| Vad.SileroVad.constructor | vad.py:49-70 | each count is the duration times chunks per second, truncated, and the segmenter starts fresh |
| Vad.SileroVad.Reset | vad.py:72-79 | not speaking, counters zero, buffers empty, pre-roll capacity `max(1, pad_chunks)` |
| Vad.SileroVad.ProcessFrame | vad.py:97-135 | one whole-chunk `process` call moves the fields and returns exactly as `VadSpec.Step` |
| Vad.SileroVad.Process | vad.py:81-95 | a chunk-sized input is one step; any other goes through the variable-chunk path |
| Vad.SileroVad.ProcessVariableChunk | vad.py:137-150 | the `while offset` loop feeds every whole chunk in order and keeps the last segment |
| Vad.SileroVad.FeedChunk | vad.py:144-147 | one pass of that loop: the state becomes `Run` over the chunks fed so far plus this one, and the kept result becomes the last segment among all of them |
| Vad.SileroVad.Finalize | vad.py:152-162 | returns the joined buffer iff speaking with enough speech, and always ends reset |
| Recorder.FirstLoud | subtitle/subtitle.py:216-221 | every frame before the first loud one is quiet, and that one is loud |
| Recorder.TrailingQuiet | subtitle/subtitle.py:220-223 | the length of the quiet run that ends the stream, preceded by a loud frame if shorter than the stream |
| Recorder.FirstClose | subtitle/subtitle.py:209-224 | the first read count at which the loop breaks, and no earlier one |
| Recorder.LeadingFrames | subtitle/subtitle.py:209-213 | the frames read before the first cleared flag or failed read |
| Recorder.ReadStep | subtitle/subtitle.py:214-222 | one more frame: the first loud frame stays or is the new one; the quiet run grows by one or ends |
| Recorder.LoopStep | subtitle/subtitle.py:216-224 | the body keeps `is_speaking`, `frames` and `silent_chunks` in step with what was read (a loud frame zeroes the count), and breaks exactly when the stream closes |
| Recorder.RecordUntilSilence | mlx/subtitle/floating_subtitle.py:118-138 | the `while True` loop returns the frames from the first loud one to the closing quiet one, joined, and nothing before speech |
| Recorder.RecordUntilSilenceOrStop | subtitle/subtitle.py:202-226 | the `while running` loop returns the same, or what was kept when the flag is cleared or a read raises |
| Recorder.ClosedShape | subtitle/subtitle.py:220-224 | the loop breaks exactly when the last `n + 1` frames are quiet and a loud frame came before them |
| Recorder.ClosedRecording | mlx/subtitle/floating_subtitle.py:128-138 | a recording that ended on silence is a contiguous run of the stream: a loud frame first and `n + 1` quiet frames last, at least `n + 2` frames |
| Recorder.StopFreeIsPlain | mlx/subtitle/floating_subtitle_native.py:109-133 | until the flag is cleared or a read fails, the cancellable loop records what the plain one does |
| Recorder.ClosedRecordingBytes | transcribe_only.py:38-48 | with full frames a silence-ended recording has at least `(n + 2)` frames' worth of bytes |
| Recorder.LoudThenFailure | subtitle/subtitle.py:209-226 | a loud frame and then a failing read returns that frame alone |
| Level.LoudAsWritten | subtitle/subtitle.py:197-199 | `get_audio_level(data) > threshold` as written: loud iff the frame has a sample and the mean of numpy's int16 `abs` over its samples is above the threshold (the model compares `sum > threshold * count`); an empty frame is never loud |
| Level.Loud | subtitle/subtitle.py:197-199 | the corrected test: loud iff the frame has a sample and the mean of the true magnitudes is above the threshold |
| Level.Sample | subtitle/subtitle.py:198 | two little-endian bytes read as an int16 in `[-32768, 32767]` |
| Level.Samples | subtitle/subtitle.py:198 | `np.frombuffer(data, int16)`: `len // 2` samples, sample `i` from bytes `2i` and `2i+1` |
| Level.Wrap16 | subtitle/subtitle.py:199 | int16 wrap-around: the result is in range and congruent modulo 65536 |
| Level.Abs | subtitle/subtitle.py:199 | the true magnitude of a sample |
| Level.AbsAsWrittenAt | subtitle/subtitle.py:199 | `np.abs` on int16 gives -32768 for -32768 and the true magnitude otherwise |
| Level.SumAbsBound | subtitle/subtitle.py:199 | no sample contributes more than 32768 |
| Level.LoudBound | subtitle/subtitle.py:197-199 | no frame is loud for a threshold of 32768 or more |
| Level.SumsAgree | subtitle/subtitle.py:199 | without -32768 samples the as-written sum equals the true sum |
| Level.LoudAgrees | subtitle/subtitle.py:197-199 | without -32768 samples the as-written test and the corrected one agree |
| Level.SilenceIsQuiet | subtitle/subtitle.py:197-199 | an all-zero frame is quiet for any threshold of 0 or more |
| Level.AllAboveIsLoud | subtitle/subtitle.py:197-199 | a frame whose every sample is above the threshold in magnitude is loud |
| Level.MinSums | subtitle/subtitle.py:199 | on -32768 samples the as-written sum is negative and the true one maximal |
| Level.MinFrameMisread | subtitle/subtitle.py:197-199 | a frame of -32768 samples is quiet as written yet loud by its true level |
| Gate.PlainTurn | transcribe_only.py:98-102 | transcribed iff more than `CHUNK * 10` bytes; shown iff also the stripped text is non-empty, and then it is that text |
| Gate.GuardedTurn | subtitle/subtitle.py:272-283 | exits iff the flag is cleared after recording; otherwise too short to transcribe iff at most `CHUNK * 10` bytes; shown iff long enough, non-blank and still running |
| Gate.SegmentTurn | realtime.py:268-272 | never exits; not transcribed iff there is no segment or it holds at most `CHUNK * 10` bytes; shown iff there is a long enough segment and the stripped text is non-empty, showing that text |
| Gate.ShownIsStripped | mlx/subtitle/floating_subtitle.py:151 | shown text is non-empty, stripped, with no whitespace at either end |
| Gate.GuardedIsPlainWhileRunning | mlx/subtitle/floating_subtitle_native.py:171-181 | while the flag stays set a cancellable turn is a plain one |
| Frontends.ChunksForSilence | transcribe_only.py:31 | `int(SILENCE_DURATION * RATE / CHUNK)` is 23 for 1.5 s and 18 for 1.2 s |
| Frontends.IsLoudAsWritten | subtitle/subtitle.py:214-216 | the loudness test of the four programs at `SILENCE_THRESHOLD` = 500: the mean of numpy's int16 `abs` is above 500.0, never for an empty frame |
| Frontends.IsLoud | subtitle/subtitle.py:214-216 | the same test with the mean of the true magnitudes |
| Frontends.SilenceEndedPassesGate | mlx/subtitle/floating_subtitle.py:177-181 | whatever the loudness test, a silence-ended recording of full frames is at least 20 frames and always passes the length gate |
| Frontends.PlainNeverTooShort | transcribe_only.py:94-102 | in the non-cancellable front ends, whatever the loudness test, text is shown exactly when it is not blank |
| Frontends.LoudFrameIsLoud | subtitle/subtitle.py:197-199 | a frame of samples 4096 is loud both as written and by its true level |
| Frontends.FailedReadTooShort | mlx/subtitle/floating_subtitle_native.py:116-120 | with either loudness test, a read failure after one loud frame returns 2048 bytes, which the gate rejects |
| LocalModels.Candidates | realtime.py:52-58 | no more names than entries |
| LocalModels.ListLocalModels | realtime.py:47-60 | the `iterdir` loop and `sorted` give the sorted candidate names, or nothing when the directory is missing |
| LocalModels.CandidatesHas | realtime.py:53-58 | a name is a candidate exactly when some directory with both files carries it |
| LocalModels.ListedModels | subtitle/subtitle.py:84-97 | the list is sorted and holds exactly the names of directories with `config.json` and `weights.npz` |
| LocalModels.CandidatesPermutation | realtime.py:53-58 | listings with the same entries give the same candidates up to order |
| LocalModels.ListingOrderIrrelevant | realtime.py:53-60 | the result does not depend on the order `iterdir` yields entries |
| LocalModels.ListedFirstIsLeast | realtime.py:60 | the first listed name is the least of all model names |
| Subtitle.GetModelPath | subtitle/subtitle.py:100-110 | a name with `/` or a leading `.` is taken as is; any other becomes `MODELS_DIR/name` or `MODELS_DIR/name-mlx` |
| Subtitle.LocalNameKept | subtitle/subtitle.py:105-110 | an existing `MODELS_DIR/name`, or a name ending in `-mlx`, is kept |
| Subtitle.MlxFallback | subtitle/subtitle.py:107-110 | otherwise the `-mlx` path is returned whether or not it exists |
| Subtitle.FallbackNamesModel | subtitle/subtitle.py:105-110 | the last path component is `name`, or `name-mlx` when the path differs, so `-mlx` is added at most once |
| Realtime.ResolveUnnamed | realtime.py:66-74 | with no name: the default repository when there is no local model, otherwise a local model directory |
| Realtime.ResolveUnnamedLeast | realtime.py:69-72 | that directory is the least local model name |
| Realtime.ResolveWithSlash | realtime.py:77-78 | a name with `/` is returned unchanged |
| Realtime.ResolveBareName | realtime.py:80-92 | an existing `name` wins, then an existing `name-mlx` unless the name ends in `-mlx`, else `mlx-community/name` |
| Realtime.AgreesWithGetModelPath | realtime.py:80-89 | for a bare name with a local directory, `resolve_model` and `get_model_path` agree |
| Realtime.ResolvedSource | realtime.py:205-210 | with an absolute models directory, the banner says HuggingFace exactly when no local directory was chosen and the string is not absolute |
| Realtime.SegmentGate | realtime.py:268-272 | a segment is transcribed and printed iff it exists, exceeds 5120 bytes and its text is not blank |
| Transcribe.Step | transcribe.py:13-19 | one segment adds at most its own identity, and only when it is completed and not seen before |
| Transcribe.RunStops | transcribe.py:13-19 | once a segment raises, the rest of the batch is not looked at |
| Transcribe.Listener.constructor | transcribe.py:8 | the session starts with nothing displayed and nothing printed |
| Transcribe.Listener.OnTranscription | transcribe.py:11-19 | the callback adds the batch's new identities and appends its printed lines; every line of the session is the stripped text of its own identity, no identity has two lines, each is displayed, and the lines of a call are for identities not displayed before it |
| Transcribe.Listener.Absorb | transcribe.py:15-19 | one loop iteration prints for an identity only when it enters `displayed_segments`, having not been there before |
| Transcribe.RunGrows | transcribe.py:17-18 | `displayed_segments` only grows |
| Transcribe.RunCoversCompleted | transcribe.py:15-18 | after a call that did not raise, every completed segment's identity is displayed |
| Transcribe.RepeatNotPrinted | transcribe.py:16-19 | the batch `[seg, seg]` prints one line, and resending `seg` prints none |
| Transcribe.PyEqualSegmentsPrintOnce | transcribe.py:16-19 | two completed segments whose start, end and text Python finds equal (`True == 1`, `False == 0`) print one line |
| Transcribe.SetKeyEq | transcribe.py:16-18 | identities are stored by representatives that coincide exactly when Python's `==` holds on `None`, booleans, integers and strings |
| Transcribe.RepeatAddsNoLine | transcribe.py:16-19 | anywhere in any batch, a segment whose identity was displayed before the call or by an earlier completed segment of the batch adds no line |
| Transcribe.LinesAtMostNewIds | transcribe.py:16-19 | a call prints no more lines than it adds identities to `displayed_segments` |
| Transcribe.IdsHas | transcribe.py:16 | the identities of a batch are exactly its segments' identities |
| Transcribe.FreshBatchPrinted | transcribe.py:12-19 | a batch of new completed segments is printed whole, in order, each text stripped |

## Left out

- The Silero classifier (`SileroVoiceActivityDetector` and the probability threshold) is the parameter `isSpeech`. A recurrent detector state between frames is not modelled.
- `create_vad`, `HAS_SILERO` and a SimpleVAD fallback are imported by `realtime.py` but not defined in `vad.py`; they are not part of this model.
- Floating point is not modelled. Durations are whole milliseconds. The counts they give are exact floors, the same as Python's for every constant used. The mean audio level is an exact rational, not numpy's float64 mean; `Level.LoudAsWritten` and `Level.Loud` show that comparing it is comparing `sum > threshold * count`. The int16-to-float32 normalisation, the float16 payload of a cast and the size printout are left out.
- A frame of odd length makes `np.frombuffer` raise; the model's `Level.Samples` ignores the trailing byte instead.
- Audio and model I/O are inputs. `stream.read` is the next element of a finite sequence: a frame for the plain loop, and a frame, a cleared flag or a failed read for the cancellable one. `mlx_whisper.transcribe` is the `raw` text it returns. The warm-up is not modelled.
- Recorder.RecordUntilSilence: a stream that runs out before the recording closes gives `Waiting`, where the source blocks on the next read. `readCount` is an addition of the model. A `stream.read` that raises in the plain loop (mlx/subtitle/floating_subtitle.py:124-125, transcribe_only.py:33-34, including the KeyboardInterrupt that stops transcribe_only.py) is not modelled: there the exception leaves `record_until_silence` and the frames read so far are lost.
- Frontends.IsLoud: the front-end lemmas take the loudness test as a parameter or are stated for both `Frontends.IsLoudAsWritten` (what the programs compute) and `Frontends.IsLoud` (true magnitudes). The two tests differ only on frames holding a -32768 sample (`Level.LoudAgrees`), and no front-end lemma depends on which one is used; see "## Findings".
- The file system and the hub are inputs: whether a path exists (`isPath`, `isFile`), the listing of `MODELS_DIR`, the snapshot `snapshot_download` leaves, and the tensors of each safetensors file. `Path` joins are string joins with `/`, with no further normalisation.
- Writing `weights.npz` and `config.json` is the `Converted` result of `Convert.ConvertModel`; the `FileNotFoundError`s are `Fail` results.
- JSON numbers in segments are integers; float `start`/`end` values are not distinguished from other JSON values.
- Transcribe.Listener.OnTranscription: a `TypeError` or `KeyError` that ends the callback is the result `false`, and printing is the `output` sequence.
- Transcribe.Lines: states only the length of the printed lines; their contents are fixed by `Transcribe.FreshBatchPrinted`.
- The GUI (AppKit and tkinter windows, queues, timers), threads, signal handlers, the WhisperLive network client and `server.py`, `test_mic.py`, argument parsing and console output are not part of this model.

## Findings

| source | as written | input that shows it | evidently intended | confidence | as-written member | corrected member |
|---|---|---|---|---|---|---|
| subtitle/subtitle.py:197-199 (the same `get_audio_level` is in mlx/subtitle/floating_subtitle_native.py:104-106, mlx/subtitle/floating_subtitle.py:113-115 and transcribe_only.py:21-24) | `np.abs` on an int16 array wraps -32768 to -32768, so a full-scale negative sample lowers the mean level | a frame of samples -32768 (bytes `00 80` repeated): its mean level as written is -32768, so it is quiet for any threshold from 0 up | the level is the mean true magnitude (32768 here), and a frame at full scale is loud | not executed | Level.LoudAsWritten, Level.MinFrameMisread | Level.Loud, Level.AllAboveIsLoud |
