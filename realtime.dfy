/** The model resolution and the segment gate of realtime.py.

    `resolve_model` picks, in order: with no name, the first local model
    (sorted) or `DEFAULT_HF_MODEL`; a name with `/` as given (a Hugging Face
    repository or a path); an existing `MODELS_DIR/name`; an existing
    `MODELS_DIR/name-mlx` unless the name already ends in `-mlx`; and
    otherwise `mlx-community/name`. The banner then labels a model string
    as coming from Hugging Face when it contains `/` and does not start
    with `/`.

    The file system is an input: `isPath` says whether a path exists, and
    the listing of `MODELS_DIR` is given as for `list_local_models`. */
module Realtime {
  import opened Base
  import opened Text
  import opened LocalModels
  import Subtitle
  import Gate

  const DefaultHfModel: string := "mlx-community/whisper-large-v3-mlx"

  /** Frames of 512 samples, as Silero VAD needs at 16 kHz. */
  const Chunk: nat := 512

  function ResolveModel(name: Option<string>, modelsDir: string, dirExists: bool,
                        listing: seq<Entry>, isPath: string -> bool): (r: string)
  {
    match name
    case None =>
      var local := Listed(dirExists, listing);
      if local != [] then JoinPath(modelsDir, local[0]) else DefaultHfModel
    case Some(n) =>
      if Contains(n, "/") then n
      else if isPath(JoinPath(modelsDir, n)) then JoinPath(modelsDir, n)
      else if !EndsWith(n, "-mlx") && isPath(JoinPath(modelsDir, n + "-mlx")) then JoinPath(modelsDir, n + "-mlx")
      else "mlx-community/" + n
  }

  /** The banner's classification of a model string. */
  predicate IsHuggingFace(model: string)
  {
    Contains(model, "/") && !StartsWith(model, "/")
  }

  /** With no name, the default repository is used when there is no
      local model; otherwise a local model directory is chosen. */
  lemma ResolveUnnamed(modelsDir: string, dirExists: bool, listing: seq<Entry>, isPath: string -> bool)
    ensures var r := ResolveModel(None, modelsDir, dirExists, listing, isPath);
      && ((!dirExists || forall i :: 0 <= i < |listing| ==> !IsModel(listing[i])) ==> r == DefaultHfModel)
      && ((dirExists && exists i :: 0 <= i < |listing| && IsModel(listing[i])) ==>
            exists i :: 0 <= i < |listing| && IsModel(listing[i]) && r == JoinPath(modelsDir, listing[i].name))
  {
    var l := Listed(dirExists, listing);
    if l != [] {
      ListedModels(dirExists, listing, l[0]);
    } else if dirExists {
      forall i | 0 <= i < |listing| ensures !IsModel(listing[i]) {
        ListedModels(dirExists, listing, listing[i].name);
      }
    }
  }

  /** The model chosen without a name is the least of the local models. */
  lemma ResolveUnnamedLeast(modelsDir: string, dirExists: bool, listing: seq<Entry>,
                            isPath: string -> bool, i: nat)
    requires dirExists && i < |listing| && IsModel(listing[i])
    ensures exists m ::
      && ResolveModel(None, modelsDir, dirExists, listing, isPath) == JoinPath(modelsDir, m)
      && m in Listed(dirExists, listing) && LessEq(m, listing[i].name)
  {
    var l := Listed(dirExists, listing);
    ListedModels(dirExists, listing, listing[i].name);
    ListedFirstIsLeast(dirExists, listing, i);
  }

  /** A name with `/` in it is returned unchanged. */
  lemma ResolveWithSlash(n: string, modelsDir: string, dirExists: bool, listing: seq<Entry>, isPath: string -> bool)
    requires Contains(n, "/")
    ensures ResolveModel(Some(n), modelsDir, dirExists, listing, isPath) == n
  {
  }

  /** Any other name resolves to an existing local directory, preferring
      `name` over `name-mlx`, or else to `mlx-community/name`. */
  lemma ResolveBareName(n: string, modelsDir: string, dirExists: bool, listing: seq<Entry>, isPath: string -> bool)
    requires !Contains(n, "/")
    ensures var r := ResolveModel(Some(n), modelsDir, dirExists, listing, isPath);
      && (isPath(JoinPath(modelsDir, n)) ==> r == JoinPath(modelsDir, n))
      && ((!isPath(JoinPath(modelsDir, n)) && !EndsWith(n, "-mlx") && isPath(JoinPath(modelsDir, n + "-mlx")))
            ==> r == JoinPath(modelsDir, n + "-mlx"))
      && ((!isPath(JoinPath(modelsDir, n)) && (EndsWith(n, "-mlx") || !isPath(JoinPath(modelsDir, n + "-mlx"))))
            ==> r == "mlx-community/" + n)
      && (r == JoinPath(modelsDir, n) || r == JoinPath(modelsDir, n + "-mlx") || r == "mlx-community/" + n)
  {
  }

  /** For a bare name that has a local directory, realtime.py and
      subtitle/subtitle.py pick the same one. */
  lemma AgreesWithGetModelPath(n: string, modelsDir: string, dirExists: bool,
                               listing: seq<Entry>, isPath: string -> bool)
    requires !Subtitle.IsExplicitPath(n)
    requires isPath(JoinPath(modelsDir, n))
      || (!EndsWith(n, "-mlx") && isPath(JoinPath(modelsDir, n + "-mlx")))
    ensures ResolveModel(Some(n), modelsDir, dirExists, listing, isPath)
            == Subtitle.GetModelPath(n, modelsDir, isPath)
  {
  }

  lemma SlashAt(s: string, i: nat)
    requires i < |s| && s[i] == '/'
    ensures Contains(s, "/")
  {
    ContainsAt(s, "/", i);
  }

  lemma JoinKeepsRoot(dir: string, name: string)
    requires StartsWith(dir, "/")
    ensures StartsWith(JoinPath(dir, name), "/")
  {
    var r := JoinPath(dir, name);
    assert r[..1] == dir[..1];
  }

  /** With an absolute `MODELS_DIR`, the banner labels the resolved model
      as coming from Hugging Face exactly when no local directory was
      chosen and the string is not itself an absolute path. */
  lemma ResolvedSource(name: Option<string>, modelsDir: string, dirExists: bool,
                       listing: seq<Entry>, isPath: string -> bool)
    requires StartsWith(modelsDir, "/")
    ensures var r := ResolveModel(name, modelsDir, dirExists, listing, isPath);
      IsHuggingFace(r) <==>
        match name
        case None => Listed(dirExists, listing) == []
        case Some(n) =>
          if Contains(n, "/") then !StartsWith(n, "/") else r == "mlx-community/" + n
  {
    var r := ResolveModel(name, modelsDir, dirExists, listing, isPath);
    match name
    case None =>
      var l := Listed(dirExists, listing);
      if l != [] {
        JoinKeepsRoot(modelsDir, l[0]);
      } else {
        SlashAt(DefaultHfModel, 13);
        assert DefaultHfModel[0] == 'm';
      }
    case Some(n) =>
      if !Contains(n, "/") {
        if r == "mlx-community/" + n {
          SlashAt(r, 13);
          assert r[0] == 'm';
        } else {
          JoinKeepsRoot(modelsDir, n);
          JoinKeepsRoot(modelsDir, n + "-mlx");
        }
      }
  }

  /** The main loop transcribes a segment of the voice-activity detector
      only when there is one and it holds more than `CHUNK * 10` = 5120
      bytes, and prints the text only when it is not blank. */
  lemma SegmentGate(segment: Option<Bytes>, raw: string)
    ensures Gate.SegmentTurn(segment, Chunk, raw).Show? <==>
      segment.Some? && |segment.value| > 5120 && Strip(raw) != []
  {
  }
}
