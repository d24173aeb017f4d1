/** convert/convert.py: turning a HuggingFace Whisper checkpoint into the
    MLX layout. Key renaming and the configuration are pure; loading,
    converting and casting the weights are loops over insertion-ordered
    dicts. Tensors are a dtype, a shape and an opaque payload that records
    what was done to it. */
module Convert {
  import opened Base
  import opened Text
  import opened Dict

  // ---------------------------------------------------------------------
  // Output name and configuration

  /** `get_model_output_name`: the repository name after the last `/`,
      followed by `-mlx`. */
  function GetModelOutputName(hfRepo: string): (r: string)
    ensures EndsWith(r, "-mlx")
    ensures var name := r[..|r| - 4];
      && EndsWith(hfRepo, name)
      && (forall i :: 0 <= i < |name| ==> name[i] != '/')
      && (|name| < |hfRepo| ==> hfRepo[|hfRepo| - |name| - 1] == '/')
  {
    LastComponent(hfRepo) + "-mlx"
  }

  /** `organisation/name` becomes `name-mlx`. */
  lemma OutputNameOfRepo(org: string, name: string)
    requires forall i :: 0 <= i < |name| ==> name[i] != '/'
    ensures GetModelOutputName(org + "/" + name) == name + "-mlx"
  {
    LastComponentOfPath(org, name);
  }

  /** `hf_config.get(key, default)`. */
  function PyGet(m: map<string, Json>, key: string, default: Json): Json
  {
    if key in m then m[key] else default
  }

  /** `get_mlx_config`: the MLX configuration, in the order `json.dump`
      writes it. Ten integer fields are read from the HuggingFace
      configuration, each with its default when missing, and `model_type`
      comes last. */
  function GetMlxConfig(hf: map<string, Json>): (r: Dict<Json>)
    ensures |r| == 11 && r[10] == ("model_type", JStr("whisper"))
    ensures forall i :: 0 <= i < 10 ==> r[i].1 in hf.Values || r[i].1.JInt?
    ensures hf == map[] ==> forall i :: 0 <= i < 10 ==> r[i].1.JInt?
  {
    [
      ("n_mels", PyGet(hf, "num_mel_bins", JInt(80))),
      ("n_audio_ctx", PyGet(hf, "max_source_positions", JInt(1500))),
      ("n_audio_state", PyGet(hf, "d_model", JInt(1280))),
      ("n_audio_head", PyGet(hf, "encoder_attention_heads", JInt(20))),
      ("n_audio_layer", PyGet(hf, "encoder_layers", JInt(32))),
      ("n_vocab", PyGet(hf, "vocab_size", JInt(51865))),
      ("n_text_ctx", PyGet(hf, "max_target_positions", JInt(448))),
      ("n_text_state", PyGet(hf, "d_model", JInt(1280))),
      ("n_text_head", PyGet(hf, "decoder_attention_heads", JInt(20))),
      ("n_text_layer", PyGet(hf, "decoder_layers", JInt(32))),
      ("model_type", JStr("whisper"))
    ]
  }

  /** Every field of the MLX configuration is written once. */
  lemma MlxConfigDistinct(hf: map<string, Json>)
    ensures DistinctKeys(GetMlxConfig(hf))
  {
  }

  /** The encoder fields: each is the HuggingFace value under its own
      source key, or the field's default when that key is missing. */
  lemma MlxAudioFields(hf: map<string, Json>)
    ensures var r := GetMlxConfig(hf);
      && HasKey(r, "n_mels") && HasKey(r, "n_audio_ctx") && HasKey(r, "n_audio_state")
      && HasKey(r, "n_audio_head") && HasKey(r, "n_audio_layer")
      && Get(r, "n_mels") == (if "num_mel_bins" in hf then hf["num_mel_bins"] else JInt(80))
      && Get(r, "n_audio_ctx") == (if "max_source_positions" in hf then hf["max_source_positions"] else JInt(1500))
      && Get(r, "n_audio_state") == (if "d_model" in hf then hf["d_model"] else JInt(1280))
      && Get(r, "n_audio_head") == (if "encoder_attention_heads" in hf then hf["encoder_attention_heads"] else JInt(20))
      && Get(r, "n_audio_layer") == (if "encoder_layers" in hf then hf["encoder_layers"] else JInt(32))
  {
    var r := GetMlxConfig(hf);
    GetFirst(r, "n_mels", 0);
    GetFirst(r, "n_audio_ctx", 1);
    GetFirst(r, "n_audio_state", 2);
    GetFirst(r, "n_audio_head", 3);
    GetFirst(r, "n_audio_layer", 4);
  }

  /** The vocabulary, the decoder fields and the model type, read the same
      way. */
  lemma MlxTextFields(hf: map<string, Json>)
    ensures var r := GetMlxConfig(hf);
      && HasKey(r, "n_vocab") && HasKey(r, "n_text_ctx") && HasKey(r, "n_text_state")
      && HasKey(r, "n_text_head") && HasKey(r, "n_text_layer") && HasKey(r, "model_type")
      && Get(r, "n_vocab") == (if "vocab_size" in hf then hf["vocab_size"] else JInt(51865))
      && Get(r, "n_text_ctx") == (if "max_target_positions" in hf then hf["max_target_positions"] else JInt(448))
      && Get(r, "n_text_state") == (if "d_model" in hf then hf["d_model"] else JInt(1280))
      && Get(r, "n_text_head") == (if "decoder_attention_heads" in hf then hf["decoder_attention_heads"] else JInt(20))
      && Get(r, "n_text_layer") == (if "decoder_layers" in hf then hf["decoder_layers"] else JInt(32))
      && Get(r, "model_type") == JStr("whisper")
  {
    var r := GetMlxConfig(hf);
    GetFirst(r, "n_vocab", 5);
    GetFirst(r, "n_text_ctx", 6);
    GetFirst(r, "n_text_state", 7);
    GetFirst(r, "n_text_head", 8);
    GetFirst(r, "n_text_layer", 9);
    GetFirst(r, "model_type", 10);
  }

  /** Encoder and decoder width both come from `d_model`, 1280 when it is
      missing; the model type is always `whisper`. */
  lemma MlxConfigFacts(hf: map<string, Json>)
    ensures var r := GetMlxConfig(hf);
      && HasKey(r, "n_audio_state") && HasKey(r, "n_text_state") && HasKey(r, "model_type")
      && Get(r, "n_audio_state") == Get(r, "n_text_state") == PyGet(hf, "d_model", JInt(1280))
      && Get(r, "model_type") == JStr("whisper")
      && ("d_model" !in hf ==> Get(r, "n_audio_state") == JInt(1280))
  {
    MlxAudioFields(hf);
    MlxTextFields(hf);
  }

  /** With an empty HuggingFace configuration every field takes its
      default: 80 mel bins, 1500 audio positions, width 1280, 20 heads and
      32 layers on each side, 51865 tokens and 448 text positions. */
  lemma MlxConfigDefaults()
    ensures var r := GetMlxConfig(map[]);
      && HasKey(r, "n_mels") && HasKey(r, "n_audio_ctx") && HasKey(r, "n_audio_state")
      && HasKey(r, "n_audio_head") && HasKey(r, "n_audio_layer") && HasKey(r, "n_vocab")
      && HasKey(r, "n_text_ctx") && HasKey(r, "n_text_state") && HasKey(r, "n_text_head")
      && HasKey(r, "n_text_layer")
      && Get(r, "n_mels") == JInt(80) && Get(r, "n_audio_ctx") == JInt(1500)
      && Get(r, "n_audio_state") == JInt(1280) && Get(r, "n_audio_head") == JInt(20)
      && Get(r, "n_audio_layer") == JInt(32) && Get(r, "n_vocab") == JInt(51865)
      && Get(r, "n_text_ctx") == JInt(448) && Get(r, "n_text_state") == JInt(1280)
      && Get(r, "n_text_head") == JInt(20) && Get(r, "n_text_layer") == JInt(32)
  {
    MlxAudioFields(map[]);
    MlxTextFields(map[]);
  }

  // ---------------------------------------------------------------------
  // Weight names

  /** The renamings `convert_key` applies after dropping `model.`, in the
      order it applies them. */
  const Rules: seq<(string, string)> := [
    ("decoder.embed_positions.weight", "decoder.positional_embedding"),
    ("decoder.embed_tokens.weight", "decoder.token_embedding.weight"),
    (".layers.", ".blocks."),
    (".self_attn.k_proj.", ".attn.key."),
    (".self_attn.v_proj.", ".attn.value."),
    (".self_attn.q_proj.", ".attn.query."),
    (".self_attn.out_proj.", ".attn.out."),
    (".encoder_attn.k_proj.", ".cross_attn.key."),
    (".encoder_attn.v_proj.", ".cross_attn.value."),
    (".encoder_attn.q_proj.", ".cross_attn.query."),
    (".encoder_attn.out_proj.", ".cross_attn.out."),
    (".self_attn_layer_norm.", ".attn_ln."),
    (".encoder_attn_layer_norm.", ".cross_attn_ln."),
    (".final_layer_norm.", ".mlp_ln."),
    ("encoder.layer_norm.", "encoder.ln_post."),
    ("decoder.layer_norm.", "decoder.ln."),
    (".fc1.", ".mlp1."),
    (".fc2.", ".mlp2.")
  ]

  /** Each renaming in turn, every occurrence at a time. */
  function ApplyRules(key: string, rules: seq<(string, string)>): string
    decreases |rules|
  {
    if rules == [] then key else ApplyRules(ReplaceAll(key, rules[0].0, rules[0].1), rules[1..])
  }

  /** `convert_key`: None for the encoder's positional embedding, otherwise
      the MLX name. */
  function ConvertKey(key: string): (r: Option<string>)
    ensures var k := ReplaceAll(key, "model.", "");
      r.None? <==> Contains(k, "encoder.embed_positions")
  {
    RenameStripped(ReplaceAll(key, "model.", ""))
  }

  /** `convert_key` after `model.` is gone. */
  function RenameStripped(key: string): (r: Option<string>)
    ensures r.None? <==> Contains(key, "encoder.embed_positions")
  {
    if Contains(key, "encoder.embed_positions") then None
    else Some(ApplyRules(key, Rules))
  }

  /** No renaming pattern occurs in `key`. */
  predicate NoRulePattern(key: string, rules: seq<(string, string)>)
  {
    forall i :: 0 <= i < |rules| ==> rules[i].0 != [] && !Contains(key, rules[i].0)
  }

  lemma {:induction false} RulesKeepPlainKey(key: string, rules: seq<(string, string)>)
    requires NoRulePattern(key, rules)
    ensures ApplyRules(key, rules) == key
    decreases |rules|
  {
    if rules != [] {
      ReplaceAbsent(key, rules[0].0, rules[0].1);
      assert NoRulePattern(key, rules[1..]) by {
        forall i | 0 <= i < |rules[1..]|
          ensures rules[1..][i].0 != [] && !Contains(key, rules[1..][i].0)
        {
          assert rules[1..][i] == rules[i + 1];
        }
      }
      RulesKeepPlainKey(key, rules[1..]);
    }
  }

  /** A name that has no `model.`, no positional embedding of the encoder
      and none of the renamed substrings is kept unchanged, as
      `proj_out.weight` is. */
  lemma ConvertKeepsPlainKey(key: string)
    requires !Contains(key, "model.") && !Contains(key, "encoder.embed_positions")
    requires NoRulePattern(key, Rules)
    ensures ConvertKey(key) == Some(key)
  {
    ReplaceAbsent(key, "model.", "");
    RulesKeepPlainKey(key, Rules);
  }

  /** Dropping `model.` is all the prefix does: a name and the same name
      behind `model.` convert alike. */
  lemma ConvertIgnoresModelPrefix(rest: string)
    requires !Contains(rest, "model.")
    ensures ConvertKey("model." + rest) == ConvertKey(rest)
  {
    ReplaceLeading("model.", rest, "");
    ReplaceAbsent(rest, "model.", "");
    assert ReplaceAll("model." + rest, "model.", "") == ReplaceAll(rest, "model.", "");
  }

  /** Deleting `model.` only ever shortens a name, strictly when it
      occurs. */
  lemma StripModelShortens(key: string)
    ensures |ReplaceAll(key, "model.", "")| <= |key|
    ensures Contains(key, "model.") ==> |ReplaceAll(key, "model.", "")| < |key|
  {
    ReplaceDeleteShrinks(key, "model.");
  }

  // ---------------------------------------------------------------------
  // Tensors

  datatype DType = Float16 | Float32 | Float64 | OtherDType(name: string)

  /** Where a tensor's elements come from: a tensor as read from a file, a
      `(0, 2, 1)` transposition of one, or a cast of one. */
  datatype Payload = Stored(id: nat) | Transposed021(source: Payload) | CastTo(source: Payload, target: DType)

  datatype Tensor = Tensor(dtype: DType, shape: seq<nat>, data: Payload)

  /** Names of convolution kernels, which MLX stores channels-last. */
  predicate IsConvWeight(key: string)
  {
    Contains(key, "conv1.weight") || Contains(key, "conv2.weight")
  }

  /** The tensor `convert_weights` stores under the MLX name `key`: a 3-D
      convolution kernel `(out, in, kernel)` becomes `(out, kernel, in)`;
      everything else is kept as it is. */
  function ConvertValue(key: string, t: Tensor): (r: Tensor)
    ensures r.dtype == t.dtype && |r.shape| == |t.shape|
    ensures IsConvWeight(key) && |t.shape| == 3 ==>
      r.shape == [t.shape[0], t.shape[2], t.shape[1]] && r.data == Transposed021(t.data)
    ensures !(IsConvWeight(key) && |t.shape| == 3) ==> r == t
  {
    if IsConvWeight(key) && |t.shape| == 3 then
      Tensor(t.dtype, [t.shape[0], t.shape[2], t.shape[1]], Transposed021(t.data))
    else t
  }

  /** What `convert_weights` returns, for a renaming `rename`: each entry in
      order, stored under its new name unless `rename` drops it; a later
      entry with the same new name replaces an earlier one. */
  function RenameAll(hf: Dict<Tensor>, rename: string -> Option<string>): Dict<Tensor>
    decreases |hf|
  {
    if hf == [] then []
    else
      var prev := RenameAll(hf[..|hf| - 1], rename);
      var e := hf[|hf| - 1];
      match rename(e.0)
      case None => prev
      case Some(k) => Put(prev, k, ConvertValue(k, e.1))
  }

  function ConvertAll(hf: Dict<Tensor>): Dict<Tensor>
  {
    RenameAll(hf, ConvertKey)
  }

  /** Entry `i` of `hf` is the last one whose new name is `k`. */
  predicate LastMapsTo(hf: Dict<Tensor>, rename: string -> Option<string>, k: string, i: int)
  {
    0 <= i < |hf| && rename(hf[i].0) == Some(k)
    && forall j :: i < j < |hf| ==> rename(hf[j].0) != Some(k)
  }

  /** The converted dict holds each name once, and never more entries than
      the input. */
  lemma {:induction false} RenameAllKeys(hf: Dict<Tensor>, rename: string -> Option<string>)
    ensures DistinctKeys(RenameAll(hf, rename)) && |RenameAll(hf, rename)| <= |hf|
    decreases |hf|
  {
    if hf != [] {
      var e := hf[|hf| - 1];
      RenameAllKeys(hf[..|hf| - 1], rename);
      if rename(e.0).Some? {
        PutKeys(RenameAll(hf[..|hf| - 1], rename), rename(e.0).value, ConvertValue(rename(e.0).value, e.1));
      }
    }
  }

  /** The converted dict has an entry for exactly the new names some input
      name gets. */
  lemma {:induction false} RenameAllHas(hf: Dict<Tensor>, rename: string -> Option<string>, k: string)
    ensures HasKey(RenameAll(hf, rename), k) <==> exists i :: 0 <= i < |hf| && rename(hf[i].0) == Some(k)
    decreases |hf|
  {
    if hf != [] {
      var init := hf[..|hf| - 1];
      var e := hf[|hf| - 1];
      RenameAllHas(init, rename, k);
      if rename(e.0).Some? {
        PutAt(RenameAll(init, rename), rename(e.0).value, ConvertValue(rename(e.0).value, e.1), k);
      }
      if exists i :: 0 <= i < |hf| && rename(hf[i].0) == Some(k) {
        var i :| 0 <= i < |hf| && rename(hf[i].0) == Some(k);
        if i < |hf| - 1 {
          assert init[i] == hf[i];
        }
      }
    }
  }

  /** Under a new name sits the converted tensor of the last input entry
      renamed to it. */
  lemma {:induction false} RenameAllLast(hf: Dict<Tensor>, rename: string -> Option<string>, k: string, i: int)
    requires LastMapsTo(hf, rename, k, i)
    ensures HasKey(RenameAll(hf, rename), k) && Get(RenameAll(hf, rename), k) == ConvertValue(k, hf[i].1)
    decreases |hf|
  {
    var init := hf[..|hf| - 1];
    var e := hf[|hf| - 1];
    if rename(e.0).Some? {
      PutAt(RenameAll(init, rename), rename(e.0).value, ConvertValue(rename(e.0).value, e.1), k);
    }
    if i < |hf| - 1 {
      assert LastMapsTo(init, rename, k, i) by {
        forall j | i < j < |init| ensures rename(init[j].0) != Some(k) {
          assert init[j] == hf[j];
        }
      }
      RenameAllLast(init, rename, k, i);
    }
  }

  /** `convert_weights(hf_weights)`. */
  method ConvertWeights(hf: Dict<Tensor>) returns (mlx: Dict<Tensor>)
    ensures mlx == RenameAll(hf, ConvertKey)
  {
    mlx := [];
    var skipped: seq<string> := [];
    for i := 0 to |hf|
      invariant mlx == RenameAll(hf[..i], ConvertKey)
    {
      assert hf[..i + 1][..i] == hf[..i];
      var (hfKey, value) := hf[i];
      var mlxKey := ConvertKey(hfKey);
      if mlxKey.None? {
        skipped := skipped + [hfKey];
        continue;
      }
      if IsConvWeight(mlxKey.value) {
        if |value.shape| == 3 {
          value := Tensor(value.dtype, [value.shape[0], value.shape[2], value.shape[1]], Transposed021(value.data));
        }
      }
      mlx := Put(mlx, mlxKey.value, value);
    }
    assert hf[..|hf|] == hf;
  }

  // ---------------------------------------------------------------------
  // Data type

  /** `np.float16 if dtype == "float16" else np.float32`. */
  function TargetDType(dtype: string): (r: DType)
    ensures r == Float16 || r == Float32
    ensures r == Float16 <==> dtype == "float16"
  {
    if dtype == "float16" then Float16 else Float32
  }

  /** A 32- or 64-bit float tensor cast to `target`; any other tensor as it
      is. */
  function CastValue(t: Tensor, target: DType): (r: Tensor)
    ensures r.shape == t.shape
    ensures t.dtype == Float32 || t.dtype == Float64 ==> r.dtype == target && r.data == CastTo(t.data, target)
    ensures !(t.dtype == Float32 || t.dtype == Float64) ==> r == t
  {
    if t.dtype == Float32 || t.dtype == Float64 then Tensor(target, t.shape, CastTo(t.data, target)) else t
  }

  /** The cast of every entry, in place. */
  function CastAll(d: Dict<Tensor>, target: DType): (r: Dict<Tensor>)
    ensures |r| == |d| && Keys(r) == Keys(d)
  {
    seq(|d|, i requires 0 <= i < |d| => (d[i].0, CastValue(d[i].1, target)))
  }

  /** The dtype loop of `convert_model`: assigning to the key being visited
      replaces its value where it stands. */
  method CastWeights(weights: Dict<Tensor>, target: DType) returns (r: Dict<Tensor>)
    requires DistinctKeys(weights)
    ensures r == CastAll(weights, target)
  {
    r := weights;
    for i := 0 to |r|
      invariant |r| == |weights| && DistinctKeys(r)
      invariant forall j :: 0 <= j < i ==> r[j] == (weights[j].0, CastValue(weights[j].1, target))
      invariant forall j :: i <= j < |r| ==> r[j] == weights[j]
    {
      var key := r[i].0;
      if r[i].1.dtype == Float32 || r[i].1.dtype == Float64 {
        IndexOfFirst(r, key, i);
        r := Put(r, key, CastValue(r[i].1, target));
      }
    }
  }

  /** After the cast no tensor is a 64-bit float, and when the target is
      `float16` none is a 32-bit float either; shapes are unchanged. */
  lemma CastLeavesNoWideFloat(d: Dict<Tensor>, dtype: string)
    ensures var r := CastAll(d, TargetDType(dtype));
      forall i :: 0 <= i < |r| ==>
        && r[i].1.shape == d[i].1.shape
        && r[i].1.dtype != Float64
        && (dtype == "float16" ==> r[i].1.dtype != Float32)
  {
  }

  // ---------------------------------------------------------------------
  // Loading safetensors files

  /** The names without `index` in them, in the same order. */
  function WithoutIndex(names: seq<string>): (r: seq<string>)
    ensures forall x :: x in r <==> x in names && !Contains(x, "index")
  {
    if names == [] then []
    else (if Contains(names[0], "index") then [] else [names[0]]) + WithoutIndex(names[1..])
  }

  /** Dropping names keeps a sorted list sorted. */
  lemma {:induction false} WithoutIndexSorted(names: seq<string>)
    requires Sorted(names)
    ensures Sorted(WithoutIndex(names))
    decreases |names|
  {
    if names != [] {
      var rest := WithoutIndex(names[1..]);
      WithoutIndexSorted(names[1..]);
      if !Contains(names[0], "index") {
        forall j | 0 <= j < |rest| ensures LessEq(names[0], rest[j]) {
          assert rest[j] in names[1..];
          var k :| 0 <= k < |names[1..]| && names[1..][k] == rest[j];
          assert names[k + 1] == rest[j];
        }
      }
    }
  }

  /** The weight files `load_safetensors` reads: the `*.safetensors` names
      sorted, without the index file. */
  function WeightFiles(names: seq<string>): (r: seq<string>)
    ensures Sorted(r)
    ensures forall x :: x in r <==> x in names && !Contains(x, "index")
  {
    WithoutIndexSorted(Sort(names));
    assert forall x :: x in Sort(names) <==> x in names by {
      forall x ensures x in Sort(names) <==> x in names {
        assert x in multiset(Sort(names)) <==> x in multiset(names);
      }
    }
    WithoutIndex(Sort(names))
  }

  /** The files are read in the same order however the directory lists
      them. */
  lemma WeightFilesIgnoreListingOrder(a: seq<string>, b: seq<string>)
    requires multiset(a) == multiset(b)
    ensures WeightFiles(a) == WeightFiles(b)
  {
    SortedUnique(Sort(a), Sort(b));
  }

  /** Every tensor of every file in turn, a later file overriding an
      earlier one under the same name. */
  function LoadAll(files: seq<string>, contents: string -> Dict<Tensor>): Dict<Tensor>
    decreases |files|
  {
    if files == [] then [] else PutAll(LoadAll(files[..|files| - 1], contents), contents(files[|files| - 1]))
  }

  datatype Failure = NoSafetensors(dir: string) | NoConfig(path: string)

  datatype Outcome<T> = Ok(value: T) | Fail(failure: Failure)

  /** `load_safetensors(model_path)`: `names` are the `*.safetensors` files
      of the directory in the order the file system lists them, and
      `contents(name)` the tensors of that file in the order `keys()`
      gives them. */
  method LoadSafetensors(modelPath: string, names: seq<string>, contents: string -> Dict<Tensor>)
    returns (r: Outcome<Dict<Tensor>>)
    ensures var files := WeightFiles(names);
      r == if files == [] then Fail(NoSafetensors(modelPath)) else Ok(LoadAll(files, contents))
  {
    var weights: Dict<Tensor> := [];
    var safetensorFiles := Sort(names);
    safetensorFiles := WithoutIndex(safetensorFiles);
    if safetensorFiles == [] {
      return Fail(NoSafetensors(modelPath));
    }
    for i := 0 to |safetensorFiles|
      invariant weights == LoadAll(safetensorFiles[..i], contents)
    {
      var f := contents(safetensorFiles[i]);
      ghost var before := weights;
      assert safetensorFiles[..i + 1][..i] == safetensorFiles[..i];
      for j := 0 to |f|
        invariant weights == PutAll(before, f[..j])
      {
        assert f[..j + 1][..j] == f[..j];
        weights := Put(weights, f[j].0, f[j].1);
      }
      assert f[..|f|] == f;
    }
    assert safetensorFiles[..|safetensorFiles|] == safetensorFiles;
    return Ok(weights);
  }

  /** A tensor name is loaded exactly when some weight file has it. */
  lemma {:induction false} LoadAllHas(files: seq<string>, contents: string -> Dict<Tensor>, k: string)
    ensures HasKey(LoadAll(files, contents), k) <==> exists i :: 0 <= i < |files| && HasKey(contents(files[i]), k)
    decreases |files|
  {
    if files != [] {
      var init := files[..|files| - 1];
      var es := contents(files[|files| - 1]);
      LoadAllHas(init, contents, k);
      PutAllHas(LoadAll(init, contents), es, k);
      if HasKey(es, k) {
        assert es[IndexOf(es, k)].0 == k;
      } else {
        assert forall j :: 0 <= j < |es| ==> es[j].0 != k;
      }
      if exists i :: 0 <= i < |files| && HasKey(contents(files[i]), k) {
        var i :| 0 <= i < |files| && HasKey(contents(files[i]), k);
        if i < |files| - 1 {
          assert init[i] == files[i];
        }
      }
    }
  }

  /** A tensor name found in several weight files takes its tensor from the
      last of them in sorted order. */
  lemma {:induction false} LaterFileWins(files: seq<string>, contents: string -> Dict<Tensor>, k: string, i: int)
    requires 0 <= i < |files| && DistinctKeys(contents(files[i])) && HasKey(contents(files[i]), k)
    requires forall j :: i < j < |files| ==> !HasKey(contents(files[j]), k)
    ensures HasKey(LoadAll(files, contents), k)
    ensures Get(LoadAll(files, contents), k) == Get(contents(files[i]), k)
    decreases |files|
  {
    var init := files[..|files| - 1];
    var es := contents(files[|files| - 1]);
    var prev := LoadAll(init, contents);
    if i == |files| - 1 {
      PutAllLast(prev, es, k, IndexOf(es, k));
    } else {
      assert init[i] == files[i];
      LaterFileWins(init, contents, k, i);
      assert forall j :: 0 <= j < |es| ==> es[j].0 != k;
      PutAllUntouched(prev, es, k);
    }
  }

  // ---------------------------------------------------------------------
  // The whole conversion

  /** What `snapshot_download` leaves on disk: its directory, the names of
      its `*.safetensors` files as listed, their tensors, and the parsed
      `config.json`. */
  datatype Snapshot = Snapshot(
    dir: string,
    safetensors: seq<string>,
    contents: string -> Dict<Tensor>,
    config: map<string, Json>)

  /** What `convert_model` leaves behind: an existing conversion it
      skipped, or the weights and configuration it writes to `path`. */
  datatype Conversion =
    | AlreadyConverted(path: string)
    | Converted(path: string, weights: Dict<Tensor>, config: Dict<Json>)

  /** `is_model_converted(output_path)`. */
  predicate IsModelConverted(outputPath: string, isFile: string -> bool)
  {
    isFile(JoinPath(outputPath, "weights.npz")) && isFile(JoinPath(outputPath, "config.json"))
  }

  /** The outcome `convert_model` is proved to produce. */
  function ConvertModelSpec(hfRepo: string, outputDir: string, dtype: string, force: bool,
                            isFile: string -> bool, download: string -> Snapshot): Outcome<Conversion>
  {
    var outputPath := JoinPath(outputDir, GetModelOutputName(hfRepo));
    if !force && IsModelConverted(outputPath, isFile) then Ok(AlreadyConverted(outputPath))
    else
      var snap := download(hfRepo);
      var configFile := JoinPath(snap.dir, "config.json");
      if !isFile(configFile) then Fail(NoConfig(configFile))
      else
        var files := WeightFiles(snap.safetensors);
        if files == [] then Fail(NoSafetensors(snap.dir))
        else
          var weights := CastAll(RenameAll(LoadAll(files, snap.contents), ConvertKey), TargetDType(dtype));
          Ok(Converted(outputPath, weights, GetMlxConfig(snap.config)))
  }

  /** `convert_model(hf_repo, output_dir, dtype, force)`. The file system
      is the predicate `isFile` and the hub the function `download`;
      writing `weights.npz` and `config.json` is the `Converted` result. */
  method ConvertModel(hfRepo: string, outputDir: string, dtype: string, force: bool,
                      isFile: string -> bool, download: string -> Snapshot)
    returns (r: Outcome<Conversion>)
    ensures r == ConvertModelSpec(hfRepo, outputDir, dtype, force, isFile, download)
  {
    var modelName := GetModelOutputName(hfRepo);
    var outputPath := JoinPath(outputDir, modelName);
    if !force && IsModelConverted(outputPath, isFile) {
      return Ok(AlreadyConverted(outputPath));
    }
    var snap := download(hfRepo);
    var configFile := JoinPath(snap.dir, "config.json");
    if !isFile(configFile) {
      return Fail(NoConfig(configFile));
    }
    var mlxConfig := GetMlxConfig(snap.config);
    var hfWeights := LoadSafetensors(snap.dir, snap.safetensors, snap.contents);
    if hfWeights.Fail? {
      return Fail(hfWeights.failure);
    }
    var mlxWeights := ConvertWeights(hfWeights.value);
    RenameAllKeys(hfWeights.value, ConvertKey);
    var targetDType := TargetDType(dtype);
    mlxWeights := CastWeights(mlxWeights, targetDType);
    return Ok(Converted(outputPath, mlxWeights, mlxConfig));
  }

  /** Whatever `convert_model` returns lives in `output_dir/<name>-mlx`; it
      converts again unless forced off by both output files being present;
      a written model holds each MLX name once and no 64-bit floats, and
      its configuration is the one derived from the checkpoint's. */
  lemma ConvertModelOutcome(hfRepo: string, outputDir: string, dtype: string, force: bool,
                            isFile: string -> bool, download: string -> Snapshot)
    ensures var r := ConvertModelSpec(hfRepo, outputDir, dtype, force, isFile, download);
      var outputPath := JoinPath(outputDir, GetModelOutputName(hfRepo));
      && (r.Ok? ==> r.value.path == outputPath)
      && (r == Ok(AlreadyConverted(outputPath)) <==> !force && IsModelConverted(outputPath, isFile))
      && (r.Ok? && r.value.Converted? ==>
            && DistinctKeys(r.value.weights)
            && (forall i :: 0 <= i < |r.value.weights| ==> r.value.weights[i].1.dtype != Float64)
            && r.value.config == GetMlxConfig(download(hfRepo).config))
  {
    var r := ConvertModelSpec(hfRepo, outputDir, dtype, force, isFile, download);
    if r.Ok? && r.value.Converted? {
      var snap := download(hfRepo);
      var loaded := LoadAll(WeightFiles(snap.safetensors), snap.contents);
      RenameAllKeys(loaded, ConvertKey);
      var renamed := RenameAll(loaded, ConvertKey);
      CastLeavesNoWideFloat(renamed, dtype);
      assert Keys(r.value.weights) == Keys(renamed);
    }
  }
}
