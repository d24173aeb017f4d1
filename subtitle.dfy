/** `get_model_path` of subtitle/subtitle.py: a name with a `/` in it, or
    one starting with `.`, is a path as it stands; any other name is looked
    up under `MODELS_DIR`, falling back to `name-mlx` there when `name` is
    missing and does not already end in `-mlx`. The fallback path is
    returned whether or not it exists.

    Whether a path exists is an input (`isPath`); paths are strings joined
    with `/` (`Path` normalisation is not modelled). */
module Subtitle {
  import opened Text

  /** The name is taken as a path of its own. */
  predicate IsExplicitPath(name: string)
  {
    Contains(name, "/") || StartsWith(name, ".")
  }

  function GetModelPath(name: string, modelsDir: string, isPath: string -> bool): (r: string)
    ensures IsExplicitPath(name) ==> r == name
    ensures !IsExplicitPath(name) ==>
      r == JoinPath(modelsDir, name) || r == JoinPath(modelsDir, name + "-mlx")
  {
    if IsExplicitPath(name) then name
    else
      var local := JoinPath(modelsDir, name);
      if !isPath(local) && !EndsWith(name, "-mlx") then JoinPath(modelsDir, name + "-mlx")
      else local
  }

  /** An existing `MODELS_DIR/name`, or a name already ending in `-mlx`,
      is kept as it is. */
  lemma LocalNameKept(name: string, modelsDir: string, isPath: string -> bool)
    requires !IsExplicitPath(name)
    requires isPath(JoinPath(modelsDir, name)) || EndsWith(name, "-mlx")
    ensures GetModelPath(name, modelsDir, isPath) == JoinPath(modelsDir, name)
  {
  }

  /** Otherwise the `-mlx` path is returned, even when nothing is there. */
  lemma MlxFallback(name: string, modelsDir: string, isPath: string -> bool)
    requires !IsExplicitPath(name)
    requires !isPath(JoinPath(modelsDir, name)) && !EndsWith(name, "-mlx")
    ensures GetModelPath(name, modelsDir, isPath) == JoinPath(modelsDir, name + "-mlx")
    ensures EndsWith(GetModelPath(name, modelsDir, isPath), "-mlx")
  {
    var r := JoinPath(modelsDir, name + "-mlx");
    assert r[|r| - 4..] == "-mlx";
  }

  /** The `-mlx` suffix is added at most once: the path of a name that
      ends in `-mlx` is the plain one, and a path that differs from the
      plain one names `name-mlx`, the last component after `MODELS_DIR`. */
  lemma FallbackNamesModel(name: string, modelsDir: string, isPath: string -> bool)
    requires !IsExplicitPath(name) && name != ""
    ensures var r := GetModelPath(name, modelsDir, isPath);
      LastComponent(r) == (if r == JoinPath(modelsDir, name) then name else name + "-mlx")
  {
    var r := GetModelPath(name, modelsDir, isPath);
    assert name != "." by {
      assert StartsWith(".", ".");
    }
    assert forall i :: 0 <= i < |name| ==> name[i] != '/' by {
      forall i | 0 <= i < |name| ensures name[i] != '/' {
        if name[i] == '/' {
          ContainsAt(name, "/", i);
        }
      }
    }
    if r == JoinPath(modelsDir, name) {
      LastComponentOfPath(modelsDir, name);
    } else {
      var m := name + "-mlx";
      assert forall i :: 0 <= i < |m| ==> m[i] != '/';
      LastComponentOfPath(modelsDir, m);
    }
  }
}
