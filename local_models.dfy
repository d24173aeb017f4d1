/** The listing of converted models under `MODELS_DIR`:
    `list_local_models` of realtime.py and `list_available_models` of
    subtitle/subtitle.py, which are the same code. A directory entry counts
    when it is a directory holding both `config.json` and `weights.npz`;
    the names are returned sorted.

    The file system is not modelled: whether `MODELS_DIR` exists and what
    `iterdir` yields, with each entry's three tests already made, are
    inputs. */
module LocalModels {
  import opened Text

  /** One entry of `MODELS_DIR.iterdir()`: its name, whether it is a
      directory, and whether `config.json` and `weights.npz` exist in it. */
  datatype Entry = Entry(name: string, isDir: bool, hasConfig: bool, hasWeights: bool)

  predicate IsModel(e: Entry)
  {
    e.isDir && e.hasConfig && e.hasWeights
  }

  /** The names of the entries that are models, in listing order. */
  function Candidates(listing: seq<Entry>): (r: seq<string>)
    ensures |r| <= |listing|
    decreases |listing|
  {
    if listing == [] then []
    else
      var e := listing[|listing| - 1];
      Candidates(listing[..|listing| - 1]) + (if IsModel(e) then [e.name] else [])
  }

  /** What the listing returns. */
  function Listed(dirExists: bool, listing: seq<Entry>): seq<string>
  {
    if dirExists then Sort(Candidates(listing)) else []
  }

  /** The loop over `iterdir()` followed by `sorted`. */
  method ListLocalModels(dirExists: bool, listing: seq<Entry>) returns (models: seq<string>)
    ensures models == Listed(dirExists, listing)
  {
    if !dirExists {
      return [];
    }
    var found: seq<string> := [];
    for i := 0 to |listing|
      invariant found == Candidates(listing[..i])
    {
      var e := listing[i];
      assert listing[..i + 1][..i] == listing[..i];
      if e.isDir && e.hasConfig && e.hasWeights {
        found := found + [e.name];
      }
    }
    assert listing[..|listing|] == listing;
    models := Sort(found);
  }

  /** A name is a candidate exactly when some model entry carries it. */
  lemma {:induction false} CandidatesHas(listing: seq<Entry>, x: string)
    ensures x in Candidates(listing) <==>
      exists i :: 0 <= i < |listing| && IsModel(listing[i]) && listing[i].name == x
    decreases |listing|
  {
    if listing != [] {
      var init := listing[..|listing| - 1];
      CandidatesHas(init, x);
      if exists i :: 0 <= i < |init| && IsModel(init[i]) && init[i].name == x {
        var i :| 0 <= i < |init| && IsModel(init[i]) && init[i].name == x;
        assert listing[i] == init[i];
      }
      if exists i :: 0 <= i < |listing| && IsModel(listing[i]) && listing[i].name == x {
        var i :| 0 <= i < |listing| && IsModel(listing[i]) && listing[i].name == x;
        if i < |init| {
          assert init[i] == listing[i];
        }
      }
    }
  }

  /** The result is sorted and holds exactly the names of the directories
      with both files, and nothing when `MODELS_DIR` is missing. */
  lemma ListedModels(dirExists: bool, listing: seq<Entry>, x: string)
    ensures Sorted(Listed(dirExists, listing))
    ensures x in Listed(dirExists, listing) <==>
      dirExists && exists i :: 0 <= i < |listing| && IsModel(listing[i]) && listing[i].name == x
  {
    if dirExists {
      var c := Candidates(listing);
      CandidatesHas(listing, x);
      assert x in c <==> x in multiset(c);
      assert x in Sort(c) <==> x in multiset(Sort(c));
    }
  }

  lemma {:induction false} CandidatesAppend(a: seq<Entry>, b: seq<Entry>)
    ensures Candidates(a + b) == Candidates(a) + Candidates(b)
    decreases |b|
  {
    if b == [] {
      assert a + b == a;
    } else {
      var b' := b[..|b| - 1];
      assert (a + b)[..|a + b| - 1] == a + b';
      CandidatesAppend(a, b');
    }
  }

  /** Taking the same entry out of two equal multisets leaves equal ones. */
  lemma RemoveOne(a: seq<Entry>, x: Entry, b1: seq<Entry>, b2: seq<Entry>)
    requires multiset(a + [x]) == multiset(b1 + [x] + b2)
    ensures multiset(a) == multiset(b1 + b2)
  {
    var l, r := multiset(a), multiset(b1 + b2);
    assert multiset(a + [x]) == l + multiset{x};
    assert multiset(b1 + [x] + b2) == multiset(b1) + multiset{x} + multiset(b2);
    assert r == multiset(b1) + multiset(b2);
    assert forall y :: l[y] == r[y] by {
      forall y ensures l[y] == r[y] {
        assert (l + multiset{x})[y] == (r + multiset{x})[y];
      }
    }
  }

  /** Listings that hold the same entries give the same candidates, up to
      order. */
  lemma {:induction false} CandidatesPermutation(a: seq<Entry>, b: seq<Entry>)
    requires multiset(a) == multiset(b)
    ensures multiset(Candidates(a)) == multiset(Candidates(b))
    decreases |a|
  {
    if a == [] {
      assert |b| == |multiset(b)| == 0;
    } else {
      var x := a[|a| - 1];
      var a' := a[..|a| - 1];
      assert a == a' + [x];
      assert x in multiset(b);
      var k :| 0 <= k < |b| && b[k] == x;
      var b1, b2 := b[..k], b[k + 1..];
      assert b == b1 + [x] + b2;
      RemoveOne(a', x, b1, b2);
      CandidatesPermutation(a', b1 + b2);
      var cx := Candidates([x]);
      CandidatesAppend(a', [x]);
      CandidatesAppend(b1, b2);
      CandidatesAppend(b1 + [x], b2);
      CandidatesAppend(b1, [x]);
      assert multiset(Candidates(a)) == multiset(Candidates(a')) + multiset(cx);
      assert multiset(Candidates(b)) == multiset(Candidates(b1)) + multiset(cx) + multiset(Candidates(b2));
      assert multiset(Candidates(b1 + b2)) == multiset(Candidates(b1)) + multiset(Candidates(b2));
    }
  }

  /** The result does not depend on the order in which `iterdir` yields
      the entries. */
  lemma ListingOrderIrrelevant(dirExists: bool, a: seq<Entry>, b: seq<Entry>)
    requires multiset(a) == multiset(b)
    ensures Listed(dirExists, a) == Listed(dirExists, b)
  {
    if dirExists {
      CandidatesPermutation(a, b);
      SortedUnique(Sort(Candidates(a)), Sort(Candidates(b)));
    }
  }

  /** The first name listed comes first in code-point order among all the
      models. */
  lemma ListedFirstIsLeast(dirExists: bool, listing: seq<Entry>, i: nat)
    requires Listed(dirExists, listing) != []
    requires i < |listing| && IsModel(listing[i])
    ensures LessEq(Listed(dirExists, listing)[0], listing[i].name)
  {
    var l := Listed(dirExists, listing);
    ListedModels(dirExists, listing, listing[i].name);
    var j :| 0 <= j < |l| && l[j] == listing[i].name;
    if j == 0 {
      LessEqRefl(l[0]);
    }
  }
}
