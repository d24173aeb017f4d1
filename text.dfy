/** The Python string operations the core relies on, as functions on
    `seq<char>`: `in`, `startswith`, `endswith`, `replace`, `strip`,
    `split("/")[-1]`, and the code-point ordering `sorted` uses on `str`. */
module Text {

  predicate StartsWith(s: string, prefix: string)
  {
    |prefix| <= |s| && s[..|prefix|] == prefix
  }

  predicate EndsWith(s: string, suffix: string)
  {
    |suffix| <= |s| && s[|s| - |suffix|..] == suffix
  }

  /** `sub in s`. */
  predicate Contains(s: string, sub: string)
  {
    exists i :: 0 <= i <= |s| - |sub| && StartsWith(s[i..], sub)
  }

  lemma ContainsAt(s: string, sub: string, i: nat)
    requires i + |sub| <= |s| && s[i..i + |sub|] == sub
    ensures Contains(s, sub)
  {
    assert s[i..][..|sub|] == sub;
  }

  /** Contains, decided by scanning from the left. */
  lemma {:induction false} ContainsCons(s: string, sub: string)
    requires |sub| > 0 && |s| >= |sub|
    ensures Contains(s, sub) <==> StartsWith(s, sub) || Contains(s[1..], sub)
  {
    if Contains(s, sub) && !StartsWith(s, sub) {
      var i :| 0 <= i <= |s| - |sub| && StartsWith(s[i..], sub);
      assert i != 0;
      assert s[1..][i - 1..] == s[i..];
    }
    if Contains(s[1..], sub) {
      var i :| 0 <= i <= |s[1..]| - |sub| && StartsWith(s[1..][i..], sub);
      assert s[1..][i..] == s[i + 1..];
    }
    if StartsWith(s, sub) {
      assert s[0..] == s;
    }
  }

  // ---------------------------------------------------------------------
  // str.replace

  /** `s.replace(pat, rep)`: every occurrence of `pat`, found scanning left
      to right without overlap, replaced by `rep`. An empty `pat` matches
      before every character and at the end. */
  function ReplaceAll(s: string, pat: string, rep: string): string
    decreases |s|
  {
    if pat == [] then
      if s == [] then rep else rep + [s[0]] + ReplaceAll(s[1..], pat, rep)
    else if |s| < |pat| then s
    else if StartsWith(s, pat) then rep + ReplaceAll(s[|pat|..], pat, rep)
    else [s[0]] + ReplaceAll(s[1..], pat, rep)
  }

  /** Replacing a non-empty text that does not occur changes nothing. */
  lemma {:induction false} ReplaceAbsent(s: string, pat: string, rep: string)
    requires pat != [] && !Contains(s, pat)
    ensures ReplaceAll(s, pat, rep) == s
    decreases |s|
  {
    if |s| >= |pat| {
      ContainsCons(s, pat);
      ReplaceAbsent(s[1..], pat, rep);
      assert [s[0]] + s[1..] == s;
    }
  }

  /** A text that starts with `pat` has that occurrence replaced first. */
  lemma ReplaceLeading(pat: string, rest: string, rep: string)
    requires pat != []
    ensures ReplaceAll(pat + rest, pat, rep) == rep + ReplaceAll(rest, pat, rep)
  {
    assert (pat + rest)[..|pat|] == pat;
    assert (pat + rest)[|pat|..] == rest;
  }

  /** A replacement only ever deletes: the result is never longer than the
      input when `rep` is empty. */
  lemma {:induction false} ReplaceDeleteShrinks(s: string, pat: string)
    requires pat != []
    ensures |ReplaceAll(s, pat, [])| <= |s|
    ensures Contains(s, pat) ==> |ReplaceAll(s, pat, [])| < |s|
    decreases |s|
  {
    if |s| >= |pat| {
      ContainsCons(s, pat);
      if StartsWith(s, pat) {
        ReplaceDeleteShrinks(s[|pat|..], pat);
      } else {
        ReplaceDeleteShrinks(s[1..], pat);
      }
    }
  }

  // ---------------------------------------------------------------------
  // str.strip

  /** The characters for which Python's `str.isspace()` holds. */
  predicate IsSpace(c: char)
  {
    || ('\U{9}' <= c <= '\U{D}') || ('\U{1C}' <= c <= '\U{20}')
    || c == '\U{85}' || c == '\U{A0}' || c == '\U{1680}'
    || ('\U{2000}' <= c <= '\U{200A}')
    || c == '\U{2028}' || c == '\U{2029}' || c == '\U{202F}' || c == '\U{205F}' || c == '\U{3000}'
  }

  /** Where `lstrip` stops: the first index at or after `i` whose
      character is not whitespace, or `|s|`. */
  function SkipSpaces(s: string, i: nat): (k: nat)
    requires i <= |s|
    ensures i <= k <= |s|
    ensures forall j :: i <= j < k ==> IsSpace(s[j])
    ensures k == |s| || !IsSpace(s[k])
    decreases |s| - i
  {
    if i < |s| && IsSpace(s[i]) then SkipSpaces(s, i + 1) else i
  }

  /** Where `rstrip` of `s[lo..j]` stops: the end once the trailing run of
      whitespace, down to `lo`, is dropped. */
  function BackSpaces(s: string, lo: nat, j: nat): (k: nat)
    requires lo <= j <= |s|
    ensures lo <= k <= j
    ensures forall t :: k <= t < j ==> IsSpace(s[t])
    ensures k == lo || !IsSpace(s[k - 1])
  {
    if lo < j && IsSpace(s[j - 1]) then BackSpaces(s, lo, j - 1) else j
  }

  /** `s.strip()`: the text between the leading and the trailing run of
      whitespace. */
  function Strip(s: string): (r: string)
  {
    var lo := SkipSpaces(s, 0);
    s[lo..BackSpaces(s, lo, |s|)]
  }

  /** What `strip()` keeps is a slice of `s` with only whitespace cut on
      either side of it. */
  lemma StripSlice(s: string)
    ensures var lo, r := SkipSpaces(s, 0), Strip(s);
      && lo + |r| <= |s| && r == s[lo..lo + |r|]
      && (forall i :: 0 <= i < lo ==> IsSpace(s[i]))
      && (forall i :: lo + |r| <= i < |s| ==> IsSpace(s[i]))
  {
    var lo := SkipSpaces(s, 0);
    var hi := BackSpaces(s, lo, |s|);
    assert |Strip(s)| == hi - lo;
  }

  /** `strip()` leaves no whitespace at either end. */
  lemma StripEnds(s: string)
    ensures var r := Strip(s);
      r == [] || (!IsSpace(r[0]) && !IsSpace(r[|r| - 1]))
  {
    var lo := SkipSpaces(s, 0);
    var hi := BackSpaces(s, lo, |s|);
    var r := Strip(s);
    if r != [] {
      assert r[0] == s[lo] && r[|r| - 1] == s[hi - 1];
    }
  }

  /** Stripping twice is stripping once. */
  lemma StripIdempotent(s: string)
    ensures Strip(Strip(s)) == Strip(s)
  {
    var r := Strip(s);
    StripEnds(s);
    if r != [] {
      assert SkipSpaces(r, 0) == 0;
      assert BackSpaces(r, 0, |r|) == |r|;
      assert r[0..|r|] == r;
    }
  }

  // ---------------------------------------------------------------------
  // split("/")[-1]

  /** `s.split("/")[-1]`: the text after the last `/`, or all of `s`. */
  function LastComponent(s: string): (r: string)
    ensures |r| <= |s| && r == s[|s| - |r|..]
    ensures forall i :: 0 <= i < |r| ==> r[i] != '/'
    ensures |r| < |s| ==> s[|s| - |r| - 1] == '/'
  {
    if s == [] then []
    else if s[|s| - 1] == '/' then []
    else LastComponent(s[..|s| - 1]) + [s[|s| - 1]]
  }

  /** The last component of `dir/name` is `name` when `name` has no `/`. */
  lemma {:induction false} LastComponentOfPath(dir: string, name: string)
    requires forall i :: 0 <= i < |name| ==> name[i] != '/'
    ensures LastComponent(dir + "/" + name) == name
    decreases |name|
  {
    var s := dir + "/" + name;
    if name != [] {
      var init := name[..|name| - 1];
      assert s[..|s| - 1] == dir + "/" + init;
      LastComponentOfPath(dir, init);
      assert init + [name[|name| - 1]] == name;
    }
  }

  /** `str(Path(dir) / name)` for a `name` without `/`: `dir/name`, or `dir`
      itself when `name` is empty or `.`. */
  function JoinPath(dir: string, name: string): (r: string)
  {
    if name == "" || name == "." then dir else dir + "/" + name
  }

  // ---------------------------------------------------------------------
  // The order of `sorted` on `str`

  /** Python's `a <= b` on `str`: code-point lexicographic order. */
  predicate LessEq(a: string, b: string)
    decreases |a|
  {
    a == [] || (b != [] && (a[0] < b[0] || (a[0] == b[0] && LessEq(a[1..], b[1..]))))
  }

  lemma {:induction false} LessEqRefl(a: string)
    ensures LessEq(a, a)
    decreases |a|
  {
    if a != [] {
      LessEqRefl(a[1..]);
    }
  }

  lemma {:induction false} LessEqTotal(a: string, b: string)
    ensures LessEq(a, b) || LessEq(b, a)
    decreases |a|
  {
    if a != [] && b != [] && a[0] == b[0] {
      LessEqTotal(a[1..], b[1..]);
    }
  }

  lemma {:induction false} LessEqTrans(a: string, b: string, c: string)
    requires LessEq(a, b) && LessEq(b, c)
    ensures LessEq(a, c)
    decreases |a|
  {
    if a != [] && a[0] == b[0] && b[0] == c[0] {
      LessEqTrans(a[1..], b[1..], c[1..]);
    }
  }

  lemma {:induction false} LessEqAntisym(a: string, b: string)
    requires LessEq(a, b) && LessEq(b, a)
    ensures a == b
    decreases |a|
  {
    if a != [] {
      LessEqAntisym(a[1..], b[1..]);
      assert a == [a[0]] + a[1..] && b == [b[0]] + b[1..];
    }
  }

  predicate Sorted(s: seq<string>)
  {
    forall i, j :: 0 <= i < j < |s| ==> LessEq(s[i], s[j])
  }

  /** `x` placed into the sorted list `s` before the first element above it. */
  function Insert(x: string, s: seq<string>): (r: seq<string>)
    requires Sorted(s)
    ensures Sorted(r) && multiset(r) == multiset(s) + multiset{x}
  {
    if s == [] then [x]
    else if LessEq(x, s[0]) then
      SortedFront(x, s);
      assert multiset([x] + s) == multiset{x} + multiset(s);
      [x] + s
    else
      LessEqTotal(x, s[0]);
      assert s == [s[0]] + s[1..];
      assert Sorted(s[1..]) by {
        forall i, j | 0 <= i < j < |s| - 1 ensures LessEq(s[1..][i], s[1..][j]) {
          assert s[1..][i] == s[i + 1] && s[1..][j] == s[j + 1];
        }
      }
      var rest := Insert(x, s[1..]);
      SortedBelow(s[0], rest, s[1..], x);
      [s[0]] + rest
  }

  lemma SortedFront(x: string, s: seq<string>)
    requires Sorted(s) && s != [] && LessEq(x, s[0])
    ensures Sorted([x] + s)
  {
    forall j | 0 <= j < |s| ensures LessEq(x, s[j]) {
      if j > 0 {
        LessEqTrans(x, s[0], s[j]);
      }
    }
    SortedCons(x, s);
  }

  /** A name no greater than any of a sorted list, put in front of it. */
  lemma SortedCons(y: string, s: seq<string>)
    requires Sorted(s) && forall j :: 0 <= j < |s| ==> LessEq(y, s[j])
    ensures Sorted([y] + s)
  {
    var t := [y] + s;
    forall i, j | 0 <= i < j < |t| ensures LessEq(t[i], t[j]) {
      assert t[j] == s[j - 1];
      if i > 0 {
        assert t[i] == s[i - 1];
      }
    }
  }

  /** `y` in front of a sorted list made of `tail` and `x`, all at least `y`,
      keeps it sorted. */
  lemma SortedBelow(y: string, rest: seq<string>, tail: seq<string>, x: string)
    requires Sorted(rest) && multiset(rest) == multiset(tail) + multiset{x}
    requires Sorted([y] + tail) && LessEq(y, x)
    ensures Sorted([y] + rest)
    ensures multiset([y] + rest) == multiset([y] + tail) + multiset{x}
  {
    forall j | 0 <= j < |rest| ensures LessEq(y, rest[j]) {
      var z := rest[j];
      assert z in multiset(rest);
      if z != x {
        assert z in multiset(tail);
        var k :| 0 <= k < |tail| && tail[k] == z;
        var yt := [y] + tail;
        assert yt[0] == y && yt[k + 1] == z;
        assert LessEq(yt[0], yt[k + 1]);
      }
    }
    SortedCons(y, rest);
    assert multiset([y] + rest) == multiset{y} + multiset(rest);
    assert multiset([y] + tail) == multiset{y} + multiset(tail);
  }

  /** `sorted(names)`: the same names, in ascending order. */
  function Sort(s: seq<string>): (r: seq<string>)
    ensures Sorted(r) && multiset(r) == multiset(s)
  {
    if s == [] then []
    else
      assert s == s[..|s| - 1] + [s[|s| - 1]];
      Insert(s[|s| - 1], Sort(s[..|s| - 1]))
  }

  /** Two sorted lists with the same elements start with the same one. */
  lemma SortedSameHead(a: seq<string>, b: seq<string>)
    requires Sorted(a) && Sorted(b) && multiset(a) == multiset(b) && a != []
    ensures b != [] && a[0] == b[0]
  {
    assert a[0] in multiset(b);
    assert b != [] && b[0] in multiset(a);
    var i :| 0 <= i < |b| && b[i] == a[0];
    var j :| 0 <= j < |a| && a[j] == b[0];
    assert LessEq(b[0], a[0]) by {
      if i == 0 { LessEqRefl(a[0]); }
    }
    assert LessEq(a[0], b[0]) by {
      if j == 0 { LessEqRefl(a[0]); }
    }
    LessEqAntisym(a[0], b[0]);
  }

  lemma TailMultiset(a: seq<string>)
    requires a != []
    ensures multiset(a[1..]) == multiset(a) - multiset{a[0]}
  {
    assert a == [a[0]] + a[1..];
  }

  /** A sorted list is determined by its elements: `sorted` does not depend
      on the order in which the names were listed. */
  lemma {:induction false} SortedUnique(a: seq<string>, b: seq<string>)
    requires Sorted(a) && Sorted(b) && multiset(a) == multiset(b)
    ensures a == b
    decreases |a|
  {
    if a != [] {
      SortedSameHead(a, b);
      TailMultiset(a);
      TailMultiset(b);
      SortedUnique(a[1..], b[1..]);
      assert a == [a[0]] + a[1..] && b == [b[0]] + b[1..];
    } else {
      assert |b| == |multiset(b)| == 0;
    }
  }
}
