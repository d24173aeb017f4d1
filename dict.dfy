/** A Python `dict` with string keys: entries in insertion order, each key
    at most once. Assigning to a key that is present replaces its value
    where it stands; a new key goes at the end. */
module Dict {

  type Dict<V> = seq<(string, V)>

  function Keys<V>(d: Dict<V>): (ks: seq<string>)
    ensures |ks| == |d| && forall i :: 0 <= i < |d| ==> ks[i] == d[i].0
  {
    if d == [] then [] else Keys(d[..|d| - 1]) + [d[|d| - 1].0]
  }

  predicate DistinctKeys<V>(d: Dict<V>)
  {
    forall i, j :: 0 <= i < j < |d| ==> d[i].0 != d[j].0
  }

  /** The position of `k`, or `|d|` when `k` is absent. */
  function IndexOf<V>(d: Dict<V>, k: string): (i: nat)
    ensures i <= |d|
    ensures i < |d| ==> d[i].0 == k
    ensures forall j :: 0 <= j < i ==> d[j].0 != k
  {
    if d == [] then 0
    else if d[0].0 == k then 0
    else 1 + IndexOf(d[1..], k)
  }

  predicate HasKey<V>(d: Dict<V>, k: string)
  {
    IndexOf(d, k) < |d|
  }

  /** `d[k]`. */
  function Get<V>(d: Dict<V>, k: string): V
    requires HasKey(d, k)
  {
    d[IndexOf(d, k)].1
  }

  /** `d[k] = v`. */
  function Put<V>(d: Dict<V>, k: string, v: V): (r: Dict<V>)
  {
    var i := IndexOf(d, k);
    if i < |d| then d[i := (k, v)] else d + [(k, v)]
  }

  /** `d[k] = v` loses and duplicates no key; the key order changes only by
      appending `k` when it was new. */
  lemma PutKeys<V>(d: Dict<V>, k: string, v: V)
    requires DistinctKeys(d)
    ensures DistinctKeys(Put(d, k, v))
    ensures Keys(Put(d, k, v)) == if HasKey(d, k) then Keys(d) else Keys(d) + [k]
  {
  }

  /** After `d[k] = v` the key `k` reads back as `v`, and every other key
      is present and reads as before. */
  lemma PutAt<V>(d: Dict<V>, k: string, v: V, k': string)
    ensures HasKey(Put(d, k, v), k') <==> HasKey(d, k') || k' == k
    ensures k' == k ==> Get(Put(d, k, v), k') == v
    ensures k' != k && HasKey(d, k') ==> Get(Put(d, k, v), k') == Get(d, k')
  {
    var r := Put(d, k, v);
    if k' == k {
      IndexOfFirst(r, k, IndexOf(d, k));
    } else {
      IndexOfSame(d, r, k');
    }
  }

  lemma IndexOfFirst<V>(d: Dict<V>, k: string, i: nat)
    requires i < |d| && d[i].0 == k && forall j :: 0 <= j < i ==> d[j].0 != k
    ensures IndexOf(d, k) == i
  {
    var x := IndexOf(d, k);
    if x < i {
    } else if x > i {
    }
  }

  /** The first entry carrying `k` is the one `d[k]` reads. */
  lemma GetFirst<V>(d: Dict<V>, k: string, i: nat)
    requires i < |d| && d[i].0 == k && forall j :: 0 <= j < i ==> d[j].0 != k
    ensures HasKey(d, k) && Get(d, k) == d[i].1
  {
    IndexOfFirst(d, k, i);
  }

  /** Two dicts whose keys agree except where they equal `k` place every
      other key at the same position. */
  lemma IndexOfSame<V>(d: Dict<V>, r: Dict<V>, k': string)
    requires |d| <= |r|
    requires forall j :: 0 <= j < |d| ==> (d[j].0 == k' <==> r[j].0 == k') && (d[j].0 == k' ==> r[j] == d[j])
    requires forall j :: |d| <= j < |r| ==> r[j].0 != k'
    ensures HasKey(r, k') <==> HasKey(d, k')
    ensures HasKey(d, k') ==> IndexOf(r, k') == IndexOf(d, k') && Get(r, k') == Get(d, k')
  {
    var a := IndexOf(d, k');
    if a < |d| {
      IndexOfFirst(r, k', a);
    }
  }

  /** `for k, v in es: d[k] = v`. */
  function PutAll<V>(d: Dict<V>, es: seq<(string, V)>): Dict<V>
    decreases |es|
  {
    if es == [] then d else Put(PutAll(d, es[..|es| - 1]), es[|es| - 1].0, es[|es| - 1].1)
  }

  /** Entry `i` is the last one of `es` with key `k`. */
  predicate LastWith<V>(es: seq<(string, V)>, k: string, i: int)
  {
    0 <= i < |es| && es[i].0 == k && forall j :: i < j < |es| ==> es[j].0 != k
  }

  /** Assigning a list of entries in turn loses and duplicates no key and
      adds at most one entry per assignment. */
  lemma {:induction false} PutAllKeys<V>(d: Dict<V>, es: seq<(string, V)>)
    requires DistinctKeys(d)
    ensures DistinctKeys(PutAll(d, es)) && |PutAll(d, es)| <= |d| + |es|
    decreases |es|
  {
    if es != [] {
      var last := es[|es| - 1];
      PutAllKeys(d, es[..|es| - 1]);
      PutKeys(PutAll(d, es[..|es| - 1]), last.0, last.1);
    }
  }

  /** A key is present after the assignments exactly when it was present
      before or is assigned. */
  lemma {:induction false} PutAllHas<V>(d: Dict<V>, es: seq<(string, V)>, k: string)
    ensures HasKey(PutAll(d, es), k) <==> HasKey(d, k) || exists i :: 0 <= i < |es| && es[i].0 == k
    decreases |es|
  {
    if es != [] {
      var init := es[..|es| - 1];
      var last := es[|es| - 1];
      PutAllHas(d, init, k);
      PutAt(PutAll(d, init), last.0, last.1, k);
      if exists i :: 0 <= i < |es| && es[i].0 == k {
        var i :| 0 <= i < |es| && es[i].0 == k;
        if i < |es| - 1 {
          assert init[i].0 == k;
        }
      }
    }
  }

  /** A key holds the value of its last assignment. */
  lemma {:induction false} PutAllLast<V>(d: Dict<V>, es: seq<(string, V)>, k: string, i: int)
    requires LastWith(es, k, i)
    ensures HasKey(PutAll(d, es), k) && Get(PutAll(d, es), k) == es[i].1
    decreases |es|
  {
    var init := es[..|es| - 1];
    var last := es[|es| - 1];
    PutAt(PutAll(d, init), last.0, last.1, k);
    if i < |es| - 1 {
      assert LastWith(init, k, i);
      PutAllLast(d, init, k, i);
    }
  }

  /** A key that is never assigned keeps its value. */
  lemma {:induction false} PutAllUntouched<V>(d: Dict<V>, es: seq<(string, V)>, k: string)
    requires HasKey(d, k)
    requires forall i :: 0 <= i < |es| ==> es[i].0 != k
    ensures HasKey(PutAll(d, es), k) && Get(PutAll(d, es), k) == Get(d, k)
    decreases |es|
  {
    if es != [] {
      var init := es[..|es| - 1];
      var last := es[|es| - 1];
      assert forall i :: 0 <= i < |init| ==> init[i].0 != k by {
        forall i | 0 <= i < |init| ensures init[i].0 != k {
          assert init[i] == es[i];
        }
      }
      PutAllUntouched(d, init, k);
      PutAt(PutAll(d, init), last.0, last.1, k);
    }
  }
}
