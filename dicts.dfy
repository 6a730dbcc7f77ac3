/**
 * Python dictionaries with string keys, as insertion-ordered sequences of
 * (key, value) pairs whose keys are pairwise distinct.
 */
module Dicts {
  import opened Wrappers

  ghost predicate UniqueKeys<V>(d: seq<(string, V)>) {
    forall i, j :: 0 <= i < j < |d| ==> d[i].0 != d[j].0
  }

  type Dict<V> = d: seq<(string, V)> | UniqueKeys(d) witness []

  function KeysOf<V>(d: seq<(string, V)>): (ks: seq<string>)
    ensures |ks| == |d| && forall i :: 0 <= i < |d| ==> ks[i] == d[i].0
  {
    if d == [] then [] else [d[0].0] + KeysOf(d[1..])
  }

  /** Position of key `k` in `d`, if any (the first one). */
  function Find<V>(d: seq<(string, V)>, k: string): (r: Option<nat>)
    ensures r.Some? ==> r.value < |d| && d[r.value].0 == k
                        && forall j :: 0 <= j < r.value ==> d[j].0 != k
    ensures r.None? ==> forall j :: 0 <= j < |d| ==> d[j].0 != k
  {
    if d == [] then None
    else if d[0].0 == k then Some(0)
    else match Find(d[1..], k)
      case None => None
      case Some(i) => Some(i + 1)
  }

  /** The value stored under key `k`, or None when the key is absent. */
  function Get<V>(d: seq<(string, V)>, k: string): Option<V> {
    match Find(d, k)
    case None => None
    case Some(i) => Some(d[i].1)
  }

  /**
   * Storing `v` under `k`: an existing key keeps its position and takes the new value,
   * a new key is appended at the end.
   */
  function Put<V>(d: Dict<V>, k: string, v: V): (r: Dict<V>)
    ensures Get(r, k) == Some(v)
    ensures forall k' :: k' != k ==> Get(r, k') == Get(d, k')
    ensures Get(d, k).Some? ==> |r| == |d| && KeysOf(r) == KeysOf(d)
    ensures Get(d, k).None? ==> r == d + [(k, v)]
  {
    match Find(d, k)
    case Some(i) =>
      var r := d[i := (k, v)];
      assert forall k' :: k' != k ==> Find(r, k') == Find(d, k') by {
        forall k' | k' != k ensures Find(r, k') == Find(d, k') {
          FindSameKeys(r, d, k');
        }
      }
      assert Find(r, k) == Some(i) by { FindSameKeys(r, d, k); }
      r
    case None =>
      var r := d + [(k, v)];
      assert forall k' :: k' != k ==> Find(r, k') == Find(d, k') by {
        forall k' | k' != k ensures Find(r, k') == Find(d, k') {
          FindAppend(d, (k, v), k');
        }
      }
      FindAppend(d, (k, v), k);
      r
  }

  lemma {:induction false} FindSameKeys<V>(a: seq<(string, V)>, b: seq<(string, V)>, k: string)
    requires |a| == |b| && forall i :: 0 <= i < |a| ==> a[i].0 == b[i].0
    ensures Find(a, k) == Find(b, k)
  {
    if a != [] && a[0].0 != k {
      FindSameKeys(a[1..], b[1..], k);
    }
  }

  lemma {:induction false} FindAppend<V>(d: seq<(string, V)>, e: (string, V), k: string)
    ensures Find(d + [e], k) == (if Find(d, k).Some? then Find(d, k) else if e.0 == k then Some(|d|) else None)
  {
    if d != [] {
      assert (d + [e])[1..] == d[1..] + [e];
      FindAppend(d[1..], e, k);
    }
  }

  /**
   * A dictionary built with the keys of the first `i` entries of `d`, in
   * order, does not hold the key of entry `i`, and adding it extends the
   * correspondence by one.
   */
  lemma KeysStep<V, W>(d: Dict<V>, built: seq<(string, W)>, i: nat, v: W)
    requires i < |d| && KeysOf(built) == KeysOf(d[..i])
    ensures Find(built, d[i].0).None?
    ensures KeysOf(built + [(d[i].0, v)]) == KeysOf(d[..i + 1])
  {
    assert forall j :: 0 <= j < i ==> built[j].0 == KeysOf(built)[j] == d[j].0;
  }

  /** In a sequence with distinct keys, an entry's key is not among those before it. */
  lemma PrefixFresh<V>(a: seq<(string, V)>, e: (string, V), rest: seq<(string, V)>)
    requires UniqueKeys(a + [e] + rest)
    ensures Find(a, e.0).None?
  {
    var s := a + [e] + rest;
    assert forall j :: 0 <= j < |a| ==> a[j].0 == s[j].0 && s[|a|] == e;
  }
}
