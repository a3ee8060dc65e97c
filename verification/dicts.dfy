/** Insertion-ordered dictionaries, as Python's `dict` behaves.

    A dictionary is an association list whose keys are distinct. Assigning
    `d[k] = v` overwrites the value in place when `k` is present (the key keeps
    its original position) and appends otherwise. Iteration order matters in
    the modelled code: which entry wins a key collision depends on it. */
module Dicts {
  import opened Wrappers

  type Dict<K, V> = seq<(K, V)>

  predicate DistinctKeys<K(==), V>(d: Dict<K, V>) {
    forall i, j :: 0 <= i < j < |d| ==> d[i].0 != d[j].0
  }

  /** The set of keys of an association list. */
  function KeySet<K, V>(d: Dict<K, V>): set<K> {
    set i | 0 <= i < |d| :: d[i].0
  }

  /** The keys of an association list, in order. */
  function Keys<K, V>(d: Dict<K, V>): (ks: seq<K>)
    ensures |ks| == |d|
    ensures forall i :: 0 <= i < |d| ==> ks[i] == d[i].0
  {
    seq(|d|, i requires 0 <= i < |d| => d[i].0)
  }

  /** The values of an association list, in order. */
  function Values<K, V>(d: Dict<K, V>): (vs: seq<V>)
    ensures |vs| == |d|
    ensures forall i :: 0 <= i < |d| ==> vs[i] == d[i].1
  {
    seq(|d|, i requires 0 <= i < |d| => d[i].1)
  }

  /** Lookup: the value of the LAST pair carrying key `k`. On a dictionary
      (distinct keys) that is the only such pair; on a raw list of pairs it is
      the value a Python dict comprehension over that list would keep. */
  function Get<K(==), V>(d: Dict<K, V>, k: K): Option<V> {
    if |d| == 0 then None
    else if d[|d| - 1].0 == k then Some(d[|d| - 1].1)
    else Get(d[..|d| - 1], k)
  }

  /** Position of key `k`, if present. */
  function IndexOfKey<K(==), V>(d: Dict<K, V>, k: K): (r: Option<nat>)
    ensures r.Some? ==> r.value < |d| && d[r.value].0 == k
    ensures r.None? ==> forall i :: 0 <= i < |d| ==> d[i].0 != k
  {
    if |d| == 0 then None
    else if d[|d| - 1].0 == k then Some(|d| - 1)
    else IndexOfKey(d[..|d| - 1], k)
  }

  /** Python's `d[k] = v`: overwrite in place, or append a new key. */
  function Put<K(==), V>(d: Dict<K, V>, k: K, v: V): (r: Dict<K, V>)
    requires DistinctKeys(d)
    ensures DistinctKeys(r)
    ensures KeySet(r) == KeySet(d) + {k}
  {
    match IndexOfKey(d, k)
    case Some(i) =>
      var r := d[i := (k, v)];
      assert forall j :: 0 <= j < |d| ==> r[j].0 == d[j].0;
      r
    case None =>
      var r := d + [(k, v)];
      assert KeySet(r) == KeySet(d) + {k} by {
        forall x | x in KeySet(r) ensures x in KeySet(d) + {k} {
          var i :| 0 <= i < |r| && r[i].0 == x;
          if i < |d| { assert r[i] == d[i]; }
        }
        forall x | x in KeySet(d) ensures x in KeySet(r) {
          var i :| 0 <= i < |d| && d[i].0 == x;
          assert r[i] == d[i];
        }
        assert r[|d|].0 == k;
      }
      r
  }

  /** A dict comprehension `{k: v for k, v in ps}`: later pairs overwrite earlier ones. */
  function FromPairs<K(==), V>(ps: seq<(K, V)>): (d: Dict<K, V>)
    ensures DistinctKeys(d)
    ensures KeySet(d) == KeySet(ps)
  {
    if |ps| == 0 then []
    else
      var d := Put(FromPairs(ps[..|ps| - 1]), ps[|ps| - 1].0, ps[|ps| - 1].1);
      assert KeySet(ps) == KeySet(ps[..|ps| - 1]) + {ps[|ps| - 1].0} by {
        forall x | x in KeySet(ps) ensures x in KeySet(ps[..|ps| - 1]) + {ps[|ps| - 1].0} {
          var i :| 0 <= i < |ps| && ps[i].0 == x;
          if i < |ps| - 1 { assert ps[..|ps| - 1][i] == ps[i]; }
        }
      }
      d
  }

  /** `Get` finds a key exactly when some pair carries it. */
  lemma {:induction false} GetNone<K, V>(d: Dict<K, V>, k: K)
    ensures Get(d, k).None? <==> forall i :: 0 <= i < |d| ==> d[i].0 != k
  {
    if |d| > 0 && d[|d| - 1].0 != k {
      var n := |d| - 1;
      GetNone(d[..n], k);
      assert forall i :: 0 <= i < n ==> d[..n][i] == d[i];
    }
  }

  /** `Get` returns the value of the last pair carrying the key. */
  lemma {:induction false} GetLast<K, V>(d: Dict<K, V>, k: K, i: nat)
    requires i < |d| && d[i].0 == k
    requires forall j :: i < j < |d| ==> d[j].0 != k
    ensures Get(d, k) == Some(d[i].1)
  {
    var n := |d| - 1;
    if i < n {
      assert d[n].0 != k;
      GetLast(d[..n], k, i);
    }
  }

  /** Conversely, a found value comes from the last pair carrying the key. */
  lemma {:induction false} GetFound<K, V>(d: Dict<K, V>, k: K) returns (i: nat)
    requires Get(d, k).Some?
    ensures i < |d| && d[i] == (k, Get(d, k).value)
    ensures forall j :: i < j < |d| ==> d[j].0 != k
  {
    var n := |d| - 1;
    if d[n].0 == k {
      i := n;
    } else {
      i := GetFound(d[..n], k);
      assert d[..n][i] == d[i];
    }
  }

  /** `GetFound` for use inside an expression. */
  lemma {:induction false} GetWitness<K, V>(d: Dict<K, V>, k: K)
    requires Get(d, k).Some?
    ensures exists i :: 0 <= i < |d| && d[i] == (k, Get(d, k).value) && forall j :: i < j < |d| ==> d[j].0 != k
  {
    var i := GetFound(d, k);
  }

  /** In a dictionary every key is found with its own value. */
  lemma {:induction false} GetAt<K, V>(d: Dict<K, V>, i: nat)
    requires DistinctKeys(d) && i < |d|
    ensures Get(d, d[i].0) == Some(d[i].1)
  {
    GetLast(d, d[i].0, i);
  }

  /** `d[k] = v` makes `k` map to `v` and changes no other key. */
  lemma {:induction false} PutGet<K, V>(d: Dict<K, V>, k: K, v: V, k': K)
    requires DistinctKeys(d)
    ensures Get(Put(d, k, v), k') == if k' == k then Some(v) else Get(d, k')
  {
    var r := Put(d, k, v);
    match IndexOfKey(d, k)
    case Some(i) =>
      assert r == d[i := (k, v)];
      if k' == k {
        GetAt(r, i);
      } else if Get(d, k').Some? {
        var j := GetFound(d, k');
        GetAt(d, j);
        GetAt(r, j);
      } else {
        GetNone(d, k');
        GetNone(r, k');
      }
    case None =>
      assert r == d + [(k, v)];
      if k' != k {
        assert r[..|r| - 1] == d;
      }
  }

  /** Building a dictionary from pairs keeps, for every key, the last value given. */
  lemma {:induction false} FromPairsGet<K, V>(ps: seq<(K, V)>, k: K)
    ensures Get(FromPairs(ps), k) == Get(ps, k)
  {
    if |ps| > 0 {
      var n := |ps| - 1;
      FromPairsGet(ps[..n], k);
      PutGet(FromPairs(ps[..n]), ps[n].0, ps[n].1, k);
    }
  }
}
