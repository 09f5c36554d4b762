/**
 * Python dictionaries keep their keys in insertion order; a dictionary is a sequence of
 * (key, value) entries here. Assigning to an existing key keeps its place.
 */
module Dicts {
  import opened Wrappers

  /** `key in d`. */
  predicate HasKey<K(==), V>(es: seq<(K, V)>, k: K)
  {
    exists i :: 0 <= i < |es| && es[i].0 == k
  }

  /** `d.get(k)`: the value of the first entry with key `k`. */
  function Lookup<K(==, !new), V>(es: seq<(K, V)>, k: K): (r: Option<V>)
    ensures r.None? <==> !HasKey(es, k)
    ensures r.Some? ==> exists i :: 0 <= i < |es| && es[i] == (k, r.value)
  {
    if es == [] then None
    else if es[0].0 == k then Some(es[0].1)
    else
      var r := Lookup(es[1..], k);
      assert forall i :: 1 <= i < |es| ==> es[i] == es[1..][i - 1];
      assert HasKey(es[1..], k) ==> HasKey(es, k);
      r
  }

  /** `d[k] = v`: an existing key keeps its place, a new key goes last. */
  function Put<K(==, !new), V>(es: seq<(K, V)>, k: K, v: V): (r: seq<(K, V)>)
    ensures Lookup(r, k) == Some(v)
    ensures forall j :: j != k ==> Lookup(r, j) == Lookup(es, j)
    ensures HasKey(es, k) ==> |r| == |es|
    ensures !HasKey(es, k) ==> r == es + [(k, v)]
  {
    if es == [] then [(k, v)]
    else if es[0].0 == k then
      var r := [(k, v)] + es[1..];
      assert forall i :: 1 <= i < |es| ==> r[i] == es[i];
      r
    else
      var rest := Put(es[1..], k, v);
      PutBehind(es, k, v, rest);
      [es[0]] + rest
  }

  /** An entry with another key in front of a `Put` keeps the `Put`'s promises. */
  lemma PutBehind<K(!new), V>(es: seq<(K, V)>, k: K, v: V, rest: seq<(K, V)>)
    requires es != [] && es[0].0 != k
    requires Lookup(rest, k) == Some(v)
    requires forall j :: j != k ==> Lookup(rest, j) == Lookup(es[1..], j)
    requires HasKey(es[1..], k) ==> |rest| == |es[1..]|
    requires !HasKey(es[1..], k) ==> rest == es[1..] + [(k, v)]
    ensures Lookup([es[0]] + rest, k) == Some(v)
    ensures forall j :: j != k ==> Lookup([es[0]] + rest, j) == Lookup(es, j)
    ensures HasKey(es, k) ==> |[es[0]] + rest| == |es|
    ensures !HasKey(es, k) ==> [es[0]] + rest == es + [(k, v)]
  {
    var r := [es[0]] + rest;
    assert r[1..] == rest;
    assert HasKey(es, k) <==> HasKey(es[1..], k) by {
      if HasKey(es, k) {
        var i :| 0 <= i < |es| && es[i].0 == k;
        assert es[1..][i - 1].0 == k;
      }
      if HasKey(es[1..], k) {
        var i :| 0 <= i < |es[1..]| && es[1..][i].0 == k;
        assert es[i + 1].0 == k;
      }
    }
    if !HasKey(es, k) {
      assert es == [es[0]] + es[1..];
    }
  }

  /** `list(d.keys())`. */
  function Keys<K, V>(es: seq<(K, V)>): (r: seq<K>)
    ensures |r| == |es|
    ensures forall i :: 0 <= i < |es| ==> r[i] == es[i].0
  {
    if es == [] then [] else [es[0].0] + Keys(es[1..])
  }

  lemma KeysListed<K(!new), V>(es: seq<(K, V)>, k: K)
    ensures k in Keys(es) <==> HasKey(es, k)
  {
    var ks := Keys(es);
    if k in ks {
      var i :| 0 <= i < |ks| && ks[i] == k;
      assert es[i].0 == k;
    }
    if HasKey(es, k) {
      var i :| 0 <= i < |es| && es[i].0 == k;
      assert ks[i] == k;
    }
  }

  /** Setting a key to the value it already has changes nothing. */
  lemma {:induction false} PutSame<K(!new), V>(es: seq<(K, V)>, k: K, v: V)
    requires Lookup(es, k) == Some(v)
    ensures Put(es, k, v) == es
  {
    if es != [] && es[0].0 != k {
      PutSame(es[1..], k, v);
    }
  }

  /** No key twice. */
  predicate DistinctKeys<K(==), V>(es: seq<(K, V)>)
  {
    forall i, j :: 0 <= i < j < |es| ==> es[i].0 != es[j].0
  }

  lemma PutDistinct<K(!new), V>(es: seq<(K, V)>, k: K, v: V)
    requires DistinctKeys(es)
    ensures DistinctKeys(Put(es, k, v))
  {
    var r := Put(es, k, v);
    if HasKey(es, k) {
      PutKeepsKeys(es, k, v);
      forall i, j | 0 <= i < j < |r| ensures r[i].0 != r[j].0 {
        assert r[i].0 == es[i].0 && r[j].0 == es[j].0;
      }
    } else {
      forall i, j | 0 <= i < j < |r| ensures r[i].0 != r[j].0 {
        assert r[i] == es[i];
        if j < |es| {
          assert r[j] == es[j];
        }
      }
    }
  }

  /** Assigning to a present key changes no key at any position. */
  lemma {:induction false} PutKeepsKeys<K(!new), V>(es: seq<(K, V)>, k: K, v: V)
    requires HasKey(es, k)
    ensures |Put(es, k, v)| == |es| && forall i :: 0 <= i < |es| ==> Put(es, k, v)[i].0 == es[i].0
  {
    if es[0].0 != k {
      var i :| 0 <= i < |es| && es[i].0 == k;
      assert es[1..][i - 1].0 == k;
      PutKeepsKeys(es[1..], k, v);
      assert Put(es, k, v) == [es[0]] + Put(es[1..], k, v);
    }
  }

  /** `{k: v for k, v in pairs}`: a key keeps the place of its first pair and the value of its
      last one. */
  function FromPairs<K(==, !new), V>(ps: seq<(K, V)>): (r: seq<(K, V)>)
    ensures DistinctKeys(r)
  {
    if ps == [] then []
    else
      var prev := FromPairs(ps[..|ps| - 1]);
      PutDistinct(prev, ps[|ps| - 1].0, ps[|ps| - 1].1);
      Put(prev, ps[|ps| - 1].0, ps[|ps| - 1].1)
  }

  /** Position of the last pair with key `k`, or -1. */
  function LastKeyed<K(==), V>(ps: seq<(K, V)>, k: K): (i: int)
    ensures -1 <= i < |ps|
    ensures i >= 0 ==> ps[i].0 == k && forall j :: i < j < |ps| ==> ps[j].0 != k
    ensures i == -1 ==> forall j :: 0 <= j < |ps| ==> ps[j].0 != k
  {
    if ps == [] then -1
    else if ps[|ps| - 1].0 == k then |ps| - 1
    else LastKeyed(ps[..|ps| - 1], k)
  }

  /** Each key is present exactly when some pair has it, with the value of the last such pair. */
  lemma {:induction false} FromPairsLastWins<K(!new), V>(ps: seq<(K, V)>, k: K)
    ensures Lookup(FromPairs(ps), k) == (if LastKeyed(ps, k) >= 0 then Some(ps[LastKeyed(ps, k)].1) else None)
  {
    if ps != [] {
      FromPairsLastWins(ps[..|ps| - 1], k);
    }
  }
}
