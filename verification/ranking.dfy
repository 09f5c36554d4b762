/**
 * The re-ranking of retrieved memories (memory/associate.py, `AssociateRetriever`): candidates
 * are ordered by last access, scored by recency, relevance and importance, each min-max
 * normalised and weighted, re-ordered by the total and cut to `retrieve_max`. The similarity
 * score of a candidate comes from the vector search and is an input here.
 */
module Ranking {

  /** The smallest and largest of a non-empty list. */
  function MinOf(xs: seq<real>): (m: real)
    requires xs != []
    ensures m in xs && forall i :: 0 <= i < |xs| ==> m <= xs[i]
  {
    if |xs| == 1 then xs[0]
    else
      var t := MinOf(xs[1..]);
      assert forall i :: 1 <= i < |xs| ==> xs[i] == xs[1..][i - 1];
      if xs[0] <= t then xs[0] else t
  }

  function MaxOf(xs: seq<real>): (m: real)
    requires xs != []
    ensures m in xs && forall i :: 0 <= i < |xs| ==> xs[i] <= m
  {
    if |xs| == 1 then xs[0]
    else
      var t := MaxOf(xs[1..]);
      assert forall i :: 1 <= i < |xs| ==> xs[i] == xs[1..][i - 1];
      if xs[0] >= t then xs[0] else t
  }

  /** `_normalize(data, factor)` with the default target range [0, 1]: all-equal data maps to
      the middle, factor / 2; otherwise each value is placed linearly between min and max. The
      empty list, on which `min` raises, is never passed. */
  function Normalize(data: seq<real>, factor: real): (r: seq<real>)
    ensures |r| == |data|
  {
    if data == [] then []
    else
      var lo := MinOf(data);
      var hi := MaxOf(data);
      if hi - lo == 0.0 then seq(|data|, _ => factor / 2.0)
      else seq(|data|, i requires 0 <= i < |data| => Place(data[i], lo, hi, factor))
  }

  /** `(d - min) * factor / (max - min)`. */
  function Place(d: real, lo: real, hi: real, factor: real): real
    requires hi != lo
  {
    (d - lo) * factor / (hi - lo)
  }

  /** Equal data: every value becomes half the factor. */
  lemma NormalizeFlat(data: seq<real>, factor: real, i: int)
    requires 0 <= i < |data| && forall j :: 0 <= j < |data| ==> data[j] == data[0]
    ensures Normalize(data, factor)[i] == factor / 2.0
  {
    var lo := MinOf(data);
    var hi := MaxOf(data);
    assert lo == data[0] && hi == data[0];
  }

  /** One entry of the normalised list. */
  lemma NormalizeAt(data: seq<real>, factor: real, i: int)
    requires 0 <= i < |data|
    ensures var lo := MinOf(data); var hi := MaxOf(data);
            Normalize(data, factor)[i] == if hi - lo == 0.0 then factor / 2.0 else Place(data[i], lo, hi, factor)
  {
  }

  /** Unequal data and a non-negative factor: values land in [0, factor], a minimum at 0 and a
      maximum at the factor, and the order of the data is kept. */
  lemma NormalizeSpread(data: seq<real>, factor: real, i: int, j: int)
    requires factor >= 0.0 && 0 <= i < |data| && 0 <= j < |data|
    requires exists k :: 0 <= k < |data| && data[k] != data[0]
    ensures var r := Normalize(data, factor);
            0.0 <= r[i] <= factor &&
            (data[i] == MinOf(data) ==> r[i] == 0.0) &&
            (data[i] == MaxOf(data) ==> r[i] == factor) &&
            (data[i] <= data[j] ==> r[i] <= r[j])
  {
    var lo := MinOf(data);
    var hi := MaxOf(data);
    var k :| 0 <= k < |data| && data[k] != data[0];
    assert hi - lo > 0.0;
    NormalizeAt(data, factor, i);
    NormalizeAt(data, factor, j);
    Scale(data[i], lo, hi, factor);
    if data[i] <= data[j] {
      ScaleMonotone(data[i], data[j], lo, hi, factor);
    }
  }

  lemma Scale(x: real, lo: real, hi: real, f: real)
    requires lo <= x <= hi && lo < hi && f >= 0.0
    ensures 0.0 <= Place(x, lo, hi, f) <= f
    ensures x == lo ==> Place(x, lo, hi, f) == 0.0
    ensures x == hi ==> Place(x, lo, hi, f) == f
  {
    var a := x - lo;
    var d := hi - lo;
    assert a * f <= d * f;
    assert a * f / d <= d * f / d;
  }

  lemma ScaleMonotone(x: real, y: real, lo: real, hi: real, f: real)
    requires x <= y && lo < hi && f >= 0.0
    ensures Place(x, lo, hi, f) <= Place(y, lo, hi, f)
  {
    assert (x - lo) * f <= (y - lo) * f;
  }

  function Pow(x: real, n: nat): real
  {
    if n == 0 then 1.0 else x * Pow(x, n - 1)
  }

  /** `[fac**i for i in range(1, n + 1)]`. */
  function Decays(fac: real, n: nat): (r: seq<real>)
    ensures |r| == n && forall i :: 0 <= i < n ==> r[i] == Pow(fac, i + 1)
  {
    seq(n, i requires 0 <= i < n => Pow(fac, i + 1))
  }

  /** With a decay factor strictly between 0 and 1, each recency weight is strictly below the one
      before, so the most recently accessed candidate gets the full weight and the least recent 0. */
  lemma {:induction false} DecaysDecrease(fac: real, n: nat, i: nat)
    requires 0.0 < fac < 1.0 && 1 <= i < n
    ensures Decays(fac, n)[i] < Decays(fac, n)[i - 1]
  {
    PowPositive(fac, i);
    assert Pow(fac, i + 1) == fac * Pow(fac, i);
  }

  lemma {:induction false} PowPositive(x: real, n: nat)
    requires x > 0.0
    ensures Pow(x, n) > 0.0
  {
    if n > 0 {
      PowPositive(x, n - 1);
    }
  }

  lemma {:induction false} DecaysSorted(fac: real, n: nat, i: nat, j: nat)
    requires 0.0 < fac < 1.0 && i <= j < n
    ensures Decays(fac, n)[j] <= Decays(fac, n)[i]
    decreases j - i
  {
    if i < j {
      DecaysDecrease(fac, n, j);
      DecaysSorted(fac, n, i, j - 1);
    }
  }

  lemma RecencyEnds(fac: real, n: nat, weight: real)
    requires 0.0 < fac < 1.0 && n >= 2 && weight >= 0.0
    ensures Normalize(Decays(fac, n), weight)[0] == weight
    ensures Normalize(Decays(fac, n), weight)[n - 1] == 0.0
  {
    var d := Decays(fac, n);
    DecaysDecrease(fac, n, 1);
    forall k | 0 <= k < n ensures d[k] <= d[0] && d[n - 1] <= d[k] {
      DecaysSorted(fac, n, 0, k);
      DecaysSorted(fac, n, k, n - 1);
    }
    var lo := MinOf(d);
    var hi := MaxOf(d);
    assert hi == d[0] && lo == d[n - 1];
    NormalizeSpread(d, weight, 0, n - 1);
    NormalizeSpread(d, weight, n - 1, 0);
  }

  /** Stable descending sort by a key: `sorted(xs, key=key, reverse=True)`. */
  function SortDesc<T>(xs: seq<T>, key: T -> real): (r: seq<T>)
    ensures |r| == |xs|
  {
    if xs == [] then [] else InsertDesc(xs[0], SortDesc(xs[1..], key), key)
  }

  /** Places `x` before the first element whose key is not larger. */
  function InsertDesc<T>(x: T, ys: seq<T>, key: T -> real): (r: seq<T>)
    ensures |r| == |ys| + 1
  {
    if ys == [] then [x]
    else if key(ys[0]) > key(x) then [ys[0]] + InsertDesc(x, ys[1..], key)
    else [x] + ys
  }

  predicate Descending<T>(ys: seq<T>, key: T -> real)
  {
    forall i :: 1 <= i < |ys| ==> key(ys[i - 1]) >= key(ys[i])
  }

  /** The elements whose key is `v`, in order. */
  function WithKey<T>(xs: seq<T>, key: T -> real, v: real): seq<T>
  {
    if xs == [] then [] else (if key(xs[0]) == v then [xs[0]] else []) + WithKey(xs[1..], key, v)
  }

  lemma {:induction false} InsertSorted<T>(x: T, ys: seq<T>, key: T -> real)
    requires Descending(ys, key)
    ensures Descending(InsertDesc(x, ys, key), key)
    ensures InsertDesc(x, ys, key)[0] == x || (ys != [] && InsertDesc(x, ys, key)[0] == ys[0])
  {
    if ys != [] && key(ys[0]) > key(x) {
      var tail := ys[1..];
      assert Descending(tail, key) by {
        forall i | 1 <= i < |tail| ensures key(tail[i - 1]) >= key(tail[i]) {
          assert tail[i - 1] == ys[i] && tail[i] == ys[i + 1];
        }
      }
      InsertSorted(x, tail, key);
      var r := InsertDesc(x, ys, key);
      var rest := InsertDesc(x, tail, key);
      forall i | 1 <= i < |r| ensures key(r[i - 1]) >= key(r[i]) {
        if i == 1 {
          assert r[1] == rest[0];
        } else {
          assert r[i - 1] == rest[i - 2] && r[i] == rest[i - 1];
        }
      }
    }
  }

  lemma {:induction false} InsertPermutes<T>(x: T, ys: seq<T>, key: T -> real)
    ensures multiset(InsertDesc(x, ys, key)) == multiset(ys) + multiset{x}
  {
    if ys != [] && key(ys[0]) > key(x) {
      InsertPermutes(x, ys[1..], key);
      assert ys == [ys[0]] + ys[1..];
    }
  }

  /** Inserting `x` puts it first among the elements of its key. */
  lemma {:induction false} InsertStable<T>(x: T, ys: seq<T>, key: T -> real, v: real)
    ensures WithKey(InsertDesc(x, ys, key), key, v) == (if key(x) == v then [x] else []) + WithKey(ys, key, v)
  {
    var r := InsertDesc(x, ys, key);
    if ys != [] && key(ys[0]) > key(x) {
      InsertStable(x, ys[1..], key, v);
      assert r[1..] == InsertDesc(x, ys[1..], key);
    } else if ys != [] {
      assert r[1..] == ys;
    }
  }

  /** The sort orders by non-increasing key, keeps every element, and keeps the input order among
      elements with equal keys. */
  lemma {:induction false} SortDescCorrect<T>(xs: seq<T>, key: T -> real)
    ensures Descending(SortDesc(xs, key), key)
    ensures multiset(SortDesc(xs, key)) == multiset(xs)
    ensures forall v :: WithKey(SortDesc(xs, key), key, v) == WithKey(xs, key, v)
  {
    if xs != [] {
      SortDescCorrect(xs[1..], key);
      InsertSorted(xs[0], SortDesc(xs[1..], key), key);
      InsertPermutes(xs[0], SortDesc(xs[1..], key), key);
      forall v ensures WithKey(SortDesc(xs, key), key, v) == WithKey(xs, key, v) {
        InsertStable(xs[0], SortDesc(xs[1..], key), key, v);
      }
      assert xs == [xs[0]] + xs[1..];
    }
  }

  /** A candidate memory: its id, last access instant, similarity score and poignancy. */
  datatype Cand = Cand(id: string, access: int, score: real, poignancy: real)

  datatype Config = Config(decay: real, recencyWeight: real, relevanceWeight: real,
                           importanceWeight: real, retrieveMax: int)

  function AccessKey(c: Cand): real { c.access as real }

  function ScoreKey(p: (Cand, real)): real { p.1 }

  /** The last position holding a candidate with id `id`. */
  function LastIndexOf(cs: seq<Cand>, id: string): (r: int)
    ensures -1 <= r < |cs|
    ensures r >= 0 ==> cs[r].id == id && forall j :: r < j < |cs| ==> cs[j].id != id
    ensures r == -1 ==> forall j :: 0 <= j < |cs| ==> cs[j].id != id
  {
    if cs == [] then -1
    else if cs[|cs| - 1].id == id then |cs| - 1
    else LastIndexOf(cs[..|cs| - 1], id)
  }

  /** The three weighted, normalised scores of the access-ordered candidates, summed per
      position. */
  function Totals(ordered: seq<Cand>, cfg: Config): (r: seq<real>)
    ensures |r| == |ordered|
  {
    var n := |ordered|;
    var rec := Normalize(Decays(cfg.decay, n), cfg.recencyWeight);
    var rel := Normalize(seq(n, i requires 0 <= i < n => ordered[i].score), cfg.relevanceWeight);
    var imp := Normalize(seq(n, i requires 0 <= i < n => ordered[i].poignancy), cfg.importanceWeight);
    seq(n, i requires 0 <= i < n => rec[i] + rel[i] + imp[i])
  }

  /** Each candidate paired with `final_scores[id]`; the dictionary keeps the last total computed
      for an id. */
  function Scored(ordered: seq<Cand>, cfg: Config): (r: seq<(Cand, real)>)
    ensures |r| == |ordered|
    ensures forall i :: 0 <= i < |r| ==> r[i].0 == ordered[i]
  {
    var t := Totals(ordered, cfg);
    seq(|ordered|, i requires 0 <= i < |ordered| => (ordered[i], t[LastIndexOf(ordered, ordered[i].id)]))
  }

  /** The candidates in final order, before the cut. */
  function Ranked(nodes: seq<Cand>, cfg: Config): (r: seq<(Cand, real)>)
    ensures |r| == |nodes|
  {
    Sorted(Scored(SortDesc(nodes, AccessKey), cfg))
  }

  function Sorted(scored: seq<(Cand, real)>): (r: seq<(Cand, real)>)
    ensures |r| == |scored|
  {
    SortDesc(scored, ScoreKey)
  }

  /** Python's `xs[:n]`: a negative n counts from the end. */
  function TakePy<T>(xs: seq<T>, n: int): (r: seq<T>)
    ensures n >= 0 ==> r == xs[..if n < |xs| then n else |xs|]
    ensures n < 0 ==> r == xs[..if |xs| + n > 0 then |xs| + n else 0]
  {
    if n >= 0 then xs[..if n < |xs| then n else |xs|]
    else xs[..if |xs| + n > 0 then |xs| + n else 0]
  }

  /** Each kept candidate with its access time set to `now`. */
  function Stamp(kept: seq<(Cand, real)>, now: int): (r: seq<Cand>)
    ensures |r| == |kept|
    ensures forall i :: 0 <= i < |r| ==> r[i] == kept[i].0.(access := now)
  {
    if kept == [] then [] else [kept[0].0.(access := now)] + Stamp(kept[1..], now)
  }

  /** `_retrieve`: the first `retrieve_max` candidates in final order, each with its access time
      set to `now`. */
  function Retrieve(nodes: seq<Cand>, cfg: Config, now: int): (r: seq<Cand>)
  {
    if nodes == [] then [] else Stamp(TakePy(Ranked(nodes, cfg), cfg.retrieveMax), now)
  }

  /** What `_retrieve` returns: at most `retrieve_max` candidates, the first ones of the final
      order, every one stamped with `now`. */
  lemma RetrieveTakesFirst(nodes: seq<Cand>, cfg: Config, now: int)
    requires cfg.retrieveMax >= 0
    ensures var r := Retrieve(nodes, cfg, now);
            |r| == (if cfg.retrieveMax < |nodes| then cfg.retrieveMax else |nodes|) &&
            (forall i :: 0 <= i < |r| ==> r[i].access == now) &&
            (forall i :: 0 <= i < |r| ==> r[i] == Ranked(nodes, cfg)[i].0.(access := now))
  {
  }

  /** The final order is by non-increasing final score and re-orders the candidates, first
      ordered by access, without losing or adding any. */
  lemma RankedOrder(nodes: seq<Cand>, cfg: Config)
    ensures Descending(Ranked(nodes, cfg), ScoreKey)
    ensures multiset(Ranked(nodes, cfg)) == multiset(Scored(SortDesc(nodes, AccessKey), cfg))
    ensures Descending(SortDesc(nodes, AccessKey), AccessKey)
    ensures multiset(SortDesc(nodes, AccessKey)) == multiset(nodes)
  {
    SortDescCorrect(nodes, AccessKey);
    SortDescCorrect(Scored(SortDesc(nodes, AccessKey), cfg), ScoreKey);
  }

  /** With non-negative weights every final score lies between 0 and the sum of the weights. */
  lemma TotalsBounded(ordered: seq<Cand>, cfg: Config, i: int)
    requires 0 <= i < |ordered|
    requires cfg.recencyWeight >= 0.0 && cfg.relevanceWeight >= 0.0 && cfg.importanceWeight >= 0.0
    ensures 0.0 <= Totals(ordered, cfg)[i] <= cfg.recencyWeight + cfg.relevanceWeight + cfg.importanceWeight
  {
    var n := |ordered|;
    NormalizeBounded(Decays(cfg.decay, n), cfg.recencyWeight, i);
    NormalizeBounded(seq(n, k requires 0 <= k < n => ordered[k].score), cfg.relevanceWeight, i);
    NormalizeBounded(seq(n, k requires 0 <= k < n => ordered[k].poignancy), cfg.importanceWeight, i);
  }

  lemma NormalizeBounded(data: seq<real>, factor: real, i: int)
    requires factor >= 0.0 && 0 <= i < |data|
    ensures 0.0 <= Normalize(data, factor)[i] <= factor
  {
    if exists k :: 0 <= k < |data| && data[k] != data[0] {
      NormalizeSpread(data, factor, i, i);
    } else {
      NormalizeFlat(data, factor, i);
    }
  }
}
