/**
 * Python dictionaries whose insertion order is observable (the spending
 * limits, the per-category and per-month totals), as sequences of
 * key/value pairs. Assigning to an existing key keeps its position;
 * a new key goes to the end, as in CPython's `dict`.
 */
module Assoc {
  import opened Wrappers

  /** The keys in insertion order. */
  function Keys<K, V>(d: seq<(K, V)>): (ks: seq<K>)
    ensures |ks| == |d|
    ensures forall i :: 0 <= i < |d| ==> ks[i] == d[i].0
  {
    seq(|d|, i requires 0 <= i < |d| => d[i].0)
  }

  predicate DistinctKeys<K(==), V>(d: seq<(K, V)>) {
    forall i, j :: 0 <= i < j < |d| ==> d[i].0 != d[j].0
  }

  /** Position of the first occurrence of `k` in `ks`. */
  function Find<K(==)>(ks: seq<K>, k: K): (r: Option<nat>)
    ensures r.None? <==> k !in ks
    ensures r.Some? ==> r.value < |ks| && ks[r.value] == k
    ensures r.Some? ==> forall j :: 0 <= j < r.value ==> ks[j] != k
  {
    if |ks| == 0 then None
    else if ks[0] == k then Some(0)
    else match Find(ks[1..], k)
      case None => None
      case Some(i) => Some(i + 1)
  }

  /** `d.get(k)` */
  function Get<K(==), V>(d: seq<(K, V)>, k: K): (r: Option<V>)
    ensures r.None? <==> k !in Keys(d)
  {
    match Find(Keys(d), k)
    case None => None
    case Some(i) => Some(d[i].1)
  }

  /** `d.get(k, default)`: the default for a missing key, the stored value otherwise. */
  function GetOr<K(==)>(d: seq<(K, real)>, k: K, default: real): (r: real)
    ensures k !in Keys(d) ==> r == default
    ensures DistinctKeys(d) ==> forall i :: 0 <= i < |d| && d[i].0 == k ==> r == d[i].1
  {
    GetAtKey(d, k);
    match Get(d, k)
    case None => default
    case Some(v) => v
  }

  /** In a dictionary every pair with key `k` holds what `get` returns for `k`. */
  lemma GetAtKey<K, V>(d: seq<(K, V)>, k: K)
    ensures DistinctKeys(d) ==> forall i :: 0 <= i < |d| && d[i].0 == k ==> Get(d, k) == Some(d[i].1)
  {
    if DistinctKeys(d) {
      forall i | 0 <= i < |d| && d[i].0 == k
        ensures Get(d, k) == Some(d[i].1)
      {
        GetAt(d, i);
      }
    }
  }

  /** In a dictionary each stored pair is what `get` returns for its key. */
  lemma GetAt<K, V>(d: seq<(K, V)>, i: nat)
    requires DistinctKeys(d) && i < |d|
    ensures Get(d, d[i].0) == Some(d[i].1)
  {
    assert Keys(d)[i] == d[i].0;
  }

  /** Sum of the values, `sum(d.values())`. */
  function SumValues<K>(d: seq<(K, real)>): real {
    if |d| == 0 then 0.0 else SumValues(d[..|d| - 1]) + d[|d| - 1].1
  }

  lemma {:induction false} SumValuesUpdate<K>(d: seq<(K, real)>, i: nat, p: (K, real))
    requires i < |d|
    ensures SumValues(d[i := p]) == SumValues(d) - d[i].1 + p.1
  {
    var n := |d|;
    if i < n - 1 {
      assert d[i := p][..n - 1] == d[..n - 1][i := p];
      SumValuesUpdate(d[..n - 1], i, p);
    } else {
      assert d[i := p][..n - 1] == d[..n - 1];
    }
  }

  lemma {:induction false} SumValuesAppend<K>(a: seq<(K, real)>, b: seq<(K, real)>)
    ensures SumValues(a + b) == SumValues(a) + SumValues(b)
  {
    if |b| > 0 {
      assert (a + b)[..|a + b| - 1] == a + b[..|b| - 1];
      SumValuesAppend(a, b[..|b| - 1]);
    } else {
      assert a + b == a;
    }
  }

  /** `d[k] = v`: overwrite in place, or append a new key at the end. */
  function Put<K(==,!new), V>(d: seq<(K, V)>, k: K, v: V): (r: seq<(K, V)>)
    ensures Get(r, k) == Some(v)
    ensures forall k' :: k' != k ==> Get(r, k') == Get(d, k')
    ensures k in Keys(d) ==> Keys(r) == Keys(d)
    ensures k !in Keys(d) ==> Keys(r) == Keys(d) + [k]
    ensures DistinctKeys(d) ==> DistinctKeys(r)
  {
    match Find(Keys(d), k)
    case Some(i) =>
      var r := d[i := (k, v)];
      assert Keys(r) == Keys(d);
      r
    case None =>
      var r := d + [(k, v)];
      assert Keys(r) == Keys(d) + [k];
      AppendGet(d, (k, v));
      r
  }

  lemma AppendGet<K, V>(d: seq<(K, V)>, p: (K, V))
    ensures forall k' :: k' != p.0 ==> Get(d + [p], k') == Get(d, k')
  {
    var r := d + [p];
    assert Keys(r) == Keys(d) + [p.0];
    forall k' | k' != p.0 ensures Get(r, k') == Get(d, k') {
      var f := Find(Keys(d), k');
      var g := Find(Keys(r), k');
      if f.Some? {
        assert Keys(r)[f.value] == k';
        assert forall m :: 0 <= m < f.value ==> Keys(r)[m] == Keys(d)[m];
      }
    }
  }

  /** `d[k] = d.get(k, 0) + x`: the accumulation step of every total in the tracker. */
  function AddTo<K(==,!new)>(d: seq<(K, real)>, k: K, x: real): (r: seq<(K, real)>)
    ensures GetOr(r, k, 0.0) == GetOr(d, k, 0.0) + x
    ensures forall k' :: k' != k ==> Get(r, k') == Get(d, k')
    ensures SumValues(r) == SumValues(d) + x
    ensures k in Keys(d) ==> Keys(r) == Keys(d)
    ensures k !in Keys(d) ==> Keys(r) == Keys(d) + [k]
    ensures DistinctKeys(d) ==> DistinctKeys(r)
  {
    var r := Put(d, k, GetOr(d, k, 0.0) + x);
    match Find(Keys(d), k)
    case Some(i) =>
      assert r == d[i := (k, GetOr(d, k, 0.0) + x)];
      SumValuesUpdate(d, i, (k, GetOr(d, k, 0.0) + x));
      r
    case None =>
      assert r == d + [(k, x + 0.0)];
      assert r[..|r| - 1] == d;
      r
  }

  /** `a` and `b` read the same at every key but `k`. */
  ghost predicate AgreeExcept<K(!new), V>(a: seq<(K, V)>, b: seq<(K, V)>, k: K) {
    forall k' :: k' != k ==> Get(a, k') == Get(b, k')
  }

  /** `del d[k]` for a key that is present; other keys keep their values and their order. */
  function Delete<K(==,!new), V>(d: seq<(K, V)>, k: K): (r: seq<(K, V)>)
    requires k in Keys(d)
    ensures |r| == |d| - 1
    ensures DistinctKeys(d) ==> DistinctKeys(r) && k !in Keys(r)
    ensures DistinctKeys(d) ==> AgreeExcept(r, d, k)
  {
    var i := Find(Keys(d), k).value;
    DeleteAtGet(d, i);
    d[..i] + d[i + 1..]
  }

  lemma DeleteAtGet<K, V>(d: seq<(K, V)>, i: nat)
    requires i < |d|
    ensures DistinctKeys(d) ==> DistinctKeys(d[..i] + d[i + 1..]) && d[i].0 !in Keys(d[..i] + d[i + 1..])
    ensures DistinctKeys(d) ==> forall k' :: k' != d[i].0 ==> Get(d[..i] + d[i + 1..], k') == Get(d, k')
  {
    if DistinctKeys(d) {
      DeleteAtDistinct(d, i);
      forall k' | k' != d[i].0
        ensures Get(d[..i] + d[i + 1..], k') == Get(d, k')
      {
        DeleteAtGetOne(d, i, k');
      }
    }
  }

  lemma DeleteAtDistinct<K, V>(d: seq<(K, V)>, i: nat)
    requires i < |d| && DistinctKeys(d)
    ensures DistinctKeys(d[..i] + d[i + 1..]) && d[i].0 !in Keys(d[..i] + d[i + 1..])
  {
    var r := d[..i] + d[i + 1..];
    assert forall m :: 0 <= m < |r| ==> r[m] == d[if m < i then m else m + 1];
    forall m | 0 <= m < |r|
      ensures Keys(r)[m] != d[i].0
    {
      assert Keys(r)[m] == d[if m < i then m else m + 1].0;
    }
  }

  /** `Find` returns the first position holding the key. */
  lemma FindIs<K>(ks: seq<K>, k: K, j: nat)
    requires j < |ks| && ks[j] == k
    requires forall m :: 0 <= m < j ==> ks[m] != k
    ensures Find(ks, k) == Some(j)
  {
  }

  lemma DeleteAtGetOne<K, V>(d: seq<(K, V)>, i: nat, k: K)
    requires i < |d| && DistinctKeys(d) && k != d[i].0
    ensures Get(d[..i] + d[i + 1..], k) == Get(d, k)
  {
    var r := d[..i] + d[i + 1..];
    assert forall m :: 0 <= m < |r| ==> r[m] == d[if m < i then m else m + 1];
    match Find(Keys(d), k)
    case None =>
      forall m | 0 <= m < |r|
        ensures Keys(r)[m] != k
      {
        assert Keys(r)[m] == Keys(d)[if m < i then m else m + 1];
      }
    case Some(j) =>
      var j' := if j < i then j else j - 1;
      assert r[j'] == d[j];
      forall m | 0 <= m < j'
        ensures Keys(r)[m] != k
      {
        assert Keys(r)[m] == Keys(d)[if m < i then m else m + 1];
      }
      FindIs(Keys(r), k, j');
  }

  // ---------------------------------------------------------------- building from pairs

  /**
   * `{k: v for k, v in ps}`: each key where it first occurs, holding the
   * value of its last occurrence.
   */
  function FromPairs<K(==,!new), V>(ps: seq<(K, V)>): (r: seq<(K, V)>)
    ensures DistinctKeys(r)
    ensures Keys(r) == FirstSeen(Keys(ps))
  {
    if |ps| == 0 then []
    else
      var n := |ps| - 1;
      assert Keys(ps[..n]) == Keys(ps)[..n];
      Put(FromPairs(ps[..n]), ps[n].0, ps[n].1)
  }

  lemma FromPairsSnoc<K(!new), V>(ps: seq<(K, V)>)
    requires |ps| > 0
    ensures FromPairs(ps) == Put(FromPairs(ps[..|ps| - 1]), ps[|ps| - 1].0, ps[|ps| - 1].1)
  {
  }

  /** The value kept for a key is that of its last occurrence. */
  lemma {:induction false} FromPairsLastWins<K(!new), V>(ps: seq<(K, V)>, i: nat)
    requires i < |ps|
    requires forall j :: i < j < |ps| ==> ps[j].0 != ps[i].0
    ensures Get(FromPairs(ps), ps[i].0) == Some(ps[i].1)
  {
    var n := |ps| - 1;
    var init := ps[..n];
    FromPairsSnoc(ps);
    if i < n {
      assert init[i] == ps[i];
      FromPairsLastWins(init, i);
      PutGetOther(FromPairs(init), ps[n].0, ps[n].1, ps[i].0);
    }
  }

  /** Pairs whose keys are already distinct come through unchanged. */
  lemma {:induction false} FromPairsIdentity<K(!new), V>(ps: seq<(K, V)>)
    requires DistinctKeys(ps)
    ensures FromPairs(ps) == ps
  {
    if |ps| > 0 {
      var n := |ps| - 1;
      var init := ps[..n];
      LastKeyAbsent(ps);
      FromPairsIdentity(init);
      FromPairsSnoc(ps);
      PutAbsent(init, ps[n]);
      SnocLast(ps);
    }
  }

  lemma PutGetOther<K(!new), V>(d: seq<(K, V)>, k: K, v: V, other: K)
    requires other != k
    ensures Get(Put(d, k, v), other) == Get(d, other)
  {
  }

  lemma LastKeyAbsent<K, V>(ps: seq<(K, V)>)
    requires |ps| > 0 && DistinctKeys(ps)
    ensures DistinctKeys(ps[..|ps| - 1]) && ps[|ps| - 1].0 !in Keys(ps[..|ps| - 1])
  {
    var n := |ps| - 1;
    forall m | 0 <= m < n
      ensures Keys(ps[..n])[m] != ps[n].0
    {
      assert Keys(ps[..n])[m] == ps[m].0;
    }
  }

  lemma SnocLast<T>(s: seq<T>)
    requires |s| > 0
    ensures s[..|s| - 1] + [s[|s| - 1]] == s
  {
  }

  lemma PutAbsent<K(!new), V>(d: seq<(K, V)>, p: (K, V))
    requires p.0 !in Keys(d)
    ensures Put(d, p.0, p.1) == d + [p]
  {
    assert Find(Keys(d), p.0).None?;
  }

  // ---------------------------------------------------------------- tallies

  /** The keys of `ks` in order of first appearance. */
  function FirstSeen<K(==,!new)>(ks: seq<K>): (r: seq<K>)
    ensures forall k :: k in r <==> k in ks
  {
    if |ks| == 0 then []
    else
      var prefix := FirstSeen(ks[..|ks| - 1]);
      if ks[|ks| - 1] in prefix then prefix else prefix + [ks[|ks| - 1]]
  }

  /** Sum of the values paired with `k`. */
  function SumFor<K(==)>(ps: seq<(K, real)>, k: K): real {
    if |ps| == 0 then 0.0
    else SumFor(ps[..|ps| - 1], k) + (if ps[|ps| - 1].0 == k then ps[|ps| - 1].1 else 0.0)
  }

  /**
   * The loop `for (k, x) in ps: totals[k] = totals.get(k, 0) + x` from an
   * empty dictionary: one entry per distinct key, in order of first
   * appearance, holding the sum of that key's values; nothing is lost.
   */
  function Tally<K(==,!new)>(ps: seq<(K, real)>): (r: seq<(K, real)>)
    ensures DistinctKeys(r)
    ensures Keys(r) == FirstSeen(Keys(ps))
    ensures SumValues(r) == SumValues(ps)
    ensures forall k :: GetOr(r, k, 0.0) == SumFor(ps, k)
  {
    if |ps| == 0 then []
    else
      var prefix := ps[..|ps| - 1];
      var last := ps[|ps| - 1];
      var before := Tally(prefix);
      TallySnoc(ps, before);
      AddTo(before, last.0, last.1)
  }

  /** One step of the tally loop keeps its four facts. */
  lemma TallySnoc<K(!new)>(ps: seq<(K, real)>, before: seq<(K, real)>)
    requires |ps| > 0
    requires DistinctKeys(before)
    requires Keys(before) == FirstSeen(Keys(ps[..|ps| - 1]))
    requires SumValues(before) == SumValues(ps[..|ps| - 1])
    requires forall k :: GetOr(before, k, 0.0) == SumFor(ps[..|ps| - 1], k)
    ensures var r := AddTo(before, ps[|ps| - 1].0, ps[|ps| - 1].1);
      && DistinctKeys(r)
      && Keys(r) == FirstSeen(Keys(ps))
      && SumValues(r) == SumValues(ps)
      && forall k :: GetOr(r, k, 0.0) == SumFor(ps, k)
  {
    var n := |ps| - 1;
    var last := ps[n];
    var r := AddTo(before, last.0, last.1);
    assert Keys(ps[..n]) == Keys(ps)[..n];
    assert Keys(ps)[n] == last.0;
    assert last.0 in Keys(before) <==> last.0 in FirstSeen(Keys(ps)[..n]);
    forall k
      ensures GetOr(r, k, 0.0) == SumFor(ps, k)
    {
      TallySnocGet(ps, before, k);
    }
  }

  lemma TallySnocGet<K(!new)>(ps: seq<(K, real)>, before: seq<(K, real)>, k: K)
    requires |ps| > 0
    requires GetOr(before, k, 0.0) == SumFor(ps[..|ps| - 1], k)
    ensures GetOr(AddTo(before, ps[|ps| - 1].0, ps[|ps| - 1].1), k, 0.0) == SumFor(ps, k)
  {
    var last := ps[|ps| - 1];
    var r := AddTo(before, last.0, last.1);
    if k != last.0 {
      assert Get(r, k) == Get(before, k);
      assert GetOr(r, k, 0.0) == GetOr(before, k, 0.0);
    }
  }

  lemma TallyKeys<K(!new)>(ps: seq<(K, real)>, k: K)
    ensures k in Keys(Tally(ps)) <==> exists i :: 0 <= i < |ps| && ps[i].0 == k
  {
    assert k in Keys(ps) <==> exists i :: 0 <= i < |ps| && ps[i].0 == k;
  }

  // ---------------------------------------------------------------- sums over a key list

  predicate NoDuplicates<K(==)>(ks: seq<K>) {
    forall i, j :: 0 <= i < j < |ks| ==> ks[i] != ks[j]
  }

  /** `sum(xs)` */
  function SumSeq(xs: seq<real>): real {
    if |xs| == 0 then 0.0 else SumSeq(xs[..|xs| - 1]) + xs[|xs| - 1]
  }

  /** `[d.get(k, 0) for k in ks]` */
  function ValuesAt<K(==)>(d: seq<(K, real)>, ks: seq<K>): (vs: seq<real>)
    ensures |vs| == |ks|
    ensures forall j :: 0 <= j < |ks| ==> vs[j] == GetOr(d, ks[j], 0.0)
  {
    seq(|ks|, j requires 0 <= j < |ks| => GetOr(d, ks[j], 0.0))
  }

  /** The sum, over the keys `ks`, of the values `ps` pairs with each key. */
  function SumOver<K(==)>(ks: seq<K>, ps: seq<(K, real)>): real {
    if |ks| == 0 then 0.0 else SumOver(ks[..|ks| - 1], ps) + SumFor(ps, ks[|ks| - 1])
  }

  /** What the single pair `p` contributes to `SumOver(ks, _)`. */
  function Share<K(==)>(ks: seq<K>, p: (K, real)): real {
    if |ks| == 0 then 0.0 else Share(ks[..|ks| - 1], p) + (if ks[|ks| - 1] == p.0 then p.1 else 0.0)
  }

  lemma {:induction false} SumOverSnoc<K>(ks: seq<K>, ps: seq<(K, real)>, p: (K, real))
    ensures SumOver(ks, ps + [p]) == SumOver(ks, ps) + Share(ks, p)
  {
    assert (ps + [p])[..|ps|] == ps;
    if |ks| > 0 {
      SumOverSnoc(ks[..|ks| - 1], ps, p);
    }
  }

  lemma {:induction false} ShareAbsent<K>(ks: seq<K>, p: (K, real))
    requires p.0 !in ks
    ensures Share(ks, p) == 0.0
  {
    if |ks| > 0 {
      assert ks[..|ks| - 1] <= ks;
      ShareAbsent(ks[..|ks| - 1], p);
    }
  }

  lemma {:induction false} ShareOnce<K>(ks: seq<K>, p: (K, real))
    requires NoDuplicates(ks) && p.0 in ks
    ensures Share(ks, p) == p.1
  {
    var n := |ks| - 1;
    var prefix := ks[..n];
    assert NoDuplicates(prefix);
    if ks[n] == p.0 {
      assert p.0 !in prefix;
      ShareAbsent(prefix, p);
    } else {
      assert ks == prefix + [ks[n]];
      ShareOnce(prefix, p);
    }
  }

  /** Summing over a list of distinct keys that covers every key of `ps` recovers the sum of all of `ps`. */
  lemma {:induction false} SumOverCovers<K>(ks: seq<K>, ps: seq<(K, real)>)
    requires NoDuplicates(ks)
    requires forall i :: 0 <= i < |ps| ==> ps[i].0 in ks
    ensures SumOver(ks, ps) == SumValues(ps)
  {
    if |ps| == 0 {
      SumOverEmpty(ks, ps);
    } else {
      var n := |ps| - 1;
      assert ps == ps[..n] + [ps[n]];
      SumOverCovers(ks, ps[..n]);
      SumOverSnoc(ks, ps[..n], ps[n]);
      ShareOnce(ks, ps[n]);
    }
  }

  lemma {:induction false} SumOverEmpty<K>(ks: seq<K>, ps: seq<(K, real)>)
    requires |ps| == 0
    ensures SumOver(ks, ps) == 0.0
  {
    if |ks| > 0 {
      SumOverEmpty(ks[..|ks| - 1], ps);
    }
  }

  /** Reading a tally at the keys `ks` and summing gives each key's share of the tallied pairs. */
  lemma {:induction false} SumValuesAtTally<K(!new)>(ps: seq<(K, real)>, ks: seq<K>)
    ensures SumSeq(ValuesAt(Tally(ps), ks)) == SumOver(ks, ps)
  {
    if |ks| > 0 {
      var n := |ks| - 1;
      assert ValuesAt(Tally(ps), ks)[..n] == ValuesAt(Tally(ps), ks[..n]);
      SumValuesAtTally(ps, ks[..n]);
    }
  }
}
