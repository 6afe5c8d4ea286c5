/** Counting with `std::map<K, int>`: the `m[key]++` loops of the data provider and the
    analytics window, the sums of a map's values, and the histogram of counts. */
module Tally {

  /** `m[k]++` on a std::map: an absent key first appears with 0, then is incremented. */
  function Inc<K>(m: map<K, int>, k: K): map<K, int> {
    m[k := (if k in m then m[k] else 0) + 1]
  }

  /** The map the loop `for (x : s) m[x]++;` builds from an empty map: every element
      of `s` is a key, and its value is how often it occurs. */
  function CountMap<K(==, !new)>(s: seq<K>): (m: map<K, int>)
    ensures forall x :: x in m <==> x in s
    ensures forall x | x in m :: m[x] == multiset(s)[x]
    decreases |s|
  {
    if |s| == 0 then map[]
    else
      assert s == s[..|s| - 1] + [s[|s| - 1]];
      Inc(CountMap(s[..|s| - 1]), s[|s| - 1])
  }

  predicate NoDuplicates<K(==)>(d: seq<K>) {
    forall i, j | 0 <= i < j < |d| :: d[i] != d[j]
  }

  /** In a duplicate-free sequence the last element does not occur before it. */
  lemma LastNotInPrefix<K>(d: seq<K>)
    requires |d| > 0 && NoDuplicates(d)
    ensures d[|d| - 1] !in d[..|d| - 1]
  {
    var prefix := d[..|d| - 1];
    forall i | 0 <= i < |prefix| ensures prefix[i] != d[|d| - 1] {
      assert prefix[i] == d[i];
    }
  }

  /** The elements of `s` once each, in order of first occurrence. */
  function Distinct<K(==, !new)>(s: seq<K>): (d: seq<K>)
    ensures forall x :: x in d <==> x in s
    ensures NoDuplicates(d)
    decreases |s|
  {
    if |s| == 0 then []
    else
      var d := Distinct(s[..|s| - 1]);
      var last := s[|s| - 1];
      assert s == s[..|s| - 1] + [last];
      if last in d then d else d + [last]
  }

  /** The values `m` holds for the keys `d`, in the order of `d`. */
  function Lookup<K>(m: map<K, int>, d: seq<K>): (r: seq<int>)
    requires forall x :: x in d ==> x in m
    ensures |r| == |d|
  {
    seq(|d|, i requires 0 <= i < |d| => m[d[i]])
  }

  function SeqSum(xs: seq<int>): int
    decreases |xs|
  {
    if |xs| == 0 then 0 else SeqSum(xs[..|xs| - 1]) + xs[|xs| - 1]
  }

  // ---------------------------------------------------------------------------
  // Sums over the values of a map

  lemma MapRemoveCard<K>(m: map<K, int>, k: K)
    requires k in m
    ensures |m - {k}| == |m| - 1
  {
    assert (m - {k}).Keys == m.Keys - {k};
  }

  /** Some key of a non-empty map. */
  ghost function PickKey<K>(m: map<K, int>): (k: K)
    requires m.Keys != {}
    ensures k in m
  {
    var k :| k in m.Keys; k
  }

  /** Sum of the values of `m` (an arbitrary key is peeled off at each step). */
  ghost function SumValues<K>(m: map<K, int>): int
    decreases |m|
  {
    if m.Keys == {} then 0
    else
      var k := PickKey(m);
      MapRemoveCard(m, k);
      m[k] + SumValues(m - {k})
  }

  /** Sum of key times value over a map from a count to how often it occurs. */
  ghost function WeightedSum(m: map<int, int>): int
    decreases |m|
  {
    if m.Keys == {} then 0
    else
      var k := PickKey(m);
      MapRemoveCard(m, k);
      k * m[k] + WeightedSum(m - {k})
  }

  /** Any key may be peeled off first: the sum does not depend on the choice. */
  lemma {:induction false} SumValuesRemove<K>(m: map<K, int>, k: K)
    requires k in m
    ensures SumValues(m) == m[k] + SumValues(m - {k})
    decreases |m|
  {
    var k' := PickKey(m);
    assert SumValues(m) == m[k'] + SumValues(m - {k'});
    if k' != k {
      var m1 := m - {k'};
      var m2 := m - {k};
      MapRemoveCard(m, k);
      MapRemoveCard(m, k');
      assert k in m1 && m1[k] == m[k];
      assert k' in m2 && m2[k'] == m[k'];
      SumValuesRemove(m1, k);
      SumValuesRemove(m2, k');
      assert m1 - {k} == m2 - {k'};
    }
  }

  lemma {:induction false} WeightedSumRemove(m: map<int, int>, k: int)
    requires k in m
    ensures WeightedSum(m) == k * m[k] + WeightedSum(m - {k})
    decreases |m|
  {
    var k' := PickKey(m);
    if k' != k {
      MapRemoveCard(m, k);
      MapRemoveCard(m, k');
      WeightedSumRemove(m - {k'}, k);
      WeightedSumRemove(m - {k}, k');
      assert m - {k'} - {k} == m - {k} - {k'};
    }
  }

  /** One `m[k]++` adds one to the sum of the values. */
  lemma SumValuesInc<K>(m: map<K, int>, k: K)
    ensures SumValues(Inc(m, k)) == SumValues(m) + 1
  {
    var m' := Inc(m, k);
    SumValuesRemove(m', k);
    assert m' - {k} == m - {k};
    if k in m {
      SumValuesRemove(m, k);
    } else {
      assert m - {k} == m;
    }
  }

  /** One `m[k]++` adds `k` to the key-weighted sum. */
  lemma WeightedSumInc(m: map<int, int>, k: int)
    ensures WeightedSum(Inc(m, k)) == WeightedSum(m) + k
  {
    var m' := Inc(m, k);
    var before := if k in m then m[k] else 0;
    WeightedSumRemove(m', k);
    assert m' - {k} == m - {k};
    assert k * m'[k] == k * before + k by {
      assert m'[k] == before + 1;
    }
    if k in m {
      WeightedSumRemove(m, k);
    } else {
      assert m - {k} == m;
    }
  }

  /** The counts of a sequence add up to its length. */
  lemma {:induction false} SumOfCountMap<K(!new)>(s: seq<K>)
    ensures SumValues(CountMap(s)) == |s|
    decreases |s|
  {
    if |s| == 0 {
      assert CountMap(s) == map[];
    } else {
      SumOfCountMap(s[..|s| - 1]);
      SumValuesInc(CountMap(s[..|s| - 1]), s[|s| - 1]);
    }
  }

  /** Counting the values of a list of numbers and weighting each by itself gives their total. */
  lemma {:induction false} WeightedSumOfCountMap(xs: seq<int>)
    ensures WeightedSum(CountMap(xs)) == SeqSum(xs)
    decreases |xs|
  {
    if |xs| == 0 {
      assert CountMap(xs) == map[];
    } else {
      WeightedSumOfCountMap(xs[..|xs| - 1]);
      WeightedSumInc(CountMap(xs[..|xs| - 1]), xs[|xs| - 1]);
    }
  }

  /** Dropping the last of a duplicate-free key list and that key from the map keeps
      the two in step. */
  lemma DropLastKey<K>(m: map<K, int>, d: seq<K>, k: K)
    requires NoDuplicates(d + [k])
    requires forall x :: x in d + [k] <==> x in m
    ensures k in m && k !in d && NoDuplicates(d)
    ensures forall x :: x in d <==> x in m - {k}
  {
    LastNotInPrefix(d + [k]);
    assert (d + [k])[..|d|] == d;
    forall i, j | 0 <= i < j < |d| ensures d[i] != d[j] {
      assert d[i] == (d + [k])[i] && d[j] == (d + [k])[j];
    }
  }

  /** Leaving out a key the list does not name does not change its lookup. */
  lemma LookupWithout<K>(m: map<K, int>, d: seq<K>, k: K)
    requires k !in d && forall x :: x in d ==> x in m
    ensures Lookup(m - {k}, d) == Lookup(m, d)
  {
  }

  /** The sum of a lookup is the sum without the last key plus that key's value. */
  lemma SeqSumLookupLast<K>(m: map<K, int>, d: seq<K>, k: K)
    requires forall x :: x in d + [k] ==> x in m
    ensures SeqSum(Lookup(m, d + [k])) == SeqSum(Lookup(m, d)) + m[k]
  {
    assert Lookup(m, d + [k])[..|d|] == Lookup(m, d);
  }

  /** Reading each key of a map exactly once and adding the values gives the map's sum. */
  lemma {:induction false} SumOverKeys<K>(m: map<K, int>, d: seq<K>)
    requires NoDuplicates(d)
    requires forall x :: x in d <==> x in m
    ensures SeqSum(Lookup(m, d)) == SumValues(m)
    decreases |d|
  {
    if |d| == 0 {
      assert m.Keys == {};
      assert |m| == 0;
    } else {
      var k := d[|d| - 1];
      var d' := d[..|d| - 1];
      assert d == d' + [k];
      DropLastKey(m, d', k);
      SumOverKeys(m - {k}, d');
      LookupWithout(m, d', k);
      SeqSumLookupLast(m, d', k);
      SumValuesRemove(m, k);
    }
  }

  /** A sequence without duplicates has as many elements as it has distinct ones. */
  lemma {:induction false} DistinctCardinality<K>(d: seq<K>)
    requires NoDuplicates(d)
    ensures |set x | x in d| == |d|
    decreases |d|
  {
    if |d| > 0 {
      var d' := d[..|d| - 1];
      var k := d[|d| - 1];
      DistinctCardinality(d');
      assert (set x | x in d) == (set x | x in d') + {k};
      LastNotInPrefix(d);
    }
  }

  /** The keys among `d` that `m` maps to `v`. */
  function KeysWith<K>(m: map<K, int>, d: seq<K>, v: int): set<K> {
    set x | x in d && x in m && m[x] == v
  }

  /** Adding a key that was not among `d` adds it to the keys with its own value only. */
  lemma KeysWithAppend<K>(m: map<K, int>, d: seq<K>, k: K, v: int)
    requires k in m && k !in d
    ensures KeysWith(m, d + [k], v) == if m[k] == v then KeysWith(m, d, v) + {k} else KeysWith(m, d, v)
  {
  }

  /** How often `v` occurs among the values of a duplicate-free key list is the number
      of those keys that map to `v`. */
  lemma {:induction false} LookupMultiplicity<K>(m: map<K, int>, d: seq<K>, v: int)
    requires NoDuplicates(d)
    requires forall x :: x in d ==> x in m
    ensures multiset(Lookup(m, d))[v] == |KeysWith(m, d, v)|
    decreases |d|
  {
    if |d| == 0 {
      assert KeysWith(m, d, v) == {};
    } else {
      var k := d[|d| - 1];
      var d' := d[..|d| - 1];
      LookupMultiplicity(m, d', v);
      assert Lookup(m, d) == Lookup(m, d') + [m[k]];
      LastNotInPrefix(d);
      assert d == d' + [k];
      KeysWithAppend(m, d', k, v);
    }
  }

  // ---------------------------------------------------------------------------
  // Histogram of counts

  /** The elements of `s` that occur exactly `v` times. */
  function WithCount<K(==, !new)>(s: seq<K>, v: int): set<K> {
    set x | x in s && multiset(s)[x] == v
  }

  /** For each occurrence count, how many distinct elements of `s` have it: the
      `std::map<int,int>` built by `distribution[pair.second]++` over the per-element
      counts. The counts are visited once per distinct element; the order of the visit
      does not change the map. */
  function Histogram<K(==, !new)>(s: seq<K>): (h: map<int, int>)
    ensures forall v | v in h :: h[v] >= 1
  {
    var counts := CountMap(s);
    CountMap(Lookup(counts, Distinct(s)))
  }

  /** Every element's occurrence count is a histogram entry. */
  lemma HistogramHasEveryCount<K(!new)>(s: seq<K>)
    ensures forall x | x in s :: multiset(s)[x] in Histogram(s)
  {
    var counts := CountMap(s);
    var d := Distinct(s);
    var vals := Lookup(counts, d);
    forall x | x in s ensures multiset(s)[x] in Histogram(s) {
      var i :| 0 <= i < |d| && d[i] == x;
      assert vals[i] == multiset(s)[x];
    }
  }

  /** A histogram entry `v` counts exactly the distinct elements that occur `v` times. */
  lemma HistogramCounts<K(!new)>(s: seq<K>, v: int)
    requires v in Histogram(s)
    ensures Histogram(s)[v] == |WithCount(s, v)|
    ensures v >= 1
  {
    var counts := CountMap(s);
    var d := Distinct(s);
    var vals := Lookup(counts, d);
    LookupMultiplicity(counts, d, v);
    assert KeysWith(counts, d, v) == WithCount(s, v);
    var i :| 0 <= i < |vals| && vals[i] == v;
    assert counts[d[i]] == multiset(s)[d[i]];
  }

  /** The histogram's entries add up to the number of distinct elements. */
  lemma HistogramTotal<K(!new)>(s: seq<K>)
    ensures SumValues(Histogram(s)) == |set x | x in s|
  {
    var d := Distinct(s);
    SumOfCountMap(Lookup(CountMap(s), d));
    DistinctCardinality(d);
    assert (set x | x in d) == (set x | x in s);
  }

  /** Weighting each histogram entry by its count gives back the length of `s`. */
  lemma HistogramWeightedTotal<K(!new)>(s: seq<K>)
    ensures WeightedSum(Histogram(s)) == |s|
  {
    var counts := CountMap(s);
    var d := Distinct(s);
    WeightedSumOfCountMap(Lookup(counts, d));
    SumOverKeys(counts, d);
    SumOfCountMap(s);
  }

  /** The histogram is empty exactly when `s` is. */
  lemma HistogramEmpty<K(!new)>(s: seq<K>)
    ensures Histogram(s) == map[] <==> |s| == 0
  {
    if |s| > 0 {
      HistogramHasEveryCount(s);
      assert s[0] in s;
      assert multiset(s)[s[0]] in Histogram(s);
    } else {
      assert Distinct(s) == [];
    }
  }

  /** `f` applied to every element, in order. */
  function MapEach<A, B>(f: A -> B, xs: seq<A>): (ys: seq<B>)
    ensures |ys| == |xs|
    ensures forall k | 0 <= k < |xs| :: ys[k] == f(xs[k])
  {
    seq(|xs|, k requires 0 <= k < |xs| => f(xs[k]))
  }

  lemma MapEachAppend<A, B>(f: A -> B, a: seq<A>, b: seq<A>)
    ensures MapEach(f, a + b) == MapEach(f, a) + MapEach(f, b)
  {
    var s, l, r := MapEach(f, a + b), MapEach(f, a), MapEach(f, b);
    forall k | 0 <= k < |s| ensures s[k] == (l + r)[k] {
      if k < |a| {
        assert (a + b)[k] == a[k];
      } else {
        assert (a + b)[k] == b[k - |a|];
      }
    }
  }
}
