/** randomizeDataset: one permutation of the row indices, applied identically
    to the features, the labels and the dates. The random source is replaced by
    the permutation it would have drawn. */
module Shuffle {
  import opened Datasets

  /** The indices 0, 1, ..., n - 1 in order. */
  function Indices(n: nat): (r: seq<nat>)
    ensures |r| == n && forall k :: 0 <= k < n ==> r[k] == k
  {
    seq(n, k requires 0 <= k < n => k)
  }

  /** `perm` has n entries, each an index below n, and holds every index of
      [0, n) exactly once. */
  predicate IsPermutation(perm: seq<nat>, n: nat)
  {
    |perm| == n && (forall j :: 0 <= j < n ==> perm[j] < n) && multiset(perm) == multiset(Indices(n))
  }

  /** Fancy indexing `s[perm]`: entry j of the result is s[perm[j]]. */
  function Permute<X>(s: seq<X>, perm: seq<nat>): (r: seq<X>)
    requires forall j :: 0 <= j < |perm| ==> perm[j] < |s|
    ensures |r| == |perm| && forall j :: 0 <= j < |perm| ==> r[j] == s[perm[j]]
  {
    seq(|perm|, j requires 0 <= j < |perm| => s[perm[j]])
  }

  /** The features and the dates have an entry for every label index, so
      indexing them by a permutation of the label indices stays in range. */
  predicate Indexable<F, T>(d: Dataset<F, T>)
  {
    |d.features| >= |d.labels| && |d.dates| >= |d.labels|
  }

  /** The rows a shuffle can reach: the first |labels| features and dates
      beside the labels. A consistent dataset is its own leading part. */
  function Leading<F, T>(d: Dataset<F, T>): (r: Dataset<F, T>)
    requires Indexable(d)
    ensures r.Consistent() && r.labels == d.labels
    ensures d.Consistent() ==> r == d
  {
    Dataset(d.features[..|d.labels|], d.labels, d.dates[..|d.labels|])
  }

  /** randomizeDataset with the permutation drawn for the number of labels.
      Without Indexable the source's indexing raises instead. */
  function Randomize<F, T>(d: Dataset<F, T>, perm: seq<nat>): (r: Dataset<F, T>)
    requires IsPermutation(perm, |d.labels|) && Indexable(d)
    ensures r.Consistent() && |r.labels| == |d.labels|
    ensures forall j :: 0 <= j < |r.labels| ==>
              r.features[j] == d.features[perm[j]] && r.labels[j] == d.labels[perm[j]] && r.dates[j] == d.dates[perm[j]]
  {
    Dataset(Permute(d.features, perm), Permute(d.labels, perm), Permute(d.dates, perm))
  }

  lemma PermuteAppend<X>(s: seq<X>, a: seq<nat>, b: seq<nat>)
    requires forall j :: 0 <= j < |a| ==> a[j] < |s|
    requires forall j :: 0 <= j < |b| ==> b[j] < |s|
    ensures Permute(s, a + b) == Permute(s, a) + Permute(s, b)
  {
  }

  /** Every entry of `q` is an index below `bound`. */
  predicate Below(q: seq<nat>, bound: nat)
  {
    forall j :: 0 <= j < |q| ==> q[j] < bound
  }

  /** `q` without its entry i. */
  function Without(q: seq<nat>, i: nat): (r: seq<nat>)
    requires i < |q|
    ensures |r| == |q| - 1
  {
    q[..i] + q[i + 1..]
  }

  /** Taking entry i out of `q` takes one copy of q[i] out of its multiset,
      and keeps the other entries within their bound. */
  lemma RemoveAt(q: seq<nat>, i: nat, bound: nat)
    requires i < |q| && Below(q, bound)
    ensures multiset(Without(q, i)) == multiset(q) - multiset{q[i]}
    ensures Below(Without(q, i), bound)
  {
    assert q == q[..i] + [q[i]] + q[i + 1..];
  }

  /** Taking index q[i] out of `q` takes one copy of s[q[i]] out of the
      reordered entries. */
  lemma PermuteWithout<X>(s: seq<X>, q: seq<nat>, i: nat)
    requires i < |q| && Below(q, |s|)
    ensures Below(Without(q, i), |s|)
    ensures multiset(Permute(s, q)) == multiset(Permute(s, Without(q, i))) + multiset{s[q[i]]}
  {
    var a, b := q[..i], q[i + 1..];
    assert q == a + [q[i]] + b;
    PermuteAppend(s, a + [q[i]], b);
    PermuteAppend(s, a, [q[i]]);
    PermuteAppend(s, a, b);
    assert Permute(s, [q[i]]) == [s[q[i]]];
  }

  /** Reordering by two index sequences that hold the same indices yields the
      same multiset of entries. */
  lemma {:induction false} PermuteRespectsMultiset<X>(s: seq<X>, p: seq<nat>, q: seq<nat>)
    requires multiset(p) == multiset(q)
    requires Below(p, |s|) && Below(q, |s|)
    ensures multiset(Permute(s, p)) == multiset(Permute(s, q))
    decreases |p|
  {
    if |p| == 0 {
      assert |q| == |multiset(q)| == 0;
    } else {
      assert p[0] in multiset(q);
      var i :| 0 <= i < |q| && q[i] == p[0];
      RemoveAt(q, i, |s|);
      RemoveAt(p, 0, |s|);
      PermuteRespectsMultiset(s, Without(p, 0), Without(q, i));
      PermuteWithout(s, q, i);
      PermuteWithout(s, p, 0);
    }
  }

  /** Shuffling keeps every (feature, label, date) row together and changes
      only their order: the multiset of rows is that of the leading part, the
      whole dataset when it is consistent. */
  lemma RandomizeKeepsRows<F, T>(d: Dataset<F, T>, perm: seq<nat>)
    requires Indexable(d) && IsPermutation(perm, |d.labels|)
    ensures multiset(Randomize(d, perm).Rows()) == multiset(Leading(d).Rows())
  {
    var n := |d.labels|;
    var rows := Leading(d).Rows();
    assert Randomize(d, perm).Rows() == Permute(rows, perm);
    assert Permute(rows, Indices(n)) == rows;
    PermuteRespectsMultiset(rows, perm, Indices(n));
  }
}
