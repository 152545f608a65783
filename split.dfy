/** The ratio split at the end of run: the (possibly shuffled) dataset is cut
    into contiguous fragments whose sizes follow the given weights, the last
    fragment taking whatever integer division left over. */
module Splitting {
  import opened Wrappers
  import opened Datasets

  /** What run hands to the persistence step: the whole dataset when a single
      weight is given, otherwise one dataset per weight, in weight order. */
  datatype Output<F, T> = Whole(dataset: Dataset<F, T>) | Fragments(parts: seq<Dataset<F, T>>)

  /** The sum of the weights. */
  function Sum(xs: seq<int>): int
  {
    if |xs| == 0 then 0 else Sum(xs[..|xs| - 1]) + xs[|xs| - 1]
  }

  /** Slicing s[lo:hi] as the source's sequences do it (no `hi`: up to the
      end); bounds past the end are clamped and an empty range is empty. */
  function Slice<X>(s: seq<X>, lo: nat, hi: Option<nat>): (r: seq<X>)
    ensures hi.None? && lo <= |s| ==> r == s[lo..]
    ensures hi.Some? && lo <= hi.value <= |s| ==> r == s[lo..hi.value]
  {
    var a := Min(lo, |s|);
    var b := if hi.None? then |s| else if hi.value <= a then a else Min(hi.value, |s|);
    s[a..b]
  }

  /** The same slice taken of the features, the labels and the dates. */
  function Fragment<F, T>(d: Dataset<F, T>, lo: nat, hi: Option<nat>): Dataset<F, T>
  {
    Dataset(Slice(d.features, lo, hi), Slice(d.labels, lo, hi), Slice(d.dates, lo, hi))
  }

  /** Two adjacent slices make up the slice that spans both. */
  lemma SliceJoin<X>(s: seq<X>, a: nat, b: nat, hi: Option<nat>)
    requires a <= b && (hi.Some? ==> b <= hi.value)
    ensures Slice(s, a, Some(b)) + Slice(s, b, hi) == Slice(s, a, hi)
  {
  }

  /** Appending the fragment that starts where the joined prefix ends extends
      the prefix to the fragment's end. */
  lemma JoinNext<F, T>(parts: seq<Dataset<F, T>>, d: Dataset<F, T>, b: nat, hi: Option<nat>)
    requires hi.Some? ==> b <= hi.value
    requires Joined(parts) == Fragment(d, 0, Some(b))
    ensures Joined(parts + [Fragment(d, b, hi)]) == Fragment(d, 0, hi)
  {
    assert (parts + [Fragment(d, b, hi)])[..|parts|] == parts;
    SliceJoin(d.features, 0, b, hi);
    SliceJoin(d.labels, 0, b, hi);
    SliceJoin(d.dates, 0, b, hi);
  }

  /** A prefix of entries that are not negative sums to at least zero and to
      at most the whole. */
  lemma {:induction false} PrefixSumBelow(xs: seq<int>, k: nat)
    requires k <= |xs|
    requires forall j :: 0 <= j < |xs| ==> xs[j] >= 0
    ensures 0 <= Sum(xs[..k]) <= Sum(xs)
    decreases |xs|
  {
    if k < |xs| {
      var init := xs[..|xs| - 1];
      assert init[..k] == xs[..k];
      PrefixSumBelow(init, k);
    } else {
      assert xs[..k] == xs;
      if |xs| > 0 {
        PrefixSumBelow(xs[..|xs| - 1], |xs| - 1);
        assert xs[..|xs| - 1][..|xs| - 1] == xs[..|xs| - 1];
      }
    }
  }

  /** Rounding every piece down keeps their total within the whole: the sum of
      `weight * n / total` over all weights, times `total`, is at most
      n times the sum of the weights. */
  lemma {:induction false} PiecesFit(ratio: seq<int>, pieces: seq<int>, n: nat, total: int)
    requires total > 0 && |pieces| == |ratio|
    requires forall j :: 0 <= j < |ratio| ==> ratio[j] >= 0 && pieces[j] == ratio[j] * n / total
    ensures Sum(pieces) * total <= Sum(ratio) * n
    decreases |ratio|
  {
    if |ratio| > 0 {
      var m := |ratio| - 1;
      PiecesFit(ratio[..m], pieces[..m], n, total);
      assert Sum(pieces) == Sum(pieces[..m]) + pieces[m];
      assert Sum(ratio) == Sum(ratio[..m]) + ratio[m];
      RoundedDown(Sum(pieces[..m]), Sum(ratio[..m]), ratio[m], n, total);
    }
  }

  /** One more piece rounded down keeps the bound of PiecesFit. */
  lemma RoundedDown(before: int, weights: int, weight: int, n: nat, total: int)
    requires total > 0 && before * total <= weights * n
    ensures (before + weight * n / total) * total <= (weights + weight) * n
  {
  }

  /** With weights that sum to `total`, the rounded-down pieces sum to at most n. */
  lemma PiecesWithin(ratio: seq<int>, pieces: seq<int>, n: nat, total: int)
    requires total > 0 && total == Sum(ratio) && |pieces| == |ratio|
    requires forall j :: 0 <= j < |ratio| ==> ratio[j] >= 0 && pieces[j] == ratio[j] * n / total
    ensures Sum(pieces) <= n
  {
    PiecesFit(ratio, pieces, n, total);
  }

  /** The length of each fragment: weight * n / (sum of the weights), rounded
      down; together they never exceed n. */
  method PieceLengths(ratio: seq<int>, n: nat) returns (split: seq<int>)
    requires forall k :: 0 <= k < |ratio| ==> ratio[k] >= 0
    requires Sum(ratio) > 0
    ensures |split| == |ratio|
    ensures forall j :: 0 <= j < |ratio| ==> split[j] == ratio[j] * n / Sum(ratio) && split[j] >= 0
    ensures Sum(split) <= n
  {
    var total := Sum(ratio);
    split := [];
    for k := 0 to |ratio|
      invariant |split| == k
      invariant forall j :: 0 <= j < k ==> split[j] == ratio[j] * n / total && split[j] >= 0
    {
      split := split + [ratio[k] * n / total];
    }
    PiecesWithin(ratio, split, n, total);
  }

  /** The first k pieces (all but the last piece overall) have the lengths
      `split` asks for. */
  predicate Sized<F, T>(parts: seq<Dataset<F, T>>, split: seq<int>, k: nat)
    requires k <= |parts|
  {
    forall j :: 0 <= j < k && j < |split| - 1 ==> |parts[j].features| == split[j]
  }

  /** Every piece is consistent. */
  predicate AllConsistent<F, T>(parts: seq<Dataset<F, T>>)
  {
    forall j :: 0 <= j < |parts| ==> parts[j].Consistent()
  }

  /** One step of the fragment loop keeps its invariants. */
  lemma NextPiece<F, T>(d: Dataset<F, T>, parts: seq<Dataset<F, T>>, split: seq<int>, k: nat, index: nat, end: Option<nat>)
    requires k < |split| && index == Sum(split[..k])
    requires forall j :: 0 <= j < |split| ==> split[j] >= 0
    requires Sum(split) <= |d.features|
    requires end == if k != |split| - 1 then Some(split[k] + index) else None
    requires Joined(parts) == Fragment(d, 0, Some(index))
    ensures index + split[k] == Sum(split[..k + 1]) <= |d.features|
    ensures k != |split| - 1 ==> |Fragment(d, index, end).features| == split[k]
    ensures d.Consistent() ==> Fragment(d, index, end).Consistent()
    ensures Joined(parts + [Fragment(d, index, end)]) == Fragment(d, 0, end)
  {
    assert split[..k + 1][..k] == split[..k];
    PrefixSumBelow(split, k + 1);
    JoinNext(parts, d, index, end);
  }

  /** A piece of the asked-for length extends the sized prefix by one. */
  lemma GrowSized<F, T>(parts: seq<Dataset<F, T>>, split: seq<int>, piece: Dataset<F, T>)
    requires Sized(parts, split, |parts|)
    requires |parts| < |split| - 1 ==> |piece.features| == split[|parts|]
    ensures Sized(parts + [piece], split, |parts| + 1)
  {
  }

  /** A consistent piece keeps every piece consistent. */
  lemma GrowConsistent<F, T>(parts: seq<Dataset<F, T>>, piece: Dataset<F, T>)
    requires AllConsistent(parts) && piece.Consistent()
    ensures AllConsistent(parts + [piece])
  {
  }

  /** The fragment loop of run: consecutive slices of `split[k]` rows each,
      the last one running to the end. */
  method Cut<F, T>(d: Dataset<F, T>, split: seq<int>) returns (parts: seq<Dataset<F, T>>)
    requires |split| >= 1
    requires forall j :: 0 <= j < |split| ==> split[j] >= 0
    requires Sum(split) <= |d.features|
    ensures |parts| == |split| && Joined(parts) == d
    ensures forall j :: 0 <= j < |split| - 1 ==> |parts[j].features| == split[j]
    ensures d.Consistent() ==> forall j :: 0 <= j < |split| ==> parts[j].Consistent()
  {
    parts := [];
    var index: nat := 0;
    for k := 0 to |split|
      invariant |parts| == k
      invariant index == Sum(split[..k]) <= |d.features|
      invariant k < |split| ==> Joined(parts) == Fragment(d, 0, Some(index))
      invariant k == |split| ==> Joined(parts) == Fragment(d, 0, None)
      invariant Sized(parts, split, k)
      invariant d.Consistent() ==> AllConsistent(parts)
    {
      // the last piece takes everything left over by the rounding
      var end := if k != |split| - 1 then Some(split[k] + index) else None;
      NextPiece(d, parts, split, k, index, end);
      var piece := Fragment(d, index, end);
      GrowSized(parts, split, piece);
      if d.Consistent() {
        GrowConsistent(parts, piece);
      }
      parts := parts + [piece];
      index := index + split[k];
    }
    assert Fragment(d, 0, None) == d;
  }

  /** The split step of run. A single weight yields the dataset unsplit;
      otherwise fragment k is the slice of `weight_k * N / sum` rows starting
      where fragment k - 1 ended (N the number of feature rows), and the last
      fragment runs to the end. */
  method SplitDataset<F, T>(d: Dataset<F, T>, ratio: seq<int>) returns (out: Output<F, T>)
    requires |ratio| >= 1
    requires |ratio| > 1 ==> (forall k :: 0 <= k < |ratio| ==> ratio[k] >= 0) && Sum(ratio) > 0
    ensures |ratio| == 1 ==> out == Whole(d)
    ensures |ratio| > 1 ==> out.Fragments? && |out.parts| == |ratio| && Joined(out.parts) == d
    ensures |ratio| > 1 ==>
              Sum(ratio) > 0 &&
              forall k :: 0 <= k < |ratio| - 1 ==> |out.parts[k].features| == ratio[k] * |d.features| / Sum(ratio)
    ensures |ratio| > 1 && d.Consistent() ==> forall k :: 0 <= k < |ratio| ==> out.parts[k].Consistent()
  {
    if |ratio| == 1 {
      return Whole(d);
    }
    var split := PieceLengths(ratio, |d.features|);
    var parts := Cut(d, split);
    return Fragments(parts);
  }
}
