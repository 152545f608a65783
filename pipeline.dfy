/** run without its I/O: after the ratio has been read, generate the dataset,
    optionally shuffle it, then keep it whole or split it by the ratio. Date
    parsing, the random source and writing the result to a file are not part
    of this model. */
module Pipeline {
  import opened Wrappers
  import opened Datasets
  import opened Labeller
  import opened Assembly
  import opened Shuffle
  import opened Splitting

  /** Why a run ends without a result: a weight that does not parse, a failed
      generation, shuffle indexing past the end of the features or dates, or
      several weights summing to zero (the piece lengths are then infinite or
      undefined and their conversion to integers raises). */
  datatype RunError = BadRatio | NotGenerated(cause: AssemblyError) | ShuffleOutOfRange | ZeroRatioSum

  /** The datasets of an output, in order. */
  function Parts<F, T>(out: Output<F, T>): seq<Dataset<F, T>>
  {
    match out
    case Whole(d) => [d]
    case Fragments(parts) => parts
  }

  /** run. `ratio` is the parsed weight list, None when a weight did not parse;
      `permutationOf(n)` is the permutation the random source would draw for n
      rows. */
  method Run<P, F, T>(ratio: Option<seq<int>>, models: seq<DatasetModel>, name: string, properties: seq<seq<P>>,
                      generate: (DatasetModel, seq<seq<P>>) -> Generated<F, T>,
                      ticks: seq<Tick>, mode: LabelMode, shuffle: bool, permutationOf: nat -> seq<nat>)
    returns (r: Result<Output<F, T>, RunError>)
    requires ratio.Some? ==> |ratio.value| >= 1
    requires ratio.Some? && |ratio.value| > 1 ==> forall k :: 0 <= k < |ratio.value| ==> ratio.value[k] >= 0
    requires shuffle ==> forall n: nat :: IsPermutation(permutationOf(n), n)
    ensures ratio.None? ==> r == Failure(BadRatio)
    ensures ratio.Some? && Assemble(models, name, properties, generate, ticks, mode).Failure? ==>
              r == Failure(NotGenerated(Assemble(models, name, properties, generate, ticks, mode).error))
    ensures r == Failure(ShuffleOutOfRange) <==>
              ratio.Some? && shuffle &&
              Assemble(models, name, properties, generate, ticks, mode).Success? &&
              !Indexable(Assemble(models, name, properties, generate, ticks, mode).value)
    ensures r == Failure(ZeroRatioSum) <==>
              ratio.Some? && |ratio.value| > 1 && Sum(ratio.value) == 0 &&
              Assemble(models, name, properties, generate, ticks, mode).Success? &&
              (shuffle ==> Indexable(Assemble(models, name, properties, generate, ticks, mode).value))
    ensures ratio.Some? && Assemble(models, name, properties, generate, ticks, mode).Success? &&
            (shuffle ==> Indexable(Assemble(models, name, properties, generate, ticks, mode).value)) &&
            (|ratio.value| > 1 ==> Sum(ratio.value) > 0) ==>
              r.Success? &&
              (|ratio.value| == 1 <==> r.value.Whole?) &&
              (|ratio.value| > 1 ==> |Parts(r.value)| == |ratio.value|)
    ensures r.Success? && |ratio.value| > 1 ==>
              var d := Assemble(models, name, properties, generate, ticks, mode).value;
              Sum(ratio.value) > 0 &&
              forall k :: 0 <= k < |ratio.value| - 1 ==>
                |Parts(r.value)[k].features| == ratio.value[k] * |d.features| / Sum(ratio.value)
    ensures r.Success? && shuffle ==>
              var d := Assemble(models, name, properties, generate, ticks, mode).value;
              Indexable(d) && Joined(Parts(r.value)) == Randomize(d, permutationOf(|d.labels|))
    ensures r.Success? && !shuffle ==>
              Joined(Parts(r.value)) == Assemble(models, name, properties, generate, ticks, mode).value
    ensures r.Success? && shuffle ==>
              var d := Assemble(models, name, properties, generate, ticks, mode).value;
              Indexable(d) && Joined(Parts(r.value)).Consistent() &&
              multiset(Joined(Parts(r.value)).Rows()) == multiset(Leading(d).Rows())
    ensures r.Success? && (shuffle || Assemble(models, name, properties, generate, ticks, mode).value.Consistent()) ==>
              forall k :: 0 <= k < |Parts(r.value)| ==> Parts(r.value)[k].Consistent()
  {
    if ratio.None? {
      return Failure(BadRatio);
    }
    var generated := GenerateDataset(models, name, properties, generate, ticks, mode);
    if generated.Failure? {
      return Failure(NotGenerated(generated.error));
    }
    var d := generated.value;
    if shuffle {
      if !Indexable(d) {
        return Failure(ShuffleOutOfRange);
      }
      RandomizeKeepsRows(d, permutationOf(|d.labels|));
      d := Randomize(d, permutationOf(|d.labels|));
    }
    if |ratio.value| > 1 {
      if Sum(ratio.value) == 0 {
        return Failure(ZeroRatioSum);
      }
      PrefixSumBelow(ratio.value, 0);
    }
    var out := SplitDataset(d, ratio.value);
    assert Joined([d]) == d by {
      assert [d][..0] == [];
    }
    return Success(out);
  }
}
