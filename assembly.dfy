/** generateDataset: picks the dataset model by name, checks that the loaded
    properties line up, lets the model generate, labels its dates and trims
    the features to the labels. Loading from the chunk store happens before
    this and is not modelled: the loaded property series and the label ticks
    are inputs. */
module Assembly {
  import opened Wrappers
  import opened Datasets
  import opened Labeller

  /** The dataset model classes in the registry. */
  datatype Variant = Matrix | Stacked

  /** A registry entry: the name it is looked up by and the class behind it. */
  datatype DatasetModel = DatasetModel(name: string, variant: Variant)

  /** What a dataset model's generate step returns: one feature matrix per
      date, the dates, and the normalised next prices used as full labels. */
  datatype Generated<F, T> = Generated(features: seq<F>, dates: seq<int>, nextPrices: seq<T>)

  datatype AssemblyError =
    | UnknownModel(name: string)
    | LengthMismatch
    | LabelFailure(cause: LabelError)

  /** The model returns its three sequences with one common length. */
  predicate Uniform<F, T>(g: Generated<F, T>)
  {
    |g.features| == |g.dates| == |g.nextPrices|
  }

  /** Position of the registry entry the lookup ends with: the LAST entry
      carrying the name, since the lookup loop keeps overwriting its choice. */
  function LastNamed(models: seq<DatasetModel>, name: string): (r: Option<nat>)
    ensures r.Some? ==> r.value < |models| && models[r.value].name == name
    ensures r.Some? ==> forall j :: r.value < j < |models| ==> models[j].name != name
    ensures r.None? <==> forall j :: 0 <= j < |models| ==> models[j].name != name
  {
    if |models| == 0 then None
    else if models[|models| - 1].name == name then Some(|models| - 1)
    else LastNamed(models[..|models| - 1], name)
  }

  /** The model lookup loop: every entry with the requested name replaces the
      previous choice. */
  method FindModel(models: seq<DatasetModel>, name: string) returns (model: Option<DatasetModel>)
    ensures LastNamed(models, name).None? ==> model.None?
    ensures LastNamed(models, name).Some? ==> model == Some(models[LastNamed(models, name).value])
  {
    model := None;
    for k := 0 to |models|
      invariant LastNamed(models[..k], name).None? ==> model.None?
      invariant LastNamed(models[..k], name).Some? ==> model == Some(models[LastNamed(models[..k], name).value])
    {
      assert models[..k + 1][..k] == models[..k];
      if models[k].name == name {
        model := Some(models[k]);
      }
    }
    assert models[..|models|] == models;
  }

  /** Every loaded property series has the same number of entries. */
  predicate Aligned<P>(properties: seq<seq<P>>)
  {
    forall i, j :: 0 <= i < |properties| && 0 <= j < |properties| ==> |properties[i]| == |properties[j]|
  }

  /** The length check: each series is compared with the first one. */
  method CheckLengths<P>(properties: seq<seq<P>>) returns (ok: bool)
    ensures ok <==> Aligned(properties)
  {
    for k := 0 to |properties|
      invariant forall j :: 0 <= j < k ==> |properties[j]| == |properties[0]|
    {
      if |properties[0]| != |properties[k]| {
        return false;
      }
    }
    return true;
  }

  /** The features trimmed to the number of labels when the two differ; the
      slice never pads. */
  function Reconcile<F>(features: seq<F>, labelCount: nat): (r: seq<F>)
    ensures |r| == Min(|features|, labelCount) && r == features[..|r|]
    ensures |features| >= labelCount ==> |r| == labelCount
  {
    if |features| != labelCount then features[..Min(|features|, labelCount)] else features
  }

  /** generateDataset as a definition: the outcome for the registry `models`,
      the requested model name, the loaded property series, the models'
      generate step and the label ticks. */
  function Assemble<P, F, T>(models: seq<DatasetModel>, name: string, properties: seq<seq<P>>,
                             generate: (DatasetModel, seq<seq<P>>) -> Generated<F, T>,
                             ticks: seq<Tick>, mode: LabelMode): (r: Result<Dataset<F, T>, AssemblyError>)
    ensures r == Failure(UnknownModel(name)) <==> LastNamed(models, name).None?
    ensures r == Failure(LengthMismatch) <==> LastNamed(models, name).Some? && !Aligned(properties)
    ensures r.Success? ==>
              LastNamed(models, name).Some? && Aligned(properties) &&
              var g := generate(models[LastNamed(models, name).value], properties);
              |r.value.features| == Min(|g.features|, |r.value.labels|) &&
              r.value.features == g.features[..|r.value.features|] &&
              (Uniform(g) ==> r.value.Consistent())
    ensures r.Success? ==>
              var g := generate(models[LastNamed(models, name).value], properties);
              Labelling(g.dates, g.nextPrices, ticks, mode) == Success(Labelled(r.value.labels, r.value.dates))
    ensures r.Failure? && r.error.LabelFailure? <==>
              LastNamed(models, name).Some? && Aligned(properties) &&
              var g := generate(models[LastNamed(models, name).value], properties);
              Labelling(g.dates, g.nextPrices, ticks, mode).Failure?
    ensures r.Failure? && r.error.LabelFailure? ==>
              var g := generate(models[LastNamed(models, name).value], properties);
              Labelling(g.dates, g.nextPrices, ticks, mode) == Failure(r.error.cause)
  {
    match LastNamed(models, name)
    case None => Failure(UnknownModel(name))
    case Some(j) =>
      if !Aligned(properties) then Failure(LengthMismatch)
      else
        var g := generate(models[j], properties);
        match Labelling(g.dates, g.nextPrices, ticks, mode)
        case Failure(e) => Failure(LabelFailure(e))
        case Success(l) => Success(Dataset(Reconcile(g.features, |l.labels|), l.labels, l.dates))
  }

  /** generateDataset: model lookup, length check, generation, labelling and
      trimming, each failure ending the run. */
  method GenerateDataset<P, F, T>(models: seq<DatasetModel>, name: string, properties: seq<seq<P>>,
                                  generate: (DatasetModel, seq<seq<P>>) -> Generated<F, T>,
                                  ticks: seq<Tick>, mode: LabelMode)
    returns (r: Result<Dataset<F, T>, AssemblyError>)
    ensures r == Assemble(models, name, properties, generate, ticks, mode)
  {
    var model := FindModel(models, name);
    if model.None? {
      return Failure(UnknownModel(name));
    }
    var aligned := CheckLengths(properties);
    if !aligned {
      return Failure(LengthMismatch);
    }
    var g := generate(model.value, properties);
    var labelled := GenerateLabels(g.dates, g.nextPrices, ticks, mode);
    if labelled.Failure? {
      return Failure(LabelFailure(labelled.error));
    }
    var features := Reconcile(g.features, |labelled.value.labels|);
    return Success(Dataset(features, labelled.value.labels, labelled.value.dates));
  }
}
