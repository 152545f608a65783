/** The values the dataset pipeline passes around: label ticks, labels and the
    (features, labels, dates) triple. */
module Datasets {

  /** One row of the label series: a tick's date and its close price. */
  datatype Tick = Tick(date: int, price: real)

  /** The label attached to one date: in boolean mode whether the next tick's
      price is strictly higher, in full mode the target the dataset model supplied. */
  datatype Label<T> = Rising(up: bool) | Target(value: T)

  /** One entry of a dataset, the three co-indexed values at one position. */
  datatype Row<F, T> = Row(feature: F, tag: Label<T>, date: int)

  /** The features, labels and dates of a dataset, three parallel containers. */
  datatype Dataset<F, T> = Dataset(features: seq<F>, labels: seq<Label<T>>, dates: seq<int>)
  {
    /** The three containers share one length. */
    predicate Consistent()
    {
      |features| == |labels| == |dates|
    }

    /** The dataset as a sequence of rows. */
    function Rows(): (r: seq<Row<F, T>>)
      requires Consistent()
      ensures |r| == |labels|
    {
      seq(|labels|, j requires 0 <= j < |labels| => Row(features[j], labels[j], dates[j]))
    }
  }

  /** The datasets of `parts` laid end to end, container by container. */
  function Joined<F, T>(parts: seq<Dataset<F, T>>): Dataset<F, T>
  {
    if |parts| == 0 then Dataset([], [], [])
    else
      var init := Joined(parts[..|parts| - 1]);
      var last := parts[|parts| - 1];
      Dataset(init.features + last.features, init.labels + last.labels, init.dates + last.dates)
  }
}
