# Dataset generator: labelling, reconciliation, shuffling and splitting

This project models the core of `dataset_generator.py`, the step of the
blockchain-predictor pipeline that turns a dataset model's output into a
`(features, labels, dates)` triple for neural-network training, and proves
what that step promises about it.

- **Labeller** (`generateLabels`). In boolean mode a forward-only cursor walks
  the chronologically ordered label ticks. For each requested date it finds
  the matching tick, compares that tick's close price with its positional
  successor's (strict `>`), and stops early when no successor exists, cutting
  `dates` back to the labels produced. In full mode the model's next-price
  targets and the dates are handed back unchanged.
- **Assembly** (`generateDataset`). The model is looked up by name (the last
  registry entry with that name wins), the loaded property series must all
  have the same length, the model generates, the dates are labelled, and the
  features are trimmed to the number of labels (never padded).
- **Shuffle** (`randomizeDataset`). One permutation of `[0, N)`, where N is
  the number of labels, is applied to features, labels and dates alike. It is
  a parameter here, standing for the random draw. When the features or dates
  are shorter than the labels, the indexing raises; when the dates are longer,
  only their first N entries can be picked.
- **Split** (the ratio loop of `run`). Fragment `k` gets `weight_k * N / sum`
  rows, rounded down. The fragments are contiguous and in weight order, and the
  last takes the remainder. A single weight keeps the dataset whole.
- **Pipeline** (`run` without I/O). It chains the steps above and proves that
  the fragments, laid end to end, give back the assembled dataset (or a
  row-for-row permutation of its first N rows when shuffled). Shuffled output,
  and any output of an assembled dataset whose containers share one length,
  keeps its three containers in lock-step. A shuffle out of range and several
  weights summing to zero are error results.

Files: `wrappers.dfy` (Option, Result), `datasets.dfy` (ticks, labels,
datasets), `labeller.dfy`, `assembly.dfy`, `shuffle.dfy`, `split.dfy`,
`pipeline.dfy`.

Ticks are `(date, price)` pairs with integer dates and real prices. Feature
matrices and full-mode targets are type parameters: the model never looks
inside them. The dataset models' `generate` is a function parameter from a
registry entry and the loaded series to `(features, dates, nextPrices)`.

Two points where the code settles what a looser reading could leave open, and
the model follows the code:
- The model lookup loop has no `break`, so with duplicate names the last
  entry is chosen, not the first (`Assembly.LastNamed`).
- In boolean mode the search loop for a date sits outside the `try`. A date
  with no tick at or after the cursor therefore ends the run with an error
  (`DateNotFound`); it is not treated like a missing successor, which only
  truncates. Similarly, an unknown model or misaligned properties make
  `generateDataset` return nothing, which ends `run`; both are `Failure`
  results here.

## Model

| member | source | states |
|---|---|---|
| `Labeller.Seek` | dataset_generator.py:86-87 | the cursor stops at the first tick at or after its position carrying the date, skipping only ticks with other dates; None exactly when no such tick exists |
| `Labeller.CursorFrom` | dataset_generator.py:81-87 | the tick matched for the k-th date lies at or after the scan's starting position and carries that date |
| `Labeller.BooleanLabelsFrom` | dataset_generator.py:85-103 | boolean labelling never yields more labels than dates |
| `Labeller.Labelling` | dataset_generator.py:77-111 | in boolean mode the returned dates are a prefix of the input dates with exactly one date per label, and each label is the corresponding flag of the boolean scan; a failure is the scan's failure |
| `Labeller.GenerateLabels` | dataset_generator.py:77-111 | the cursor loop computes exactly `Labelling`; full mode returns the model's targets one for one and the dates unchanged |
| `Labeller.LabelIsNextTickRise` | dataset_generator.py:86-99 | every labelled date was found, its tick has a successor, and its label is true iff the successor's price is strictly greater than the matched tick's |
| `Labeller.LabelsFollowCursor` | dataset_generator.py:81-99 | at the entry point, in boolean mode, label k is the rise from the tick the cursor matched for date k, scanning from the first tick, to that tick's successor |
| `Labeller.StopsAtLastTick` | dataset_generator.py:89-95 | when labelling stops before the last date, the first unlabelled date matched the last tick (no successor) |
| `Labeller.MissingDateFails` | dataset_generator.py:85-87 | a date the cursor cannot find, reached while every earlier date had a successor, makes labelling fail with that date |
| `Labeller.NoMissingDateSucceeds` | dataset_generator.py:85-95 | if no date is missing before labelling stops, labelling succeeds (so every failure comes from a missing date) |
| `Labeller.CursorNeverMovesBack` | dataset_generator.py:81-87 | the tick matched for a later date is at or after the tick matched for an earlier date |
| `Labeller.SearchResumesAtCursor` | dataset_generator.py:85-87 | the search for the next date starts at the tick matched for the current date, never from the first tick |
| `Labeller.FourTickExample` | dataset_generator.py:77-108 | prices 10, 12, 11, 9 label dates 1, 2, 3 as up, down, down; adding date 4 drops it, since its tick has no successor |
| `Assembly.LastNamed` | dataset_generator.py:36-41 | the chosen entry carries the requested name and no later entry does; None exactly when no entry carries it |
| `Assembly.FindModel` | dataset_generator.py:36-45 | the lookup loop returns the last registry entry with the requested name, or none |
| `Assembly.CheckLengths` | dataset_generator.py:61-64 | comparing every series with the first accepts exactly when all series have pairwise equal lengths |
| `Assembly.Reconcile` | dataset_generator.py:71-73 | the trimmed features are the prefix of length min(features, labels), never padded, and exactly as long as the labels when there were enough features |
| `Assembly.Assemble` | dataset_generator.py:33-75 | unknown model iff no entry has the name; length mismatch iff the model exists and the series are not aligned; label failure iff both pass and labelling the generated dates fails, carrying the labeller's error; on success the labels and dates are exactly what the labeller returned, the features are a prefix of the generated ones of length min(generated, labels), and the triple is consistent when the model's output is |
| `Assembly.GenerateDataset` | dataset_generator.py:33-75 | lookup, length check, generation, labelling and trimming compute exactly `Assemble` |
| `Shuffle.Permute` | dataset_generator.py:115-117 | fancy indexing: one entry per index, entry j being s[perm[j]] |
| `Shuffle.Randomize` | dataset_generator.py:113-118 | the shuffled triple is consistent, as long as the labels, and row j of each container is row perm[j] of the input |
| `Shuffle.RandomizeKeepsRows` | dataset_generator.py:113-118 | shuffling keeps rows together: the multiset of (feature, label, date) rows is that of the first |labels| rows, the whole dataset when it is consistent |
| `Splitting.Slice` | dataset_generator.py:170-172 | within bounds a slice with an end is `s[lo..hi]` and one without an end is `s[lo..]` |
| `Splitting.PieceLengths` | dataset_generator.py:158-160 | for weights that are not negative with a positive sum (zero weights included), each piece length is weight * n / sum rounded down, not negative, and the pieces add up to at most n |
| `Splitting.PiecesWithin` | dataset_generator.py:158-160 | the rounded-down pieces sum to at most n |
| `Splitting.Cut` | dataset_generator.py:164-174 | the fragments laid end to end give back the dataset; every fragment but the last has its piece length; fragments of a consistent dataset are consistent |
| `Splitting.SplitDataset` | dataset_generator.py:149-174 | a single weight keeps the dataset whole; otherwise one fragment per weight, joined they give back the dataset, fragment k < last has weight_k * N / sum feature rows, and each fragment of a consistent dataset is consistent |
| `Pipeline.Run` | dataset_generator.py:129-178 | an unparsed ratio aborts before generation; generation failures propagate; shuffling fails exactly when the features or dates are shorter than the labels; several weights summing to zero fail exactly when generation and shuffling succeed; otherwise the output is whole iff one weight; with several weights there is one fragment per weight, and fragment k < last has weight_k * N / sum feature rows (N the assembled feature rows); the fragments joined are the assembled dataset (unshuffled) or exactly `Randomize` of it by the drawn permutation (shuffled), a consistent dataset with the rows of its leading part; every output dataset is consistent when the assembled one is |

## Left out

- Chunk-store access (`db.getChunkstore`, `getMasterInterval`, `loadData`) and its closed-open boundary handling: calls into a module that is not part of this model. The loaded property series and the label ticks are inputs.
- The pickle/base64 decode of encoded property values (dataset_generator.py:56-58): opaque deserialisation.
- `saveDataset`, the `save` and `debug` flags, the `print` diagnostics, `argparse`/`dateutil` parsing and the default file name: I/O plumbing.
- The ratio parse (`int(x)` over `ratio.split(':')`): modelled only as its outcome, a weight list or None for a parse failure, which aborts before generation.
- `np.random.permutation`: replaced by the `permutationOf` parameter, which must yield a permutation of `[0, n)`.
- `MatrixModel`/`StackedModel` and their `generate`: not part of this model. The registry is a parameter, and `generate` is a function parameter.
- Label modes other than `boolean` and `full`: the command line admits only these two, so `LabelMode` has two values.
- Prices are exact reals, so NaN and float rounding in the `>` comparison are not modelled.
- Split piece lengths: the source truncates a float quotient, modelled as exact integer division; the two differ only when the product exceeds 2^53.
- `Splitting.SplitDataset`: requires, when there are several weights, that none is negative and that they sum to more than zero. Zero weights are allowed and give empty fragments. `Pipeline.Run` turns a zero sum into `ZeroRatioSum`: numpy yields inf or nan for the quotient, and `int()` of either raises. With negative weights, Python's negative slice ends count from the end; this case is not modelled.
- `Pipeline.Run`: requires that no weight is negative when there are several, for the reason given under `Splitting.SplitDataset`. It also requires that `permutationOf(n)` is a permutation of `[0, n)`, which `np.random.permutation` guarantees. The IndexError raised when the features or dates are shorter than the labels is modelled as the error `ShuffleOutOfRange`. Its message text is not modelled.
- neural/neural_network.py: the RMSE, sign and custom accuracy and R2 scores are floating-point numerics over sklearn; `train`/`predict` are abstract; `reformat` and `plotModel` wrap numpy and keras.
- properties/propertyWeightedAverage.py: a thin wrapper over a base class that is not part of this model.
