/** generateLabels: attaches a label to each date the dataset model produced.
    In boolean mode a forward-only cursor walks the chronologically ordered
    ticks; in full mode the model's own targets are passed through. */
module Labeller {
  import opened Wrappers
  import opened Datasets

  datatype LabelMode = Boolean | Full

  /** A requested date that has no tick at or after the cursor: the source's
      search loop runs off the end of the ticks, outside its error handler. */
  datatype LabelError = DateNotFound(date: int)

  /** What the labeller returns: the labels and the dates they belong to. */
  datatype Labelled<T> = Labelled(labels: seq<Label<T>>, dates: seq<int>)

  /** Where the cursor stops when it looks for `date` starting at position
      `from`: the first tick at or after `from` carrying that date, or None
      when it runs off the end of the ticks. */
  function Seek(ticks: seq<Tick>, from: nat, date: int): (r: Option<nat>)
    decreases |ticks| - from
    ensures r.Some? ==> from <= r.value < |ticks| && ticks[r.value].date == date
    ensures r.Some? ==> forall j :: from <= j < r.value ==> ticks[j].date != date
    ensures r.None? <==> forall j :: from <= j < |ticks| ==> ticks[j].date != date
  {
    if from >= |ticks| then None
    else if ticks[from].date == date then Some(from)
    else Seek(ticks, from + 1, date)
  }

  /** The tick the cursor stands on once it has found dates[k], when the scan
      starts at position `from`; the cursor is never reset between dates. */
  function CursorFrom(ticks: seq<Tick>, dates: seq<int>, from: nat, k: nat): (r: Option<nat>)
    requires k < |dates|
    decreases k
    ensures r.Some? ==> from <= r.value < |ticks| && ticks[r.value].date == dates[k]
  {
    match Seek(ticks, from, dates[0])
    case None => None
    case Some(i) => if k == 0 then Some(i) else CursorFrom(ticks, dates[1..], i, k - 1)
  }

  /** The tick matched for dates[k] in a scan from the first tick. */
  function Cursor(ticks: seq<Tick>, dates: seq<int>, k: nat): Option<nat>
    requires k < |dates|
  {
    CursorFrom(ticks, dates, 0, k)
  }

  /** Boolean labelling as a recursive definition: find the current date from
      the cursor, stop (keeping what was produced) when the matched tick has no
      successor, otherwise label with "the next price is strictly higher" and
      go on from the matched tick. */
  function BooleanLabelsFrom(ticks: seq<Tick>, dates: seq<int>, from: nat): (r: Result<seq<bool>, LabelError>)
    decreases |dates|
    ensures r.Success? ==> |r.value| <= |dates|
  {
    if |dates| == 0 then Success([])
    else
      match Seek(ticks, from, dates[0])
      case None => Failure(DateNotFound(dates[0]))
      case Some(i) =>
        if i + 1 == |ticks| then Success([])
        else
          match BooleanLabelsFrom(ticks, dates[1..], i)
          case Failure(e) => Failure(e)
          case Success(rest) => Success([ticks[i + 1].price > ticks[i].price] + rest)
  }

  function BooleanLabels(ticks: seq<Tick>, dates: seq<int>): Result<seq<bool>, LabelError>
  {
    BooleanLabelsFrom(ticks, dates, 0)
  }

  /** The boolean flags as labels. */
  function Risings<T>(flags: seq<bool>): (r: seq<Label<T>>)
    ensures |r| == |flags|
  {
    seq(|flags|, k requires 0 <= k < |flags| => Rising(flags[k]))
  }

  /** The model's targets as labels. */
  function Targets<T>(values: seq<T>): (r: seq<Label<T>>)
    ensures |r| == |values|
  {
    seq(|values|, k requires 0 <= k < |values| => Target(values[k]))
  }

  /** What generateLabels returns, in both modes. In boolean mode the dates
      come back cut to the labels produced, so they stay co-indexed. */
  function Labelling<T>(dates: seq<int>, nextPrices: seq<T>, ticks: seq<Tick>, mode: LabelMode): (r: Result<Labelled<T>, LabelError>)
    ensures mode == Boolean && r.Success? ==>
              |r.value.labels| == |r.value.dates| <= |dates| && r.value.dates == dates[..|r.value.dates|]
    ensures mode == Boolean && r.Success? ==>
              BooleanLabels(ticks, dates).Success? &&
              |r.value.labels| == |BooleanLabels(ticks, dates).value| &&
              forall k :: 0 <= k < |r.value.labels| ==> r.value.labels[k] == Rising(BooleanLabels(ticks, dates).value[k])
    ensures mode == Boolean && r.Failure? ==> BooleanLabels(ticks, dates) == Failure(r.error)
  {
    match mode
    case Full => Success(Labelled(Targets(nextPrices), dates))
    case Boolean =>
      match BooleanLabels(ticks, dates)
      case Failure(e) => Failure(e)
      case Success(flags) => Success(Labelled(Risings(flags), dates[..|flags|]))
  }

  /** The labels already produced, followed by the outcome for the remaining dates. */
  function Then(done: seq<bool>, rest: Result<seq<bool>, LabelError>): Result<seq<bool>, LabelError>
  {
    match rest
    case Success(flags) => Success(done + flags)
    case Failure(e) => Failure(e)
  }

  /** generateLabels. Full mode hands the model's targets and the dates back
      unchanged; boolean mode runs the forward cursor scan. */
  method GenerateLabels<T>(dates: seq<int>, nextPrices: seq<T>, ticks: seq<Tick>, mode: LabelMode)
    returns (r: Result<Labelled<T>, LabelError>)
    ensures r == Labelling(dates, nextPrices, ticks, mode)
    ensures mode == Full ==>
              r.Success? && r.value.dates == dates && |r.value.labels| == |nextPrices| &&
              forall k :: 0 <= k < |nextPrices| ==> r.value.labels[k] == Target(nextPrices[k])
  {
    if mode == Full {
      return Success(Labelled(Targets(nextPrices), dates));
    }
    var flags: seq<bool> := [];
    var i: nat := 0;
    var k := 0;
    assert dates[k..] == dates;
    ThenNothing(BooleanLabels(ticks, dates));
    while k < |dates|
      invariant k <= |dates| && i <= |ticks| && |flags| == k
      invariant BooleanLabels(ticks, dates) == Then(flags, BooleanLabelsFrom(ticks, dates[k..], i))
    {
      var date := dates[k];
      ghost var start := i;
      // the cursor walks forward to the tick carrying `date`
      while i < |ticks| && ticks[i].date != date
        invariant start <= i <= |ticks|
        invariant Seek(ticks, i, date) == Seek(ticks, start, date)
        decreases |ticks| - i
      {
        i := i + 1;
      }
      assert dates[k..][0] == date && dates[k..][1..] == dates[k + 1..];
      if i == |ticks| {
        assert BooleanLabelsFrom(ticks, dates[k..], start) == Failure(DateNotFound(date));
        return Failure(DateNotFound(date));
      }
      if i + 1 == |ticks| {
        // no successor tick: keep only the dates that have a label
        assert BooleanLabelsFrom(ticks, dates[k..], start) == Success([]);
        assert flags + [] == flags;
        return Success(Labelled(Risings(flags), dates[..|flags|]));
      }
      var rise := ticks[i + 1].price > ticks[i].price;
      assert BooleanLabelsFrom(ticks, dates[k..], start) == Then([rise], BooleanLabelsFrom(ticks, dates[k + 1..], i));
      ThenAppend(flags, rise, BooleanLabelsFrom(ticks, dates[k + 1..], i));
      flags := flags + [rise];
      k := k + 1;
    }
    assert dates[k..] == [] && flags + [] == flags && dates[..|flags|] == dates;
    r := Success(Labelled(Risings(flags), dates));
  }

  lemma ThenNothing(outcome: Result<seq<bool>, LabelError>)
    ensures Then([], outcome) == outcome
  {
    if outcome.Success? {
      assert [] + outcome.value == outcome.value;
    }
  }

  lemma ThenAppend(done: seq<bool>, flag: bool, rest: Result<seq<bool>, LabelError>)
    ensures Then(done, Then([flag], rest)) == Then(done + [flag], rest)
  {
    if rest.Success? {
      assert done + ([flag] + rest.value) == (done + [flag]) + rest.value;
    }
  }

  /** Every labelled date was found by the cursor, its tick has a successor,
      and its label is true exactly when the successor's price is strictly
      greater than the matched tick's. */
  lemma {:induction false} LabelIsNextTickRise(ticks: seq<Tick>, dates: seq<int>, from: nat, k: nat)
    requires BooleanLabelsFrom(ticks, dates, from).Success?
    requires k < |BooleanLabelsFrom(ticks, dates, from).value|
    ensures CursorFrom(ticks, dates, from, k).Some?
    ensures var p := CursorFrom(ticks, dates, from, k).value;
            p + 1 < |ticks| &&
            BooleanLabelsFrom(ticks, dates, from).value[k] == (ticks[p + 1].price > ticks[p].price)
    decreases k
  {
    var i := Seek(ticks, from, dates[0]).value;
    if k > 0 {
      LabelIsNextTickRise(ticks, dates[1..], i, k - 1);
    }
  }

  /** At the entry point: in boolean mode every label is the rise from the
      tick matched for its date, found by the cursor from the first tick, to
      that tick's successor. */
  lemma LabelsFollowCursor<T>(dates: seq<int>, nextPrices: seq<T>, ticks: seq<Tick>, k: nat)
    requires Labelling(dates, nextPrices, ticks, Boolean).Success?
    requires k < |Labelling(dates, nextPrices, ticks, Boolean).value.labels|
    ensures k < |dates| && Cursor(ticks, dates, k).Some?
    ensures var p := Cursor(ticks, dates, k).value;
            p + 1 < |ticks| &&
            Labelling(dates, nextPrices, ticks, Boolean).value.labels[k] == Rising(ticks[p + 1].price > ticks[p].price)
  {
    LabelIsNextTickRise(ticks, dates, 0, k);
  }

  /** Labelling stops short of the last date only at a date whose matched
      tick is the last tick (no successor). */
  lemma {:induction false} StopsAtLastTick(ticks: seq<Tick>, dates: seq<int>, from: nat)
    requires BooleanLabelsFrom(ticks, dates, from).Success?
    requires |BooleanLabelsFrom(ticks, dates, from).value| < |dates|
    ensures CursorFrom(ticks, dates, from, |BooleanLabelsFrom(ticks, dates, from).value|) == Some(|ticks| - 1)
    decreases |dates|
  {
    var i := Seek(ticks, from, dates[0]).value;
    if i + 1 != |ticks| {
      StopsAtLastTick(ticks, dates[1..], i);
    }
  }

  /** Every date before dates[k] was found by the cursor at a tick that has a successor. */
  ghost predicate FoundWithSuccessor(ticks: seq<Tick>, dates: seq<int>, from: nat, k: nat)
    requires k <= |dates|
  {
    forall j :: 0 <= j < k ==> CursorFrom(ticks, dates, from, j).Some? && CursorFrom(ticks, dates, from, j).value + 1 < |ticks|
  }

  /** A date the cursor cannot find, reached before labelling stopped, makes
      the whole labelling fail with that date. */
  lemma {:induction false} MissingDateFails(ticks: seq<Tick>, dates: seq<int>, from: nat, k: nat)
    requires k < |dates|
    requires FoundWithSuccessor(ticks, dates, from, k)
    requires CursorFrom(ticks, dates, from, k).None?
    ensures BooleanLabelsFrom(ticks, dates, from) == Failure(DateNotFound(dates[k]))
    decreases k
  {
    if k > 0 {
      var i := CursorFrom(ticks, dates, from, 0).value;
      forall j | 0 <= j < k - 1
        ensures CursorFrom(ticks, dates[1..], i, j).Some? && CursorFrom(ticks, dates[1..], i, j).value + 1 < |ticks|
      {
        assert CursorFrom(ticks, dates, from, j + 1) == CursorFrom(ticks, dates[1..], i, j);
      }
      assert CursorFrom(ticks, dates, from, k) == CursorFrom(ticks, dates[1..], i, k - 1);
      MissingDateFails(ticks, dates[1..], i, k - 1);
    }
  }

  /** When no date is missing before labelling stops, labelling succeeds:
      with the lemma above, a failure is always due to a missing date. */
  lemma {:induction false} NoMissingDateSucceeds(ticks: seq<Tick>, dates: seq<int>, from: nat)
    requires forall k :: 0 <= k < |dates| && FoundWithSuccessor(ticks, dates, from, k) ==> CursorFrom(ticks, dates, from, k).Some?
    ensures BooleanLabelsFrom(ticks, dates, from).Success?
    decreases |dates|
  {
    if |dates| > 0 {
      assert FoundWithSuccessor(ticks, dates, from, 0);
      var i := CursorFrom(ticks, dates, from, 0).value;
      if i + 1 != |ticks| {
        forall k | 0 <= k < |dates[1..]| && FoundWithSuccessor(ticks, dates[1..], i, k)
          ensures CursorFrom(ticks, dates[1..], i, k).Some?
        {
          forall j | 0 <= j < k + 1
            ensures CursorFrom(ticks, dates, from, j).Some? && CursorFrom(ticks, dates, from, j).value + 1 < |ticks|
          {
            if j > 0 {
              assert CursorFrom(ticks, dates, from, j) == CursorFrom(ticks, dates[1..], i, j - 1);
            }
          }
          assert FoundWithSuccessor(ticks, dates, from, k + 1);
          assert CursorFrom(ticks, dates, from, k + 1) == CursorFrom(ticks, dates[1..], i, k);
        }
        NoMissingDateSucceeds(ticks, dates[1..], i);
      }
    }
  }

  /** The cursor never moves back: the tick matched for a later date is at or
      after the tick matched for an earlier one. */
  lemma {:induction false} CursorNeverMovesBack(ticks: seq<Tick>, dates: seq<int>, from: nat, j: nat, k: nat)
    requires j <= k < |dates|
    requires CursorFrom(ticks, dates, from, k).Some?
    ensures CursorFrom(ticks, dates, from, j).Some?
    ensures CursorFrom(ticks, dates, from, j).value <= CursorFrom(ticks, dates, from, k).value
    decreases j
  {
    var i := Seek(ticks, from, dates[0]).value;
    if j > 0 {
      CursorNeverMovesBack(ticks, dates[1..], i, j - 1, k - 1);
    } else if k > 0 {
      assert CursorFrom(ticks, dates[1..], i, k - 1).Some?;
    }
  }

  /** The search for the next date resumes at the tick matched for the
      current one; it is never restarted from the first tick. */
  lemma {:induction false} SearchResumesAtCursor(ticks: seq<Tick>, dates: seq<int>, from: nat, k: nat)
    requires k + 1 < |dates|
    requires CursorFrom(ticks, dates, from, k).Some?
    ensures CursorFrom(ticks, dates, from, k + 1) == Seek(ticks, CursorFrom(ticks, dates, from, k).value, dates[k + 1])
    decreases k
  {
    var i := Seek(ticks, from, dates[0]).value;
    if k > 0 {
      SearchResumesAtCursor(ticks, dates[1..], i, k - 1);
    }
  }

  /** Four ticks with prices 10, 12, 11, 9: the first three dates are labelled
      up, down, down; asking for the fourth date as well drops it, because its
      tick has no successor. */
  lemma FourTickExample()
    ensures var ticks := [Tick(1, 10.0), Tick(2, 12.0), Tick(3, 11.0), Tick(4, 9.0)];
            Labelling<real>([1, 2, 3], [], ticks, Boolean) == Success(Labelled([Rising(true), Rising(false), Rising(false)], [1, 2, 3])) &&
            Labelling<real>([1, 2, 3, 4], [], ticks, Boolean) == Success(Labelled([Rising(true), Rising(false), Rising(false)], [1, 2, 3]))
  {
    var ticks := [Tick(1, 10.0), Tick(2, 12.0), Tick(3, 11.0), Tick(4, 9.0)];
    assert Seek(ticks, 3, 4) == Some(3);
    assert Seek(ticks, 2, 4) == Some(3);
    assert Seek(ticks, 1, 3) == Some(2);
    assert Seek(ticks, 0, 2) == Some(1);
    assert Seek(ticks, 0, 1) == Some(0);
    assert BooleanLabelsFrom(ticks, [4], 2) == Success([]);
    assert BooleanLabelsFrom(ticks, [], 2) == Success([]);
    assert [3, 4][1..] == [4] && [3][1..] == [];
    assert BooleanLabelsFrom(ticks, [3, 4], 1) == Success([false] + []);
    assert BooleanLabelsFrom(ticks, [3], 1) == Success([false] + []);
    assert [false] + [] == [false];
    assert [2, 3, 4][1..] == [3, 4] && [2, 3][1..] == [3];
    assert BooleanLabelsFrom(ticks, [2, 3, 4], 0) == Success([false] + [false]);
    assert BooleanLabelsFrom(ticks, [2, 3], 0) == Success([false] + [false]);
    assert [false] + [false] == [false, false];
    assert [1, 2, 3, 4][1..] == [2, 3, 4] && [1, 2, 3][1..] == [2, 3];
    assert BooleanLabels(ticks, [1, 2, 3]) == Success([true] + [false, false]);
    assert BooleanLabels(ticks, [1, 2, 3, 4]) == Success([true] + [false, false]);
    assert [true] + [false, false] == [true, false, false];
    assert [1, 2, 3, 4][..3] == [1, 2, 3] && [1, 2, 3][..3] == [1, 2, 3];
    assert Risings<real>([true, false, false]) == [Rising(true), Rising(false), Rising(false)];
  }
}
