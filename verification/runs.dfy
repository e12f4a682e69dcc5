/** Discrepancy series and their segmentation into constant runs:
    `get_discrepancies` and `get_run_data`, identical in file_data_functions.py
    and MetricsCalculator.py.
 */
module Runs {
  import opened Values

  /** get_discrepancies(offset_column=p, reference_column=r, size): NaN where the
      primary is NaN, else round(reference - primary, 4), which is NaN where the
      reference is NaN. */
  function GetDiscrepancies(p: seq<Sample>, r: seq<Sample>): (d: seq<Sample>)
    requires |p| == |r|
    ensures |d| == |p|
    ensures forall i :: 0 <= i < |p| ==> (d[i].None? <==> p[i].None? || r[i].None?)
    ensures forall i :: 0 <= i < |p| && d[i].Some? ==> p[i].value + d[i].value == r[i].value
  {
    if |p| == 0 then []
    else
      var n := |p| - 1;
      GetDiscrepancies(p[..n], r[..n]) + [if p[n].None? then None else Disc(r[n], p[n])]
  }

  /** One run of get_run_data: start index, end index and the run's discrepancy. */
  datatype Run = Run(start: nat, end: nat, value: Sample)

  /** Number of change points i in [from, |d|): d[i] differs from d[i-1], two NaNs counting as equal. */
  function Changes(d: seq<Sample>, from: nat): nat
    requires 1 <= from
    decreases |d| - from
  {
    if from >= |d| then 0
    else (if d[from] != d[from - 1] then 1 else 0) + Changes(d, from + 1)
  }

  /** The runs are well formed for `d`: they chain end to start, each value
      holds on its run, consecutive values differ. */
  predicate Segmented(d: seq<Sample>, runs: seq<Run>) {
    && |runs| >= 1
    && runs[|runs| - 1].end == |d| - 1
    && (forall k :: 0 < k < |runs| ==> runs[k].start == runs[k - 1].end)
    && (forall k :: 0 <= k < |runs| ==> runs[k].start <= runs[k].end < |d|)
    && (forall k :: 0 < k < |runs| ==> runs[k].start < runs[k].end)
    && (forall k, j :: 0 <= k < |runs| && runs[k].start < j <= runs[k].end ==> d[j] == runs[k].value)
    && (forall k :: 0 <= k < |runs| - 1 ==> runs[k].value != runs[k + 1].value)
  }

  /** Putting a run that ends where `rest` starts, with a different value, in front of `rest`. */
  lemma SegmentedPrepend(d: seq<Sample>, run: Run, rest: seq<Run>)
    requires Segmented(d, rest)
    requires run.start <= run.end == rest[0].start < rest[0].end
    requires forall j :: run.start < j <= run.end ==> d[j] == run.value
    requires run.value != rest[0].value
    ensures Segmented(d, [run] + rest)
  {
    var runs := [run] + rest;
    assert forall k :: 0 < k < |runs| ==> runs[k] == rest[k - 1];
  }

  /** Closing the open run [start, i - 1] at a change of value keeps the
      loop's promises about the runs that follow. */
  lemma CloseRun(d: seq<Sample>, i: nat, start: nat, rest: seq<Run>)
    requires 1 <= i < |d| && start < i && d[i] != d[i - 1]
    requires forall j :: start < j < i ==> d[j] == d[i - 1]
    requires Segmented(d, rest) && rest[0].start == i - 1 && rest[0].end >= i
    requires forall j :: i <= j <= rest[0].end ==> d[j] == rest[0].value
    requires |rest| == 1 + Changes(d, i + 1)
    ensures var runs := [Run(start, i - 1, d[i - 1])] + rest;
            Segmented(d, runs) && runs[0].start == start && runs[0].end >= i - 1 &&
            (forall j :: i - 1 <= j <= runs[0].end ==> d[j] == runs[0].value) &&
            |runs| == 1 + Changes(d, i)
  {
    SegmentedPrepend(d, Run(start, i - 1, d[i - 1]), rest);
  }

  /** The run still open when the loop ends is the last one. */
  lemma LastRun(d: seq<Sample>, start: nat)
    requires start < |d|
    requires forall j :: start < j < |d| ==> d[j] == d[|d| - 1]
    ensures var runs := [Run(start, |d| - 1, d[|d| - 1])];
            Segmented(d, runs) && |runs| == 1 + Changes(d, |d|)
  {
  }

  /** An index repeating the previous value extends the open run. */
  lemma ExtendRun(d: seq<Sample>, i: nat, runs: seq<Run>)
    requires 1 <= i < |d| && d[i] == d[i - 1]
    requires Segmented(d, runs) && runs[0].end >= i
    requires forall j :: i <= j <= runs[0].end ==> d[j] == runs[0].value
    requires |runs| == 1 + Changes(d, i + 1)
    ensures runs[0].end >= i - 1 && (forall j :: i - 1 <= j <= runs[0].end ==> d[j] == runs[0].value)
    ensures |runs| == 1 + Changes(d, i)
  {
  }

  /** The `for index in range(1, size)` loop of get_run_data entered at `index = i`
      with the open run starting at `start` (previous_value is d[i-1]), followed
      by the append of the last run. */
  function RunsFrom(d: seq<Sample>, i: nat, start: nat): (runs: seq<Run>)
    requires 1 <= i <= |d|
    requires start < i
    requires forall j :: start < j < i ==> d[j] == d[i - 1]
    ensures Segmented(d, runs)
    ensures runs[0].start == start && runs[0].end >= i - 1
    ensures forall j :: i - 1 <= j <= runs[0].end ==> d[j] == runs[0].value
    ensures |runs| == 1 + Changes(d, i)
    decreases |d| - i
  {
    if i == |d| then
      LastRun(d, start);
      [Run(start, |d| - 1, d[|d| - 1])]
    else if d[i] != d[i - 1] then
      var rest := RunsFrom(d, i + 1, i - 1);
      CloseRun(d, i, start, rest);
      [Run(start, i - 1, d[i - 1])] + rest
    else
      var runs := RunsFrom(d, i + 1, start);
      ExtendRun(d, i, runs);
      runs
  }

  /** `runs` is what get_run_data returns for `d`: segmented, starting at index 0 with d[0]'s value. */
  predicate Describes(d: seq<Sample>, runs: seq<Run>) {
    Segmented(d, runs) && runs[0].start == 0 && d[0] == runs[0].value
  }

  /** get_run_data(..., create_table=False) on a discrepancy list: `offsets[0]`
      raises IndexError on an empty list. */
  function RunData(d: seq<Sample>): (o: Outcome<seq<Run>>)
    ensures o.Raised? <==> |d| == 0
    ensures o.Raised? ==> o.error == IndexError
    ensures o.Done? ==> Describes(d, o.value)
    ensures o.Done? ==> |o.value| == 1 + Changes(d, 1)
    ensures !o.Hangs?
  {
    if |d| == 0 then Raised(IndexError) else Done(RunsFrom(d, 1, 0))
  }

  /** get_run_data(offset_column=p, reference_column=r, ref_dates, size, create_table=False). */
  function GetRunData(p: seq<Sample>, r: seq<Sample>): (o: Outcome<seq<Run>>)
    requires |p| == |r|
    ensures o.Raised? <==> |p| == 0
    ensures o.Done? ==> Describes(GetDiscrepancies(p, r), o.value)
  {
    RunData(GetDiscrepancies(p, r))
  }

  /** The run holding index `j`, searched from run `last` backwards: index 0
      belongs to the first run, any other index to the run whose (start, end]
      holds it. Reading each index's value off its run gives back `d`. */
  function RunOf(d: seq<Sample>, runs: seq<Run>, j: nat, last: nat): (k: nat)
    requires Describes(d, runs)
    requires last < |runs| && j <= runs[last].end
    ensures k <= last
    ensures j == 0 ==> k == 0
    ensures j > 0 ==> runs[k].start < j <= runs[k].end
    ensures d[j] == runs[k].value
    decreases last
  {
    if j == 0 then 0
    else if runs[last].start < j then last
    else RunOf(d, runs, j, last - 1)
  }

  /** Both directions: every index of `d` lies on a run, and runs only hold indices of `d`. */
  lemma RunsCoverExactly(d: seq<Sample>, runs: seq<Run>, j: nat)
    requires Describes(d, runs)
    ensures j < |d| <==> exists k :: 0 <= k < |runs| && runs[k].start <= j <= runs[k].end
  {
    if j < |d| {
      var k := RunOf(d, runs, j, |runs| - 1);
      assert runs[k].start <= j <= runs[k].end;
    }
  }

  /** A row of the get_run_data table: offset, start date, end date, duration. */
  datatype Row = Row(offset: Sample, startDate: int, endDate: int, duration: int)

  /** get_run_data(..., create_table=True): dates of the start and end indices and their difference. */
  function RunTable(runs: seq<Run>, dates: seq<int>): (rows: seq<Row>)
    requires forall k :: 0 <= k < |runs| ==> runs[k].start <= runs[k].end < |dates|
    ensures |rows| == |runs|
    ensures forall k :: 0 <= k < |runs| ==>
              rows[k].offset == runs[k].value && rows[k].startDate == dates[runs[k].start] &&
              rows[k].endDate == dates[runs[k].end] && rows[k].duration == rows[k].endDate - rows[k].startDate
  {
    if |runs| == 0 then []
    else
      var k := |runs| - 1;
      var run := runs[k];
      RunTable(runs[..k], dates) + [Row(run.value, dates[run.start], dates[run.end], dates[run.end] - dates[run.start])]
  }

  /** The consecutive rows tile the whole date range:
      each starts where the previous ended, and the durations add up. */
  lemma {:induction false} DurationsTile(runs: seq<Run>, dates: seq<int>, d: seq<Sample>)
    requires Describes(d, runs) && |dates| == |d|
    ensures var rows := RunTable(runs, dates);
            SumDurations(rows) == dates[|d| - 1] - dates[0]
  {
    var rows := RunTable(runs, dates);
    forall k | 0 < k < |rows|
      ensures rows[k].startDate == rows[k - 1].endDate
    {
      assert runs[k].start == runs[k - 1].end;
    }
    SumDurationsTelescopes(rows, |rows|);
    assert rows[..|rows|] == rows;
  }

  function SumDurations(rows: seq<Row>): int {
    if |rows| == 0 then 0 else SumDurations(rows[..|rows| - 1]) + rows[|rows| - 1].duration
  }

  lemma {:induction false} SumDurationsTelescopes(rows: seq<Row>, n: nat)
    requires 1 <= n <= |rows|
    requires forall k :: 0 <= k < |rows| ==> rows[k].duration == rows[k].endDate - rows[k].startDate
    requires forall k :: 0 < k < |rows| ==> rows[k].startDate == rows[k - 1].endDate
    ensures SumDurations(rows[..n]) == rows[n - 1].endDate - rows[0].startDate
  {
    if n > 1 {
      SumDurationsTelescopes(rows, n - 1);
      assert rows[..n][..n - 1] == rows[..n - 1];
    }
  }
}
