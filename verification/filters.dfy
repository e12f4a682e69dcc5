/** Threshold filters on run tables: `filter_duration` and `filter_value` of
    file_data_functions.py, and `filter_by_duration` and `filter_by_value` of
    MetricsCalculator.py. A filter keeps, in order, the rows whose boolean
    mask entry is true; a comparison with NaN is false.
 */
module Filters {
  import opened Values
  import opened Runs

  /** Boolean-mask indexing `df[mask]`: the rows for which `keep` holds, in their order. */
  function Select<T(!new)>(rows: seq<T>, keep: T -> bool): (kept: seq<T>)
    ensures |kept| <= |rows|
    ensures forall x :: x in kept <==> x in rows && keep(x)
    ensures forall x :: multiset(kept)[x] == if keep(x) then multiset(rows)[x] else 0
  {
    if |rows| == 0 then []
    else
      assert rows == [rows[0]] + rows[1..];
      (if keep(rows[0]) then [rows[0]] else []) + Select(rows[1..], keep)
  }

  /** One row is kept exactly when the mask holds on it. */
  lemma SelectOne<T(!new)>(x: T, keep: T -> bool)
    ensures Select([x], keep) == if keep(x) then [x] else []
  {
    assert [x][1..] == [];
  }

  /** Selecting from two tables one after the other selects from each and
      keeps them in that order: the kept rows stay in their original order. */
  lemma {:induction false} SelectAppend<T(!new)>(a: seq<T>, b: seq<T>, keep: T -> bool)
    ensures Select(a + b, keep) == Select(a, keep) + Select(b, keep)
  {
    if |a| == 0 {
      assert a + b == b;
    } else {
      var head := if keep(a[0]) then [a[0]] else [];
      assert (a + b)[0] == a[0];
      assert (a + b)[1..] == a[1..] + b;
      SelectAppend(a[1..], b, keep);
      calc {
        Select(a + b, keep);
        head + Select(a[1..] + b, keep);
        head + (Select(a[1..], keep) + Select(b, keep));
        (head + Select(a[1..], keep)) + Select(b, keep);
        Select(a, keep) + Select(b, keep);
      }
    }
  }

  /** A row kept by one mask and a row kept by its negation add up to every row. */
  lemma {:induction false} SelectSplits<T(!new)>(rows: seq<T>, keep: T -> bool, drop: T -> bool)
    requires forall x :: drop(x) == !keep(x)
    ensures |Select(rows, keep)| + |Select(rows, drop)| == |rows|
  {
    if |rows| > 0 {
      SelectSplits(rows[1..], keep, drop);
    }
  }

  /** Masks that agree on the rows select the same rows. */
  lemma {:induction false} SelectCongruent<T(!new)>(rows: seq<T>, f: T -> bool, g: T -> bool)
    requires forall i :: 0 <= i < |rows| ==> f(rows[i]) == g(rows[i])
    ensures Select(rows, f) == Select(rows, g)
  {
    if |rows| > 0 {
      SelectCongruent(rows[1..], f, g);
    }
  }

  /** Two masks that split the rows passing `guard`, and pass nothing else,
      together keep as many rows as `guard` does. */
  lemma {:induction false} SelectSplitsWithin<T(!new)>(rows: seq<T>, keep: T -> bool, drop: T -> bool, guard: T -> bool)
    requires forall x :: guard(x) ==> drop(x) == !keep(x)
    requires forall x :: !guard(x) ==> !keep(x) && !drop(x)
    ensures |Select(rows, keep)| + |Select(rows, drop)| == |Select(rows, guard)|
  {
    if |rows| > 0 {
      SelectSplitsWithin(rows[1..], keep, drop, guard);
    }
  }

  /** A mask that holds on every row keeps the table unchanged. */
  lemma {:induction false} SelectAll<T(!new)>(rows: seq<T>, keep: T -> bool)
    requires forall i :: 0 <= i < |rows| ==> keep(rows[i])
    ensures Select(rows, keep) == rows
  {
    if |rows| > 0 {
      SelectAll(rows[1..], keep);
      assert rows == [rows[0]] + rows[1..];
    }
  }

  // ---------------------------------------------------------------------------
  // file_data_functions.py

  /** The mask of filter_duration: `is_min` takes precedence (durations >=
      threshold), else `is_max` (durations <= threshold), else all true. */
  function LegacyDurationMask(threshold: int, isMax: bool, isMin: bool): Row -> bool {
    (row: Row) => if isMin then row.duration >= threshold else if isMax then row.duration <= threshold else true
  }

  /** The mask of filter_value: the same precedence on abs(offset); NaN compares false. */
  function LegacyValueMask(threshold: int, isMax: bool, isMin: bool): Row -> bool {
    (row: Row) =>
      if isMin then Abs(row.offset).Some? && Abs(row.offset).value >= threshold
      else if isMax then Abs(row.offset).Some? && Abs(row.offset).value <= threshold
      else true
  }

  /** filter_duration(dataframe, threshold, is_max, is_min). */
  function FilterDuration(rows: seq<Row>, threshold: int, isMax: bool, isMin: bool): (kept: seq<Row>)
    ensures forall row :: row in kept <==>
              row in rows && (isMin ==> row.duration >= threshold) && (!isMin && isMax ==> row.duration <= threshold)
    ensures forall row :: multiset(kept)[row] ==
              if (isMin ==> row.duration >= threshold) && (!isMin && isMax ==> row.duration <= threshold)
              then multiset(rows)[row] else 0
  {
    Select(rows, LegacyDurationMask(threshold, isMax, isMin))
  }

  /** filter_value(dataframe, threshold, is_max, is_min). */
  function FilterValue(rows: seq<Row>, threshold: int, isMax: bool, isMin: bool): (kept: seq<Row>)
    ensures forall row :: row in kept <==>
              row in rows && ((isMin || isMax) ==> row.offset.Some?) &&
              (isMin ==> Abs(row.offset).value >= threshold) &&
              (!isMin && isMax ==> Abs(row.offset).value <= threshold)
    ensures forall row :: multiset(kept)[row] ==
              if ((isMin || isMax) ==> row.offset.Some?) &&
                 (isMin ==> Abs(row.offset).value >= threshold) &&
                 (!isMin && isMax ==> Abs(row.offset).value <= threshold)
              then multiset(rows)[row] else 0
  {
    Select(rows, LegacyValueMask(threshold, isMax, isMin))
  }

  // ---------------------------------------------------------------------------
  // MetricsCalculator.py

  /** The threshold kind of a filter: "min" and "max" select a bound; any other
      value means no filtering. */
  datatype Bound = AtLeast | AtMost | NoBound

  function BoundOf(kind: string): (b: Bound)
    ensures b == AtLeast <==> kind == "min"
    ensures b == AtMost <==> kind == "max"
  {
    if kind == "min" then AtLeast else if kind == "max" then AtMost else NoBound
  }

  /** The mask entry of `x` against `threshold`; a NaN value fails any bound. */
  predicate Within(x: Sample, threshold: int, bound: Bound, strict: bool) {
    match bound
    case AtLeast => x.Some? && (if strict then x.value > threshold else x.value >= threshold)
    case AtMost => x.Some? && (if strict then x.value < threshold else x.value <= threshold)
    case NoBound => true
  }

  /** The mask of filter_by_duration. */
  function DurationMask(threshold: int, kind: string, strict: bool): Row -> bool {
    (row: Row) => Within(Some(row.duration), threshold, BoundOf(kind), strict)
  }

  /** The mask of filter_by_value: on abs(offset) when `use_abs`, else on the offset. */
  function ValueMask(threshold: int, kind: string, useAbs: bool, strict: bool): Row -> bool {
    (row: Row) => Within(if useAbs then Abs(row.offset) else row.offset, threshold, BoundOf(kind), strict)
  }

  /** filter_by_duration(dataframe, duration_col, threshold, type, is_strict). */
  function FilterByDuration(rows: seq<Row>, threshold: int, kind: string, strict: bool): (kept: seq<Row>)
    ensures kind != "min" && kind != "max" ==> kept == rows
    ensures forall row :: row in kept <==>
              row in rows &&
              (kind == "min" ==> row.duration > threshold || (!strict && row.duration == threshold)) &&
              (kind == "max" ==> row.duration < threshold || (!strict && row.duration == threshold))
    ensures forall row :: multiset(kept)[row] ==
              if (kind == "min" ==> row.duration > threshold || (!strict && row.duration == threshold)) &&
                 (kind == "max" ==> row.duration < threshold || (!strict && row.duration == threshold))
              then multiset(rows)[row] else 0
  {
    if kind != "min" && kind != "max" then
      SelectAll(rows, DurationMask(threshold, kind, strict));
      Select(rows, DurationMask(threshold, kind, strict))
    else Select(rows, DurationMask(threshold, kind, strict))
  }

  /** filter_by_value(dataframe, offset_col, threshold, type, use_abs, is_strict). */
  function FilterByValue(rows: seq<Row>, threshold: int, kind: string, useAbs: bool, strict: bool): (kept: seq<Row>)
    ensures kind != "min" && kind != "max" ==> kept == rows
    ensures forall row :: row in kept <==>
              row in rows &&
              ((kind == "min" || kind == "max") ==> row.offset.Some?) &&
              (var v := if useAbs then Abs(row.offset) else row.offset;
               (kind == "min" ==> v.value > threshold || (!strict && v.value == threshold)) &&
               (kind == "max" ==> v.value < threshold || (!strict && v.value == threshold)))
    ensures forall row :: multiset(kept)[row] ==
              if ((kind == "min" || kind == "max") ==> row.offset.Some?) &&
                 (var v := if useAbs then Abs(row.offset) else row.offset;
                  (kind == "min" ==> v.value > threshold || (!strict && v.value == threshold)) &&
                  (kind == "max" ==> v.value < threshold || (!strict && v.value == threshold)))
              then multiset(rows)[row] else 0
  {
    if kind != "min" && kind != "max" then
      SelectAll(rows, ValueMask(threshold, kind, useAbs, strict));
      Select(rows, ValueMask(threshold, kind, useAbs, strict))
    else Select(rows, ValueMask(threshold, kind, useAbs, strict))
  }

  /** Every filter keeps rows in their order: filtering two tables one after
      the other filters each and keeps them in that order. */
  lemma FiltersKeepOrder(a: seq<Row>, b: seq<Row>, threshold: int, isMax: bool, isMin: bool, kind: string, useAbs: bool, strict: bool)
    ensures FilterDuration(a + b, threshold, isMax, isMin) ==
            FilterDuration(a, threshold, isMax, isMin) + FilterDuration(b, threshold, isMax, isMin)
    ensures FilterValue(a + b, threshold, isMax, isMin) ==
            FilterValue(a, threshold, isMax, isMin) + FilterValue(b, threshold, isMax, isMin)
    ensures FilterByDuration(a + b, threshold, kind, strict) ==
            FilterByDuration(a, threshold, kind, strict) + FilterByDuration(b, threshold, kind, strict)
    ensures FilterByValue(a + b, threshold, kind, useAbs, strict) ==
            FilterByValue(a, threshold, kind, useAbs, strict) + FilterByValue(b, threshold, kind, useAbs, strict)
  {
    SelectAppend(a, b, LegacyDurationMask(threshold, isMax, isMin));
    SelectAppend(a, b, LegacyValueMask(threshold, isMax, isMin));
    SelectAppend(a, b, DurationMask(threshold, kind, strict));
    SelectAppend(a, b, ValueMask(threshold, kind, useAbs, strict));
  }

  /** A single row passes a filter exactly when it meets its bound. */
  lemma FilterOneRow(row: Row, threshold: int, kind: string, useAbs: bool, strict: bool)
    ensures FilterByDuration([row], threshold, kind, strict) ==
            if Within(Some(row.duration), threshold, BoundOf(kind), strict) then [row] else []
    ensures FilterByValue([row], threshold, kind, useAbs, strict) ==
            if Within(if useAbs then Abs(row.offset) else row.offset, threshold, BoundOf(kind), strict) then [row] else []
  {
    SelectOne(row, DurationMask(threshold, kind, strict));
    SelectOne(row, ValueMask(threshold, kind, useAbs, strict));
  }

  /** The older filters are the newer ones with non-strict bounds: `is_min` is
      type "min", `is_max` alone is type "max", neither keeps every row. */
  lemma LegacyFiltersAgree(rows: seq<Row>, threshold: int, isMax: bool, isMin: bool)
    ensures FilterDuration(rows, threshold, isMax, isMin) ==
            FilterByDuration(rows, threshold, if isMin then "min" else if isMax then "max" else "", false)
    ensures FilterValue(rows, threshold, isMax, isMin) ==
            FilterByValue(rows, threshold, if isMin then "min" else if isMax then "max" else "", true, false)
  {
    var kind := if isMin then "min" else if isMax then "max" else "";
    SelectCongruent(rows, LegacyDurationMask(threshold, isMax, isMin), DurationMask(threshold, kind, false));
    SelectCongruent(rows, LegacyValueMask(threshold, isMax, isMin), ValueMask(threshold, kind, true, false));
  }

  /** A strict lower bound and a non-strict upper bound on the same threshold
      split the run table: every row passes exactly one of them. */
  lemma DurationBoundsSplit(rows: seq<Row>, threshold: int)
    ensures |FilterByDuration(rows, threshold, "min", true)| + |FilterByDuration(rows, threshold, "max", false)| == |rows|
  {
    SelectSplits(rows, DurationMask(threshold, "min", true), DurationMask(threshold, "max", false));
  }

  /** For values the two bounds only split the rows with a present offset:
      a NaN offset passes neither. */
  lemma ValueBoundsSplitPresent(rows: seq<Row>, threshold: int, useAbs: bool)
    ensures |FilterByValue(rows, threshold, "min", useAbs, true)| + |FilterByValue(rows, threshold, "max", useAbs, false)|
            == |Select(rows, (row: Row) => row.offset.Some?)|
  {
    SelectSplitsWithin(rows, ValueMask(threshold, "min", useAbs, true), ValueMask(threshold, "max", useAbs, false),
      (row: Row) => row.offset.Some?);
  }

  /** Filtering a filtered table again with the same parameters changes nothing. */
  lemma FilterByValueIdempotent(rows: seq<Row>, threshold: int, kind: string, useAbs: bool, strict: bool)
    ensures var once := FilterByValue(rows, threshold, kind, useAbs, strict);
            FilterByValue(once, threshold, kind, useAbs, strict) == once
  {
    var once := FilterByValue(rows, threshold, kind, useAbs, strict);
    forall i | 0 <= i < |once|
      ensures ValueMask(threshold, kind, useAbs, strict)(once[i])
    {
      assert once[i] in once;
    }
    SelectAll(once, ValueMask(threshold, kind, useAbs, strict));
  }
}
