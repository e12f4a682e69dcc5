# Water-level comparison engine: a Dafny model

This project models the computational core of a toolkit that compares a
"primary" water-level record (a lighthouse sensor) with a trusted
"reference" record of the same station. It covers:

- **Offsets** (`offsets.dfy`): `identify_offset` and `process_offsets`.
  `identify_offset` verifies that a vertical offset holds over a window.
  `process_offsets` corrects the primary series while that offset keeps matching.
  Both versions are modelled: the one in TransformData.py and the older one in
  file_data_functions.py.
- **Temporal de-shifting** (`deshifter.dfy`): `temporal_deshifter` of
  TransformData.py, including the pandas `shift(k)` it relies on. It is modelled
  twice: as written, and with its defects corrected.
- **Runs** (`runs.dfy`): the discrepancy series and its segmentation into runs of
  equal discrepancy (`get_discrepancies`, `get_run_data`).
- **Agreement counters** (`stats.dfy`): the counters of `get_comparison_stats`.
- **Filters and labels** (`filters.dfy`, `labels.dfy`): the run-table filters of
  both generations, and the threshold labels of the metrics report.
- **Durations** (`timedelta.dfy`): `parse_timedelta`.
- **Helpers** (`helpers.dfy`, `table.dfy`):
  - output naming;
  - trailer counting in data files (`end_file_index`);
  - sentinel cleaning;
  - keying frames by year;
  - the text table of `write_table_from_nested_dict`.
- **Stand-alone scripts**:
  - `nesscan.dfy`: merging NESSCAN-fixed levels into lighthouse data (duplicate
    flags, keep-first de-duplication, key-aligned `update`);
  - `flat_lines.dfy`: flat-line detection (constant mask, region labelling, the
    ten-sample filter);
  - `outliers.dfy`: median-band outlier masking.

## Conventions

- **Samples.** A sample is `Option<int>`: a water level in fixed-point units of
  1e-4 m, or `None` for NaN.
  - The offset and discrepancy comparisons of TransformData.py,
    file_data_functions.py and MetricsCalculator.py are taken after
    `round(x, 4)`, which is the identity on this grid, so the model has no
    floating point there. The outlier band of lighthouse_remove_outliers.py is
    the exception: it compares against the unrounded sum `median ± 3` (see
    "## Left out").
  - Python's `==` on floats is `FloatEq`, under which NaN equals nothing.
  - pandas' `duplicated` and the `isna(a) and isna(b)` test of `get_run_data`
    treat two NaNs as equal; the model uses `Option` equality there.
- **Outcomes.** A call of the Python code either returns, raises or never
  returns. `Outcome<T> = Done(value) | Raised(error) | Hangs` records which.
  - The errors are IndexError, KeyError, ValueError and ZeroDivisionError.
  - `Hangs` marks the loops of TransformData.py that make no progress. Every
    model function is total, so divergence is a value rather than
    non-termination.
- **Sizes.** The `size` argument of the source is always the length of the
  columns passed. The model uses that length, and requires both columns to
  have the same length.
- **Timestamps** are opaque integers. Durations are integer differences, and
  `parse_timedelta` yields milliseconds.

## How the model follows the code

The de-shifter is modelled as TransformData.py writes it.

- **Candidate order.** The temporal shifts are tried in ascending order
  −3..3 (TransformData.py:54, 73), and the first that verifies is taken.
- **Fallback.** When no shift verifies, `df_copy` is copied into the output.
  At that point `df_copy` still holds the series shifted by +3
  (TransformData.py:69), so the fallback writes the +3-shifted values.
- **Gaps.** While a stretch is being applied, a missing primary or reference
  value ends the stretch like any other mismatch (TransformData.py:92-101);
  nothing passes gaps through.

The corrected de-shifter (`TemporalDeshifterFixed`) fixes the three defects
listed under Findings, plus one more. As written, the body falls through from
the fallback block (TransformData.py:64-70) into the search at
TransformData.py:73-82, even when the block has reached the end of the series.
The corrected loop instead goes back to its `while index < size` test after a
block. A block that reaches the end therefore ends the loop
(`SingleSampleFixed`). It keeps the +3 fallback copy. It also returns
the provenance of every position. Its contract states that each corrected
position matches the reference with the recorded shift and offset. It also
states that the provenance follows the loop's decisions: a stretch goes on
exactly while its shifted value keeps matching, and a fallback block covers ten
positions. `DeshiftedIsUnique` shows these properties determine the result.

## Model

| member | source | states |
|---|---|---|
| `Values.Disc` | TransformData.py:148 | The discrepancy is NaN exactly when either value is NaN; otherwise primary plus discrepancy equals the reference. |
| `Values.Plus` | TransformData.py:130 | Adding an offset keeps NaN as NaN and otherwise shifts the value by exactly the offset. |
| `Values.Abs` | file_data_functions.py:558 | `abs` keeps NaN and otherwise returns a non-negative value equal to the input or its negation. |
| `Offsets.ScanWindow` | TransformData.py:150-171 | The verification loop never raises. It spins forever exactly when the cursor is inside the window, is not at the last sample, and sits on a NaN pair. A returned offset equals the anchor discrepancy, and every discrepancy up to the window end equals it. Conversely, an agreeing window inside the data returns the anchor discrepancy. |
| `Offsets.IdentifyOffset` | TransformData.py:142-172 | IndexError exactly when `index >= size`. Divergence exactly when the anchor pair has a NaN, `duration >= 1` and `index + 1 < size`. With `duration = 0` it returns the anchor discrepancy without looking further. A non-NaN result `d` implies `index + duration < size` and that every discrepancy in `[index, index + duration]` is `d`; conversely such a window yields `d`. A window that runs past the end, or a NaN after the anchor, yields NaN. |
| `Offsets.ScanWindowSkippingGaps` | TransformData.py:152-168 | With the gap branch advancing the cursor, the loop returns. A result is the anchor discrepancy over an agreeing window, and an agreeing window yields it. |
| `Offsets.IdentifyOffsetSkippingGaps` | TransformData.py:142-172 | The corrected verification always returns. A non-NaN result is the anchor discrepancy with every discrepancy of the window equal to it, and such a window is always recognised. |
| `Offsets.NaNAnchorHangs` | TransformData.py:159-160 | Primary `[NaN, 0.0]`, reference `[0.0, 0.0]`, index 0, duration 1: as written the call never returns; the corrected call returns NaN. |
| `Offsets.GapInWindowRejected` | TransformData.py:152-166 | Primary `[0, NaN, 0]`, reference `[0, 0, 0]`, two intervals: both versions return NaN. The gap check looks at the cursor, but the comparison reads the next position, which is the gap. |
| `Offsets.SkippingGapsNaNAnchor` | TransformData.py:159-160 | With the gap skip advancing, a NaN anchor always yields NaN. |
| `Offsets.ScanLegacy` | file_data_functions.py:412-431 | The older loop ends with `is_offset` true only for a non-zero anchor discrepancy that holds over the whole window. A zero discrepancy or a mismatch ends it with false. A window past the end ends it with false. |
| `Offsets.IdentifyOffsetLegacy` | file_data_functions.py:405-437 | IndexError exactly when `index >= size`, and the call never hangs. It never returns 0. `duration = 0` yields NaN. A result is the anchor discrepancy over an agreeing window, and a non-zero agreeing window of at least one step yields it. |
| `Offsets.Verify` | TransformData.py:119-126 | On a present anchor pair, the offset used by either `process_offsets` is the anchor discrepancy verified over its window. Conversely, a window over which every discrepancy equals the anchor's yields that discrepancy (for the older file: if it is non-zero and the window is at least one step). |
| `Offsets.ScanWindowSameFrom` | TransformData.py:152-168 | The verification loop reads the primary column only from the anchor on. |
| `Offsets.ScanLegacySameFrom` | file_data_functions.py:412-431 | The older verification loop reads the primary column only from the anchor on. |
| `Offsets.VerifySameFrom` | TransformData.py:119-121 | The offset verified at an index does not depend on the corrections already written before it into the same column. |
| `Offsets.Stretch` | TransformData.py:129-138 | The inner loop records the verified offset at the index it starts at, then at every following index it still brings onto the reference, and stops at the first index it does not. |
| `Offsets.Advance` | TransformData.py:112-138 | One pass of the outer loop records at least one entry. A NaN pair or an unverified offset records NaN; otherwise the stretch is applied. Each entry is the one the recurrence of `ProcessOffsets` gives. |
| `Offsets.ProcessOffsets` | TransformData.py:109-139 | `offset_arr` gets one entry per index passed, and indices before the start are untouched. Each entry is fixed by the entry before it. If that was an offset that still brings this value onto the reference, the entry repeats it. Otherwise a NaN pair gets NaN, and any other index gets the offset verified there, or NaN if none verifies. An index with an offset entry held a present pair and now holds `primary + offset`, which equals the reference; an index with a NaN entry is unchanged. |
| `Deshifter.Shift` | TransformData.py:76 | `shift(k)` keeps the length; position `i` holds the original value at `i - k`, or NaN when that is out of range. |
| `Deshifter.Probes` | TransformData.py:73-81 | One `identify_offset` outcome per candidate shift −3..3, in the order tried, each on the primary shifted by that candidate. |
| `Deshifter.ShiftBack` | TransformData.py:76 | Shifting by `k` and then by `-k` restores every position whose shifted position exists; shifting by 0 is the identity. |
| `Deshifter.SearchShift` | TransformData.py:73-87 | The candidate loop returns the first shift, in ascending order, whose offset verifies; all earlier candidates returned NaN. It reports exhaustion exactly when every candidate returns NaN. When a candidate raises or hangs, every earlier candidate returned NaN. |
| `Deshifter.FirstVerdict` | TransformData.py:73-87 | A found shift is the first candidate whose outcome is a verified offset, and all before it returned NaN. Exhaustion happens exactly when every remaining outcome is NaN. An exception or a hang stops the loop at the first candidate that neither returned NaN nor an offset. |
| `Deshifter.ApplyStretch` | TransformData.py:92-100 | As written: IndexError exactly when every position from the cursor to the end matches. Otherwise it stops at the first mismatch `e`. It writes the shifted values at positions `index+1..e`: one past each match, including the mismatching `e`. |
| `Deshifter.Fallback` | TransformData.py:64-70 | As written, the always-true guard copies the fallback series from the cursor to the very end, and leaves earlier positions as they were. |
| `Deshifter.Deshift` | TransformData.py:58-104 | The outer loop as written returns normally exactly when the cursor is already at the end. Every exception it raises is an IndexError. |
| `Deshifter.TemporalDeshifter` | TransformData.py:33-106 | As written, `temporal_deshifter` returns only for an empty series, returning it unchanged; otherwise it raises IndexError or never returns. |
| `Deshifter.SearchShiftFixed` | TransformData.py:73-87 | With the corrected verification, the search finds the first candidate whose window agrees. It reports none only when every candidate fails. |
| `Deshifter.ApplyStretchFixed` | TransformData.py:92-100 | Writing before incrementing: exactly the matched positions `[index, e)` get the shifted value. `e` is the first mismatch or the end. |
| `Deshifter.FallbackBounded` | TransformData.py:64-70 | The bounded fallback copies exactly the positions in `[index, stop)` and nothing else. |
| `Deshifter.DeshiftFixed` | TransformData.py:58-104 | The corrected loop returns with the output and provenance as long as the input. Positions before the cursor are untouched. From the cursor on, every position has sound provenance. The provenance is decided as the loop decides it: a new search at the cursor, and after that each position carries on the previous stretch or block or starts a new search. Every uncorrected position lies in a block of at most ten, begun where no candidate verified. |
| `Deshifter.StretchDecided` | TransformData.py:73-101 | A stretch found by the search at `index`, matching up to `e` and mismatching at `e`, followed by decided provenance from `e`, is decided from `index`. |
| `Deshifter.BlockDecided` | TransformData.py:63-71 | A fallback block begun where the search failed, running ten positions or to the end, followed by decided provenance from its end, is decided from its start. |
| `Deshifter.StretchSound` | TransformData.py:92-101 | Positions of a stretch hold the shifted value that matches the reference with the stretch's offset. |
| `Deshifter.BlockSound` | TransformData.py:63-71 | Positions of a fallback block hold the +3-shifted copy. |
| `Deshifter.StretchCase` | TransformData.py:73-101 | The stretch branch of the corrected loop keeps every earlier position and gives sound, decided provenance from the cursor. |
| `Deshifter.BlockCase` | TransformData.py:63-71 | The fallback branch of the corrected loop keeps every earlier position and gives sound, decided provenance from the cursor. |
| `Deshifter.SingleSampleFixed` | TransformData.py:58-82 | On primary `[0.0]` and reference `[0.0]` the corrected loop returns `[NaN]`, marked as a fallback block begun at 0. No candidate verifies, the block covers the series, and the loop ends instead of searching at `index == size`. |
| `Deshifter.DecidedAgree` | TransformData.py:58-104 | Two provenance sequences decided from the same cursor agree at every later position. |
| `Deshifter.DeshiftedIsUnique` | TransformData.py:33-106 | Any series and provenance that are sound and decided from the start are exactly what the corrected de-shifter returns. |
| `Deshifter.TemporalDeshifterFixed` | TransformData.py:33-106 | The corrected de-shifter always returns. A position marked corrected holds the primary shifted by its recorded shift (−3..3), and that value plus its recorded offset equals the reference. Every other position holds the +3-shifted copy. The provenance is decided from the first position as the loop decides it, and each fallback block has at most ten positions, begun where no candidate verified. |
| `Deshifter.StretchWritesMismatch` | TransformData.py:95-96 | When a stretch stops before the end, the matched start keeps its old value, and the first mismatching position receives the shifted value. |
| `Deshifter.StretchOffByOne` | TransformData.py:95-96 | Shifted `[0, 0, 0.0005]` against reference `[0, 0, 0]`, offset 0: as written the output is `[NaN, 0, 0.0005]`; corrected it is `[0, 0, NaN]`. |
| `Deshifter.StretchToEndRaises` | TransformData.py:95-96 | A stretch matching to the last sample raises IndexError as written; corrected it ends at the end of the series. |
| `Deshifter.ExhaustedRaises` | TransformData.py:64-82 | Once every candidate returns NaN at some index, the loop as written raises IndexError. |
| `Deshifter.SingleSampleRaises` | TransformData.py:64-82 | `temporal_deshifter` on one sample equal to the reference raises IndexError. |
| `Deshifter.EqualPairHangs` | TransformData.py:73-82 | On two equal samples, the first candidate (−3) shifts every value out and anchors identify_offset at NaN, so the call never returns. |
| `Runs.GetDiscrepancies` | file_data_functions.py:498-513 | One discrepancy per index. It is NaN exactly when either value is NaN; otherwise primary plus discrepancy equals the reference. |
| `Runs.RunsFrom` | file_data_functions.py:459-476 | From any point of the loop, the runs chain end to start, hold one discrepancy each, and differ from their neighbours. There is one more run than there are change points ahead. |
| `Runs.RunData` | file_data_functions.py:450-476 | IndexError exactly for an empty series, and never hangs. Otherwise the runs describe the discrepancies: they start at 0, end at the last index, and chain end to start. There is one run more than change points, where two NaNs count as equal. |
| `Runs.GetRunData` | file_data_functions.py:448-489 | IndexError exactly for empty columns; otherwise the runs describe the discrepancy series. |
| `Runs.RunOf` | file_data_functions.py:459-476 | Every index lies in a run whose value is the discrepancy at that index. |
| `Runs.RunsCoverExactly` | file_data_functions.py:464-476 | A position lies on some run exactly when it is an index of the series. |
| `Runs.RunTable` | file_data_functions.py:478-486 | One table row per run, with the run's offset, the dates at its start and end indices, and their difference as duration. |
| `Runs.DurationsTile` | file_data_functions.py:482-484 | The durations of the rows add up to the span from the first to the last date. |
| `Runs.SumDurationsTelescopes` | file_data_functions.py:484 | For rows that chain end date to start date, the durations of a prefix add up to its end date minus its first start date. |
| `Stats.Step` | file_data_functions.py:305-323 | Each pass adds one to the counter of the class its pair belongs to and leaves the other four unchanged. The classes are: both present and equal, both present and different, both NaN, only the primary NaN, only the reference NaN. |
| `Stats.CountMatchesClasses` | file_data_functions.py:305-323 | After `n` passes each counter equals the number of positions among the first `n` whose pair is of its class. |
| `Stats.WhereStep` | file_data_functions.py:305-323 | Extending the range by one position adds one to the position count of that position's class and to no other. |
| `Stats.CountAccounts` | file_data_functions.py:305-329 | After `n` passes the counters add up to `n`. Total agreements plus total disagreements is `n`. The primary and reference missing counts are the numbers of NaNs in each column. |
| `Stats.ComparisonStats` | file_data_functions.py:296-351 | ZeroDivisionError exactly for empty columns. Otherwise each of the five counters is the number of positions of its class. Agreements and disagreements add up to the size, and the missing counts are the numbers of NaNs in each column. |
| `Stats.SelfComparisonAgrees` | file_data_functions.py:309-317 | A column compared with itself has no disagreement, and every index is an agreement. |
| `Stats.SwapExchangesGaps` | file_data_functions.py:315-329 | Exchanging primary and reference exchanges the one-sided gap counts and keeps the other counters. |
| `Stats.SingleMismatchCountsOnce` | file_data_functions.py:309-313 | Columns equal everywhere except at one position where both values are present yield exactly one value disagreement. |
| `Filters.Select` | file_data_functions.py:537 | Boolean-mask indexing keeps exactly the rows the mask holds on, each as many times as it occurs in the table. |
| `Filters.SelectOne` | file_data_functions.py:537 | A one-row table keeps its row exactly when the mask holds on it. |
| `Filters.SelectAppend` | file_data_functions.py:537 | Masking two tables placed one after the other gives the masked first table followed by the masked second: kept rows stay in their original order. |
| `Filters.FilterDuration` | file_data_functions.py:524-540 | With `is_min` it keeps exactly the rows with duration at least the threshold. With only `is_max` it keeps those at most the threshold. With neither it keeps every row. A kept row keeps its multiplicity. |
| `Filters.FilterValue` | file_data_functions.py:550-566 | The same precedence on the absolute offset. A NaN offset fails either bound, and a kept row keeps its multiplicity. |
| `Filters.BoundOf` | MetricsCalculator.py:328-339 | `"min"` selects a lower bound and `"max"` an upper bound. Any other type selects no bound. |
| `Filters.FilterByDuration` | MetricsCalculator.py:322-344 | A lower or upper bound keeps exactly the rows strictly beyond the threshold, plus those equal to it when not strict, each with its multiplicity. Any other type keeps the table unchanged. |
| `Filters.FilterByValue` | MetricsCalculator.py:360-385 | The same bounds on the offset, or on its absolute value with `use_abs`. A NaN offset fails either bound, and a kept row keeps its multiplicity. |
| `Filters.FiltersKeepOrder` | MetricsCalculator.py:341 | Each of the four filters, applied to two tables one after the other, gives the filtered first table followed by the filtered second, so the filtered rows keep the table's order. |
| `Filters.FilterOneRow` | MetricsCalculator.py:328-341 | A one-row table keeps its row exactly when the row meets the bound. |
| `Filters.LegacyFiltersAgree` | file_data_functions.py:531-537 | The older filters equal the newer ones with non-strict bounds: `is_min` is `"min"` and `is_max` alone is `"max"`. |
| `Filters.DurationBoundsSplit` | MetricsCalculator.py:328-337 | A strict minimum and a non-strict maximum on the same threshold split the run table: the two filtered tables together have as many rows as the table. |
| `Filters.ValueBoundsSplitPresent` | MetricsCalculator.py:366-378 | For offsets the same two bounds split only the rows whose offset is present. |
| `Filters.FilterByValueIdempotent` | MetricsCalculator.py:360-385 | Filtering a filtered table again with the same parameters changes nothing. |
| `Labels.Comparison` | MetricsCalculator.py:265 | The comparison text is the sign, a space, `=` unless strict, a space, then the threshold. |
| `Labels.DurationString` | MetricsCalculator.py:262-269 | KeyError exactly when a recognised type comes without `is_strict` or without `threshold`; both keys are optional in the parameters. A missing or unrecognised type gives the not-specified text. Otherwise the text is the comparison for that type. |
| `Labels.ValueString` | MetricsCalculator.py:271-285 | KeyError exactly when a recognised type lacks `is_strict` or `threshold`. The label starts with "absolute " exactly when `use_abs` holds. |
| `Labels.ValueExtendsDuration` | MetricsCalculator.py:271-285 | The value label is the duration label behind the optional prefix. The exception is an unrecognised type: there the value label is the bare prefix, while the duration label is the not-specified text. |
| `Labels.DurationStringRoundTrip` | MetricsCalculator.py:263-267 | A duration label for a recognised type reads back into its type, strictness and threshold. |
| `Labels.NotSpecifiedIsNoComparison` | MetricsCalculator.py:268 | The not-specified text never reads as a comparison. |
| `Labels.StrictDropsEquals` | MetricsCalculator.py:265 | The strict label is the non-strict one with its `=` removed. |
| `Timedelta.LowerString` | MetricsCalculator.py:389 | Lower-casing keeps the length and lower-cases each ASCII capital. |
| `Timedelta.FirstUnit` | MetricsCalculator.py:388 | The unit group matched is the first alternative of the pattern, in the order listed, that occurs at the position. |
| `Timedelta.MatchAt` | MetricsCalculator.py:388 | A match exists exactly where a digit starts a run that, after optional whitespace (space, tab, line feed, vertical tab, form feed, carriage return, or U+001C–U+001F), is followed by some unit alternative. Its groups are a non-empty digit string and a unit of the pattern. |
| `Timedelta.Scan` | MetricsCalculator.py:389 | Every token `findall` returns has a unit of the pattern. |
| `Timedelta.DigitsRoundTrip` | MetricsCalculator.py:394 | `int` of the decimal text of `n` is `n`. |
| `Timedelta.NoDigitsNoTokens` | MetricsCalculator.py:388-389 | Text without a digit yields no match. |
| `Timedelta.NoDigitsIsZero` | MetricsCalculator.py:391-409 | Text without a digit parses to a zero duration, as written and corrected. |
| `Timedelta.CaseInsensitive` | MetricsCalculator.py:389 | Lower-casing is idempotent, so the parse ignores letter case. |
| `Timedelta.FirstUnitSuffix` | MetricsCalculator.py:388 | Which alternative matches depends only on the text from the match position on. |
| `Timedelta.DigitsThenSpace` | MetricsCalculator.py:388 | In "digits, space, word" the digit run ends at the space and the whitespace run ends just after it. |
| `Timedelta.MatchDigitsUnit` | MetricsCalculator.py:388 | "digits, space, unit word" matches the digits and the first alternative that prefixes the word. |
| `Timedelta.SingleToken` | MetricsCalculator.py:388-389 | Such a text yields exactly one token. |
| `Timedelta.TotalSingle` | MetricsCalculator.py:393-409 | One token adds its amount times the length of the unit its name is classified as. |
| `Timedelta.AmountOfUnit` | MetricsCalculator.py:387-410 | "n unit" for a lower-case unit word parses to `n` times the first matching unit. |
| `Timedelta.MillisecondsUnit` | MetricsCalculator.py:388 | In "milliseconds" the unit group is "millisecond", the eleventh alternative. |
| `Timedelta.MillisecondFields` | MetricsCalculator.py:403-406 | "millisecond" is classified as seconds as written, because it contains "second"; the corrected chain classifies it as milliseconds. |
| `Timedelta.MillisecondsReadAsSeconds` | MetricsCalculator.py:403-406 | As written, "n milliseconds" parses to `n` seconds. |
| `Timedelta.MillisecondsFixed` | MetricsCalculator.py:403-406 | Corrected, "n milliseconds" parses to `n` milliseconds. |
| `Timedelta.DaysParse` | MetricsCalculator.py:397-398 | "n days" parses to `n` days, as written and corrected. |
| `Timedelta.FixedDiffersOnlyOnMilliseconds` | MetricsCalculator.py:395-406 | The two classifications agree exactly on the alternatives other than the two millisecond ones. |
| `Timedelta.ScanRight` | MetricsCalculator.py:388-389 | `findall` resumed where a suffix starts finds exactly the matches of the suffix alone: the text before a position does not change what matches from it. |
| `Timedelta.ScanLeft` | MetricsCalculator.py:388-389 | Before a character that is no digit, no whitespace and in no alternative, `findall` finds the matches of the text before it and then carries on after it; no match runs across it. |
| `Timedelta.ScanSplits` | MetricsCalculator.py:388-389 | Around such a character, `findall` returns the matches of the text before it followed by those of the text after it. |
| `Timedelta.TotalAppend` | MetricsCalculator.py:391-409 | The duration summed over two match lists one after the other is the sum of their durations, so every match counts once whatever precedes it. |
| `Timedelta.ParseAdditive` | MetricsCalculator.py:387-410 | "a;b" parses to the duration of "a" plus that of "b", as written and corrected. |
| `Timedelta.RepeatedDaysAccumulate` | MetricsCalculator.py:393-398 | "m days;n days" parses to `m + n` days: a unit given twice accumulates rather than overwrites. |
| `Timedelta.ParseNoMatchIsZero` | MetricsCalculator.py:389-409 | Text in which the pattern matches at no position parses to a zero duration: every counter stays 0. |
| `Timedelta.ApplesAreZero` | MetricsCalculator.py:388-409 | "5 apples" parses to a zero duration: a number followed by a word that is no unit contributes nothing. |
| `Timedelta.MillisecondHasSecond` | MetricsCalculator.py:403-406 | Any text containing "millisecond" contains "second", so the written chain's `'second' in unit` test catches every millisecond unit first. |
| `Timedelta.FixedOnlyShortensSeconds` | MetricsCalculator.py:395-406 | For every unit text, the corrected chain picks the same field as the written one, except that a unit the written chain reads as seconds may become milliseconds. A unit never gets a longer field. |
| `Timedelta.TotalFixedAtMost` | MetricsCalculator.py:393-409 | For any match list, the corrected duration is at most the written one. |
| `Timedelta.ParseTimedelta` | MetricsCalculator.py:387-410 | `parse_timedelta` as written never returns less than the corrected parse, for every text. The only difference is that the written chain reads millisecond amounts as seconds. |
| `Helpers.GetFilename` | helpers.py:36-43 | The command-line name wins. Without it the configured name is used. Without both the name is "output_" plus the timestamp. The result is never empty. |
| `Helpers.GetOutputPath` | helpers.py:62-68 | A command-line path other than the default wins. With the default, a configured path wins, otherwise the default stays. |
| `Helpers.OutputPathPrecedence` | helpers.py:62-68 | Passing the default on the command line never overrides a configured path. Feeding the result back as the configured path changes nothing. |
| `Helpers.Trailers` | helpers.py:115-118 | The trailer count never exceeds the line count. |
| `Helpers.EndFileIndex` | helpers.py:109-124 | The index lies between −1 and the line count minus one. |
| `Helpers.EndFileIndexCountsData` | helpers.py:109-124 | On a file laid out as a header, data lines and "# " trailers, the index is the number of data lines. |
| `Helpers.ReplaceSentinel` | helpers.py:159 | A cell becomes NaN exactly when it is one of −999, −99, 99, 'NA' or 'RM', or already NaN. Every other cell is unchanged. |
| `Helpers.ReplaceSentinels` | helpers.py:159 | The replacement applies cell by cell and keeps the column length. |
| `Helpers.CleaningIdempotent` | helpers.py:159 | No sentinel survives cleaning, so cleaning twice equals cleaning once. |
| `Helpers.GetDfDictionary` | helpers.py:179-191 | KeyError exactly when some frame is empty, and it never hangs. |
| `Helpers.DictionaryKeys` | helpers.py:182-187 | The keys are exactly the non-NaN years of the frames' first rows. |
| `Helpers.DictionaryKeepsLast` | helpers.py:182-187 | Each key holds the last frame whose first year it is. |
| `Table.FlattenHolds` | helpers.py:199-200 | The nested loops visit exactly the entries some row holds. |
| `Table.KeepFirst` | helpers.py:199-202 | The "append if not yet present" loop keeps every value exactly once. |
| `Table.KeepFirstOrder` | helpers.py:199-202 | The kept values appear in the order of their first occurrences. |
| `Table.Columns` | helpers.py:196-202 | The columns are exactly the keys of some row's entries, each listed once. |
| `Table.ColumnsInFirstAppearanceOrder` | helpers.py:195-202 | Columns appear in the order their keys are first met across the rows. |
| `Table.Width` | helpers.py:203-205 | A column's width is at least its name's length and every value text's length in it; a key that occurs nowhere has width 0. |
| `Table.WidthAttained` | helpers.py:203-205 | The width is attained: it equals the name's length or some value text's length. |
| `Table.LJust` | helpers.py:208 | `ljust` keeps the text as a prefix and pads with blanks to the larger of its length and the width. |
| `Table.PadToWidth` | helpers.py:208 | Padding a text no longer than the width gives exactly the width: the text, then blanks. |
| `Table.JoinLength` | helpers.py:210 | The joined line is as long as its cells plus one separator between consecutive cells. |
| `Table.JoinPlacesCell` | helpers.py:210 | Each cell appears in the joined line at its offset. |
| `Table.Lookup` | helpers.py:218-221 | A row's text for a column exists exactly when some entry has that key, and is that entry's text. |
| `Table.HeaderCells` | helpers.py:208-209 | The header has the row header, then one cell per column. |
| `Table.RowCells` | helpers.py:215-221 | A row has its name padded to the row header's width, then one cell per column. |
| `Table.TableLines` | helpers.py:207-229 | The written lines are the joined header, a divider of dashes exactly as long, then one joined line per row. |
| `Table.NameFitsColumn` | helpers.py:203-205 | A column is at least as wide as its name. |
| `Table.TextFitsColumn` | helpers.py:203-205 | A column is at least as wide as each row's text in it. |
| `Table.CellsHaveColumnWidth` | helpers.py:208-221 | Header and row cells of a column are exactly as wide as the column. A row cell starts with the row's text, and a missing entry is blank. |
| `Table.RowCellsMatchHeader` | helpers.py:208-222 | A row whose name fits the row header has cells as wide as the header's. |
| `Table.RowsAlignWithHeader` | helpers.py:207-222 | When no row name is longer than the row header, every row line is as long as the header line, and every cell starts where the header cell of its column starts. |
| `Nesscan.TotalDuplicates` | integrate_nesscan_fix.py:77 | A row is flagged exactly when its (dt, wl) pair occurs at least twice. |
| `Nesscan.PartialDuplicates` | integrate_nesscan_fix.py:78 | Partial and total duplicate flags never both hold. |
| `Nesscan.TotalDuplicateIffTwin` | integrate_nesscan_fix.py:77 | A row is a total duplicate exactly when another row has the same dt and level. |
| `Nesscan.PartialDuplicateIffConflict` | integrate_nesscan_fix.py:74-78 | A row is a partial duplicate exactly when another row shares its dt and no such row shares its level. Such a row then has a conflicting twin. |
| `Nesscan.DropDuplicates` | integrate_nesscan_fix.py:86 | The kept rows have distinct dts, all come from the input, and every input dt is still present. |
| `Nesscan.DropDuplicatesKeepsFirsts` | integrate_nesscan_fix.py:85-86 | `drop_duplicates(keep='first')` keeps exactly the first row of each dt, in order. |
| `Nesscan.Find` | integrate_nesscan_fix.py:88-91 | Looking up a dt finds a row with that dt exactly when the dt occurs. |
| `Nesscan.FindUnique` | integrate_nesscan_fix.py:88-91 | With unique dts, looking up the dt of a row finds that very row. |
| `Nesscan.Update` | integrate_nesscan_fix.py:88-93 | ValueError exactly when the NESSCAN dts are not unique. Otherwise the row count and the dt order are unchanged. A row with a non-NaN NESSCAN level at its dt takes that level. Any other change comes from such a level. A row whose dt is absent is unchanged. |
| `Nesscan.FixYear` | integrate_nesscan_fix.py:86-93 | The per-year merge never raises and keeps the rows and dt order. |
| `Nesscan.FixYearTakesFirstOccurrence` | integrate_nesscan_fix.py:85-91 | A lighthouse row takes the level of the first NESSCAN row at its dt, when that level is present, and otherwise keeps its own. |
| `Nesscan.UpdateIdempotent` | integrate_nesscan_fix.py:91 | Updating twice with the same de-duplicated data equals updating once. |
| `Nesscan.Integrate` | integrate_nesscan_fix.py:66-93 | The merged years are exactly those in both dictionaries, each merged by de-duplicating then updating. |
| `FlatLines.ConstantMask` | detect_flat_lines.py:48 | Position 0 is never constant. Any other position is constant exactly when its value equals the previous one, and NaN is never equal. |
| `FlatLines.Labels` | detect_flat_lines.py:51 | A position gets label 0 exactly when its mask entry is false. |
| `FlatLines.RegionsMaximal` | detect_flat_lines.py:51 | Each reference stretch is non-empty and all true. It is bounded by a false entry or an end of the mask on both sides, and it lies strictly after the previous one. |
| `FlatLines.RegionOf` | detect_flat_lines.py:51 | Every true mask entry lies on one of the reference stretches. Together with `RegionsMaximal`, the stretches are exactly the maximal runs of true entries. |
| `FlatLines.LabelsNumberRegions` | detect_flat_lines.py:51 | `num_features` is the number of maximal stretches, and the positions of the `k`-th stretch carry label `k + 1`. |
| `FlatLines.LabelIffRegion` | detect_flat_lines.py:51 | A position carries label `k + 1` exactly when it lies on the `k`-th stretch. |
| `FlatLines.StretchCarriesLabel` | detect_flat_lines.py:51 | The label of the `k`-th stretch is at most `num_features`, and exactly the stretch's positions carry it. |
| `FlatLines.Indices` | detect_flat_lines.py:61 | `flatnonzero(labels == l)` lists only positions carrying `l`. |
| `FlatLines.IndicesOfStretch` | detect_flat_lines.py:61 | A label held exactly on one stretch is found on exactly that stretch. |
| `FlatLines.FlatRegions` | detect_flat_lines.py:55-61 | Only positive labels are kept, each with at least ten positions. |
| `FlatLines.FlatRegionIsStretch` | detect_flat_lines.py:55-61 | The positions of a kept label are exactly its maximal stretch. |
| `FlatLines.KeptIffLong` | detect_flat_lines.py:55-58 | A label carried by exactly one stretch is kept exactly when that stretch has at least ten positions. |
| `FlatLines.LongStretchKept` | detect_flat_lines.py:55-61 | Every maximal stretch is kept, under its label, exactly when it has at least ten positions. |
| `FlatLines.KeptRegionIsFlatStretch` | detect_flat_lines.py:47-61 | A kept region is at least ten consecutive positions, not starting at 0. Over it the value is present and equals the value just before it. |
| `FlatLines.StretchIsFlat` | detect_flat_lines.py:48 | A stretch of constant entries starts after position 0. From just before it to its end the values are present and equal. |
| `FlatLines.RegionIsFlat` | detect_flat_lines.py:47-51 | Every maximal stretch of constant entries starts after position 0. From just before it to its end the values are present and equal. |
| `FlatLines.FlatStretchEqual` | detect_flat_lines.py:48 | Consecutive constant entries after a position hold that position's value. |
| `Outliers.MaskOutliers` | lighthouse_remove_outliers.py:59-65 | Length and dts are kept. A level becomes NaN exactly when it was NaN or lies strictly outside the median band. Every level inside the band is unchanged. |
| `Outliers.RemoveOutliers` | lighthouse_remove_outliers.py:60-65 | As written, a level more than 3 m above or below the median becomes NaN. A level within the inclusive band, a NaN level, or a missing median leaves the row unchanged. |
| `Outliers.RemoveOutliersWithCutoff` | lighthouse_remove_outliers.py:20 | The same with the configured `abs_cutoff` of 4 m. |
| `Outliers.MaskIdempotent` | lighthouse_remove_outliers.py:64-65 | Masking twice with the same median equals masking once. |
| `Outliers.NoMedianKeepsAll` | lighthouse_remove_outliers.py:53-54 | A year without any level has a NaN median and keeps every row. |
| `Outliers.HardCodedBandRemovesMore` | lighthouse_remove_outliers.py:60-61 | Every level the 4 m band removes, the 3 m band removes too. |
| `Outliers.CutoffIgnored` | lighthouse_remove_outliers.py:60-61 | A level 3.5 m above the median is removed as written and kept with the configured cutoff. |

## Left out

- The percentages of `get_comparison_stats` and the tables it builds are left out: they are floating point and formatting. The model counts the counters and the ZeroDivisionError that an empty input causes.
- `np.median` in lighthouse_remove_outliers.py is a parameter: the model takes the yearly median as given.
- Plotting, CSV reading and writing, command-line parsing, directory creation, `split_by_year`, report assembly and the scripts' file loops are I/O around the core.
- `write_table_from_nested_dict` appending to a file is I/O. The model builds the list of lines it writes. The rows are given as a sequence, in the dictionary's iteration order.
- The timestamp of `get_filename` is a parameter, standing for the clock.
- `set_configs` and the constructor of TransformData are configuration plumbing. The default `number_of_intervals = 0` appears as `Offsets.DefaultWindow`.
- `process_offsets` with `offset_arr=None` raises AttributeError on its first append. The model always collects the entries.
- Only ASCII text is modelled: regex `\s`, `\d` and `str.lower()` on non-ASCII characters are left out.
- `pd.to_datetime` and `pd.to_numeric` coercion in `clean_dataframe` are left out. Only the sentinel replacement is modelled.
- NaT datetimes in the NESSCAN and lighthouse frames are left out: datetimes are integers.
- A NaN year among the frames of `get_df_dictionary` is a `None` first year and is skipped, as in the source. Years are not truncated by `int`.
- Boolean-mask indexing is modelled as a positional selection. This assumes the mask's index aligns with the frame's, which holds for frames built by `get_run_data`.
- pandas chained assignment (`df[col].iloc[i] = …` in TransformData.py) is modelled as writing into the output column, the behaviour the code relies on.
- `timedelta` overflow (OverflowError for huge amounts) is left out: the model's durations are unbounded.
- The `get_run_data` and `get_discrepancies` of MetricsCalculator.py:104-161 are the same loops as those of file_data_functions.py, apart from column names. They are modelled once, as are the identical `end_file_index` copies (file_data_functions.py:180-195, helpers.py:109-124) and the two `process_offsets` loops.
- `Stats.ComparisonStats` states the counters, not the percentages derived from them.
- `Offsets.IdentifyOffsetSkippingGaps` corrects only the hang. The comment at TransformData.py:156-158 says missing values inside the window should not invalidate an offset. The model does not tolerate such gaps, because the code checks the gap at `f_loop` but compares `f_loop + 1`. A gap inside the window therefore still yields NaN (`Offsets.GapInWindowRejected`).
- `Outliers.MaskOutliers` compares against exact band edges. The source compares the float level with the float sums `median + 3` and `median - 3` (lighthouse_remove_outliers.py:60-61), which are not rounded. Such a sum can land one ulp inside the exact edge (0.0262 - 3 is -2.9737999999999998). So a level exactly on an edge may be masked by the source and kept by the model. The same holds for `Outliers.RemoveOutliers` and `Outliers.RemoveOutliersWithCutoff`.
- `Outliers.MaskOutliers` takes the median in the fixed-point grid. A median that falls between grid points (an even count of levels) is not represented.

## Findings

| source | as written | input that shows it | evidently intended | confidence | as-written member | corrected member |
|---|---|---|---|---|---|---|
| TransformData.py:159-160 | The NaN skip `continue`s without advancing `f_loop`, so a NaN anchor makes `identify_offset` loop forever. | primary `[NaN, 0.0]`, reference `[0.0, 0.0]`, index 0, duration 1 | Advance the cursor past the gap (`f_loop += 1` before `continue`); a NaN anchor then yields NaN. Only the hang is corrected. | high, not executed | `Offsets.NaNAnchorHangs` | `Offsets.IdentifyOffsetSkippingGaps` |
| TransformData.py:66 | The guard `index < index + 10` is always true: the fallback copies to the end of the series. The next pass then calls `identify_offset` at `index == size`, which raises IndexError. | primary `[0.0]`, reference `[0.0]` | Copy at most ten samples, then go back to the loop test. The search resumes only if samples remain, so a block that reaches the end of the series ends the loop. | high, not executed | `Deshifter.SingleSampleRaises` | `Deshifter.TemporalDeshifterFixed` |
| TransformData.py:95-96 | On a match `index` is incremented before the write. The matched sample is not copied, the next (possibly mismatching) one is, and a match at the last sample writes at `size`. | shifted `[0, 0, 0.0005]`, reference `[0, 0, 0]`, offset 0 | Write the matched sample, then advance. | high, not executed | `Deshifter.StretchOffByOne` | `Deshifter.ApplyStretchFixed` |
| MetricsCalculator.py:403-406 | `'second' in unit` is checked before `'millisecond' in unit`, so milliseconds are added as seconds. | `parse_timedelta("5 milliseconds")` is 5 seconds | Test 'millisecond' first. | high, not executed | `Timedelta.MillisecondsReadAsSeconds` | `Timedelta.MillisecondsFixed` |
| lighthouse_remove_outliers.py:60-61 | The band is hard-coded to 3 m; the configured `abs_cutoff = 4` is only used in the output directory name. | a level 3.5 m above the median | Use `abs_cutoff` as the band, as the module docstring says. | medium, not executed | `Outliers.CutoffIgnored` | `Outliers.RemoveOutliersWithCutoff` |
