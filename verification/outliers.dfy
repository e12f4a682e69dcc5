/** Median-band outlier masking of lighthouse_remove_outliers.py: a water
    level strictly above `median + 3` or strictly below `median - 3` metres
    becomes NaN. The yearly median (`np.median` of the non-NaN levels) is a
    parameter; it is NaN (None) for a year without any level, and then no
    comparison holds and nothing is masked.
 */
module Outliers {
  import opened Values

  /** The band the script hard-codes, in metres. */
  const HardCodedBand: int := 3

  /** The configured `abs_cutoff`, in metres, which the docstring says sets the band. */
  const AbsCutoff: int := 4

  /** Whether a level lies strictly outside [median - band, median + band]; NaN never does. */
  predicate Outside(wl: Sample, median: Sample, band: int) {
    wl.Some? && median.Some? && (wl.value > median.value + band || wl.value < median.value - band)
  }

  /** `df.loc[wl > median + band, 'wl'] = nan` and the same for `< median - band`,
      with the band in fixed-point units. */
  function MaskOutliers(rows: seq<Observation>, median: Sample, band: int): (cleaned: seq<Observation>)
    ensures |cleaned| == |rows|
    ensures forall i :: 0 <= i < |rows| ==> cleaned[i].dt == rows[i].dt
    ensures forall i :: 0 <= i < |rows| ==>
              (cleaned[i].wl.None? <==> rows[i].wl.None? || Outside(rows[i].wl, median, band))
    ensures forall i :: 0 <= i < |rows| && !Outside(rows[i].wl, median, band) ==> cleaned[i] == rows[i]
  {
    seq(|rows|, i requires 0 <= i < |rows| =>
      if Outside(rows[i].wl, median, band) then rows[i].(wl := None) else rows[i])
  }

  /** The script as written: the band is 3 m whatever `abs_cutoff` says. */
  function RemoveOutliers(rows: seq<Observation>, median: Sample): (cleaned: seq<Observation>)
    ensures |cleaned| == |rows|
    ensures forall i :: 0 <= i < |rows| ==> cleaned[i].dt == rows[i].dt
    ensures forall i :: 0 <= i < |rows| && rows[i].wl.Some? && median.Some? ==>
              (rows[i].wl.value > median.value + HardCodedBand * Scale ==> cleaned[i].wl.None?) &&
              (rows[i].wl.value < median.value - HardCodedBand * Scale ==> cleaned[i].wl.None?)
    ensures forall i :: 0 <= i < |rows| ==>
              ((median.None? || rows[i].wl.None? ||
                median.value - HardCodedBand * Scale <= rows[i].wl.value <= median.value + HardCodedBand * Scale) ==>
               cleaned[i] == rows[i])
  {
    MaskOutliers(rows, median, HardCodedBand * Scale)
  }

  /** The masking the docstring describes: the band is `abs_cutoff` metres. */
  function RemoveOutliersWithCutoff(rows: seq<Observation>, median: Sample): (cleaned: seq<Observation>)
    ensures |cleaned| == |rows|
    ensures forall i :: 0 <= i < |rows| ==> cleaned[i].dt == rows[i].dt
    ensures forall i :: 0 <= i < |rows| && rows[i].wl.Some? && median.Some? ==>
              (rows[i].wl.value > median.value + AbsCutoff * Scale ==> cleaned[i].wl.None?) &&
              (rows[i].wl.value < median.value - AbsCutoff * Scale ==> cleaned[i].wl.None?)
    ensures forall i :: 0 <= i < |rows| ==>
              ((median.None? || rows[i].wl.None? ||
                median.value - AbsCutoff * Scale <= rows[i].wl.value <= median.value + AbsCutoff * Scale) ==>
               cleaned[i] == rows[i])
  {
    MaskOutliers(rows, median, AbsCutoff * Scale)
  }

  /** For a fixed median, masking twice is masking once: a masked level is NaN
      and NaN is never outside the band. */
  lemma MaskIdempotent(rows: seq<Observation>, median: Sample, band: int)
    ensures MaskOutliers(MaskOutliers(rows, median, band), median, band) == MaskOutliers(rows, median, band)
  {
    var once := MaskOutliers(rows, median, band);
    assert forall i :: 0 <= i < |once| ==> !Outside(once[i].wl, median, band);
  }

  /** Without a median (a year of NaNs) nothing is masked. */
  lemma NoMedianKeepsAll(rows: seq<Observation>, band: int)
    ensures MaskOutliers(rows, None, band) == rows
  {
  }

  /** Every level the wider configured band removes, the hard-coded band
      removes too. */
  lemma HardCodedBandRemovesMore(rows: seq<Observation>, median: Sample, i: nat)
    requires i < |rows|
    ensures RemoveOutliersWithCutoff(rows, median)[i].wl.None? ==> RemoveOutliers(rows, median)[i].wl.None?
  {
  }

  /** A level 3.5 m above the median: the configured cutoff of 4 m keeps it,
      the hard-coded 3 m removes it. */
  lemma CutoffIgnored()
    ensures var rows := [Observation(0, Some(35000))];
            RemoveOutliers(rows, Some(0)) == [Observation(0, None)] &&
            RemoveOutliersWithCutoff(rows, Some(0)) == rows
  {
    var rows := [Observation(0, Some(35000))];
    assert Outside(rows[0].wl, Some(0), HardCodedBand * Scale);
    assert !Outside(rows[0].wl, Some(0), AbsCutoff * Scale);
  }
}
