/** Flat-line detection of detect_flat_lines.py: the constant mask
    `np.diff(values, prepend=nan) == 0`, the labelling of its consecutive
    true stretches by `scipy.ndimage.label`, the per-label counts of
    `np.bincount`, and the regions of at least `MinRegion` positions.
 */
module FlatLines {
  import opened Values

  /** A region keeps its label when it has at least this many positions. */
  const MinRegion: nat := 10

  /** `np.diff(values, prepend=nan) == 0`: position 0 compares against NaN,
      every later one against its predecessor; NaN differences are never 0. */
  function ConstantMask(values: seq<Sample>): (mask: seq<bool>)
    ensures |mask| == |values|
    ensures |values| > 0 ==> !mask[0]
    ensures forall i :: 0 < i < |values| ==> (mask[i] <==> FloatEq(values[i], values[i - 1]))
  {
    seq(|values|, i requires 0 <= i < |values| => i > 0 && FloatEq(values[i], values[i - 1]))
  }

  // ---------------------------------------------------------------------------
  // Labelling

  /** Whether position `i` opens a stretch of true mask entries. */
  predicate Opens(mask: seq<bool>, i: nat)
    requires i < |mask|
  {
    mask[i] && (i == 0 || !mask[i - 1])
  }

  /** `num_features` over the first `n` positions: the stretches opened so far. */
  function Features(mask: seq<bool>, n: nat): nat
    requires n <= |mask|
  {
    if n == 0 then 0 else Features(mask, n - 1) + (if Opens(mask, n - 1) then 1 else 0)
  }

  /** The labels of the first `n` positions, as the one-dimensional `label`
      assigns them: 0 off the mask, the predecessor's label inside a stretch,
      the next unused number at the start of one. */
  function Labels(mask: seq<bool>, n: nat): (labels: seq<nat>)
    requires n <= |mask|
    ensures |labels| == n
    ensures forall i :: 0 <= i < n ==> (labels[i] == 0 <==> !mask[i])
  {
    if n == 0 then []
    else
      var l := Labels(mask, n - 1);
      l + [NextLabel(mask, n, l)]
  }

  /** The label of position `n - 1` given the labels `l` before it. */
  function NextLabel(mask: seq<bool>, n: nat, l: seq<nat>): nat
    requires 0 < n <= |mask| && |l| == n - 1
  {
    var i := n - 1;
    if !mask[i] then 0 else if i > 0 && mask[i - 1] then l[i - 1] else Features(mask, i) + 1
  }

  /** A half-open stretch [start, end) of positions. */
  datatype Region = Region(start: nat, end: nat)

  /** `rs` lists, in order, the maximal stretches of true entries among the
      first `n` positions: each is non-empty and all true, bounded by a false
      entry or the ends, and each lies strictly after the previous one. */
  predicate Maximal(mask: seq<bool>, n: nat, rs: seq<Region>)
    requires n <= |mask|
  {
    (forall k :: 0 <= k < |rs| ==> rs[k].start < rs[k].end <= n) &&
    (forall k, j :: 0 <= k && j == k + 1 < |rs| ==> rs[k].end < rs[j].start) &&
    (forall k, i :: 0 <= k < |rs| && rs[k].start <= i < rs[k].end ==> mask[i]) &&
    (forall k :: 0 <= k < |rs| ==> rs[k].start == 0 || !mask[rs[k].start - 1]) &&
    (forall k :: 0 <= k < |rs| && rs[k].end < n ==> !mask[rs[k].end])
  }

  /** Reference definition: the stretches of true entries among the first `n`
      positions, the last one growing while the mask stays true. */
  function Regions(mask: seq<bool>, n: nat): (rs: seq<Region>)
    requires n <= |mask|
    ensures n > 0 && mask[n - 1] ==> |rs| > 0 && rs[|rs| - 1].end == n
  {
    if n == 0 then [] else Extend(mask, n, Regions(mask, n - 1))
  }

  /** The stretches after position `n - 1` is read, given those before it:
      unchanged on a false entry, the last one grown after a true entry, a
      new one opened otherwise. */
  function Extend(mask: seq<bool>, n: nat, rs: seq<Region>): (next: seq<Region>)
    requires 0 < n <= |mask|
    requires n > 1 && mask[n - 2] ==> |rs| > 0
    ensures mask[n - 1] ==> |next| > 0 && next[|next| - 1].end == n
  {
    var i := n - 1;
    if !mask[i] then rs
    else if i > 0 && mask[i - 1] then rs[|rs| - 1 := Region(rs[|rs| - 1].start, n)]
    else rs + [Region(i, n)]
  }

  /** Every reference stretch is non-empty and lies within the first `n` positions. */
  lemma {:induction false} RegionBounded(mask: seq<bool>, n: nat, k: nat)
    requires n <= |mask| && k < |Regions(mask, n)|
    ensures Regions(mask, n)[k].start < Regions(mask, n)[k].end <= n
  {
    var prev := Regions(mask, n - 1);
    var i := n - 1;
    if !mask[i] {
      RegionBounded(mask, n - 1, k);
    } else if i > 0 && mask[i - 1] {
      if k < |prev| - 1 {
        RegionBounded(mask, n - 1, k);
      } else {
        RegionBounded(mask, n - 1, |prev| - 1);
      }
    } else if k < |prev| {
      RegionBounded(mask, n - 1, k);
    }
  }

  /** Every position of a reference stretch is true. */
  lemma {:induction false} RegionMasked(mask: seq<bool>, n: nat, k: nat, i: nat)
    requires n <= |mask| && k < |Regions(mask, n)|
    requires Regions(mask, n)[k].start <= i < Regions(mask, n)[k].end
    ensures i < n && mask[i]
  {
    RegionBounded(mask, n, k);
    var prev := Regions(mask, n - 1);
    if !mask[n - 1] {
      RegionMasked(mask, n - 1, k, i);
    } else if n > 1 && mask[n - 2] {
      if i < n - 1 {
        RegionMasked(mask, n - 1, k, i);
      }
    } else if k < |prev| {
      RegionMasked(mask, n - 1, k, i);
    }
  }

  /** Reading one more position keeps the stretches maximal. */
  lemma {:induction false} ExtendKeepsMaximal(mask: seq<bool>, n: nat, rs: seq<Region>)
    requires 0 < n <= |mask| && Maximal(mask, n - 1, rs)
    requires n > 1 && mask[n - 2] ==> |rs| > 0 && rs[|rs| - 1].end == n - 1
    ensures Maximal(mask, n, Extend(mask, n, rs))
  {
    var i := n - 1;
    if !mask[i] {
      SkipKeepsMaximal(mask, n, rs);
    } else if i > 0 && mask[i - 1] {
      GrowKeepsMaximal(mask, n, rs);
    } else {
      OpenKeepsMaximal(mask, n, rs);
    }
  }

  /** A false entry ends nothing new: the stretches so far stay maximal. */
  lemma {:induction false} SkipKeepsMaximal(mask: seq<bool>, n: nat, rs: seq<Region>)
    requires 0 < n <= |mask| && !mask[n - 1] && Maximal(mask, n - 1, rs)
    ensures Maximal(mask, n, rs)
  {
  }

  /** A true entry after a true one extends the last stretch. */
  lemma {:induction false} GrowKeepsMaximal(mask: seq<bool>, n: nat, rs: seq<Region>)
    requires 1 < n <= |mask| && mask[n - 1] && mask[n - 2] && Maximal(mask, n - 1, rs)
    requires |rs| > 0 && rs[|rs| - 1].end == n - 1
    ensures Maximal(mask, n, rs[|rs| - 1 := Region(rs[|rs| - 1].start, n)])
  {
    var last := |rs| - 1;
    var grown := rs[last := Region(rs[last].start, n)];
    forall k | 0 <= k < |grown|
      ensures grown[k].start < grown[k].end <= n
      ensures grown[k].start == 0 || !mask[grown[k].start - 1]
      ensures grown[k].end < n ==> !mask[grown[k].end]
    {
      if k < last {
        assert grown[k] == rs[k];
        var j := k + 1;
        assert rs[k].end < rs[j].start < rs[j].end;
      }
    }
    forall k, j | 0 <= k && j == k + 1 < |grown|
      ensures grown[k].end < grown[j].start
    {
      assert grown[k] == rs[k];
      assert grown[j].start == rs[j].start;
    }
    forall k, i | 0 <= k < |grown| && grown[k].start <= i < grown[k].end
      ensures mask[i]
    {
      if k < last || i < n - 1 {
        assert rs[k].start <= i < rs[k].end;
      }
    }
  }

  /** A true entry after a false one (or at position 0) opens a new stretch. */
  lemma {:induction false} OpenKeepsMaximal(mask: seq<bool>, n: nat, rs: seq<Region>)
    requires 0 < n <= |mask| && mask[n - 1] && (n == 1 || !mask[n - 2]) && Maximal(mask, n - 1, rs)
    ensures Maximal(mask, n, rs + [Region(n - 1, n)])
  {
    var extended := rs + [Region(n - 1, n)];
    forall k, i | 0 <= k < |extended| && extended[k].start <= i < extended[k].end
      ensures mask[i]
    {
      if k < |rs| {
        assert rs[k].start <= i < rs[k].end;
      }
    }
  }

  /** The reference stretches are the maximal ones. */
  lemma {:induction false} RegionsMaximal(mask: seq<bool>, n: nat)
    requires n <= |mask|
    ensures Maximal(mask, n, Regions(mask, n))
  {
    if n > 0 {
      RegionsMaximal(mask, n - 1);
      ExtendKeepsMaximal(mask, n, Regions(mask, n - 1));
    }
  }

  /** The region holding a masked position. */
  function RegionOf(mask: seq<bool>, n: nat, i: nat): (k: nat)
    requires i < n <= |mask| && mask[i]
    ensures k < |Regions(mask, n)| && Regions(mask, n)[k].start <= i < Regions(mask, n)[k].end
  {
    var rs := Regions(mask, n);
    RegionsMaximal(mask, n);
    if i == n - 1 then |rs| - 1
    else
      var k := RegionOf(mask, n - 1, i);
      var prev := Regions(mask, n - 1);
      if !mask[n - 1] then k
      else if n - 1 > 0 && mask[n - 2] then
        assert k < |prev| - 1 ==> rs[k] == prev[k];
        k
      else k
  }

  /** Every position of stretch k carries label k + 1. */
  predicate Numbered(labels: seq<nat>, rs: seq<Region>) {
    (forall k :: 0 <= k < |rs| ==> rs[k].end <= |labels|) &&
    (forall k, i :: 0 <= k < |rs| && rs[k].start <= i < rs[k].end <= |labels| ==> labels[i] == k + 1)
  }

  /** Appending a label outside every stretch keeps the numbering. */
  lemma {:induction false} SkipKeepsNumbered(l: seq<nat>, rs: seq<Region>, v: nat)
    requires Numbered(l, rs)
    ensures Numbered(l + [v], rs)
  {
    var labels := l + [v];
    forall k, i | 0 <= k < |rs| && rs[k].start <= i < rs[k].end <= |labels|
      ensures labels[i] == k + 1
    {
      assert labels[i] == l[i];
    }
  }

  /** Growing the last stretch by one position labelled like its predecessor. */
  lemma {:induction false} GrowKeepsNumbered(l: seq<nat>, rs: seq<Region>)
    requires Numbered(l, rs) && |rs| > 0 && rs[|rs| - 1].start < rs[|rs| - 1].end == |l|
    ensures Numbered(l + [|rs|], rs[|rs| - 1 := Region(rs[|rs| - 1].start, |l| + 1)])
  {
    var last := |rs| - 1;
    var grown := rs[last := Region(rs[last].start, |l| + 1)];
    var labels := l + [|rs|];
    forall k, i | 0 <= k < |grown| && grown[k].start <= i < grown[k].end <= |labels|
      ensures labels[i] == k + 1
    {
      if k < last || i < |l| {
        assert rs[k].start <= i < rs[k].end;
      }
    }
  }

  /** Opening a new stretch at the next position with the next number. */
  lemma {:induction false} OpenKeepsNumbered(l: seq<nat>, rs: seq<Region>)
    requires Numbered(l, rs)
    ensures Numbered(l + [|rs| + 1], rs + [Region(|l|, |l| + 1)])
  {
    var extended := rs + [Region(|l|, |l| + 1)];
    var labels := l + [|rs| + 1];
    forall k, i | 0 <= k < |extended| && extended[k].start <= i < extended[k].end <= |labels|
      ensures labels[i] == k + 1
    {
      if k < |rs| {
        assert rs[k].start <= i < rs[k].end;
      }
    }
  }

  /** There are as many labels as stretches. */
  lemma {:induction false} FeaturesCountRegions(mask: seq<bool>, n: nat)
    requires n <= |mask|
    ensures |Regions(mask, n)| == Features(mask, n)
  {
    if n > 0 {
      FeaturesCountRegions(mask, n - 1);
    }
  }

  /** Reading one more position keeps the numbering, given that the stretches
      so far are as many as the labels used and the last one ends just before
      a true predecessor. */
  lemma {:induction false} ExtendKeepsNumbered(mask: seq<bool>, n: nat, l: seq<nat>, rs: seq<Region>)
    requires 0 < n <= |mask| && |l| == n - 1 && |rs| == Features(mask, n - 1) && Numbered(l, rs)
    requires n > 1 && mask[n - 2] ==> |rs| > 0 && rs[|rs| - 1].start < rs[|rs| - 1].end == n - 1
    ensures Numbered(l + [NextLabel(mask, n, l)], Extend(mask, n, rs))
  {
    var i := n - 1;
    if !mask[i] {
      SkipKeepsNumbered(l, rs, 0);
    } else if i > 0 && mask[i - 1] {
      var last := |rs| - 1;
      assert rs[last].start <= i - 1 < rs[last].end;
      GrowKeepsNumbered(l, rs);
    } else {
      OpenKeepsNumbered(l, rs);
    }
  }

  /** The scan's labels number the maximal stretches in order: the positions of
      stretch k carry label k + 1. */
  lemma {:induction false} LabelsNumberRegions(mask: seq<bool>, n: nat)
    requires n <= |mask|
    ensures |Regions(mask, n)| == Features(mask, n)
    ensures Numbered(Labels(mask, n), Regions(mask, n))
  {
    FeaturesCountRegions(mask, n);
    if n > 0 {
      LabelsNumberRegions(mask, n - 1);
      var prev := Regions(mask, n - 1);
      if n > 1 && mask[n - 2] {
        RegionBounded(mask, n - 1, |prev| - 1);
      }
      FeaturesCountRegions(mask, n - 1);
      ExtendKeepsNumbered(mask, n, Labels(mask, n - 1), prev);
    }
  }

  /** A positive label names exactly the positions of one stretch. */
  lemma {:induction false} LabelIffRegion(mask: seq<bool>, k: nat, i: nat)
    requires k < |Regions(mask, |mask|)| && i < |mask|
    ensures var r := Regions(mask, |mask|)[k];
            Labels(mask, |mask|)[i] == k + 1 <==> r.start <= i < r.end
  {
    var n := |mask|;
    LabelsNumberRegions(mask, n);
    if Labels(mask, n)[i] == k + 1 {
      var j := RegionOf(mask, n, i);
    }
  }

  // ---------------------------------------------------------------------------
  // Counting and selecting

  /** `np.flatnonzero(labels[:m] == l)`: the positions carrying label `l`, in order. */
  function Indices(labels: seq<nat>, l: nat, m: nat): (ix: seq<nat>)
    requires m <= |labels|
    ensures forall j :: 0 <= j < |ix| ==> ix[j] < m && labels[ix[j]] == l
  {
    if m == 0 then [] else Indices(labels, l, m - 1) + (if labels[m - 1] == l then [m - 1] else [])
  }

  /** The consecutive positions start, start + 1, …, end - 1. */
  function Range(start: nat, end: nat): (r: seq<nat>)
    requires start <= end
    ensures |r| == end - start && forall j :: 0 <= j < |r| ==> r[j] == start + j
  {
    seq(end - start, j requires 0 <= j < end - start => start + j)
  }

  /** A label held on exactly one stretch is found on exactly that stretch. */
  lemma {:induction false} IndicesOfStretch(labels: seq<nat>, l: nat, s: nat, e: nat, m: nat)
    requires s <= e <= |labels| && m <= |labels|
    requires forall i :: 0 <= i < |labels| ==> (labels[i] == l <==> s <= i < e)
    ensures Indices(labels, l, m) == if m <= s then [] else if m <= e then Range(s, m) else Range(s, e)
  {
    if m > 0 {
      IndicesOfStretch(labels, l, s, e, m - 1);
      var before := Indices(labels, l, m - 1);
      if m - 1 < s {
        assert labels[m - 1] != l;
      } else if m - 1 < e {
        assert labels[m - 1] == l;
        assert Range(s, m) == Range(s, m - 1) + [m - 1];
      } else {
        assert labels[m - 1] != l;
        assert before == Range(s, e);
      }
    }
  }

  /** `label_counts[l]`, the `np.bincount` entry of label `l`. */
  function Count(labels: seq<nat>, l: nat): nat {
    |Indices(labels, l, |labels|)|
  }

  /** The labels among 1..`features` with at least `MinRegion` positions, each
      mapped to the positions carrying it. */
  function KeptLabels(labels: seq<nat>, features: nat): (regions: map<nat, seq<nat>>)
    ensures forall l :: l in regions ==> 0 < l <= features && |regions[l]| >= MinRegion
  {
    map l | 0 < l <= features && Count(labels, l) >= MinRegion :: Indices(labels, l, |labels|)
  }

  /** `flat_regions`: for each positive label with at least `MinRegion`
      positions, the positions carrying it. */
  function FlatRegions(values: seq<Sample>): (regions: map<nat, seq<nat>>)
    ensures forall l :: l in regions ==> l > 0 && |regions[l]| >= MinRegion
  {
    var mask := ConstantMask(values);
    KeptLabels(Labels(mask, |mask|), Features(mask, |mask|))
  }

  /** A kept region is a stretch of at least ten consecutive positions, not
      starting at 0, over which the value, present throughout, equals the
      value just before the stretch: at least eleven equal values in a row,
      of which the first is not part of the region. */
  lemma {:induction false} KeptRegionIsFlatStretch(values: seq<Sample>, l: nat)
    requires l in FlatRegions(values)
    ensures var ix := FlatRegions(values)[l];
            |ix| >= MinRegion && ix[0] >= 1 && ix[0] + |ix| <= |values| &&
            (forall j :: 0 <= j < |ix| ==> ix[j] == ix[0] + j) &&
            (forall j :: 0 <= j < |ix| ==> values[ix[j]].Some? && values[ix[j]] == values[ix[0] - 1])
  {
    FlatRegionIsStretch(values, l);
    var s, e := RegionIsFlat(values, l - 1);
    RangeIsFlat(values, s, e);
  }

  /** Every maximal stretch [s, e) of constant entries starts after position 0,
      and the values from just before it to its end are present and equal. */
  lemma {:induction false} RegionIsFlat(values: seq<Sample>, k: nat) returns (s: nat, e: nat)
    requires k < |Regions(ConstantMask(values), |values|)|
    ensures Regions(ConstantMask(values), |values|)[k] == Region(s, e)
    ensures 1 <= s < e <= |values|
    ensures forall i :: s - 1 <= i < e ==> values[i].Some? && values[i] == values[s - 1]
  {
    var mask := ConstantMask(values);
    var r := Regions(mask, |values|)[k];
    RegionBounded(mask, |values|, k);
    forall i | r.start <= i < r.end
      ensures i < |values| && mask[i]
    {
      RegionMasked(mask, |values|, k, i);
    }
    StretchIsFlat(values, r.start, r.end);
    s, e := r.start, r.end;
  }

  /** The positions [s, e) of a flat stretch, listed in order. */
  lemma {:induction false} RangeIsFlat(values: seq<Sample>, s: nat, e: nat)
    requires 1 <= s <= e <= |values|
    requires forall i :: s - 1 <= i < e ==> values[i].Some? && values[i] == values[s - 1]
    ensures var ix := Range(s, e);
            |ix| == e - s && (|ix| > 0 ==> ix[0] == s) &&
            forall j :: 0 <= j < |ix| ==> ix[j] == s + j && values[ix[j]].Some? && values[ix[j]] == values[s - 1]
  {
  }

  /** A non-empty stretch of true mask entries starts after position 0, and the
      values from just before it to its end are present and equal. */
  lemma {:induction false} StretchIsFlat(values: seq<Sample>, s: nat, e: nat)
    requires s < e <= |values|
    requires forall i :: s <= i < e ==> ConstantMask(values)[i]
    ensures s >= 1
    ensures forall i :: s - 1 <= i < e ==> values[i].Some? && values[i] == values[s - 1]
  {
    assert ConstantMask(values)[s];
    FlatStretchEqual(values, s - 1, e);
    assert values[s - 1].Some? by {
      assert FloatEq(values[s], values[s - 1]);
    }
  }

  /** A kept label numbers one of the stretches. */
  lemma {:induction false} KeptLabelNumbersStretch(values: seq<Sample>, l: nat)
    requires l in FlatRegions(values)
    ensures 0 < l <= |Regions(ConstantMask(values), |values|)|
  {
    var mask := ConstantMask(values);
    assert 0 < l <= Features(mask, |mask|);
    FeaturesCountRegions(mask, |mask|);
  }

  /** The positions of a kept label are the stretch it numbers. */
  lemma {:induction false} FlatRegionIsStretch(values: seq<Sample>, l: nat)
    requires l in FlatRegions(values)
    ensures var rs := Regions(ConstantMask(values), |values|);
            0 < l <= |rs| && rs[l - 1].start < rs[l - 1].end &&
            FlatRegions(values)[l] == Range(rs[l - 1].start, rs[l - 1].end)
  {
    KeptLabelNumbersStretch(values, l);
    var mask := ConstantMask(values);
    var r := Regions(mask, |mask|)[l - 1];
    StretchCarriesLabel(mask, l);
    KeptIffLong(Labels(mask, |mask|), Features(mask, |mask|), l, r.start, r.end);
  }

  /** Stretch l - 1 carries label l and no other position does. */
  lemma {:induction false} StretchCarriesLabel(mask: seq<bool>, l: nat)
    requires 0 < l <= |Regions(mask, |mask|)|
    ensures var r := Regions(mask, |mask|)[l - 1];
            var labels := Labels(mask, |mask|);
            l <= Features(mask, |mask|) && r.start <= r.end <= |labels| &&
            forall i :: 0 <= i < |labels| ==> (labels[i] == l <==> r.start <= i < r.end)
  {
    var n := |mask|;
    FeaturesCountRegions(mask, n);
    RegionBounded(mask, n, l - 1);
    forall i | 0 <= i < n
      ensures Labels(mask, n)[i] == l <==> Regions(mask, n)[l - 1].start <= i < Regions(mask, n)[l - 1].end
    {
      LabelIffRegion(mask, l - 1, i);
    }
  }

  /** A positive label carried by exactly the stretch [s, e) is kept exactly
      when the stretch has at least `MinRegion` positions, and then maps to it. */
  lemma {:induction false} KeptIffLong(labels: seq<nat>, features: nat, l: nat, s: nat, e: nat)
    requires 0 < l <= features
    requires s <= e <= |labels|
    requires forall i :: 0 <= i < |labels| ==> (labels[i] == l <==> s <= i < e)
    ensures l in KeptLabels(labels, features) <==> e - s >= MinRegion
    ensures l in KeptLabels(labels, features) ==> KeptLabels(labels, features)[l] == Range(s, e)
  {
    IndicesOfStretch(labels, l, s, e, |labels|);
    assert Count(labels, l) == e - s;
  }

  /** Conversely, every maximal stretch of constant entries is kept, under the
      label numbering it, exactly when it has at least `MinRegion` positions. */
  lemma {:induction false} LongStretchKept(values: seq<Sample>, k: nat)
    requires k < |Regions(ConstantMask(values), |values|)|
    ensures var r := Regions(ConstantMask(values), |values|)[k];
            (k + 1 in FlatRegions(values) <==> r.end - r.start >= MinRegion) &&
            (k + 1 in FlatRegions(values) ==> FlatRegions(values)[k + 1] == Range(r.start, r.end))
  {
    var mask := ConstantMask(values);
    var r := Regions(mask, |mask|)[k];
    StretchCarriesLabel(mask, k + 1);
    KeptIffLong(Labels(mask, |mask|), Features(mask, |mask|), k + 1, r.start, r.end);
  }

  /** A stretch of true mask entries after position `a` holds one value from `a` on. */
  lemma {:induction false} FlatStretchEqual(values: seq<Sample>, a: nat, e: nat)
    requires a < e <= |values|
    requires forall i :: a < i < e ==> ConstantMask(values)[i]
    ensures forall i :: a < i < e ==> values[i].Some? && values[i] == values[a]
  {
    if e > a + 1 {
      FlatStretchEqual(values, a, e - 1);
      assert ConstantMask(values)[e - 1];
    }
  }
}
