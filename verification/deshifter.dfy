/** TransformData.temporal_deshifter: search a temporal shift of the primary
    series whose vertical offset verifies, copy the shifted values while the
    offset keeps matching, and fall back to a plain copy when no shift works.

    `Deshift` models the code as written, including its three defects; the
    `...Fixed` members model the evidently intended loop.
 */
module Deshifter {
  import opened Values
  import opened Offsets

  /** The window temporal_deshifter passes to identify_offset. */
  const Window: nat := 10

  /** temporal_shifts = range(-3, 4): candidates are tried from MinShift up to MaxShift. */
  const MinShift: int := -3
  const MaxShift: int := 3
  const ShiftCount: nat := 7

  /** Length of the fallback copy the guard `index < index + 10` was meant to allow. */
  const FallbackSpan: nat := 10

  function Nones(n: nat): (s: seq<Sample>)
    ensures |s| == n && forall i :: 0 <= i < n ==> s[i].None?
  {
    if n == 0 then [] else Nones(n - 1) + [None]
  }

  /** pandas `Series.shift(k)` on a positional series: the values move `k`
      places later (earlier for negative `k`) and NaN fills the vacated end. */
  function Shift(s: seq<Sample>, k: int): (t: seq<Sample>)
    ensures |t| == |s|
    ensures forall i :: 0 <= i < |s| ==> t[i] == (if 0 <= i - k < |s| then s[i - k] else None)
  {
    if k >= 0 then
      if k >= |s| then Nones(|s|) else Nones(k) + s[..|s| - k]
    else
      if -k >= |s| then Nones(|s|) else s[-k..] + Nones(-k)
  }

  /** Shifting back by the opposite amount restores every value whose shifted position exists. */
  lemma ShiftBack(s: seq<Sample>, k: int)
    ensures forall i :: 0 <= i < |s| && 0 <= i + k < |s| ==> Shift(Shift(s, k), -k)[i] == s[i]
    ensures Shift(s, 0) == s
  {
    var t := Shift(Shift(s, k), -k);
    forall i | 0 <= i < |s| && 0 <= i + k < |s|
      ensures t[i] == s[i]
    {
      assert t[i] == Shift(s, k)[i + k];
    }
    assert forall i :: 0 <= i < |s| ==> Shift(s, 0)[i] == s[i];
  }

  /** identify_offset on the primary shifted by `k`, at `index`, with the deshifter's window. */
  function Probe(p: seq<Sample>, r: seq<Sample>, index: nat, k: int): Outcome<Sample>
    requires |p| == |r|
  {
    IdentifyOffset(Shift(p, k), r, index, Window)
  }

  /** Result of trying the candidate shifts at one index. */
  datatype Search =
    | Found(shift: int, offset: int)     // first candidate whose offset verifies
    | Exhausted                          // every candidate returned NaN
    | Stopped(shift: int, outcome: Outcome<Sample>)  // identify_offset raised or never returned

  /** The outcomes of identify_offset for the candidate shifts, in the order tried. */
  function Probes(p: seq<Sample>, r: seq<Sample>, index: nat): (os: seq<Outcome<Sample>>)
    requires |p| == |r|
    ensures |os| == ShiftCount
    ensures forall j :: 0 <= j < ShiftCount ==> os[j] == Probe(p, r, index, MinShift + j)
  {
    seq(ShiftCount, j requires 0 <= j < ShiftCount => Probe(p, r, index, MinShift + j))
  }

  /** The candidate loop over the outcomes `os`, from `shift_val_index = svi`
      on: a NaN moves to the next candidate, the first verified offset wins,
      an exception or a hang stops the loop. */
  function FirstVerdict(os: seq<Outcome<Sample>>, svi: nat): (s: Search)
    requires svi <= |os|
    ensures s.Found? ==>
              svi <= s.shift - MinShift < |os| && os[s.shift - MinShift] == Done(Some(s.offset)) &&
              forall j :: svi <= j < s.shift - MinShift ==> os[j] == Done(None)
    ensures s.Exhausted? <==> forall j :: svi <= j < |os| ==> os[j] == Done(None)
    ensures s.Stopped? ==>
              svi <= s.shift - MinShift < |os| && os[s.shift - MinShift] == s.outcome && !s.outcome.Done? &&
              forall j :: svi <= j < s.shift - MinShift ==> os[j] == Done(None)
    decreases |os| - svi
  {
    if svi >= |os| then Exhausted
    else if os[svi] == Done(None) then FirstVerdict(os, svi + 1)
    else if os[svi].Done? then Found(MinShift + svi, os[svi].value.value)
    else Stopped(MinShift + svi, os[svi])
  }

  /** The candidate loop of temporal_deshifter at `index`: the first shift,
      in ascending order, whose offset verifies; every earlier shift gave NaN. */
  function SearchShift(p: seq<Sample>, r: seq<Sample>, index: nat): (s: Search)
    requires |p| == |r|
    ensures s.Found? ==>
              MinShift <= s.shift <= MaxShift &&
              Probe(p, r, index, s.shift) == Done(Some(s.offset)) &&
              forall k :: MinShift <= k < s.shift ==> Probe(p, r, index, k) == Done(None)
    ensures s.Exhausted? <==> forall k :: MinShift <= k <= MaxShift ==> Probe(p, r, index, k) == Done(None)
    ensures s.Stopped? ==>
              !s.outcome.Done? && MinShift <= s.shift <= MaxShift && Probe(p, r, index, s.shift) == s.outcome &&
              forall k :: MinShift <= k < s.shift ==> Probe(p, r, index, k) == Done(None)
  {
    var os := Probes(p, r, index);
    var s := FirstVerdict(os, 0);
    assert forall k :: MinShift <= k <= MaxShift ==> os[k - MinShift] == Probe(p, r, index, k);
    s
  }

  /** The shifted value plus the offset matches the reference at `j` (after rounding). */
  predicate Matches(shifted: seq<Sample>, r: seq<Sample>, d: int, j: nat)
    requires j < |shifted| == |r|
  {
    FloatEq(Plus(shifted[j], d), r[j])
  }

  // ---------------------------------------------------------------------------
  // As written
  // ---------------------------------------------------------------------------

  /** The inner `while index < size` loop as written: on a match it increments
      `index` and only then writes, so the write lands one place past the
      matched position, and a match at the last position writes past the end. */
  function ApplyStretch(shifted: seq<Sample>, r: seq<Sample>, out: seq<Sample>, index: nat, d: int): (o: Outcome<(seq<Sample>, nat)>)
    requires |shifted| == |r| == |out| && index <= |shifted|
    ensures !o.Hangs?
    ensures o.Raised? ==> o.error == IndexError
    ensures o.Raised? <==> index < |shifted| && forall j :: index <= j < |shifted| ==> Matches(shifted, r, d, j)
    ensures o.Done? ==>
              var (written, e) := o.value;
              index <= e <= |shifted| && |written| == |out| &&
              (e < |shifted| ==> !Matches(shifted, r, d, e)) &&
              (forall j :: index <= j < e ==> Matches(shifted, r, d, j)) &&
              (forall j :: 0 <= j < |out| ==> written[j] == if index < j <= e then shifted[j] else out[j])
    ensures o.Done? && index < |shifted| ==> o.value.1 < |shifted|
    ensures o.Done? && index < |shifted| && Matches(shifted, r, d, index) ==> index < o.value.1
    decreases |shifted| - index
  {
    if index >= |shifted| then Done((out, index))
    else if Matches(shifted, r, d, index) then
      var next := index + 1;
      if next >= |shifted| then Raised(IndexError)
      else ApplyStretch(shifted, r, out[next := shifted[next]], next, d)
    else Done((out, index))
  }

  /** The fallback loop as written. Its guard `index < index + 10` is always
      true, so it copies `source` into `out` from `index` to the very end. */
  function Fallback(out: seq<Sample>, source: seq<Sample>, index: nat): (o: seq<Sample>)
    requires |source| == |out|
    ensures |o| == |out|
    ensures forall j :: 0 <= j < |out| ==> o[j] == if j < index then out[j] else source[j]
    decreases |out| - index
  {
    if index < index + FallbackSpan then
      if index >= |out| then out
      else Fallback(out[index := source[index]], source, index + 1)
    else out
  }

  /** The outer loop of temporal_deshifter as written, from cursor `index`
      with the de-shifted copy `out`. */
  function Deshift(p: seq<Sample>, r: seq<Sample>, out: seq<Sample>, index: nat): (o: Outcome<seq<Sample>>)
    requires |p| == |r| == |out| && index <= |p|
    ensures o.Done? <==> index == |p|
    ensures o.Done? ==> o.value == out
    ensures o.Raised? ==> o.error == IndexError
    decreases |p| - index
  {
    if index >= |p| then Done(out)
    else
      match SearchShift(p, r, index)
      case Found(k, d) =>
        FoundMatches(p, r, index, k, d);
        (match ApplyStretch(Shift(p, k), r, out, index, d)
         case Done((written, e)) => Deshift(p, r, written, e)
         case Raised(err) => Raised(err)
         case Hangs => Hangs)
      case Exhausted =>
        // df_copy still holds the +3-shifted series tried last.
        var filled := Fallback(out, Shift(p, MaxShift), index);
        // The body goes on with index == size: identify_offset reads iloc[size].
        var next := Probe(p, r, |filled|, MinShift);
        Raised(next.error)
      case Stopped(_, outcome) =>
        if outcome.Hangs? then Hangs else Raised(outcome.error)
  }

  /** A shift the search finds matches the reference at the cursor with its offset. */
  lemma FoundMatches(p: seq<Sample>, r: seq<Sample>, index: nat, k: int, d: int)
    requires |p| == |r| && index < |p|
    requires SearchShift(p, r, index) == Found(k, d)
    ensures Matches(Shift(p, k), r, d, index)
  {
    ProbeMatches(p, r, index, k, d);
  }

  /** A candidate whose window verifies offset `d` matches at the cursor. */
  lemma ProbeMatches(p: seq<Sample>, r: seq<Sample>, index: nat, k: int, d: int)
    requires |p| == |r| && index < |p|
    requires Probe(p, r, index, k) == Done(Some(d))
    ensures Matches(Shift(p, k), r, d, index)
  {
    assert Agrees(Shift(p, k), r, index, index + Window, d);
  }

  /** temporal_deshifter(merged_df, ...) as written, with `deshifted_df` starting as a copy. */
  function TemporalDeshifter(p: seq<Sample>, r: seq<Sample>): (o: Outcome<seq<Sample>>)
    requires |p| == |r|
    ensures o.Done? <==> |p| == 0
    ensures o.Done? ==> o.value == p
    ensures o.Raised? ==> o.error == IndexError
  {
    Deshift(p, r, p, 0)
  }

  // ---------------------------------------------------------------------------
  // As evidently intended
  // ---------------------------------------------------------------------------

  /** Provenance of one output position: corrected with a temporal shift and
      vertical offset, or left to the fallback block that began at `from`,
      where no candidate verified. */
  datatype Provenance = Corrected(shift: int, offset: int) | Uncorrected(from: nat)

  /** The candidate loop with the gap-skipping identify_offset. */
  function SearchShiftFixed(p: seq<Sample>, r: seq<Sample>, index: nat, svi: nat): (s: Option<(int, int)>)
    requires |p| == |r| && index < |p| && svi <= ShiftCount
    ensures s.Some? ==>
              MinShift + svi <= s.value.0 <= MaxShift &&
              Agrees(Shift(p, s.value.0), r, index, index + Window, s.value.1) &&
              forall k :: MinShift + svi <= k < s.value.0 ==> IdentifyOffsetSkippingGaps(Shift(p, k), r, index, Window).None?
    ensures s.None? ==> forall k :: MinShift + svi <= k <= MaxShift ==> IdentifyOffsetSkippingGaps(Shift(p, k), r, index, Window).None?
    decreases ShiftCount - svi
  {
    if svi >= ShiftCount then None
    else
      match IdentifyOffsetSkippingGaps(Shift(p, MinShift + svi), r, index, Window)
      case None => SearchShiftFixed(p, r, index, svi + 1)
      case Some(d) => Some((MinShift + svi, d))
  }

  /** The inner loop writing before incrementing: every matched position gets
      its shifted value, and the stretch may run to the end. */
  function ApplyStretchFixed(shifted: seq<Sample>, r: seq<Sample>, out: seq<Sample>, index: nat, d: int): (res: (seq<Sample>, nat))
    requires |shifted| == |r| == |out| && index <= |shifted|
    ensures index <= res.1 <= |shifted| && |res.0| == |out|
    ensures res.1 < |shifted| ==> !Matches(shifted, r, d, res.1)
    ensures forall j :: index <= j < res.1 ==> Matches(shifted, r, d, j)
    ensures forall j :: 0 <= j < |out| ==> res.0[j] == if index <= j < res.1 then shifted[j] else out[j]
    decreases |shifted| - index
  {
    if index >= |shifted| then (out, index)
    else if Matches(shifted, r, d, index) then
      ApplyStretchFixed(shifted, r, out[index := shifted[index]], index + 1, d)
    else (out, index)
  }

  /** The fallback copying at most FallbackSpan samples (guard `index < start + 10`). */
  function FallbackBounded(out: seq<Sample>, source: seq<Sample>, index: nat, stop: nat): (o: seq<Sample>)
    requires |source| == |out|
    ensures |o| == |out|
    ensures forall j :: 0 <= j < |out| ==> o[j] == if index <= j < stop then source[j] else out[j]
    decreases |out| - index
  {
    if index >= stop || index >= |out| then out
    else FallbackBounded(out[index := source[index]], source, index + 1, stop)
  }

  /** Provenance of every output position from `index` on is sound:
      a corrected position holds the shifted value that matches the reference
      with its offset, an uncorrected one holds the +3-shifted copy. */
  predicate SoundFrom(p: seq<Sample>, r: seq<Sample>, values: seq<Sample>, prov: seq<Provenance>, index: nat)
    requires |p| == |r| == |values| == |prov|
  {
    forall j :: index <= j < |p| ==>
      if prov[j].Corrected? then
        MinShift <= prov[j].shift <= MaxShift && values[j] == Shift(p, prov[j].shift)[j] &&
        FloatEq(Plus(values[j], prov[j].offset), r[j])
      else values[j] == Shift(p, MaxShift)[j]
  }

  /** Position `j` carries on what `before` (the provenance of `j - 1`) began:
      a stretch whose shifted value still matches with its offset, or a
      fallback block of fewer than FallbackSpan positions so far. */
  predicate CarriesOn(p: seq<Sample>, r: seq<Sample>, before: Provenance, j: nat)
    requires |p| == |r| && j < |p|
  {
    match before
    case Corrected(k, d) => Matches(Shift(p, k), r, d, j)
    case Uncorrected(s) => j < s + FallbackSpan
  }

  /** The provenance a new candidate search gives position `j`: the first
      verified (shift, offset), or the start of a fallback block. */
  function Fresh(p: seq<Sample>, r: seq<Sample>, j: nat): Provenance
    requires |p| == |r| && j < |p|
  {
    match SearchShiftFixed(p, r, j, 0)
    case Some((k, d)) => Corrected(k, d)
    case None => Uncorrected(j)
  }

  /** The provenance the corrected loop gives position `j` after giving
      `before` to `j - 1`: it carries on what `j - 1` began, or else a new
      search decides. */
  function NextProvenance(p: seq<Sample>, r: seq<Sample>, before: Provenance, j: nat): Provenance
    requires |p| == |r| && j < |p|
  {
    if CarriesOn(p, r, before, j) then before else Fresh(p, r, j)
  }

  /** The provenance from `index` on is decided as the corrected loop does:
      a new search at `index`, then each position from the one before it. */
  predicate Decided(p: seq<Sample>, r: seq<Sample>, prov: seq<Provenance>, index: nat)
    requires |p| == |r| == |prov|
  {
    (index < |p| ==> prov[index] == Fresh(p, r, index)) &&
    forall i, j :: index <= i < |p| && j == i + 1 < |p| ==> prov[j] == NextProvenance(p, r, prov[i], j)
  }

  /** Every uncorrected position from `index` on lies in a fallback block of
      at most FallbackSpan positions, begun where no candidate verified. */
  predicate BlocksFailed(p: seq<Sample>, r: seq<Sample>, prov: seq<Provenance>, index: nat)
    requires |p| == |r| == |prov|
  {
    forall j :: index <= j < |p| && prov[j].Uncorrected? ==>
      index <= prov[j].from <= j < prov[j].from + FallbackSpan && prov[j].from < |p| &&
      SearchShiftFixed(p, r, prov[j].from, 0).None?
  }

  /** A stretch found at `index` and ending at `e`, followed by decided
      provenance from `e`, is decided from `index`. */
  lemma StretchDecided(p: seq<Sample>, r: seq<Sample>, prov: seq<Provenance>, index: nat, e: nat, k: int, d: int)
    requires |p| == |r| == |prov| && index < e <= |p|
    requires SearchShiftFixed(p, r, index, 0) == Some((k, d))
    requires Marked(prov, index, e, Corrected(k, d))
    requires forall j :: index <= j < e ==> Matches(Shift(p, k), r, d, j)
    requires e < |p| ==> !Matches(Shift(p, k), r, d, e)
    requires Decided(p, r, prov, e) && BlocksFailed(p, r, prov, e)
    ensures Decided(p, r, prov, index) && BlocksFailed(p, r, prov, index)
  {
    forall i, j | index <= i < |p| && j == i + 1 < |p|
      ensures prov[j] == NextProvenance(p, r, prov[i], j)
    {
      if j < e {
        assert prov[i] == prov[j] == Corrected(k, d);
      } else if j == e {
        assert prov[i] == Corrected(k, d);
      }
    }
  }

  /** A fallback block begun at `index`, followed by decided provenance from
      its end, is decided from `index`. */
  lemma BlockDecided(p: seq<Sample>, r: seq<Sample>, prov: seq<Provenance>, index: nat, stop: nat)
    requires |p| == |r| == |prov| && index < |p|
    requires stop == if index + FallbackSpan < |p| then index + FallbackSpan else |p|
    requires SearchShiftFixed(p, r, index, 0).None?
    requires Marked(prov, index, stop, Uncorrected(index))
    requires Decided(p, r, prov, stop) && BlocksFailed(p, r, prov, stop)
    ensures Decided(p, r, prov, index) && BlocksFailed(p, r, prov, index)
  {
    forall i, j | index <= i < |p| && j == i + 1 < |p|
      ensures prov[j] == NextProvenance(p, r, prov[i], j)
    {
      if j < stop {
        assert prov[i] == prov[j] == Uncorrected(index);
      } else if j == stop {
        assert prov[i] == Uncorrected(index);
      }
    }
  }

  /** Positions lo..hi-1 of `values` hold those of `source`. */
  predicate Copied(values: seq<Sample>, lo: nat, hi: nat, source: seq<Sample>) {
    hi <= |values| && hi <= |source| && forall j :: lo <= j < hi ==> values[j] == source[j]
  }

  /** Positions lo..hi-1 of `prov` are marked `mark`. */
  predicate Marked(prov: seq<Provenance>, lo: nat, hi: nat, mark: Provenance) {
    hi <= |prov| && forall j :: lo <= j < hi ==> prov[j] == mark
  }

  /** A stretch applied from `index` to `e`, followed by sound provenance
      from `e`, is sound from `index`. */
  lemma StretchSound(p: seq<Sample>, r: seq<Sample>, values: seq<Sample>, prov: seq<Provenance>, index: nat, e: nat, k: int, d: int)
    requires |p| == |r| == |values| == |prov| && index <= e <= |p| && MinShift <= k <= MaxShift
    requires Marked(prov, index, e, Corrected(k, d)) && Copied(values, index, e, Shift(p, k))
    requires forall j :: index <= j < e ==> Matches(Shift(p, k), r, d, j)
    requires SoundFrom(p, r, values, prov, e)
    ensures SoundFrom(p, r, values, prov, index)
  {
    forall j | index <= j < e
      ensures FloatEq(Plus(values[j], d), r[j])
    {
      assert Matches(Shift(p, k), r, d, j);
      assert values[j] == Shift(p, k)[j];
    }
  }

  /** A fallback block copied from `index` to `stop`, followed by sound
      provenance from `stop`, is sound from `index`. */
  lemma BlockSound(p: seq<Sample>, r: seq<Sample>, values: seq<Sample>, prov: seq<Provenance>, index: nat, stop: nat)
    requires |p| == |r| == |values| == |prov| && index <= stop <= |p|
    requires Marked(prov, index, stop, Uncorrected(index)) && Copied(values, index, stop, Shift(p, MaxShift))
    requires SoundFrom(p, r, values, prov, stop)
    ensures SoundFrom(p, r, values, prov, index)
  {
  }

  /** The outer loop with the three defects corrected; it always returns. */
  function DeshiftFixed(p: seq<Sample>, r: seq<Sample>, out: seq<Sample>, prov: seq<Provenance>, index: nat): (res: (seq<Sample>, seq<Provenance>))
    requires |p| == |r| == |out| == |prov| && index <= |p|
    ensures |res.0| == |p| && |res.1| == |p|
    ensures Keeps(res, out, prov, index)
    ensures SoundFrom(p, r, res.0, res.1, index)
    ensures Decided(p, r, res.1, index) && BlocksFailed(p, r, res.1, index)
    decreases |p| - index
  {
    if index >= |p| then (out, prov)
    else
      match SearchShiftFixed(p, r, index, 0)
      case Some((k, d)) =>
        var shifted := Shift(p, k);
        assert Matches(shifted, r, d, index);
        var (written, e) := ApplyStretchFixed(shifted, r, out, index, d);
        var marked := MarkRange(prov, index, e, Corrected(k, d));
        StretchStep(shifted, r, out, prov, index, d, Corrected(k, d));
        var res := DeshiftFixed(p, r, written, marked, e);
        StretchCase(p, r, out, prov, index, k, d, e, (written, marked), res);
        res
      case None =>
        var stop := if index + FallbackSpan < |p| then index + FallbackSpan else |p|;
        var filled := FallbackBounded(out, Shift(p, MaxShift), index, stop);
        var marked := MarkRange(prov, index, stop, Uncorrected(index));
        FallbackStep(out, prov, Shift(p, MaxShift), index, stop, Uncorrected(index));
        var res := DeshiftFixed(p, r, filled, marked, stop);
        BlockCase(p, r, out, prov, index, stop, (filled, marked), res);
        res
  }

  /** The result agrees with `out` and `prov` before `index`. */
  predicate Keeps(res: (seq<Sample>, seq<Provenance>), out: seq<Sample>, prov: seq<Provenance>, index: nat) {
    index <= |res.0| && index <= |res.1| && index <= |out| && index <= |prov| &&
    forall j :: 0 <= j < index ==> res.0[j] == out[j] && res.1[j] == prov[j]
  }

  /** Agreement before `hi` with a state that agrees with another before
      `lo <= hi` is agreement with that other before `lo`. */
  lemma KeepsTrans(res: (seq<Sample>, seq<Provenance>), mid: (seq<Sample>, seq<Provenance>), out: seq<Sample>, prov: seq<Provenance>, lo: nat, hi: nat)
    requires lo <= hi && Keeps(res, mid.0, mid.1, hi) && Keeps(mid, out, prov, lo)
    ensures Keeps(res, out, prov, lo)
  {
  }

  /** A result that keeps a state before `hi` keeps its copied values and
      marks of lo..hi-1. */
  lemma RangeKept(res: (seq<Sample>, seq<Provenance>), mid: (seq<Sample>, seq<Provenance>), lo: nat, hi: nat,
                  source: seq<Sample>, mark: Provenance)
    requires Keeps(res, mid.0, mid.1, hi) && Copied(mid.0, lo, hi, source) && Marked(mid.1, lo, hi, mark)
    ensures Copied(res.0, lo, hi, source) && Marked(res.1, lo, hi, mark)
  {
    assert forall j :: lo <= j < hi ==> res.0[j] == mid.0[j] && res.1[j] == mid.1[j];
  }

  /** The corrected fallback block copies `source` into index..stop-1, marks
      it, and changes nothing before `index`. */
  lemma FallbackStep(out: seq<Sample>, prov: seq<Provenance>, source: seq<Sample>, index: nat, stop: nat, mark: Provenance)
    requires |source| == |out| == |prov| && index <= stop <= |out|
    ensures var mid := (FallbackBounded(out, source, index, stop), MarkRange(prov, index, stop, mark));
            Keeps(mid, out, prov, index) && Copied(mid.0, index, stop, source) && Marked(mid.1, index, stop, mark)
  {
  }

  /** The corrected stretch copies the shifted values into index..e-1, which
      the mark covers, and changes nothing before `index`. */
  lemma StretchStep(shifted: seq<Sample>, r: seq<Sample>, out: seq<Sample>, prov: seq<Provenance>, index: nat, d: int, mark: Provenance)
    requires |shifted| == |r| == |out| == |prov| && index <= |shifted|
    ensures var (written, e) := ApplyStretchFixed(shifted, r, out, index, d);
            var mid := (written, MarkRange(prov, index, e, mark));
            Keeps(mid, out, prov, index) && Copied(written, index, e, shifted) && Marked(mid.1, index, e, mark)
  {
  }

  /** The stretch branch of `DeshiftFixed`: the recursive result from the end
      of the stretch gives every property from `index`. */
  lemma StretchCase(p: seq<Sample>, r: seq<Sample>, out: seq<Sample>, prov: seq<Provenance>, index: nat, k: int, d: int,
                    e: nat, mid: (seq<Sample>, seq<Provenance>), res: (seq<Sample>, seq<Provenance>))
    requires |p| == |r| == |out| == |prov| && index < e <= |p|
    requires SearchShiftFixed(p, r, index, 0) == Some((k, d))
    requires forall j :: index <= j < e ==> Matches(Shift(p, k), r, d, j)
    requires e < |p| ==> !Matches(Shift(p, k), r, d, e)
    requires Keeps(mid, out, prov, index) && Copied(mid.0, index, e, Shift(p, k)) && Marked(mid.1, index, e, Corrected(k, d))
    requires |res.0| == |p| && |res.1| == |p| && Keeps(res, mid.0, mid.1, e)
    requires SoundFrom(p, r, res.0, res.1, e) && Decided(p, r, res.1, e) && BlocksFailed(p, r, res.1, e)
    ensures Keeps(res, out, prov, index)
    ensures SoundFrom(p, r, res.0, res.1, index) && Decided(p, r, res.1, index) && BlocksFailed(p, r, res.1, index)
  {
    KeepsTrans(res, mid, out, prov, index, e);
    RangeKept(res, mid, index, e, Shift(p, k), Corrected(k, d));
    StretchSound(p, r, res.0, res.1, index, e, k, d);
    StretchDecided(p, r, res.1, index, e, k, d);
  }

  /** The fallback branch of `DeshiftFixed`: the recursive result from the
      end of the block gives every property from `index`. */
  lemma BlockCase(p: seq<Sample>, r: seq<Sample>, out: seq<Sample>, prov: seq<Provenance>, index: nat, stop: nat,
                  mid: (seq<Sample>, seq<Provenance>), res: (seq<Sample>, seq<Provenance>))
    requires |p| == |r| == |out| == |prov| && index < |p|
    requires SearchShiftFixed(p, r, index, 0).None?
    requires stop == if index + FallbackSpan < |p| then index + FallbackSpan else |p|
    requires Keeps(mid, out, prov, index) && Copied(mid.0, index, stop, Shift(p, MaxShift)) && Marked(mid.1, index, stop, Uncorrected(index))
    requires |res.0| == |p| && |res.1| == |p| && Keeps(res, mid.0, mid.1, stop)
    requires SoundFrom(p, r, res.0, res.1, stop) && Decided(p, r, res.1, stop) && BlocksFailed(p, r, res.1, stop)
    ensures Keeps(res, out, prov, index)
    ensures SoundFrom(p, r, res.0, res.1, index) && Decided(p, r, res.1, index) && BlocksFailed(p, r, res.1, index)
  {
    KeepsTrans(res, mid, out, prov, index, stop);
    RangeKept(res, mid, index, stop, Shift(p, MaxShift), Uncorrected(index));
    BlockSound(p, r, res.0, res.1, index, stop);
    BlockDecided(p, r, res.1, index, stop);
  }

  function MarkRange(prov: seq<Provenance>, lo: nat, hi: nat, mark: Provenance): (o: seq<Provenance>)
    ensures |o| == |prov|
    ensures forall j :: 0 <= j < |prov| ==> o[j] == if lo <= j < hi then mark else prov[j]
  {
    seq(|prov|, j requires 0 <= j < |prov| => if lo <= j < hi then mark else prov[j])
  }

  /** temporal_deshifter as evidently intended: the de-shifted series and the provenance of each position. */
  function TemporalDeshifterFixed(p: seq<Sample>, r: seq<Sample>): (res: (seq<Sample>, seq<Provenance>))
    requires |p| == |r|
    ensures |res.0| == |p| && |res.1| == |p|
    ensures SoundFrom(p, r, res.0, res.1, 0)
    ensures Decided(p, r, res.1, 0) && BlocksFailed(p, r, res.1, 0)
  {
    DeshiftFixed(p, r, p, seq(|p|, _ => Uncorrected(0)), 0)
  }

  /** On one sample equal to the reference, no candidate verifies (the window
      runs past the end), the fallback block covers the whole series, and the
      corrected loop ends there instead of searching at `index == size`. */
  lemma SingleSampleFixed()
    ensures TemporalDeshifterFixed([Some(0)], [Some(0)]) == ([None], [Uncorrected(0)])
  {
    var p: seq<Sample> := [Some(0)];
    var prov := seq(1, _ => Uncorrected(0));
    assert SearchShiftFixed(p, p, 0, 0) == None;
    assert Shift(p, MaxShift)[0] == None;
    var filled := FallbackBounded(p, Shift(p, MaxShift), 0, 1);
    var marked := MarkRange(prov, 0, 1, Uncorrected(0));
    assert filled == [None] && marked == [Uncorrected(0)];
    assert DeshiftFixed(p, p, filled, marked, 1) == (filled, marked);
    assert DeshiftFixed(p, p, p, prov, 0) == DeshiftFixed(p, p, filled, marked, 1);
  }

  /** Two provenance sequences decided from `index` agree at every position
      from `index` on. */
  lemma {:induction false} DecidedAgree(p: seq<Sample>, r: seq<Sample>, a: seq<Provenance>, b: seq<Provenance>, index: nat, j: nat)
    requires |p| == |r| == |a| == |b| && index <= j < |p|
    requires Decided(p, r, a, index) && Decided(p, r, b, index)
    ensures a[j] == b[j]
    decreases j
  {
    if j > index {
      DecidedAgree(p, r, a, b, index, j - 1);
      assert a[j] == NextProvenance(p, r, a[j - 1], j);
      assert b[j] == NextProvenance(p, r, b[j - 1], j);
    }
  }

  /** The corrected loop's result is the only one that is sound and decided:
      any series and provenance with those properties are exactly what
      `TemporalDeshifterFixed` returns. */
  lemma DeshiftedIsUnique(p: seq<Sample>, r: seq<Sample>, values: seq<Sample>, prov: seq<Provenance>)
    requires |p| == |r| == |values| == |prov|
    requires SoundFrom(p, r, values, prov, 0) && Decided(p, r, prov, 0)
    ensures TemporalDeshifterFixed(p, r) == (values, prov)
  {
    var res := TemporalDeshifterFixed(p, r);
    forall j | 0 <= j < |p|
      ensures res.1[j] == prov[j] && res.0[j] == values[j]
    {
      DecidedAgree(p, r, res.1, prov, 0, j);
    }
    assert res.1 == prov;
    assert res.0 == values;
  }

  // ---------------------------------------------------------------------------
  // Witnesses of the three defects
  // ---------------------------------------------------------------------------

  /** Write after increment: when a stretch stops before the end, the matched
      start keeps its old value and the first position that does NOT match
      receives the shifted value. */
  lemma StretchWritesMismatch(shifted: seq<Sample>, r: seq<Sample>, out: seq<Sample>, index: nat, d: int)
    requires |shifted| == |r| == |out| && index < |shifted|
    requires ApplyStretch(shifted, r, out, index, d).Done?
    ensures var (written, e) := ApplyStretch(shifted, r, out, index, d).value;
            e < |shifted| && !Matches(shifted, r, d, e) && written[index] == out[index] &&
            (index < e ==> written[e] == shifted[e])
  {
  }

  /** Three samples whose first two match with offset 0: as written the
      matched first sample is left alone and the mismatching third one is
      copied; the corrected loop copies exactly the two matched samples. */
  lemma StretchOffByOne()
    ensures var shifted, r, out := [Some(0), Some(0), Some(5)], [Some(0), Some(0), Some(0)], [None, None, None];
            ApplyStretch(shifted, r, out, 0, 0) == Done(([None, Some(0), Some(5)], 2)) &&
            ApplyStretchFixed(shifted, r, out, 0, 0) == ([Some(0), Some(0), None], 2)
  {
    var shifted, r, out := [Some(0), Some(0), Some(5)], [Some(0), Some(0), Some(0)], [None, None, None];
    assert Matches(shifted, r, 0, 0) && Matches(shifted, r, 0, 1) && !Matches(shifted, r, 0, 2);
    assert out[1 := shifted[1]][2 := shifted[2]] == [None, Some(0), Some(5)];
    assert out[0 := shifted[0]][1 := shifted[1]] == [Some(0), Some(0), None];
  }

  /** A stretch matching to the last sample: as written the write lands at
      index `size` and raises IndexError; the corrected loop ends at the end. */
  lemma StretchToEndRaises()
    ensures ApplyStretch([Some(0)], [Some(0)], [None], 0, 0) == Raised(IndexError)
    ensures ApplyStretchFixed([Some(0)], [Some(0)], [None], 0, 0) == ([Some(0)], 1)
  {
    assert Matches([Some(0)], [Some(0)], 0, 0);
    assert [None][0 := Some(0)] == [Some(0)];
  }

  /** Always-true guard: once every candidate fails at `index`, the fallback
      copies to the end and the next identify_offset reads position `size`. */
  lemma {:induction false} ExhaustedRaises(p: seq<Sample>, r: seq<Sample>, out: seq<Sample>, index: nat)
    requires |p| == |r| == |out| && index < |p|
    requires SearchShift(p, r, index).Exhausted?
    ensures Deshift(p, r, out, index) == Raised(IndexError)
  {
    var filled := Fallback(out, Shift(p, MaxShift), index);
    assert Probe(p, r, |filled|, MinShift) == Raised(IndexError);
  }

  /** A single sample: no window of 10 fits, every candidate returns NaN, and
      temporal_deshifter raises IndexError instead of returning. */
  lemma SingleSampleRaises()
    ensures TemporalDeshifter([Some(0)], [Some(0)]) == Raised(IndexError)
  {
    var p, r := [Some(0)], [Some(0)];
    forall k | MinShift <= k <= MaxShift
      ensures Probe(p, r, 0, k) == Done(None)
    {
      assert |Shift(p, k)| == 1;
    }
    assert SearchShift(p, r, 0).Exhausted?;
    ExhaustedRaises(p, r, p, 0);
  }

  /** NaN anchor: with two equal samples the first candidate (-3) shifts every
      value out, identify_offset is anchored at NaN and never returns. */
  lemma EqualPairHangs()
    ensures TemporalDeshifter([Some(0), Some(0)], [Some(0), Some(0)]) == Hangs
  {
    var p, r := [Some(0), Some(0)], [Some(0), Some(0)];
    assert Shift(p, MinShift)[0] == None;
    assert Probe(p, r, 0, MinShift) == Hangs;
  }
}
