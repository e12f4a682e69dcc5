/** Offset verification and correction: `identify_offset` and `process_offsets`
    of TransformData.py and of the older file_data_functions.py.

    Both work on a primary column `p` and a reference column `r` of the same
    length; the source's `size` argument is always the column length.
 */
module Offsets {
  import opened Values

  /** Window of TransformData.identify_offset when no duration is passed:
      the default `number_of_intervals` of the constructor. */
  const DefaultWindow: nat := 0

  /** Default `duration` of file_data_functions.identify_offset. */
  const LegacyWindow: nat := 240

  /** Every discrepancy in positions lo..hi (inclusive) is present and equal to `d`. */
  predicate Agrees(p: seq<Sample>, r: seq<Sample>, lo: nat, hi: nat, d: int)
    requires |p| == |r|
  {
    hi < |p| && forall j :: lo <= j <= hi ==> Disc(r[j], p[j]) == Some(d)
  }

  // ---------------------------------------------------------------------------
  // TransformData.identify_offset
  // ---------------------------------------------------------------------------

  /** The `while f_loop < index + duration` loop of TransformData.identify_offset,
      entered with cursor `f`. The gap test looks at position `f` and never
      advances the cursor, so a gap there makes the loop spin forever. */
  function ScanWindow(p: seq<Sample>, r: seq<Sample>, index: nat, stop: nat, d: Sample, f: nat): (o: Outcome<Sample>)
    requires |p| == |r|
    requires index <= f <= stop && f < |p|
    requires d == Disc(r[index], p[index])
    requires forall j :: index < j <= f ==> FloatEq(Disc(r[j], p[j]), d)
    ensures !o.Raised?
    ensures o.Hangs? <==> f < stop && f + 1 < |p| && (p[f].None? || r[f].None?)
    ensures o.Done? && o.value.Some? ==> o.value == d && stop < |p| && forall j :: f <= j <= stop ==> Disc(r[j], p[j]) == d
    ensures d.Some? && stop < |p| && (forall j :: f <= j <= stop ==> Disc(r[j], p[j]) == d) ==> o == Done(d)
    decreases stop - f
  {
    if f >= stop then
      assert f == index || FloatEq(Disc(r[f], p[f]), d);
      Done(d)
    else if f + 1 >= |p| then Done(None)
    else if p[f].None? || r[f].None? then Hangs
    else if !FloatEq(Disc(r[f + 1], p[f + 1]), d) then Done(None)
    else ScanWindow(p, r, index, stop, d, f + 1)
  }

  /** TransformData.identify_offset(offset_column=p, reference_column=r, index, size, duration).
      `Done(Some(d))` is a verified offset, `Done(None)` is NaN. */
  function IdentifyOffset(p: seq<Sample>, r: seq<Sample>, index: nat, duration: nat): (o: Outcome<Sample>)
    requires |p| == |r|
    ensures o == Raised(IndexError) <==> index >= |p|
    ensures o.Raised? ==> o.error == IndexError
    ensures o.Hangs? <==> index < |p| && 1 <= duration && index + 1 < |p| && (p[index].None? || r[index].None?)
    ensures index < |p| && duration == 0 ==> o == Done(Disc(r[index], p[index]))
    ensures o.Done? && o.value.Some? ==>
              index + duration < |p| && Agrees(p, r, index, index + duration, o.value.value)
    ensures index < |p| && Disc(r[index], p[index]).Some? && Agrees(p, r, index, index + duration, Disc(r[index], p[index]).value) ==>
              o == Done(Disc(r[index], p[index]))
    ensures index < |p| && p[index].Some? && r[index].Some? && 1 <= duration && |p| <= index + duration ==>
              o == Done(None)
    ensures index < |p| && p[index].Some? && r[index].Some? &&
            (exists j :: index < j <= index + duration && j < |p| && (p[j].None? || r[j].None?)) ==>
              o == Done(None)
  {
    if index >= |p| then Raised(IndexError)
    else ScanWindow(p, r, index, index + duration, Disc(r[index], p[index]), index)
  }

  // ---------------------------------------------------------------------------
  // The NaN skip as evidently intended: advance past the gap.
  // ---------------------------------------------------------------------------

  /** ScanWindow with the gap branch advancing the cursor (`f_loop += 1` before `continue`). */
  function ScanWindowSkippingGaps(p: seq<Sample>, r: seq<Sample>, index: nat, stop: nat, d: Sample, f: nat): (o: Sample)
    requires |p| == |r|
    requires index <= f <= stop && f < |p|
    requires d == Disc(r[index], p[index])
    requires d.Some? ==> forall j :: index <= j <= f ==> Disc(r[j], p[j]) == d
    ensures o.Some? ==> o == d && stop < |p| && forall j :: f <= j <= stop ==> Disc(r[j], p[j]) == d
    ensures d.Some? && stop < |p| && (forall j :: f <= j <= stop ==> Disc(r[j], p[j]) == d) ==> o == d
    decreases stop - f
  {
    if f >= stop then d
    else if f + 1 >= |p| then None
    else if p[f].None? || r[f].None? then ScanWindowSkippingGaps(p, r, index, stop, d, f + 1)
    else if !FloatEq(Disc(r[f + 1], p[f + 1]), d) then None
    else ScanWindowSkippingGaps(p, r, index, stop, d, f + 1)
  }

  /** identify_offset with the gap skip advancing: it always returns, and a
      non-NaN result is still a verified window. */
  function IdentifyOffsetSkippingGaps(p: seq<Sample>, r: seq<Sample>, index: nat, duration: nat): (o: Sample)
    requires |p| == |r| && index < |p|
    ensures o.Some? ==> o == Disc(r[index], p[index]) && Agrees(p, r, index, index + duration, o.value)
    ensures Disc(r[index], p[index]).Some? && Agrees(p, r, index, index + duration, Disc(r[index], p[index]).value) ==>
              o == Disc(r[index], p[index])
  {
    ScanWindowSkippingGaps(p, r, index, index + duration, Disc(r[index], p[index]), index)
  }

  /** A NaN anchor with a window of one: as written identify_offset never
      returns; advancing past the gap returns NaN. */
  lemma NaNAnchorHangs()
    ensures IdentifyOffset([None, Some(0)], [Some(0), Some(0)], 0, 1) == Hangs
    ensures IdentifyOffsetSkippingGaps([None, Some(0)], [Some(0), Some(0)], 0, 1) == None
  {
  }

  /** The corrected scan advances past a gap at the cursor but still compares
      the next position, so a gap inside the window rejects the offset:
      primary [0, NaN, 0] against reference [0, 0, 0] over two intervals. */
  lemma GapInWindowRejected()
    ensures IdentifyOffsetSkippingGaps([Some(0), None, Some(0)], [Some(0), Some(0), Some(0)], 0, 2) == None
    ensures IdentifyOffset([Some(0), None, Some(0)], [Some(0), Some(0), Some(0)], 0, 2) == Done(None)
  {
  }

  /** With the gap skip advancing, a NaN anchor always yields NaN. */
  lemma SkippingGapsNaNAnchor(p: seq<Sample>, r: seq<Sample>, index: nat, duration: nat)
    requires |p| == |r| && index < |p| && (p[index].None? || r[index].None?)
    ensures IdentifyOffsetSkippingGaps(p, r, index, duration) == None
  {
  }

  // ---------------------------------------------------------------------------
  // file_data_functions.identify_offset
  // ---------------------------------------------------------------------------

  /** The `for loop in range(index, index + duration)` loop of
      file_data_functions.identify_offset; returns the final `is_offset`. */
  function ScanLegacy(p: seq<Sample>, r: seq<Sample>, index: nat, stop: nat, d: Sample, loop: nat, isOffset: bool): (b: bool)
    requires |p| == |r|
    requires index <= loop < |p|
    requires d == Disc(r[index], p[index])
    requires d.Some? ==> forall j :: index <= j <= loop ==> Disc(r[j], p[j]) == d
    requires isOffset ==> d.Some? && d.value != 0
    ensures b ==> d.Some? && d.value != 0 && stop < |p| && forall j :: loop <= j <= stop ==> Disc(r[j], p[j]) == d
    ensures d.Some? && d.value != 0 && loop < stop && stop < |p| && (forall j :: loop <= j <= stop ==> Disc(r[j], p[j]) == d) ==> b
    decreases stop - loop
  {
    if loop >= stop then isOffset
    else if loop + 1 >= |p| then false
    else if p[loop].None? then ScanLegacy(p, r, index, stop, d, loop + 1, isOffset)
    else
      var current := Disc(r[loop + 1], p[loop + 1]);
      if FloatEq(current, Some(0)) then false
      else if FloatEq(current, d) then ScanLegacy(p, r, index, stop, d, loop + 1, true)
      else false
  }

  /** file_data_functions.identify_offset(offset_column=p, reference_column=r, index, size, duration). */
  function IdentifyOffsetLegacy(p: seq<Sample>, r: seq<Sample>, index: nat, duration: nat): (o: Outcome<Sample>)
    requires |p| == |r|
    ensures o.Raised? <==> index >= |p|
    ensures o.Raised? ==> o.error == IndexError
    ensures !o.Hangs?
    ensures o.Done? && o.value.Some? ==> o.value.value != 0
    ensures duration == 0 && o.Done? ==> o.value.None?
    ensures o.Done? && o.value.Some? ==>
              o.value == Disc(r[index], p[index]) && Agrees(p, r, index, index + duration, o.value.value)
    ensures index < |p| && 1 <= duration && Disc(r[index], p[index]).Some? && Disc(r[index], p[index]).value != 0 &&
            Agrees(p, r, index, index + duration, Disc(r[index], p[index]).value) ==>
              o == Done(Disc(r[index], p[index]))
  {
    if index >= |p| then Raised(IndexError)
    else
      var d := Disc(r[index], p[index]);
      if ScanLegacy(p, r, index, index + duration, d, index, false) then Done(d) else Done(None)
  }

  // ---------------------------------------------------------------------------
  // process_offsets (identical loop in both files)
  // ---------------------------------------------------------------------------

  /** Which identify_offset a process_offsets loop calls, with its window. */
  datatype Verifier =
    | Current(window: nat)   // TransformData.process_offsets, duration=criteria
    | Legacy(window: nat)    // file_data_functions.process_offsets, default 240

  /** The offset a process_offsets loop obtains at `index`, whose anchor pair is present. */
  function Verify(v: Verifier, p: seq<Sample>, r: seq<Sample>, index: nat): (d: Sample)
    requires |p| == |r| && index < |p|
    requires p[index].Some? && r[index].Some?
    ensures d.Some? ==> d == Disc(r[index], p[index])
    ensures d.Some? ==> Agrees(p, r, index, index + v.window, d.value)
    ensures Agrees(p, r, index, index + v.window, Disc(r[index], p[index]).value) &&
            (v.Legacy? ==> 1 <= v.window && Disc(r[index], p[index]).value != 0) ==>
              d == Disc(r[index], p[index])
  {
    match v
    case Current(w) => IdentifyOffset(p, r, index, w).value
    case Legacy(w) => IdentifyOffsetLegacy(p, r, index, w).value
  }

  /** `p` and `q` hold the same values from position `i` on. */
  predicate SameFrom(p: seq<Sample>, q: seq<Sample>, i: nat) {
    |p| == |q| && forall j :: i <= j < |p| ==> p[j] == q[j]
  }

  /** TransformData's window scan reads the primary column only from the anchor on. */
  lemma {:induction false} ScanWindowSameFrom(p: seq<Sample>, q: seq<Sample>, r: seq<Sample>, index: nat, stop: nat, d: Sample, f: nat)
    requires |p| == |r| && SameFrom(p, q, index)
    requires index <= f <= stop && f < |p|
    requires d == Disc(r[index], p[index])
    requires forall j :: index < j <= f ==> FloatEq(Disc(r[j], p[j]), d)
    ensures ScanWindow(p, r, index, stop, d, f) == ScanWindow(q, r, index, stop, d, f)
    decreases stop - f
  {
    assert p[f] == q[f];
    if f < stop && f + 1 < |p| && p[f].Some? && r[f].Some? {
      assert p[f + 1] == q[f + 1];
      if FloatEq(Disc(r[f + 1], p[f + 1]), d) {
        ScanWindowSameFrom(p, q, r, index, stop, d, f + 1);
      }
    }
  }

  /** file_data_functions' window scan reads the primary column only from the anchor on. */
  lemma {:induction false} ScanLegacySameFrom(p: seq<Sample>, q: seq<Sample>, r: seq<Sample>, index: nat, stop: nat, d: Sample, loop: nat, isOffset: bool)
    requires |p| == |r| && SameFrom(p, q, index)
    requires index <= loop < |p|
    requires d == Disc(r[index], p[index])
    requires d.Some? ==> forall j :: index <= j <= loop ==> Disc(r[j], p[j]) == d
    requires isOffset ==> d.Some? && d.value != 0
    ensures ScanLegacy(p, r, index, stop, d, loop, isOffset) == ScanLegacy(q, r, index, stop, d, loop, isOffset)
    decreases stop - loop
  {
    assert p[loop] == q[loop];
    if loop < stop && loop + 1 < |p| {
      assert p[loop + 1] == q[loop + 1];
      if p[loop].None? {
        ScanLegacySameFrom(p, q, r, index, stop, d, loop + 1, isOffset);
      } else if !FloatEq(Disc(r[loop + 1], p[loop + 1]), Some(0)) && FloatEq(Disc(r[loop + 1], p[loop + 1]), d) {
        ScanLegacySameFrom(p, q, r, index, stop, d, loop + 1, true);
      }
    }
  }

  /** The offset verified at `index` depends on the primary column only from
      `index` on, so corrections written before it do not change it. */
  lemma VerifySameFrom(v: Verifier, p: seq<Sample>, q: seq<Sample>, r: seq<Sample>, index: nat)
    requires |p| == |r| && SameFrom(p, q, index) && index < |p|
    requires p[index].Some? && r[index].Some?
    ensures q[index] == p[index]
    ensures Verify(v, p, r, index) == Verify(v, q, r, index)
  {
    assert q[index] == p[index];
    var d := Disc(r[index], p[index]);
    match v
    case Current(w) =>
      ScanWindowSameFrom(p, q, r, index, index + w, d, index);
    case Legacy(w) =>
      ScanLegacySameFrom(p, q, r, index, index + w, d, index, false);
  }

  /** The offset process_offsets records at position `i` of the input, given
      the one recorded just before (`None` at the start): the running
      correction while it still brings `p[i]` onto `r[i]`, otherwise a newly
      verified offset, and NaN at a gap or where none verifies. */
  function Next(v: Verifier, p: seq<Sample>, r: seq<Sample>, i: nat, prev: Sample): Sample
    requires |p| == |r| && i < |p|
  {
    if prev.Some? && FloatEq(Plus(p[i], prev.value), r[i]) then prev
    else if p[i].None? || r[i].None? then None
    else Verify(v, p, r, i)
  }

  /** The entry before `k` in `offsets`, `None` at the start. */
  function Before(offsets: seq<Sample>, k: nat): Sample
    requires k <= |offsets|
  {
    if k == 0 then None else offsets[k - 1]
  }

  /** Every entry of `offsets`, recorded for the positions from `start` on, is
      the one `Next` gives. */
  predicate Recorded(v: Verifier, p: seq<Sample>, r: seq<Sample>, start: nat, offsets: seq<Sample>)
    requires |p| == |r|
  {
    start + |offsets| <= |p| &&
    forall k {:trigger Before(offsets, k)} :: 0 <= k < |offsets| ==> offsets[k] == Next(v, p, r, start + k, Before(offsets, k))
  }

  /** `q` is `p` with the recorded offsets added: each offset brings its value
      onto the reference, and every other position is unchanged. */
  predicate Applied(p: seq<Sample>, r: seq<Sample>, q: seq<Sample>, start: nat, offsets: seq<Sample>) {
    |q| == |p| == |r| && start + |offsets| <= |p| &&
    (forall i :: 0 <= i < |p| && (i < start || start + |offsets| <= i) ==> q[i] == p[i]) &&
    (forall k :: 0 <= k < |offsets| && offsets[k].Some? ==>
       var i := start + k;
       p[i].Some? && r[i].Some? && q[i] == Plus(p[i], offsets[k].value) && q[i] == r[i]) &&
    (forall k :: 0 <= k < |offsets| && offsets[k].None? ==> q[start + k] == p[start + k]) &&
    (forall k :: 0 <= k < |offsets| && (p[start + k].None? || r[start + k].None?) ==> offsets[k].None?)
  }

  /** Recording at the next position the entry `Next` gives keeps `Recorded`. */
  lemma RecordNext(v: Verifier, p: seq<Sample>, r: seq<Sample>, start: nat, offsets: seq<Sample>, o: Sample)
    requires |p| == |r| && Recorded(v, p, r, start, offsets)
    requires start + |offsets| < |p|
    requires o == Next(v, p, r, start + |offsets|, Before(offsets, |offsets|))
    ensures Recorded(v, p, r, start, offsets + [o])
  {
    var os := offsets + [o];
    forall k | 0 <= k < |os|
      ensures os[k] == Next(v, p, r, start + k, Before(os, k))
    {
      if k < |offsets| {
        assert os[k] == offsets[k] && Before(os, k) == Before(offsets, k);
      } else {
        assert os[k] == o && Before(os, k) == Before(offsets, |offsets|);
      }
    }
  }

  /** Recording NaN at the next position keeps both invariants. */
  lemma AppendNone(v: Verifier, p: seq<Sample>, r: seq<Sample>, q: seq<Sample>, start: nat, offsets: seq<Sample>)
    requires |p| == |r| && Recorded(v, p, r, start, offsets) && Applied(p, r, q, start, offsets)
    requires start + |offsets| < |p|
    requires Next(v, p, r, start + |offsets|, Before(offsets, |offsets|)) == None
    ensures Recorded(v, p, r, start, offsets + [None]) && Applied(p, r, q, start, offsets + [None])
  {
    RecordNext(v, p, r, start, offsets, None);
  }

  /** Recording offset `d` at the next position, and adding it there, keeps
      both invariants. */
  lemma AppendSome(v: Verifier, p: seq<Sample>, r: seq<Sample>, q: seq<Sample>, start: nat, offsets: seq<Sample>, d: int)
    requires |p| == |r| && Recorded(v, p, r, start, offsets) && Applied(p, r, q, start, offsets)
    requires start + |offsets| < |p|
    requires Next(v, p, r, start + |offsets|, Before(offsets, |offsets|)) == Some(d)
    requires FloatEq(Plus(q[start + |offsets|], d), r[start + |offsets|])
    ensures Recorded(v, p, r, start, offsets + [Some(d)])
    ensures Applied(p, r, q[start + |offsets| := Plus(q[start + |offsets|], d)], start, offsets + [Some(d)])
  {
    RecordNext(v, p, r, start, offsets, Some(d));
    AppliedSome(p, r, q, start, offsets, d);
  }

  /** Adding `d` at the next position, where it brings the value onto the
      reference, keeps `Applied`. */
  lemma AppliedSome(p: seq<Sample>, r: seq<Sample>, q: seq<Sample>, start: nat, offsets: seq<Sample>, d: int)
    requires Applied(p, r, q, start, offsets) && start + |offsets| < |p|
    requires FloatEq(Plus(q[start + |offsets|], d), r[start + |offsets|])
    ensures Applied(p, r, q[start + |offsets| := Plus(q[start + |offsets|], d)], start, offsets + [Some(d)])
  {
    var i := start + |offsets|;
    var q' := q[i := Plus(q[i], d)];
    var os := offsets + [Some(d)];
    assert q[i] == p[i];
    forall k | 0 <= k < |os| && os[k].Some?
      ensures p[start + k].Some? && r[start + k].Some? && q'[start + k] == Plus(p[start + k], os[k].value) && q'[start + k] == r[start + k]
    {
      if k < |offsets| {
        assert os[k] == offsets[k];
      }
    }
    forall k | 0 <= k < |os| && os[k].None?
      ensures q'[start + k] == p[start + k]
    {
      assert k < |offsets| && os[k] == offsets[k];
    }
    forall k | 0 <= k < |os| && (p[start + k].None? || r[start + k].None?)
      ensures os[k].None?
    {
      if k < |offsets| {
        assert os[k] == offsets[k];
      }
    }
  }

  /** The inner `while` of process_offsets: adds `offset` from `index` on while
      it still brings the value onto the reference. */
  method Stretch(v: Verifier, p: seq<Sample>, r: seq<Sample>, start: nat, q0: seq<Sample>, offsets0: seq<Sample>, offset: int)
    returns (q: seq<Sample>, offsets: seq<Sample>)
    requires |p| == |r| && Recorded(v, p, r, start, offsets0) && Applied(p, r, q0, start, offsets0)
    requires start + |offsets0| < |p|
    requires Next(v, p, r, start + |offsets0|, Before(offsets0, |offsets0|)) == Some(offset)
    ensures Recorded(v, p, r, start, offsets) && Applied(p, r, q, start, offsets)
    ensures |offsets0| < |offsets|
    ensures StretchEnded(p, r, start, offsets)
  {
    var index := start + |offsets0|;
    AppendSome(v, p, r, q0, start, offsets0, offset);
    q := q0[index := Plus(q0[index], offset)];
    offsets := offsets0 + [Some(offset)];
    index := index + 1;
    while index < |p|
      invariant Recorded(v, p, r, start, offsets) && Applied(p, r, q, start, offsets)
      invariant index == start + |offsets| && |offsets0| < |offsets|
      invariant Before(offsets, |offsets|) == Some(offset)
      decreases |p| - index
    {
      PositionUntouched(p, r, q, start, offsets);
      if FloatEq(Plus(q[index], offset), r[index]) {
        StretchGoesOn(v, p, r, start, offsets, offset);
        AppendSome(v, p, r, q, start, offsets, offset);
        q := q[index := Plus(q[index], offset)];
        offsets := offsets + [Some(offset)];
        index := index + 1;
      } else {
        break;
      }
    }
  }

  /** The next position of a partial run has not been written yet. */
  lemma PositionUntouched(p: seq<Sample>, r: seq<Sample>, q: seq<Sample>, start: nat, offsets: seq<Sample>)
    requires Applied(p, r, q, start, offsets) && start + |offsets| < |p|
    ensures q[start + |offsets|] == p[start + |offsets|]
  {
  }

  /** While the running offset fits the next position, `Next` keeps it there. */
  lemma StretchGoesOn(v: Verifier, p: seq<Sample>, r: seq<Sample>, start: nat, offsets: seq<Sample>, offset: int)
    requires |p| == |r| && start + |offsets| < |p|
    requires Before(offsets, |offsets|) == Some(offset)
    requires FloatEq(Plus(p[start + |offsets|], offset), r[start + |offsets|])
    ensures Next(v, p, r, start + |offsets|, Before(offsets, |offsets|)) == Some(offset)
  {
  }

  /** The running correction, if any, no longer fits at the next position. */
  predicate StretchEnded(p: seq<Sample>, r: seq<Sample>, start: nat, offsets: seq<Sample>)
    requires |p| == |r|
  {
    var i := start + |offsets|;
    i < |p| && Before(offsets, |offsets|).Some? ==> !FloatEq(Plus(p[i], Before(offsets, |offsets|).value), r[i])
  }

  /** One pass of the outer `while` of process_offsets: records NaN at a gap
      or where no offset verifies, and otherwise applies the verified offset
      for as long as it fits. */
  method Advance(v: Verifier, p: seq<Sample>, r: seq<Sample>, start: nat, q0: seq<Sample>, offsets0: seq<Sample>)
    returns (q: seq<Sample>, offsets: seq<Sample>)
    requires |p| == |r| && Recorded(v, p, r, start, offsets0) && Applied(p, r, q0, start, offsets0)
    requires start + |offsets0| < |p| && StretchEnded(p, r, start, offsets0)
    ensures Recorded(v, p, r, start, offsets) && Applied(p, r, q, start, offsets)
    ensures |offsets0| < |offsets| && StretchEnded(p, r, start, offsets)
  {
    var index := start + |offsets0|;
    if q0[index].None? || r[index].None? {
      AppendNone(v, p, r, q0, start, offsets0);
      return q0, offsets0 + [None];
    }
    assert SameFrom(p, q0, index);
    VerifySameFrom(v, p, q0, r, index);
    var offset := Verify(v, q0, r, index);
    if offset.None? {
      AppendNone(v, p, r, q0, start, offsets0);
      return q0, offsets0 + [None];
    }
    q, offsets := Stretch(v, p, r, start, q0, offsets0, offset.value);
  }

  /** process_offsets(offset_column=p, reference_column=r, size, index=start, offset_arr=[]):
      returns the corrected column and the entries appended to offset_arr. */
  method ProcessOffsets(v: Verifier, p: seq<Sample>, r: seq<Sample>, start: nat) returns (q: seq<Sample>, offsets: seq<Sample>)
    requires |p| == |r|
    ensures |q| == |p|
    ensures start <= |p| ==> |offsets| == |p| - start
    ensures start > |p| ==> offsets == []
    ensures forall i :: 0 <= i < |p| && i < start ==> q[i] == p[i]
    ensures forall k :: 0 <= k < |offsets| ==> offsets[k] == Next(v, p, r, start + k, Before(offsets, k))
    ensures forall k :: 0 <= k < |offsets| && offsets[k].Some? ==>
              var i := start + k;
              p[i].Some? && r[i].Some? && q[i] == Plus(p[i], offsets[k].value) && q[i] == r[i]
    ensures forall k :: 0 <= k < |offsets| && offsets[k].None? ==> q[start + k] == p[start + k]
    ensures forall k :: 0 <= k < |offsets| && (p[start + k].None? || r[start + k].None?) ==> offsets[k].None?
  {
    q := p;
    offsets := [];
    if start > |p| {
      return;
    }
    while start + |offsets| < |p|
      invariant Recorded(v, p, r, start, offsets) && Applied(p, r, q, start, offsets)
      invariant StretchEnded(p, r, start, offsets)
      decreases |p| - |offsets|
    {
      q, offsets := Advance(v, p, r, start, q, offsets);
    }
  }
}
