/** Threshold labels of the metrics report: `generate_duration_string` and
    `generate_value_string` of MetricsCalculator.py.
 */
module Labels {
  import opened Values

  /** The filter parameters a label is made from. `kind`, `isStrict` and
      `threshold` are the optional 'type', 'is_strict' and 'threshold' keys,
      the threshold as the text `str(params['threshold'])` gives; `useAbs` is
      the truth of `params.get('use_abs')`. */
  datatype Params = Params(kind: Option<string>, isStrict: Option<bool>, threshold: Option<string>, useAbs: bool)

  const NotSpecified: string := "[Type of threshold not specified]"
  const AbsolutePrefix: string := "absolute "

  /** The comparison text for a recognised kind: sign, '=' unless strict, a space, the threshold. */
  function Comparison(sign: char, strict: bool, threshold: string): (s: string)
    ensures |s| == |threshold| + (if strict then 3 else 4)
    ensures s[0] == sign && s[1] == ' '
    ensures s[|s| - |threshold|..] == threshold
  {
    [sign, ' '] + (if strict then "" else "=") + " " + threshold
  }

  /** The sign a recognised kind is written with. */
  function SignOf(kind: string): char {
    if kind == "min" then '>' else '<'
  }

  predicate Recognised(p: Params) {
    p.kind.Some? && (p.kind.value == "min" || p.kind.value == "max")
  }

  /** Both keys the comparison text reads are present. */
  predicate Complete(p: Params) {
    p.isStrict.Some? && p.threshold.Some?
  }

  /** generate_duration_string(params): KeyError when a recognised 'type'
      comes without 'is_strict' or without 'threshold'. */
  function DurationString(p: Params): (o: Outcome<string>)
    ensures o.Raised? <==> Recognised(p) && !Complete(p)
    ensures o.Raised? ==> o.error == KeyError
    ensures !Recognised(p) ==> o == Done(NotSpecified)
    ensures o.Done? && Recognised(p) ==> o.value == Comparison(SignOf(p.kind.value), p.isStrict.value, p.threshold.value)
  {
    if Recognised(p) then
      if !Complete(p) then Raised(KeyError)
      else Done(Comparison(SignOf(p.kind.value), p.isStrict.value, p.threshold.value))
    else Done(NotSpecified)
  }

  /** generate_value_string(params): "absolute " first when `use_abs`; then the
      comparison for a recognised 'type', nothing for an unrecognised one, and
      the not-specified text only when 'type' is missing. */
  function ValueString(p: Params): (o: Outcome<string>)
    ensures o.Raised? <==> Recognised(p) && !Complete(p)
    ensures o.Raised? ==> o.error == KeyError
    ensures o.Done? ==> (p.useAbs <==> |o.value| >= |AbsolutePrefix| && o.value[..|AbsolutePrefix|] == AbsolutePrefix)
  {
    var prefix := if p.useAbs then AbsolutePrefix else "";
    if p.kind.None? then
      assert NotSpecified[0] == '[';
      assert (prefix + NotSpecified)[|prefix|] == NotSpecified[0];
      assert (prefix + NotSpecified)[..|prefix|] == prefix;
      Done(prefix + NotSpecified)
    else if Recognised(p) then
      if !Complete(p) then Raised(KeyError)
      else
        var c := Comparison(SignOf(p.kind.value), p.isStrict.value, p.threshold.value);
        assert (prefix + c)[|prefix|] == SignOf(p.kind.value);
        assert (prefix + c)[..|prefix|] == prefix;
        Done(prefix + c)
    else Done(prefix)
  }

  /** The value label is the duration label behind the optional prefix, except
      for an unrecognised 'type', where it is the bare prefix while the
      duration label says the type is not specified. */
  lemma ValueExtendsDuration(p: Params)
    ensures var prefix := if p.useAbs then AbsolutePrefix else "";
            var d, v := DurationString(p), ValueString(p);
            (p.kind.None? || Recognised(p)) && d.Done? ==> v == Done(prefix + d.value)
    ensures p.kind.Some? && !Recognised(p) ==>
              DurationString(p) == Done(NotSpecified) && ValueString(p) == Done(if p.useAbs then AbsolutePrefix else "")
  {
  }

  /** Reads a comparison text back: its kind, strictness and threshold. */
  function ParseComparison(s: string): (o: Option<(string, bool, string)>)
  {
    if |s| < 3 || (s[0] != '>' && s[0] != '<') || s[1] != ' ' then None
    else
      var kind := if s[0] == '>' then "min" else "max";
      if s[2] == ' ' then Some((kind, true, s[3..]))
      else if s[2] == '=' && |s| >= 4 && s[3] == ' ' then Some((kind, false, s[4..]))
      else None
  }

  /** A duration label for a recognised kind can be read back into the
      parameters it was made from. */
  lemma DurationStringRoundTrip(p: Params)
    requires Recognised(p) && Complete(p)
    ensures DurationString(p).Done?
    ensures ParseComparison(DurationString(p).value) == Some((p.kind.value, p.isStrict.value, p.threshold.value))
  {
    var s := DurationString(p).value;
    if p.isStrict.value {
      assert s[3..] == p.threshold.value;
    } else {
      assert s[4..] == p.threshold.value;
    }
  }

  /** The not-specified text reads as no comparison, so the labels of
      recognised and missing kinds never collide. */
  lemma NotSpecifiedIsNoComparison()
    ensures ParseComparison(NotSpecified) == None
  {
  }

  /** The strict label is the non-strict one with its '=' removed. */
  lemma StrictDropsEquals(sign: char, threshold: string)
    ensures var loose, strict := Comparison(sign, false, threshold), Comparison(sign, true, threshold);
            loose[2] == '=' && strict == loose[..2] + loose[3..]
  {
    var loose, strict := Comparison(sign, false, threshold), Comparison(sign, true, threshold);
    assert loose[3..] == [' '] + threshold;
  }
}
