/** Agreement statistics of a primary series against its reference
    (`get_comparison_stats` in file_data_functions.py).
 */
module Stats {
  import opened Values

  /** The five counters of the comparison loop. A shared gap counts as an
      agreement; a one-sided gap counts as a disagreement. */
  datatype Tally = Tally(valuesAgree: nat, valuesDisagree: nat, sharedGaps: nat, primaryGaps: nat, refGaps: nat)
  {
    function TotalAgree(): nat { valuesAgree + sharedGaps }
    function TotalDisagree(): nat { valuesDisagree + primaryGaps + refGaps }
    function PrimaryMissing(): nat { sharedGaps + primaryGaps }
    function RefMissing(): nat { sharedGaps + refGaps }
    function Points(): nat { valuesAgree + valuesDisagree + sharedGaps + primaryGaps + refGaps }
  }

  /** The five classes of a (primary, reference) pair. */
  datatype Kind = ValuesAgree | ValuesDisagree | SharedGap | PrimaryGap | RefGap

  /** The pair (a, b) is of class `k`. */
  predicate IsKind(k: Kind, a: Sample, b: Sample) {
    match k
    case ValuesAgree => a.Some? && b.Some? && a.value == b.value
    case ValuesDisagree => a.Some? && b.Some? && a.value != b.value
    case SharedGap => a.None? && b.None?
    case PrimaryGap => a.None? && b.Some?
    case RefGap => a.Some? && b.None?
  }

  /** The counter a tally keeps for class `k`. */
  function Counter(t: Tally, k: Kind): nat {
    match k
    case ValuesAgree => t.valuesAgree
    case ValuesDisagree => t.valuesDisagree
    case SharedGap => t.sharedGaps
    case PrimaryGap => t.primaryGaps
    case RefGap => t.refGaps
  }

  /** The positions among the first `n` whose pair is of class `k`. */
  function Where(p: seq<Sample>, r: seq<Sample>, n: nat, k: Kind): set<nat>
    requires |p| == |r| && n <= |p|
  {
    set j: nat | j < n && IsKind(k, p[j], r[j])
  }

  /** One pass of the `for index in range(size)` body on the pair (a, b). */
  function Step(t: Tally, a: Sample, b: Sample): (u: Tally)
    ensures u.Points() == t.Points() + 1
    ensures forall k :: Counter(u, k) == Counter(t, k) + (if IsKind(k, a, b) then 1 else 0)
  {
    if a.Some? && b.Some? then
      if a.value != b.value then t.(valuesDisagree := t.valuesDisagree + 1)
      else t.(valuesAgree := t.valuesAgree + 1)
    else if a.None? && b.None? then t.(sharedGaps := t.sharedGaps + 1)
    else if a.None? then t.(primaryGaps := t.primaryGaps + 1)
    else t.(refGaps := t.refGaps + 1)
  }

  /** Number of missing samples among the first `n` of `s`. */
  function Gaps(s: seq<Sample>, n: nat): nat
    requires n <= |s|
  {
    if n == 0 then 0 else Gaps(s, n - 1) + (if s[n - 1].None? then 1 else 0)
  }

  /** The counters after the first `n` passes of the loop. */
  function Count(p: seq<Sample>, r: seq<Sample>, n: nat): Tally
    requires |p| == |r| && n <= |p|
  {
    if n == 0 then Tally(0, 0, 0, 0, 0)
    else Step(Count(p, r, n - 1), p[n - 1], r[n - 1])
  }

  /** Each counter after `n` passes is the number of positions of its class. */
  lemma {:induction false} CountMatchesClasses(p: seq<Sample>, r: seq<Sample>, n: nat, k: Kind)
    requires |p| == |r| && n <= |p|
    ensures Counter(Count(p, r, n), k) == |Where(p, r, n, k)|
  {
    if n == 0 {
      assert Where(p, r, 0, k) == {};
    } else {
      CountMatchesClasses(p, r, n - 1, k);
      WhereStep(p, r, n, k);
    }
  }

  /** One more position adds one to the count of its own class only. */
  lemma WhereStep(p: seq<Sample>, r: seq<Sample>, n: nat, k: Kind)
    requires |p| == |r| && 0 < n <= |p|
    ensures |Where(p, r, n, k)| == |Where(p, r, n - 1, k)| + (if IsKind(k, p[n - 1], r[n - 1]) then 1 else 0)
  {
    var before := Where(p, r, n - 1, k);
    if IsKind(k, p[n - 1], r[n - 1]) {
      assert Where(p, r, n, k) == before + {n - 1};
      assert n - 1 !in before;
    } else {
      assert Where(p, r, n, k) == before;
    }
  }

  /** Every position is counted exactly once, and the missing counts are the numbers of NaNs. */
  lemma {:induction false} CountAccounts(p: seq<Sample>, r: seq<Sample>, n: nat)
    requires |p| == |r| && n <= |p|
    ensures Count(p, r, n).Points() == n
    ensures Count(p, r, n).TotalAgree() + Count(p, r, n).TotalDisagree() == n
    ensures Count(p, r, n).PrimaryMissing() == Gaps(p, n) && Count(p, r, n).RefMissing() == Gaps(r, n)
  {
    if n > 0 {
      CountAccounts(p, r, n - 1);
    }
  }

  /** get_comparison_stats: the counters, or ZeroDivisionError from the
      percentages when `size` is 0. */
  function ComparisonStats(p: seq<Sample>, r: seq<Sample>): (o: Outcome<Tally>)
    requires |p| == |r|
    ensures o.Raised? <==> |p| == 0
    ensures o.Raised? ==> o.error == ZeroDivisionError
    ensures o.Done? ==> o.value.TotalAgree() + o.value.TotalDisagree() == |p|
    ensures o.Done? ==> o.value.PrimaryMissing() == Gaps(p, |p|) && o.value.RefMissing() == Gaps(r, |r|)
    ensures o.Done? ==> forall k :: Counter(o.value, k) == |Where(p, r, |p|, k)|
    ensures !o.Hangs?
  {
    if |p| == 0 then Raised(ZeroDivisionError)
    else
      CountAccounts(p, r, |p|);
      forall k
        ensures Counter(Count(p, r, |p|), k) == |Where(p, r, |p|, k)|
      {
        CountMatchesClasses(p, r, |p|, k);
      }
      Done(Count(p, r, |p|))
  }

  /** A series compared with itself never disagrees: all points agree. */
  lemma {:induction false} SelfComparisonAgrees(s: seq<Sample>, n: nat)
    requires n <= |s|
    ensures Count(s, s, n).TotalDisagree() == 0
    ensures Count(s, s, n).TotalAgree() == n
  {
    if n > 0 {
      SelfComparisonAgrees(s, n - 1);
    }
    CountAccounts(s, s, n);
  }

  /** Exchanging primary and reference exchanges the one-sided gap counts and
      leaves the other counters unchanged. */
  lemma {:induction false} SwapExchangesGaps(p: seq<Sample>, r: seq<Sample>, n: nat)
    requires |p| == |r| && n <= |p|
    ensures var t, u := Count(p, r, n), Count(r, p, n);
            u.valuesAgree == t.valuesAgree && u.valuesDisagree == t.valuesDisagree &&
            u.sharedGaps == t.sharedGaps && u.primaryGaps == t.refGaps && u.refGaps == t.primaryGaps
  {
    if n > 0 {
      SwapExchangesGaps(p, r, n - 1);
    }
  }

  /** Series that agree everywhere but at one position, where both values are
      present and differ, have exactly one disagreement among the first `n`
      positions once `n` passes that position, and none before. */
  lemma {:induction false} SingleMismatchCountsOnce(p: seq<Sample>, r: seq<Sample>, i: nat, n: nat)
    requires |p| == |r| && i < |p| && n <= |p|
    requires forall j :: 0 <= j < |p| && j != i ==> FloatEq(p[j], r[j])
    requires p[i].Some? && r[i].Some? && p[i].value != r[i].value
    ensures Count(p, r, n).valuesDisagree == (if i < n then 1 else 0)
    ensures Count(p, r, n).TotalDisagree() == (if i < n then 1 else 0)
  {
    if n > 0 {
      SingleMismatchCountsOnce(p, r, i, n - 1);
    }
  }
}
