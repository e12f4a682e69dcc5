/** Threshold durations written as text: `parse_timedelta` of MetricsCalculator.py.

    The text is lower-cased and scanned like `re.findall` with the pattern
    `(\d+)\s*(week|weeks|day|days|hour|hours|minute|minutes|second|seconds|millisecond|milliseconds)`:
    from each position the first alternative that matches wins, and after a
    match the scan resumes at its end. Greedy `\d+` and `\s*` never need to
    give characters back here (a unit starts with neither a digit nor a
    space), and a match attempted inside a run of digits fails exactly when
    it fails at the start of that run. Durations are in milliseconds.
 */
module Timedelta {
  import opened Values

  predicate IsDigit(c: char) { '0' <= c <= '9' }

  /** The ASCII characters `\s` matches in a text pattern: blank, tab,
      line feed, vertical tab, form feed, carriage return, and the file,
      group, record and unit separators U+001C to U+001F, which `str.isspace`
      counts as whitespace. */
  predicate IsSpace(c: char) {
    c == ' ' || 9 <= c as int <= 13 || 28 <= c as int <= 31
  }

  function Lower(c: char): (l: char)
    ensures 'A' <= c <= 'Z' ==> 'a' <= l <= 'z'
    ensures !('A' <= c <= 'Z') ==> l == c
  {
    if 'A' <= c <= 'Z' then (c as int + 32) as char else c
  }

  /** `str.lower()` on ASCII text. */
  function LowerString(s: string): (l: string)
    ensures |l| == |s|
    ensures forall k :: 0 <= k < |s| ==> l[k] == Lower(s[k])
  {
    if |s| == 0 then [] else [Lower(s[0])] + LowerString(s[1..])
  }

  /** The unit alternatives in the order the pattern lists them. */
  const Units: seq<string> := ["week", "weeks", "day", "days", "hour", "hours", "minute", "minutes",
                               "second", "seconds", "millisecond", "milliseconds"]

  /** `w` occurs in `s` at `i`, compared from its `k`-th character on. */
  predicate StartsAt(s: string, w: string, i: nat, k: nat)
    requires i + |w| <= |s|
    decreases |w| - k
  {
    k >= |w| || (s[i + k] == w[k] && StartsAt(s, w, i, k + 1))
  }

  /** `w` occurs in `s` at `i`. */
  predicate IsPrefixAt(w: string, s: string, i: nat)
    requires i <= |s|
  {
    i + |w| <= |s| && StartsAt(s, w, i, 0)
  }

  /** The character-wise test is slice equality. */
  lemma {:induction false} StartsAtIsSlice(s: string, w: string, i: nat, k: nat)
    requires i + |w| <= |s| && k <= |w|
    ensures StartsAt(s, w, i, k) <==> s[i + k..i + |w|] == w[k..]
    decreases |w| - k
  {
    if k < |w| {
      StartsAtIsSlice(s, w, i, k + 1);
      assert s[i + k..i + |w|] == [s[i + k]] + s[i + k + 1..i + |w|];
      assert w[k..] == [w[k]] + w[k + 1..];
    }
  }

  /** End of the run of digits starting at `i`. */
  function DigitsEnd(s: string, i: nat): (e: nat)
    requires i <= |s|
    ensures i <= e <= |s|
    ensures forall k :: i <= k < e ==> IsDigit(s[k])
    ensures e < |s| ==> !IsDigit(s[e])
    decreases |s| - i
  {
    if i < |s| && IsDigit(s[i]) then DigitsEnd(s, i + 1) else i
  }

  /** End of the run of whitespace starting at `i`. */
  function SpacesEnd(s: string, i: nat): (e: nat)
    requires i <= |s|
    ensures i <= e <= |s|
    ensures forall k :: i <= k < e ==> IsSpace(s[k])
    ensures e < |s| ==> !IsSpace(s[e])
    decreases |s| - i
  {
    if i < |s| && IsSpace(s[i]) then SpacesEnd(s, i + 1) else i
  }

  /** The first of the alternatives `units`, from the `k`-th on, that matches at `i`. */
  function FirstUnit(units: seq<string>, s: string, i: nat, k: nat): (u: Option<nat>)
    requires i <= |s|
    ensures u.Some? ==> k <= u.value < |units| && IsPrefixAt(units[u.value], s, i)
    ensures u.Some? ==> forall j :: k <= j < u.value ==> !IsPrefixAt(units[j], s, i)
    ensures u.None? ==> forall j :: k <= j < |units| ==> !IsPrefixAt(units[j], s, i)
    decreases |units| - k
  {
    if k >= |units| then None
    else if IsPrefixAt(units[k], s, i) then Some(k)
    else FirstUnit(units, s, i, k + 1)
  }

  /** One `findall` result: the digit group and the unit group. */
  datatype Token = Token(digits: string, unit: string)

  /** The match at `i` of the pattern with unit alternatives `units`, with
      the position it ends at. */
  function MatchAt(units: seq<string>, s: string, i: nat): (m: Option<(Token, nat)>)
    requires i <= |s|
    ensures m.Some? ==> i < m.value.1 <= |s|
    ensures m.Some? ==> |m.value.0.digits| > 0 && (forall k :: 0 <= k < |m.value.0.digits| ==> IsDigit(m.value.0.digits[k]))
    ensures m.Some? ==> m.value.0.unit in units
    ensures m.Some? <==> i < |s| && IsDigit(s[i]) && FirstUnit(units, s, SpacesEnd(s, DigitsEnd(s, i)), 0).Some?
  {
    var d := DigitsEnd(s, i);
    if d == i then None
    else
      var w := SpacesEnd(s, d);
      match FirstUnit(units, s, w, 0)
      case None => None
      case Some(k) => Some((Token(s[i..d], units[k]), w + |units[k]|))
  }

  /** `re.findall` from position `i` on. */
  function Scan(units: seq<string>, s: string, i: nat): (tokens: seq<Token>)
    requires i <= |s|
    ensures forall t :: t in tokens ==> t.unit in units
    decreases |s| - i
  {
    if i == |s| then []
    else
      match MatchAt(units, s, i)
      case None => Scan(units, s, i + 1)
      case Some(m) => [m.0] + Scan(units, s, m.1)
  }

  /** `int(value)` of a digit group. */
  function DigitsValue(ds: string): nat
  {
    if |ds| == 0 then 0
    else 10 * DigitsValue(ds[..|ds| - 1]) + (if IsDigit(ds[|ds| - 1]) then ds[|ds| - 1] as int - '0' as int else 0)
  }

  /** `str(n)`: the decimal text of `n`. */
  function NatToDigits(n: nat): (ds: string)
    ensures |ds| > 0 && forall k :: 0 <= k < |ds| ==> IsDigit(ds[k])
  {
    var last := [('0' as int + n % 10) as char];
    if n < 10 then last else NatToDigits(n / 10) + last
  }

  /** The timedelta keyword a unit's amount is added to. */
  datatype Field = Weeks | Days | Hours | Minutes | Seconds | Milliseconds | Unused

  /** `sub` occurs in `s` at `i` or later. */
  predicate ContainsFrom(s: string, sub: string, i: nat)
    decreases |s| - i
  {
    i + |sub| <= |s| && (StartsAt(s, sub, i, 0) || ContainsFrom(s, sub, i + 1))
  }

  /** Substring test `sub in s`. */
  predicate Contains(s: string, sub: string) {
    ContainsFrom(s, sub, 0)
  }

  /** The `if 'week' in unit … elif 'millisecond' in unit` chain as written:
      'second' is checked before 'millisecond', and it is a substring of it. */
  function FieldAsWritten(unit: string): Field {
    if Contains(unit, "week") then Weeks
    else if Contains(unit, "day") then Days
    else if Contains(unit, "hour") then Hours
    else if Contains(unit, "minute") then Minutes
    else if Contains(unit, "second") then Seconds
    else if Contains(unit, "millisecond") then Milliseconds
    else Unused
  }

  /** The chain with 'millisecond' checked before 'second'. */
  function FieldFixed(unit: string): Field {
    if Contains(unit, "week") then Weeks
    else if Contains(unit, "day") then Days
    else if Contains(unit, "hour") then Hours
    else if Contains(unit, "minute") then Minutes
    else if Contains(unit, "millisecond") then Milliseconds
    else if Contains(unit, "second") then Seconds
    else Unused
  }

  /** The field a unit group is added to, by the chain as written or the corrected one. */
  function FieldOf(unit: string, fixed: bool): Field {
    if fixed then FieldFixed(unit) else FieldAsWritten(unit)
  }

  /** Milliseconds in one unit of a field. */
  function FieldMillis(f: Field): nat {
    match f
    case Weeks => 7 * 24 * 60 * 60 * 1000
    case Days => 24 * 60 * 60 * 1000
    case Hours => 60 * 60 * 1000
    case Minutes => 60 * 1000
    case Seconds => 1000
    case Milliseconds => 1
    case Unused => 0
  }

  /** The timedelta the loop builds, in milliseconds: each token's amount in its field. */
  function Total(tokens: seq<Token>, fixed: bool): nat {
    if |tokens| == 0 then 0
    else DigitsValue(tokens[0].digits) * FieldMillis(FieldOf(tokens[0].unit, fixed)) + Total(tokens[1..], fixed)
  }

  /** parse_timedelta(time_str), in milliseconds, with the chain as written or corrected. */
  function Parse(text: string, fixed: bool): nat {
    Total(Scan(Units, LowerString(text), 0), fixed)
  }

  /** parse_timedelta(time_str) as written, in milliseconds. */
  function ParseTimedelta(text: string): (ms: nat)
    ensures ParseTimedeltaFixed(text) <= ms
  {
    TotalFixedAtMost(Scan(Units, LowerString(text), 0));
    Parse(text, false)
  }

  /** parse_timedelta with the millisecond unit classified correctly. */
  function ParseTimedeltaFixed(text: string): nat {
    Parse(text, true)
  }

  // ---------------------------------------------------------------------------
  // Properties

  /** The decimal text of `n` reads back as `n`. */
  lemma {:induction false} DigitsRoundTrip(n: nat)
    ensures DigitsValue(NatToDigits(n)) == n
  {
    var last := [('0' as int + n % 10) as char];
    if n >= 10 {
      DigitsRoundTrip(n / 10);
      var ds := NatToDigits(n / 10) + last;
      assert ds[..|ds| - 1] == NatToDigits(n / 10);
    }
  }

  /** Without a digit there is nothing to match. */
  lemma {:induction false} NoDigitsNoTokens(units: seq<string>, s: string, i: nat)
    requires i <= |s|
    requires forall k :: i <= k < |s| ==> !IsDigit(s[k])
    ensures Scan(units, s, i) == []
    decreases |s| - i
  {
    if i < |s| {
      NoDigitsNoTokens(units, s, i + 1);
    }
  }

  /** Text without a digit is a zero duration. */
  lemma NoDigitsIsZero(text: string)
    requires forall k :: 0 <= k < |text| ==> !IsDigit(text[k])
    ensures ParseTimedelta(text) == 0 && ParseTimedeltaFixed(text) == 0
  {
    NoDigitsNoTokens(Units, LowerString(text), 0);
  }

  /** Lower-casing is idempotent, so the parse ignores letter case. */
  lemma CaseInsensitive(text: string)
    ensures LowerString(LowerString(text)) == LowerString(text)
    ensures ParseTimedelta(LowerString(text)) == ParseTimedelta(text)
  {
  }

  /** Which alternative matches at `i` depends only on the text from `i` on. */
  lemma {:induction false} FirstUnitSuffix(units: seq<string>, s: string, i: nat, k: nat)
    requires i <= |s|
    ensures FirstUnit(units, s, i, k) == FirstUnit(units, s[i..], 0, k)
    decreases |units| - k
  {
    if k < |units| {
      var w := units[k];
      if i + |w| <= |s| {
        StartsAtIsSlice(s, w, i, 0);
        StartsAtIsSlice(s[i..], w, 0, 0);
        assert s[i..i + |w|] == s[i..][0..|w|];
      }
      FirstUnitSuffix(units, s, i, k + 1);
    }
  }

  /** In "<digits> <w>" the digit run ends at the space and the space run right after it. */
  lemma DigitsThenSpace(ds: string, w: string)
    requires |ds| > 0 && forall k :: 0 <= k < |ds| ==> IsDigit(ds[k])
    requires |w| > 0 && !IsSpace(w[0])
    ensures DigitsEnd(ds + " " + w, 0) == |ds|
    ensures SpacesEnd(ds + " " + w, |ds|) == |ds| + 1
  {
    var s := ds + " " + w;
    var d := |ds|;
    forall k | 0 <= k < d
      ensures IsDigit(s[k])
    {
      assert s[k] == ds[k];
    }
    assert s[d] == ' ' && s[d + 1] == w[0];
    DigitsRunEnd(s, 0, d);
  }

  /** In "<digits> <w>" the alternative matching after the space is the one matching `w`. */
  lemma WordAfterSpace(units: seq<string>, ds: string, w: string)
    ensures FirstUnit(units, ds + " " + w, |ds| + 1, 0) == FirstUnit(units, w, 0, 0)
  {
    var s := ds + " " + w;
    assert s[|ds| + 1..] == w;
    FirstUnitSuffix(units, s, |ds| + 1, 0);
  }

  /** The match at the start of "<digits> <w>": the digits and the first
      alternative matching at the start of `w`. */
  lemma MatchDigitsUnit(units: seq<string>, ds: string, w: string)
    requires |ds| > 0 && forall j :: 0 <= j < |ds| ==> IsDigit(ds[j])
    requires |w| > 0 && !IsSpace(w[0])
    requires FirstUnit(units, w, 0, 0).Some?
    ensures var k := FirstUnit(units, w, 0, 0).value;
            MatchAt(units, ds + " " + w, 0) == Some((Token(ds, units[k]), |ds| + 1 + |units[k]|))
  {
    var s := ds + " " + w;
    DigitsThenSpace(ds, w);
    WordAfterSpace(units, ds, w);
    assert s[0..|ds|] == ds;
  }

  /** "<digits> <w>" scans as the single token of the digits and the first
      alternative matching at the start of `w`, when `w` holds no digit and
      does not start with a space. */
  lemma SingleToken(units: seq<string>, ds: string, w: string)
    requires |ds| > 0 && forall k :: 0 <= k < |ds| ==> IsDigit(ds[k])
    requires |w| > 0 && !IsSpace(w[0]) && forall k :: 0 <= k < |w| ==> !IsDigit(w[k])
    requires FirstUnit(units, w, 0, 0).Some?
    ensures Scan(units, ds + " " + w, 0) == [Token(ds, units[FirstUnit(units, w, 0, 0).value])]
  {
    var k := FirstUnit(units, w, 0, 0).value;
    MatchDigitsUnit(units, ds, w);
    NoDigitsInWord(units, ds, w, |ds| + 1 + |units[k]|);
  }

  /** After the digits and the space, a word without digits yields no match. */
  lemma NoDigitsInWord(units: seq<string>, ds: string, w: string, e: nat)
    requires forall k :: 0 <= k < |w| ==> !IsDigit(w[k])
    requires |ds| + 1 <= e <= |ds| + 1 + |w|
    ensures Scan(units, ds + " " + w, e) == []
  {
    var s := ds + " " + w;
    forall j | e <= j < |s|
      ensures !IsDigit(s[j])
    {
      assert s[j] == w[j - |ds| - 1];
    }
    NoDigitsNoTokens(units, s, e);
  }

  /** The digit run starting at `i` ends at `d` when s[i..d] are digits and s[d] is not. */
  lemma {:induction false} DigitsRunEnd(s: string, i: nat, d: nat)
    requires i <= d < |s|
    requires forall k :: i <= k < d ==> IsDigit(s[k])
    requires !IsDigit(s[d])
    ensures DigitsEnd(s, i) == d
    decreases d - i
  {
    if i < d {
      DigitsRunEnd(s, i + 1, d);
    }
  }

  /** Text without capitals is left alone by lower-casing. */
  lemma LowerKeepsLowercase(s: string)
    requires forall k :: 0 <= k < |s| ==> !('A' <= s[k] <= 'Z')
    ensures LowerString(s) == s
  {
  }

  /** The amount a single token adds. */
  lemma TotalSingle(t: Token, fixed: bool)
    ensures Total([t], fixed) == DigitsValue(t.digits) * FieldMillis(FieldOf(t.unit, fixed))
  {
    assert [t][1..] == [];
  }

  /** Unit text that may follow "<digits> ": no digit, no capital, not starting with a space. */
  predicate PlainUnitText(w: string) {
    |w| > 0 && !IsSpace(w[0]) && forall k :: 0 <= k < |w| ==> !IsDigit(w[k]) && !('A' <= w[k] <= 'Z')
  }

  /** "<n> <w>" for a lower-case unit text `w` is n times the unit the first
      matching alternative is classified as. */
  lemma AmountOfUnit(n: nat, w: string, fixed: bool, k: nat)
    requires PlainUnitText(w)
    requires FirstUnit(Units, w, 0, 0) == Some(k)
    ensures k < |Units| && Parse(NatToDigits(n) + " " + w, fixed) == n * FieldMillis(FieldOf(Units[k], fixed))
  {
    var ds := NatToDigits(n);
    var text := ds + " " + w;
    forall k | 0 <= k < |text|
      ensures !('A' <= text[k] <= 'Z')
    {
      if k < |ds| {
        assert text[k] == ds[k];
      } else if k > |ds| {
        assert text[k] == w[k - |ds| - 1];
      }
    }
    LowerKeepsLowercase(text);
    var t := Token(ds, Units[k]);
    SingleToken(Units, ds, w);
    assert Scan(Units, LowerString(text), 0) == [t];
    TotalSingle(t, fixed);
    DigitsRoundTrip(n);
  }

  /** "<ds> <w>" is "<ds>" followed by " <w>". */
  lemma SpaceThenWord(ds: string, w: string)
    ensures ds + " " + w == ds + (" " + w)
  {
  }

  /** "<ds> milliseconds" is "<ds>", a space and the unit text "milliseconds". */
  lemma MillisecondsText(ds: string)
    ensures ds + " milliseconds" == ds + " " + "milliseconds"
  {
    assert " " + "milliseconds" == " milliseconds";
    SpaceThenWord(ds, "milliseconds");
  }

  /** "<ds> days" is "<ds>", a space and the unit text "days". */
  lemma DaysText(ds: string)
    ensures ds + " days" == ds + " " + "days"
  {
    assert " " + "days" == " days";
    SpaceThenWord(ds, "days");
  }

  /** The unit group matched in "milliseconds" is "millisecond", the eleventh alternative. */
  lemma MillisecondsUnit()
    ensures FirstUnit(Units, "milliseconds", 0, 0) == Some(10)
    ensures PlainUnitText("milliseconds")
  {
    assert FirstUnit(Units, "milliseconds", 0, 10) == Some(10);
    assert FirstUnit(Units, "milliseconds", 0, 9) == Some(10);
    assert FirstUnit(Units, "milliseconds", 0, 8) == Some(10);
    assert FirstUnit(Units, "milliseconds", 0, 7) == Some(10);
    assert FirstUnit(Units, "milliseconds", 0, 6) == Some(10);
    assert FirstUnit(Units, "milliseconds", 0, 5) == Some(10);
    assert FirstUnit(Units, "milliseconds", 0, 4) == Some(10);
    assert FirstUnit(Units, "milliseconds", 0, 3) == Some(10);
    assert FirstUnit(Units, "milliseconds", 0, 2) == Some(10);
    assert FirstUnit(Units, "milliseconds", 0, 1) == Some(10);
  }

  /** How the unit group "millisecond" is classified: as seconds as written,
      as milliseconds by the corrected chain. */
  lemma MillisecondFields()
    ensures FieldAsWritten("millisecond") == Seconds
    ensures FieldFixed("millisecond") == Milliseconds
  {
    MillisecondNoLongerUnit();
    assert Contains("millisecond", "second");
    assert Contains("millisecond", "millisecond");
  }

  /** "millisecond" contains none of the longer units the chain tests first. */
  lemma MillisecondNoLongerUnit()
    ensures !Contains("millisecond", "week") && !Contains("millisecond", "day")
    ensures !Contains("millisecond", "hour") && !Contains("millisecond", "minute")
  {
    assert !Contains("millisecond", "week");
    assert !Contains("millisecond", "day");
    assert !Contains("millisecond", "hour");
  }

  /** "<n> milliseconds" is n times the field the unit group "millisecond" is added to. */
  lemma MillisecondsAmount(n: nat, fixed: bool)
    ensures Parse(NatToDigits(n) + " " + "milliseconds", fixed) == n * FieldMillis(FieldOf("millisecond", fixed))
  {
    MillisecondsUnit();
    AmountOfUnit(n, "milliseconds", fixed, 10);
    assert Units[10] == "millisecond";
  }

  /** "<n> milliseconds" as written is n seconds: the unit group is
      "millisecond", which contains "second". */
  lemma MillisecondsReadAsSeconds(n: nat)
    ensures ParseTimedelta(NatToDigits(n) + " milliseconds") == 1000 * n
  {
    MillisecondsText(NatToDigits(n));
    MillisecondsAmount(n, false);
    MillisecondFields();
  }

  /** The corrected classification reads "<n> milliseconds" as n milliseconds. */
  lemma MillisecondsFixed(n: nat)
    ensures ParseTimedeltaFixed(NatToDigits(n) + " milliseconds") == n
  {
    MillisecondsText(NatToDigits(n));
    MillisecondsAmount(n, true);
    MillisecondFields();
  }

  /** The unit group matched in "days" is "day", the third alternative, a day under either chain. */
  lemma DaysUnit()
    ensures FirstUnit(Units, "days", 0, 0) == Some(2) && PlainUnitText("days")
    ensures FieldOf(Units[2], false) == Days && FieldOf(Units[2], true) == Days
  {
    assert FirstUnit(Units, "days", 0, 2) == Some(2);
    assert FirstUnit(Units, "days", 0, 1) == Some(2);
  }

  /** "<n> days" is n days, under either classification. */
  lemma DaysParse(n: nat)
    ensures ParseTimedelta(NatToDigits(n) + " days") == n * FieldMillis(Days)
    ensures ParseTimedeltaFixed(NatToDigits(n) + " days") == n * FieldMillis(Days)
  {
    DaysText(NatToDigits(n));
    DaysUnit();
    AmountOfUnit(n, "days", false, 2);
    AmountOfUnit(n, "days", true, 2);
  }

  /** Text shorter than "millisecond" does not contain it, so both chains
      classify it alike. */
  lemma ShortUnitSameField(u: string)
    requires |u| < |"millisecond"|
    ensures FieldFixed(u) == FieldAsWritten(u)
  {
    assert !Contains(u, "millisecond");
  }

  /** The unit group "milliseconds" is classified as seconds as written and as
      milliseconds by the corrected chain. */
  lemma MillisecondsFields()
    ensures FieldAsWritten("milliseconds") == Seconds
    ensures FieldFixed("milliseconds") == Milliseconds
  {
    MillisecondsNoLongerUnit();
    assert Contains("milliseconds", "second");
    assert Contains("milliseconds", "millisecond");
  }

  /** "milliseconds" contains none of the longer units the chain tests first. */
  lemma MillisecondsNoLongerUnit()
    ensures !Contains("milliseconds", "week") && !Contains("milliseconds", "day")
    ensures !Contains("milliseconds", "hour") && !Contains("milliseconds", "minute")
  {
    assert !Contains("milliseconds", "week");
    assert !Contains("milliseconds", "day");
    assert !Contains("milliseconds", "hour");
  }

  /** `StartsAt` compares every character of `w` from the `k`-th on. */
  lemma {:induction false} StartsAtChars(s: string, w: string, i: nat, k: nat)
    requires i + |w| <= |s|
    ensures StartsAt(s, w, i, k) <==> forall m :: k <= m < |w| ==> s[i + m] == w[m]
    decreases |w| - k
  {
    if k < |w| {
      StartsAtChars(s, w, i, k + 1);
    }
  }

  /** An occurrence from `j` on is also one from any earlier `i`. */
  lemma {:induction false} ContainsFromEarlier(s: string, sub: string, i: nat, j: nat)
    requires i <= j && ContainsFrom(s, sub, j)
    ensures ContainsFrom(s, sub, i)
    decreases j - i
  {
    if i < j {
      ContainsFromEarlier(s, sub, i + 1, j);
    }
  }

  /** Wherever "millisecond" occurs, "second" occurs too. */
  lemma {:induction false} MillisecondHasSecond(s: string, i: nat)
    requires ContainsFrom(s, "millisecond", i)
    ensures ContainsFrom(s, "second", i)
    decreases |s| - i
  {
    if StartsAt(s, "millisecond", i, 0) {
      StartsAtChars(s, "millisecond", i, 0);
      StartsAtChars(s, "second", i + 5, 0);
      assert forall m :: 0 <= m < 6 ==> "second"[m] == "millisecond"[m + 5];
      assert StartsAt(s, "second", i + 5, 0);
      assert ContainsFrom(s, "second", i + 5);
      ContainsFromEarlier(s, "second", i, i + 5);
    } else {
      MillisecondHasSecond(s, i + 1);
      ContainsFromEarlier(s, "second", i, i + 1);
    }
  }

  /** For any unit text the corrected chain picks the field the written chain
      picks, except that a millisecond unit read as seconds becomes
      milliseconds; never a longer unit. */
  lemma FixedOnlyShortensSeconds(unit: string)
    ensures FieldFixed(unit) == FieldAsWritten(unit) ||
            (FieldFixed(unit) == Milliseconds && FieldAsWritten(unit) == Seconds)
    ensures FieldMillis(FieldFixed(unit)) <= FieldMillis(FieldAsWritten(unit))
  {
    if Contains(unit, "millisecond") {
      MillisecondHasSecond(unit, 0);
    }
  }

  /** Summed over any tokens, the corrected duration never exceeds the written one. */
  lemma {:induction false} TotalFixedAtMost(tokens: seq<Token>)
    ensures Total(tokens, true) <= Total(tokens, false)
  {
    if |tokens| > 0 {
      TotalFixedAtMost(tokens[1..]);
      FixedOnlyShortensSeconds(tokens[0].unit);
      var n := DigitsValue(tokens[0].digits);
      assert n * FieldMillis(FieldFixed(tokens[0].unit)) <= n * FieldMillis(FieldAsWritten(tokens[0].unit));
    }
  }

  /** The two classifications differ only on the millisecond alternatives. */
  lemma FixedDiffersOnlyOnMilliseconds(k: nat)
    requires k < |Units|
    ensures FieldFixed(Units[k]) == FieldAsWritten(Units[k]) <==> k < 10
  {
    if k < 10 {
      ShortUnitSameField(Units[k]);
    } else if k == 10 {
      MillisecondFields();
    } else {
      MillisecondsFields();
    }
  }

  // ---------------------------------------------------------------------------
  // Additivity: every match is counted, and unmatched text adds nothing

  /** `c` occurs in none of the alternatives `units`. */
  predicate InNone(units: seq<string>, c: char)
    decreases |units|
  {
    |units| == 0 || (c !in units[0] && InNone(units[1..], c))
  }

  /** The `k`-th alternative does not contain a character that occurs in none. */
  lemma {:induction false} InNoneAt(units: seq<string>, c: char, k: nat)
    requires InNone(units, c) && k < |units|
    ensures c !in units[k]
    decreases k
  {
    if k > 0 {
      InNoneAt(units[1..], c, k - 1);
    }
  }

  /** `c` is a separator for the alternatives `units`: no match can run over it. */
  predicate Separator(units: seq<string>, c: char) {
    !IsDigit(c) && !IsSpace(c) && InNone(units, c)
  }

  /** Before a separator, an alternative occurs at `w` in `a + t` exactly when it occurs in `a`. */
  lemma PrefixAtLeft(u: string, a: string, t: string, w: nat)
    requires w <= |a| && |t| > 0 && t[0] !in u
    ensures IsPrefixAt(u, a + t, w) <==> IsPrefixAt(u, a, w)
  {
    var s := a + t;
    if w + |u| <= |a| {
      StartsAtIsSlice(s, u, w, 0);
      StartsAtIsSlice(a, u, w, 0);
      assert s[w..w + |u|] == a[w..w + |u|];
    } else if w + |u| <= |s| {
      StartsAtIsSlice(s, u, w, 0);
      assert s[w..w + |u|][|a| - w] == t[0];
      assert s[w..w + |u|] != u;
    }
  }

  /** The first matching alternative before a separator is the same in `a + t` and in `a`. */
  lemma {:induction false} FirstUnitLeft(units: seq<string>, a: string, t: string, w: nat, k: nat)
    requires w <= |a| && |t| > 0 && InNone(units, t[0])
    ensures FirstUnit(units, a + t, w, k) == FirstUnit(units, a, w, k)
    decreases |units| - k
  {
    if k < |units| {
      InNoneAt(units, t[0], k);
      PrefixAtLeft(units[k], a, t, w);
      FirstUnitLeft(units, a, t, w, k + 1);
    }
  }

  /** A digit run ends before a non-digit, so it is the same in `a + t` and in `a`. */
  lemma {:induction false} DigitsEndLeft(a: string, t: string, i: nat)
    requires i <= |a| && |t| > 0 && !IsDigit(t[0])
    ensures DigitsEnd(a + t, i) == DigitsEnd(a, i)
    decreases |a| - i
  {
    var s := a + t;
    if i < |a| {
      assert s[i] == a[i];
      DigitsEndLeft(a, t, i + 1);
    } else {
      assert s[i] == t[0];
    }
  }

  /** A whitespace run ends before a non-space, so it is the same in `a + t` and in `a`. */
  lemma {:induction false} SpacesEndLeft(a: string, t: string, i: nat)
    requires i <= |a| && |t| > 0 && !IsSpace(t[0])
    ensures SpacesEnd(a + t, i) == SpacesEnd(a, i)
    decreases |a| - i
  {
    var s := a + t;
    if i < |a| {
      assert s[i] == a[i];
      SpacesEndLeft(a, t, i + 1);
    } else {
      assert s[i] == t[0];
    }
  }

  /** A match starting before a separator is the match of the text before it. */
  lemma MatchAtLeft(units: seq<string>, a: string, t: string, i: nat)
    requires i <= |a| && |t| > 0 && Separator(units, t[0])
    ensures MatchAt(units, a + t, i) == MatchAt(units, a, i)
  {
    var s := a + t;
    var d := DigitsEnd(a, i);
    DigitsEndLeft(a, t, i);
    SpacesEndLeft(a, t, d);
    var w := SpacesEnd(a, d);
    FirstUnitLeft(units, a, t, w, 0);
    assert s[i..d] == a[i..d];
  }

  /** A digit run in `b` ends at the same place when `b` follows `x`. */
  lemma {:induction false} DigitsEndShift(x: string, b: string, i: nat)
    requires i <= |b|
    ensures DigitsEnd(x + b, |x| + i) == |x| + DigitsEnd(b, i)
    decreases |b| - i
  {
    if i < |b| {
      assert (x + b)[|x| + i] == b[i];
      DigitsEndShift(x, b, i + 1);
    }
  }

  /** A whitespace run in `b` ends at the same place when `b` follows `x`. */
  lemma {:induction false} SpacesEndShift(x: string, b: string, i: nat)
    requires i <= |b|
    ensures SpacesEnd(x + b, |x| + i) == |x| + SpacesEnd(b, i)
    decreases |b| - i
  {
    if i < |b| {
      assert (x + b)[|x| + i] == b[i];
      SpacesEndShift(x, b, i + 1);
    }
  }

  /** The first matching alternative in `b` is the same when `b` follows `x`. */
  lemma FirstUnitShift(units: seq<string>, x: string, b: string, w: nat)
    requires w <= |b|
    ensures FirstUnit(units, x + b, |x| + w, 0) == FirstUnit(units, b, w, 0)
  {
    FirstUnitSuffix(units, x + b, |x| + w, 0);
    FirstUnitSuffix(units, b, w, 0);
    assert (x + b)[|x| + w..] == b[w..];
  }

  /** The match at a position of `b` is the same, moved by `|x|`, when `b` follows `x`. */
  lemma MatchAtShift(units: seq<string>, x: string, b: string, i: nat)
    requires i <= |b|
    ensures MatchAt(units, x + b, |x| + i) ==
            match MatchAt(units, b, i)
            case None => None
            case Some(m) => Some((m.0, |x| + m.1))
  {
    var d := DigitsEnd(b, i);
    DigitsEndShift(x, b, i);
    SpacesEndShift(x, b, d);
    FirstUnitShift(units, x, b, SpacesEnd(b, d));
    assert (x + b)[|x| + i..|x| + d] == b[i..d];
  }

  /** The match attempted at each position of `s` from `i` on. */
  function MatchesFrom(units: seq<string>, s: string, i: nat): (ms: seq<Option<(Token, nat)>>)
    requires i <= |s|
    ensures |ms| == |s| - i
    decreases |s| - i
  {
    if i == |s| then [] else [MatchAt(units, s, i)] + MatchesFrom(units, s, i + 1)
  }

  /** The match attempted at each position of `s`. */
  function Matches(units: seq<string>, s: string): (ms: seq<Option<(Token, nat)>>)
    ensures |ms| == |s|
  {
    MatchesFrom(units, s, 0)
  }

  /** The table from `i` holds the match attempted at each later position. */
  lemma {:induction false} MatchesFromAt(units: seq<string>, s: string, i: nat, j: nat)
    requires i <= j < |s|
    ensures MatchesFrom(units, s, i)[j - i] == MatchAt(units, s, j)
    decreases j - i
  {
    if i < j {
      MatchesFromAt(units, s, i + 1, j);
    }
  }

  /** The table holds the match attempted at each position. */
  lemma MatchesAt(units: seq<string>, s: string, j: nat)
    requires j < |s|
    ensures Matches(units, s)[j] == MatchAt(units, s, j)
  {
    MatchesFromAt(units, s, 0, j);
  }

  /** Every match in the table ends after its start and within the text. */
  predicate Advancing(ms: seq<Option<(Token, nat)>>) {
    forall j :: 0 <= j < |ms| && ms[j].Some? ==> j < ms[j].value.1 <= |ms|
  }

  /** `re.findall` over a table of the matches attempted at each position. */
  function ScanWith(ms: seq<Option<(Token, nat)>>, i: nat): seq<Token>
    requires i <= |ms| && Advancing(ms)
    decreases |ms| - i
  {
    if i == |ms| then []
    else
      match ms[i]
      case None => ScanWith(ms, i + 1)
      case Some(m) => [m.0] + ScanWith(ms, m.1)
  }

  /** The scan of a text is the scan over its table of matches. */
  lemma {:induction false} ScanIsScanWith(units: seq<string>, s: string, i: nat)
    requires i <= |s|
    ensures Advancing(Matches(units, s))
    ensures Scan(units, s, i) == ScanWith(Matches(units, s), i)
    decreases |s| - i
  {
    var ms := Matches(units, s);
    forall j | 0 <= j < |ms| && ms[j].Some?
      ensures j < ms[j].value.1 <= |ms|
    {
      MatchesAt(units, s, j);
    }
    if i < |s| {
      MatchesAt(units, s, i);
      match MatchAt(units, s, i)
      case None =>
        ScanIsScanWith(units, s, i + 1);
      case Some(m) =>
        ScanIsScanWith(units, s, m.1);
    }
  }

  /** One step of the scan over a table: no match moves on by one, a match
      contributes its token and moves on to its end. */
  lemma ScanWithStep(ms: seq<Option<(Token, nat)>>, i: nat)
    requires Advancing(ms) && i < |ms|
    ensures ms[i].None? ==> ScanWith(ms, i) == ScanWith(ms, i + 1)
    ensures ms[i].Some? ==> ScanWith(ms, i) == [ms[i].value.0] + ScanWith(ms, ms[i].value.1)
  {
  }

  /** `long` agrees with `short` on every position of `short`. */
  predicate Extends(long: seq<Option<(Token, nat)>>, short: seq<Option<(Token, nat)>>) {
    |short| <= |long| && forall j :: 0 <= j < |short| ==> long[j] == short[j]
  }

  /** A table that agrees with a shorter one on its positions scans, from
      inside the shorter one, as the shorter one and then on from its end. */
  lemma {:induction false} ScanWithPrefix(long: seq<Option<(Token, nat)>>, short: seq<Option<(Token, nat)>>, i: nat)
    requires Advancing(long) && Advancing(short) && i <= |short| && Extends(long, short)
    ensures ScanWith(long, i) == ScanWith(short, i) + ScanWith(long, |short|)
    decreases |short| - i
  {
    if i < |short| {
      var next := if short[i].None? then i + 1 else short[i].value.1;
      ScanWithPrefix(long, short, next);
      PrefixStep(long, short, i, next);
    } else {
      assert ScanWith(short, i) == [];
    }
  }

  /** The inductive step of `ScanWithPrefix`, given the claim at the next position. */
  lemma PrefixStep(long: seq<Option<(Token, nat)>>, short: seq<Option<(Token, nat)>>, i: nat, next: nat)
    requires Advancing(long) && Advancing(short) && i < |short| <= |long| && long[i] == short[i]
    requires next == if short[i].None? then i + 1 else short[i].value.1
    requires ScanWith(long, next) == ScanWith(short, next) + ScanWith(long, |short|)
    ensures ScanWith(long, i) == ScanWith(short, i) + ScanWith(long, |short|)
  {
    var tail := ScanWith(long, |short|);
    ScanWithStep(long, i);
    ScanWithStep(short, i);
    if short[i].Some? {
      var t := short[i].value.0;
      calc {
        ScanWith(long, i);
        [t] + ScanWith(long, next);
        [t] + (ScanWith(short, next) + tail);
        ([t] + ScanWith(short, next)) + tail;
        ScanWith(short, i) + tail;
      }
    }
  }

  /** A match moved right by `off`. */
  function Moved(m: Option<(Token, nat)>, off: nat): Option<(Token, nat)> {
    match m
    case None => None
    case Some(p) => Some((p.0, off + p.1))
  }

  /** The tail of `long` from `off` is `short` with every match moved by `off`. */
  predicate ShiftedBy(long: seq<Option<(Token, nat)>>, short: seq<Option<(Token, nat)>>, off: nat) {
    |long| == off + |short| && forall j :: 0 <= j < |short| ==> long[off + j] == Moved(short[j], off)
  }

  /** A table whose tail is a shorter table moved by `off` scans, from the
      tail, as the shorter one. */
  lemma {:induction false} ScanWithShift(long: seq<Option<(Token, nat)>>, short: seq<Option<(Token, nat)>>, off: nat, i: nat)
    requires Advancing(long) && Advancing(short) && i <= |short| && ShiftedBy(long, short, off)
    ensures ScanWith(long, off + i) == ScanWith(short, i)
    decreases |short| - i
  {
    if i < |short| {
      assert long[off + i] == Moved(short[i], off);
      match short[i]
      case None =>
        ScanWithShift(long, short, off, i + 1);
      case Some(m) =>
        ScanWithShift(long, short, off, m.1);
    }
  }

  /** Before a separator, the matches of `a + t` are those of `a`. */
  lemma MatchesLeft(units: seq<string>, a: string, t: string)
    requires |t| > 0 && Separator(units, t[0])
    ensures Extends(Matches(units, a + t), Matches(units, a))
  {
    forall j | 0 <= j < |a|
      ensures Matches(units, a + t)[j] == Matches(units, a)[j]
    {
      MatchAtLeft(units, a, t, j);
      MatchesAt(units, a + t, j);
      MatchesAt(units, a, j);
    }
  }

  /** After any text `x`, the matches of `b` are moved by `|x|`. */
  lemma MatchesRight(units: seq<string>, x: string, b: string)
    ensures ShiftedBy(Matches(units, x + b), Matches(units, b), |x|)
  {
    forall j | 0 <= j < |b|
      ensures Matches(units, x + b)[|x| + j] == Moved(Matches(units, b)[j], |x|)
    {
      MatchAtShift(units, x, b, j);
      MatchesAt(units, x + b, |x| + j);
      MatchesAt(units, b, j);
    }
  }

  /** Scanning `a + t` finds the matches of `a`, then goes on at the separator. */
  lemma ScanLeft(units: seq<string>, a: string, t: string)
    requires |t| > 0 && Separator(units, t[0])
    ensures Scan(units, a + t, 0) == Scan(units, a, 0) + Scan(units, a + t, |a|)
  {
    ScanIsScanWith(units, a + t, 0);
    ScanIsScanWith(units, a + t, |a|);
    ScanIsScanWith(units, a, 0);
    MatchesLeft(units, a, t);
    ScanWithPrefix(Matches(units, a + t), Matches(units, a), 0);
  }

  /** Scanning `x + b` from the start of `b` finds the matches of `b`. */
  lemma ScanRight(units: seq<string>, x: string, b: string)
    ensures Scan(units, x + b, |x|) == Scan(units, b, 0)
  {
    ScanIsScanWith(units, x + b, |x|);
    ScanIsScanWith(units, b, 0);
    MatchesRight(units, x, b);
    ScanWithShift(Matches(units, x + b), Matches(units, b), |x|, 0);
  }

  /** Around a separator the matches are those of the text before it, then
      those of the text after it. */
  lemma ScanSplits(units: seq<string>, a: string, c: char, b: string)
    requires Separator(units, c)
    ensures Scan(units, a + [c] + b, 0) == Scan(units, a, 0) + Scan(units, b, 0)
  {
    var x := a + [c];
    assert a + [c] + b == a + ([c] + b);
    ScanLeft(units, a, [c] + b);
    assert (a + [c] + b)[|a|] == c;
    assert MatchAt(units, a + [c] + b, |a|).None?;
    assert Scan(units, a + [c] + b, |a|) == Scan(units, x + b, |x|);
    ScanRight(units, x, b);
  }

  /** The amounts of two token lists add up. */
  lemma {:induction false} TotalAppend(t1: seq<Token>, t2: seq<Token>, fixed: bool)
    ensures Total(t1 + t2, fixed) == Total(t1, fixed) + Total(t2, fixed)
  {
    if |t1| > 0 {
      var t := t1[0];
      var amount := DigitsValue(t.digits) * FieldMillis(FieldOf(t.unit, fixed));
      assert (t1 + t2)[0] == t;
      assert (t1 + t2)[1..] == t1[1..] + t2;
      TotalAppend(t1[1..], t2, fixed);
      assert Total(t1 + t2, fixed) == amount + Total(t1[1..] + t2, fixed);
      assert Total(t1, fixed) == amount + Total(t1[1..], fixed);
    } else {
      assert t1 + t2 == t2;
    }
  }

  /** Lower-casing works character by character. */
  lemma LowerSplits(a: string, c: char, b: string)
    requires !('A' <= c <= 'Z')
    ensures LowerString(a + [c] + b) == LowerString(a) + [c] + LowerString(b)
  {
    var t := a + [c] + b;
    var l, la, lb := LowerString(t), LowerString(a), LowerString(b);
    var r := la + [c] + lb;
    assert |l| == |r|;
    forall k | 0 <= k < |l|
      ensures l[k] == r[k]
    {
      if k < |a| {
        assert t[k] == a[k] && r[k] == la[k];
      } else if k == |a| {
        assert t[k] == c && r[k] == c;
      } else {
        assert t[k] == b[k - |a| - 1] && r[k] == lb[k - |a| - 1];
      }
    }
    assert l == r;
  }

  /** No alternative of the pattern contains ';'. */
  lemma SemicolonSeparates()
    ensures Separator(Units, ';')
  {
    assert InNone(Units[12..], ';');
    assert InNone(Units[11..], ';');
    assert InNone(Units[10..], ';');
    assert InNone(Units[9..], ';');
    assert InNone(Units[8..], ';');
    assert InNone(Units[7..], ';');
    assert InNone(Units[6..], ';');
    assert InNone(Units[5..], ';');
    assert InNone(Units[4..], ';');
    assert InNone(Units[3..], ';');
    assert InNone(Units[2..], ';');
    assert InNone(Units[1..], ';');
    assert Units[0..] == Units;
  }

  /** Durations joined by ';' add up: every match counts once, wherever it
      is, and the text between matches adds nothing. */
  lemma ParseAdditive(a: string, b: string, fixed: bool)
    ensures Parse(a + ";" + b, fixed) == Parse(a, fixed) + Parse(b, fixed)
  {
    SemicolonSeparates();
    LowerSplits(a, ';', b);
    var la, lb := LowerString(a), LowerString(b);
    ScanSplits(Units, la, ';', lb);
    TotalAppend(Scan(Units, la, 0), Scan(Units, lb, 0), fixed);
  }

  /** The pattern matches at no position of `s` from `i` on. */
  predicate NowhereMatches(units: seq<string>, s: string, i: nat)
    requires i <= |s|
  {
    forall j :: i <= j <= |s| ==> MatchAt(units, s, j).None?
  }

  /** Where no match starts, scanning finds nothing. */
  lemma {:induction false} NoMatchNoTokens(units: seq<string>, s: string, i: nat)
    requires i <= |s| && NowhereMatches(units, s, i)
    ensures Scan(units, s, i) == []
    decreases |s| - i
  {
    if i < |s| {
      assert MatchAt(units, s, i).None?;
      assert NowhereMatches(units, s, i + 1);
      NoMatchNoTokens(units, s, i + 1);
    }
  }

  /** Text in which the pattern matches nowhere is a zero duration. */
  lemma ParseNoMatchIsZero(text: string, fixed: bool)
    requires NowhereMatches(Units, LowerString(text), 0)
    ensures Parse(text, fixed) == 0
  {
    NoMatchNoTokens(Units, LowerString(text), 0);
  }

  /** "5 apples" names no unit of the pattern, so it is a zero duration. */
  lemma ApplesAreZero(fixed: bool)
    ensures Parse("5 apples", fixed) == 0
  {
    LowerApples();
    ApplesNowhere();
    ParseNoMatchIsZero("5 apples", fixed);
  }

  /** "5 apples" has no upper-case letter. */
  lemma LowerApples()
    ensures LowerString("5 apples") == "5 apples"
  {
  }

  /** The pattern matches nowhere in "5 apples": only its first position is a
      digit, and no alternative starts at "apples". */
  lemma ApplesNowhere()
    ensures NowhereMatches(Units, "5 apples", 0)
  {
    var s := "5 apples";
    forall j | 0 <= j <= |s|
      ensures MatchAt(Units, s, j).None?
    {
      if j == 0 {
        assert DigitsEnd(s, 0) == 1;
        assert SpacesEnd(s, 1) == 2;
        ApplesHaveNoUnit();
      } else if j < |s| {
        assert !IsDigit(s[j]);
      }
    }
  }

  /** No alternative of the pattern starts where "apples" does. */
  lemma ApplesHaveNoUnit()
    ensures FirstUnit(Units, "5 apples", 2, 0).None?
  {
    assert FirstUnit(Units, "5 apples", 2, 12).None?;
  }

  /** "<n> days" is n days, whichever chain classifies the unit. */
  lemma DaysParseEither(n: nat, fixed: bool)
    ensures Parse(NatToDigits(n) + " days", fixed) == n * FieldMillis(Days)
  {
    DaysParse(n);
  }

  /** The same unit written twice accumulates: "<m> days;<n> days" is m + n days. */
  lemma RepeatedDaysAccumulate(m: nat, n: nat, fixed: bool)
    ensures Parse((NatToDigits(m) + " days") + ";" + (NatToDigits(n) + " days"), fixed) == (m + n) * FieldMillis(Days)
  {
    var a, b := NatToDigits(m) + " days", NatToDigits(n) + " days";
    ParseAdditive(a, b, fixed);
    DaysParseEither(m, fixed);
    DaysParseEither(n, fixed);
    Distributes(m, n, FieldMillis(Days));
  }

  /** Multiplication distributes over addition. */
  lemma Distributes(m: nat, n: nat, f: nat)
    ensures m * f + n * f == (m + n) * f
  {
  }
}
