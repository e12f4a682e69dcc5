/** Merging the NESSCAN-fixed water levels into lighthouse data
    (integrate_nesscan_fix.py): duplicate classification, keep-first
    de-duplication by datetime, and the datetime-aligned `update`, per year
    present in both inputs. A frame is a sequence of (dt, wl) observations.
    Like pandas `duplicated`, the duplicate tests treat NaN as equal to NaN.
 */
module Nesscan {
  import opened Values

  /** The datetimes of a frame, in order. */
  function Dts(rows: seq<Observation>): (dts: seq<int>)
    ensures |dts| == |rows|
    ensures forall i :: 0 <= i < |rows| ==> dts[i] == rows[i].dt
  {
    seq(|rows|, i requires 0 <= i < |rows| => rows[i].dt)
  }

  /** Splitting a sequence at position `i` leaves one occurrence of `s[i]` fewer. */
  lemma MultisetAround<T>(s: seq<T>, i: nat)
    requires i < |s|
    ensures multiset(s) == multiset(s[..i] + s[i + 1..]) + multiset{s[i]}
  {
    assert s == s[..i] + [s[i]] + s[i + 1..];
  }

  /** A value occurs at least twice exactly when two different positions hold it. */
  lemma {:induction false} TwiceIffTwin<T>(s: seq<T>, i: nat)
    requires i < |s|
    ensures multiset(s)[s[i]] >= 2 <==> exists j :: 0 <= j < |s| && j != i && s[j] == s[i]
  {
    MultisetAround(s, i);
    var rest := s[..i] + s[i + 1..];
    if multiset(s)[s[i]] >= 2 {
      assert s[i] in multiset(rest);
      var k :| 0 <= k < |rest| && rest[k] == s[i];
      if k < i {
        assert s[k] == s[i];
      } else {
        assert s[k + 1] == s[i];
      }
    }
    if exists j :: 0 <= j < |s| && j != i && s[j] == s[i] {
      var j :| 0 <= j < |s| && j != i && s[j] == s[i];
      if j < i {
        assert rest[j] == s[i];
      } else {
        assert rest[j - 1] == s[i];
      }
      assert s[i] in multiset(rest);
    }
  }

  // ---------------------------------------------------------------------------
  // Duplicate flags

  /** `duplicated(subset=['dt', 'wl'], keep=False)`: the rows whose (dt, wl)
      occurs more than once, every occurrence flagged. */
  function TotalDuplicates(rows: seq<Observation>): (flags: seq<bool>)
    ensures |flags| == |rows|
  {
    seq(|rows|, i requires 0 <= i < |rows| => multiset(rows)[rows[i]] >= 2)
  }

  /** `duplicated(subset='dt', keep=False) & ~total_duplicates`. */
  function PartialDuplicates(rows: seq<Observation>): (flags: seq<bool>)
    ensures |flags| == |rows|
    ensures forall i :: 0 <= i < |rows| ==> !(flags[i] && TotalDuplicates(rows)[i])
  {
    var total := TotalDuplicates(rows);
    seq(|rows|, i requires 0 <= i < |rows| => multiset(Dts(rows))[rows[i].dt] >= 2 && !total[i])
  }

  /** A row is a total duplicate exactly when another row has the same dt and wl. */
  lemma TotalDuplicateIffTwin(rows: seq<Observation>, i: nat)
    requires i < |rows|
    ensures TotalDuplicates(rows)[i] <==> exists j :: 0 <= j < |rows| && j != i && rows[j] == rows[i]
  {
    TwiceIffTwin(rows, i);
  }

  /** A row is a partial duplicate exactly when another row shares its dt and
      no other row shares both its dt and its wl; such a row then has a
      conflicting twin, a row at the same dt with a different wl. */
  lemma PartialDuplicateIffConflict(rows: seq<Observation>, i: nat)
    requires i < |rows|
    ensures PartialDuplicates(rows)[i] <==>
              (exists j :: 0 <= j < |rows| && j != i && rows[j].dt == rows[i].dt) &&
              (forall j :: 0 <= j < |rows| && j != i && rows[j].dt == rows[i].dt ==> rows[j].wl != rows[i].wl)
    ensures PartialDuplicates(rows)[i] ==>
              exists j :: 0 <= j < |rows| && j != i && rows[j].dt == rows[i].dt && rows[j].wl != rows[i].wl
  {
    var dts := Dts(rows);
    TwiceIffTwin(dts, i);
    TwiceIffTwin(rows, i);
    if exists j :: 0 <= j < |dts| && j != i && dts[j] == dts[i] {
      var j :| 0 <= j < |dts| && j != i && dts[j] == dts[i];
      assert rows[j].dt == rows[i].dt;
    }
    if exists j :: 0 <= j < |rows| && j != i && rows[j].dt == rows[i].dt {
      var j :| 0 <= j < |rows| && j != i && rows[j].dt == rows[i].dt;
      assert dts[j] == dts[i];
    }
  }

  // ---------------------------------------------------------------------------
  // drop_duplicates(subset='dt', keep='first')

  /** The de-duplicated frame: each row whose dt has not been kept yet. */
  function DropDuplicates(rows: seq<Observation>): (kept: seq<Observation>)
    ensures |kept| <= |rows|
    ensures forall i, j :: 0 <= i < j < |kept| ==> kept[i].dt != kept[j].dt
    ensures forall x :: x in kept ==> x in rows
    ensures forall t :: t in Dts(kept) <==> t in Dts(rows)
  {
    if |rows| == 0 then []
    else
      var n := |rows| - 1;
      var p := DropDuplicates(rows[..n]);
      assert forall t :: t in Dts(rows) <==> t in Dts(rows[..n]) || t == rows[n].dt by {
        forall t | t in Dts(rows)
          ensures t in Dts(rows[..n]) || t == rows[n].dt
        {
          var k :| 0 <= k < |rows| && Dts(rows)[k] == t;
          if k < n {
            assert Dts(rows[..n])[k] == t;
          }
        }
        forall t | t in Dts(rows[..n])
          ensures t in Dts(rows)
        {
          var k :| 0 <= k < n && Dts(rows[..n])[k] == t;
          assert Dts(rows)[k] == t;
        }
        assert Dts(rows)[n] == rows[n].dt;
      }
      if rows[n].dt in Dts(p) then p
      else
        var kept := p + [rows[n]];
        assert forall i :: 0 <= i < |p| ==> kept[i].dt != rows[n].dt by {
          forall i | 0 <= i < |p|
            ensures kept[i].dt != rows[n].dt
          {
            assert Dts(p)[i] == p[i].dt;
          }
        }
        assert forall t :: t in Dts(kept) <==> t in Dts(p) || t == rows[n].dt by {
          forall t | t in Dts(kept)
            ensures t in Dts(p) || t == rows[n].dt
          {
            var k :| 0 <= k < |kept| && Dts(kept)[k] == t;
            if k < |p| {
              assert Dts(p)[k] == t;
            }
          }
          forall t | t in Dts(p)
            ensures t in Dts(kept)
          {
            var k :| 0 <= k < |p| && Dts(p)[k] == t;
            assert Dts(kept)[k] == t;
          }
          assert Dts(kept)[|p|] == rows[n].dt;
        }
        kept
  }

  /** Whether position `i` holds the first occurrence of its dt. */
  predicate IsFirst(rows: seq<Observation>, i: nat)
    requires i < |rows|
  {
    rows[i].dt !in Dts(rows[..i])
  }

  /** Reference definition: the first-occurrence rows among the first `n`, in order. */
  function FirstOccurrences(rows: seq<Observation>, n: nat): seq<Observation>
    requires n <= |rows|
  {
    if n == 0 then [] else FirstOccurrences(rows, n - 1) + (if IsFirst(rows, n - 1) then [rows[n - 1]] else [])
  }

  /** `drop_duplicates(keep='first')` keeps exactly the first occurrence of each
      dt, in their original order. */
  lemma {:induction false} DropDuplicatesKeepsFirsts(rows: seq<Observation>)
    ensures DropDuplicates(rows) == FirstOccurrences(rows, |rows|)
  {
    if |rows| > 0 {
      var n := |rows| - 1;
      var prefix := rows[..n];
      DropDuplicatesKeepsFirsts(prefix);
      FirstOccurrencesAgree(rows, prefix, n);
    }
  }

  /** The reference definition up to `n` only looks at the first `n` rows. */
  lemma {:induction false} FirstOccurrencesAgree(a: seq<Observation>, b: seq<Observation>, n: nat)
    requires n <= |a| && n <= |b| && a[..n] == b[..n]
    ensures FirstOccurrences(a, n) == FirstOccurrences(b, n)
  {
    if n > 0 {
      assert a[..n - 1] == a[..n][..n - 1] == b[..n][..n - 1] == b[..n - 1];
      assert a[n - 1] == a[..n][n - 1] == b[..n][n - 1] == b[n - 1];
      FirstOccurrencesAgree(a, b, n - 1);
    }
  }

  /** After de-duplication the dts are unique, so `update` can align on them. */
  predicate UniqueDts(rows: seq<Observation>) {
    forall i, j :: 0 <= i < j < |rows| ==> rows[i].dt != rows[j].dt
  }

  // ---------------------------------------------------------------------------
  // update

  /** The row of `rows` at datetime `t`, if any (the first one). */
  function Find(rows: seq<Observation>, t: int): (o: Option<Observation>)
    ensures o.Some? <==> t in Dts(rows)
    ensures o.Some? ==> o.value in rows && o.value.dt == t
  {
    if |rows| == 0 then None
    else if rows[0].dt == t then Some(rows[0])
    else
      assert forall u :: u in Dts(rows) <==> u == rows[0].dt || u in Dts(rows[1..]) by {
        forall u | u in Dts(rows)
          ensures u == rows[0].dt || u in Dts(rows[1..])
        {
          var k :| 0 <= k < |rows| && Dts(rows)[k] == u;
          if k > 0 {
            assert Dts(rows[1..])[k - 1] == u;
          }
        }
        forall u | u in Dts(rows[1..])
          ensures u in Dts(rows)
        {
          var k :| 0 <= k < |rows| - 1 && Dts(rows[1..])[k] == u;
          assert Dts(rows)[k + 1] == u;
        }
      }
      Find(rows[1..], t)
  }

  /** With unique dts, looking up the dt of a row finds that row. */
  lemma FindUnique(rows: seq<Observation>, x: Observation)
    requires UniqueDts(rows) && x in rows
    ensures Find(rows, x.dt) == Some(x)
  {
    var y := Find(rows, x.dt).value;
    var a :| 0 <= a < |rows| && rows[a] == x;
    var b :| 0 <= b < |rows| && rows[b] == y;
    assert a == b;
  }

  /** One lighthouse row after the update: the NESSCAN level at its dt, when there is a non-NaN one. */
  function UpdateRow(row: Observation, nesscan: seq<Observation>): Observation {
    match Find(nesscan, row.dt)
    case Some(other) => if other.wl.Some? then row.(wl := other.wl) else row
    case None => row
  }

  /** What `update` promises of one row: same dt; a changed level comes from a
      non-NaN NESSCAN level at that dt; every such level is taken; a row whose
      dt NESSCAN lacks is unchanged. */
  predicate UpdateRowSound(row: Observation, nesscan: seq<Observation>, updated: Observation) {
    updated.dt == row.dt &&
    (updated.wl != row.wl ==> exists x :: x in nesscan && x.dt == row.dt && x.wl == updated.wl && x.wl.Some?) &&
    (forall x :: x in nesscan && x.dt == row.dt && x.wl.Some? ==> updated.wl == x.wl) &&
    (row.dt !in Dts(nesscan) ==> updated == row)
  }

  /** Each updated row keeps the promise of `update`. */
  lemma UpdateRowFacts(row: Observation, nesscan: seq<Observation>)
    requires UniqueDts(nesscan)
    ensures UpdateRowSound(row, nesscan, UpdateRow(row, nesscan))
  {
    var f := Find(nesscan, row.dt);
    if f.Some? {
      assert f.value in nesscan && f.value.dt == row.dt;
      forall x | x in nesscan && x.dt == row.dt
        ensures x == f.value
      {
        FindUnique(nesscan, x);
      }
    }
  }

  /** `lh_df.set_index('dt').update(nesscan_df.set_index('dt')).reset_index()`:
      the lighthouse rows in order with their wl replaced by the non-NaN
      NESSCAN wl at the same dt; pandas refuses to align on a NESSCAN index
      with repeated dts (ValueError). */
  function Update(lighthouse: seq<Observation>, nesscan: seq<Observation>): (o: Outcome<seq<Observation>>)
    ensures o.Raised? <==> !UniqueDts(nesscan)
    ensures o.Raised? ==> o.error == ValueError
    ensures !o.Hangs?
    ensures o.Done? ==> |o.value| == |lighthouse| && Dts(o.value) == Dts(lighthouse)
    ensures o.Done? ==> forall i :: 0 <= i < |lighthouse| ==>
              (o.value[i].wl != lighthouse[i].wl ==> exists x :: x in nesscan && x.dt == lighthouse[i].dt && x.wl == o.value[i].wl && x.wl.Some?)
    ensures o.Done? ==> forall i, x :: 0 <= i < |lighthouse| && x in nesscan && x.dt == lighthouse[i].dt && x.wl.Some? ==>
              o.value[i].wl == x.wl
    ensures o.Done? ==> forall i :: 0 <= i < |lighthouse| && lighthouse[i].dt !in Dts(nesscan) ==> o.value[i] == lighthouse[i]
  {
    if !UniqueDts(nesscan) then Raised(ValueError)
    else
      var merged := seq(|lighthouse|, i requires 0 <= i < |lighthouse| => UpdateRow(lighthouse[i], nesscan));
      assert forall i :: 0 <= i < |lighthouse| ==> UpdateRowSound(lighthouse[i], nesscan, merged[i]) by {
        forall i | 0 <= i < |lighthouse|
          ensures UpdateRowSound(lighthouse[i], nesscan, merged[i])
        {
          UpdateRowFacts(lighthouse[i], nesscan);
        }
      }
      assert Dts(merged) == Dts(lighthouse);
      Done(merged)
  }

  /** The per-year merge of the script: de-duplicate, then update. It never raises. */
  function FixYear(lighthouse: seq<Observation>, nesscan: seq<Observation>): (fixed: seq<Observation>)
    ensures |fixed| == |lighthouse| && Dts(fixed) == Dts(lighthouse)
    ensures Update(lighthouse, DropDuplicates(nesscan)) == Done(fixed)
  {
    Update(lighthouse, DropDuplicates(nesscan)).value
  }

  /** The level a lighthouse row takes from NESSCAN is the level of the first
      NESSCAN row at its dt, if that level is not NaN. */
  lemma FixYearTakesFirstOccurrence(lighthouse: seq<Observation>, nesscan: seq<Observation>, i: nat, a: nat)
    requires i < |lighthouse| && a < |nesscan|
    requires nesscan[a].dt == lighthouse[i].dt && IsFirst(nesscan, a)
    ensures FixYear(lighthouse, nesscan)[i].wl == (if nesscan[a].wl.Some? then nesscan[a].wl else lighthouse[i].wl)
  {
    DropDuplicatesKeepsFirsts(nesscan);
    FirstOccurrencesHolds(nesscan, |nesscan|, a);
    var kept := DropDuplicates(nesscan);
    assert nesscan[a] in kept;
    var found := Find(kept, lighthouse[i].dt).value;
    var b :| 0 <= b < |kept| && kept[b] == found;
    var c :| 0 <= c < |kept| && kept[c] == nesscan[a];
    assert b == c;
  }

  /** Every first occurrence among the first `n` rows is in the reference selection. */
  lemma {:induction false} FirstOccurrencesHolds(rows: seq<Observation>, n: nat, a: nat)
    requires a < n <= |rows| && IsFirst(rows, a)
    ensures rows[a] in FirstOccurrences(rows, n)
  {
    if a < n - 1 {
      FirstOccurrencesHolds(rows, n - 1, a);
    }
  }

  /** Updating twice with the same de-duplicated data changes nothing more. */
  lemma UpdateIdempotent(lighthouse: seq<Observation>, nesscan: seq<Observation>)
    requires UniqueDts(nesscan)
    ensures Update(Update(lighthouse, nesscan).value, nesscan) == Update(lighthouse, nesscan)
  {
    var once := Update(lighthouse, nesscan).value;
    var twice := Update(once, nesscan).value;
    assert Dts(once) == Dts(lighthouse);
    forall i | 0 <= i < |once|
      ensures twice[i] == once[i]
    {
      assert once[i].dt == lighthouse[i].dt && twice[i].dt == once[i].dt;
      if exists x :: x in nesscan && x.dt == lighthouse[i].dt && x.wl.Some? {
        var x :| x in nesscan && x.dt == lighthouse[i].dt && x.wl.Some?;
        assert once[i].wl == x.wl && twice[i].wl == x.wl;
      } else {
        assert once[i].wl == lighthouse[i].wl;
        assert twice[i].wl == once[i].wl;
      }
    }
    assert twice == once;
  }

  // ---------------------------------------------------------------------------
  // The yearly loop

  /** The merged frames: one per year keyed in both the lighthouse and the NESSCAN dictionaries. */
  function Integrate(lighthouse: map<int, seq<Observation>>, nesscan: map<int, seq<Observation>>): (fixed: map<int, seq<Observation>>)
    ensures fixed.Keys == lighthouse.Keys * nesscan.Keys
    ensures forall y :: y in fixed ==> |fixed[y]| == |lighthouse[y]| && Dts(fixed[y]) == Dts(lighthouse[y])
    ensures forall y :: y in fixed ==> Update(lighthouse[y], DropDuplicates(nesscan[y])) == Done(fixed[y])
  {
    map y | y in lighthouse.Keys * nesscan.Keys :: FixYear(lighthouse[y], nesscan[y])
  }
}
