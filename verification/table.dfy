/** The line-building part of `write_table_from_nested_dict` in helpers.py:
    a plain-text table whose columns are the inner keys in order of first
    appearance, each padded to its widest entry, joined with " | ", under a
    divider of dashes. Appending the lines to a file is not modelled.
 */
module Table {
  import opened Values

  /** One entry of an inner dictionary: its key and `str(value)`. */
  datatype Item = Item(column: string, text: string)

  /** One row of the nested dictionary: `str(row_name)` and its inner entries in order. */
  datatype Entry = Entry(name: string, items: seq<Item>)

  const Separator: string := " | "

  function Max(a: int, b: int): int { if a >= b then a else b }

  // ---------------------------------------------------------------------------
  // Column order

  /** Every inner entry of every row, in the order the nested loops visit them. */
  function Flatten(rows: seq<Entry>): seq<Item>
  {
    if |rows| == 0 then [] else Flatten(rows[..|rows| - 1]) + rows[|rows| - 1].items
  }

  /** An entry is visited exactly when some row holds it. */
  lemma {:induction false} FlattenHolds(rows: seq<Entry>, it: Item)
    ensures it in Flatten(rows) <==> exists e :: e in rows && it in e.items
  {
    if |rows| > 0 {
      var n := |rows| - 1;
      FlattenHolds(rows[..n], it);
      if it in rows[n].items {
        assert rows[n] in rows;
      }
      if exists e :: e in rows[..n] && it in e.items {
        var e :| e in rows[..n] && it in e.items;
        assert e in rows;
      }
      if exists e :: e in rows && it in e.items {
        var e :| e in rows && it in e.items;
        if e != rows[n] {
          assert e in rows[..n];
        }
      }
    }
  }

  /** The keys of `items`, in order. */
  function Names(items: seq<Item>): (names: seq<string>)
    ensures |names| == |items|
    ensures forall k :: 0 <= k < |items| ==> names[k] == items[k].column
  {
    seq(|items|, k requires 0 <= k < |items| => items[k].column)
  }

  /** The position of the first occurrence of `x` in `xs`. */
  function FirstIndex<T(==,!new)>(xs: seq<T>, x: T): (i: nat)
    requires x in xs
    ensures i < |xs| && xs[i] == x && x !in xs[..i]
  {
    if xs[0] == x then 0
    else
      var j := FirstIndex(xs[1..], x);
      assert xs[..j + 1] == [xs[0]] + xs[1..][..j];
      j + 1
  }

  /** The first-occurrence position is the only position holding `x` with no `x` before it. */
  lemma FirstIndexUnique<T(!new)>(xs: seq<T>, x: T, k: nat)
    requires k < |xs| && xs[k] == x && x !in xs[..k]
    ensures FirstIndex(xs, x) == k
  {
    var i := FirstIndex(xs, x);
  }

  /** The loop `if column_name not in column_names: column_names.append(column_name)`:
      each value once, at its first occurrence. */
  function KeepFirst<T(==,!new)>(xs: seq<T>): (r: seq<T>)
    ensures forall x :: x in r <==> x in xs
    ensures forall i, j :: 0 <= i < j < |r| ==> r[i] != r[j]
  {
    if |xs| == 0 then []
    else
      var n := |xs| - 1;
      var p := KeepFirst(xs[..n]);
      assert forall x :: x in xs <==> x in xs[..n] || x == xs[n];
      if xs[n] in p then p else p + [xs[n]]
  }

  /** The kept values are in the order of their first occurrences. */
  lemma {:induction false} KeepFirstOrder<T(!new)>(xs: seq<T>)
    ensures forall i, j :: 0 <= i < j < |KeepFirst(xs)| ==>
              FirstIndex(xs, KeepFirst(xs)[i]) < FirstIndex(xs, KeepFirst(xs)[j])
  {
    if |xs| > 0 {
      var n := |xs| - 1;
      var prefix := xs[..n];
      var p := KeepFirst(prefix);
      var r := KeepFirst(xs);
      KeepFirstOrder(prefix);
      forall y | y in prefix
        ensures FirstIndex(xs, y) == FirstIndex(prefix, y) < n
      {
        var i := FirstIndex(prefix, y);
        assert xs[..i] == prefix[..i];
        FirstIndexUnique(xs, y, i);
      }
      forall i, j | 0 <= i < j < |r|
        ensures FirstIndex(xs, r[i]) < FirstIndex(xs, r[j])
      {
        assert r[i] == p[i] && r[i] in prefix;
        if j == |p| {
          assert r[j] == xs[n] && xs[n] !in prefix;
          FirstIndexUnique(xs, xs[n], n);
        } else {
          assert r[j] == p[j] && r[j] in prefix;
        }
      }
    }
  }

  /** The column names of the table. */
  function Columns(rows: seq<Entry>): (columns: seq<string>)
    ensures forall c :: c in columns <==> exists it :: it in Flatten(rows) && it.column == c
    ensures forall i, j :: 0 <= i < j < |columns| ==> columns[i] != columns[j]
  {
    var items := Flatten(rows);
    var names := Names(items);
    assert forall c :: c in names <==> exists it :: it in items && it.column == c by {
      forall c | c in names
        ensures exists it :: it in items && it.column == c
      {
        var k :| 0 <= k < |names| && names[k] == c;
        assert items[k] in items;
      }
      forall it | it in items
        ensures it.column in names
      {
        var k :| 0 <= k < |items| && items[k] == it;
        assert names[k] == it.column;
      }
    }
    KeepFirst(names)
  }

  /** Columns appear in the order their keys are first met across the rows. */
  lemma ColumnsInFirstAppearanceOrder(rows: seq<Entry>)
    ensures var names, columns := Names(Flatten(rows)), Columns(rows);
            forall i, j :: 0 <= i < j < |columns| ==> FirstIndex(names, columns[i]) < FirstIndex(names, columns[j])
  {
    KeepFirstOrder(Names(Flatten(rows)));
  }

  // ---------------------------------------------------------------------------
  // Widths and padding

  /** `max_column_widths[c]`: starting from 0, the maximum over the entries of
      column `c` of the longer of the key and the value text. */
  function Width(items: seq<Item>, c: string): (w: nat)
    ensures forall it :: it in items && it.column == c ==> |c| <= w && |it.text| <= w
    ensures (forall it :: it in items ==> it.column != c) ==> w == 0
  {
    if |items| == 0 then 0
    else
      var n := |items| - 1;
      var w0 := Width(items[..n], c);
      assert forall it :: it in items <==> it in items[..n] || it == items[n];
      if items[n].column == c then Max(w0, Max(|c|, |items[n].text|)) else w0
  }

  /** The width is attained: it is the key's length or some value text's length (or 0 for no entry). */
  lemma {:induction false} WidthAttained(items: seq<Item>, c: string)
    ensures var w := Width(items, c);
            w == 0 || w == |c| || exists it :: it in items && it.column == c && |it.text| == w
  {
    if |items| > 0 {
      var n := |items| - 1;
      WidthAttained(items[..n], c);
      var w0 := Width(items[..n], c);
      if exists it :: it in items[..n] && it.column == c && |it.text| == w0 {
        var it :| it in items[..n] && it.column == c && |it.text| == w0;
        assert it in items;
      }
    }
  }

  /** `n` blanks. */
  function Spaces(n: nat): (s: string)
    ensures |s| == n && forall k :: 0 <= k < n ==> s[k] == ' '
  {
    seq(n, _ => ' ')
  }

  /** `s.ljust(w)`: `s` followed by blanks up to width `w`; never truncated. */
  function LJust(s: string, w: int): (t: string)
    ensures |t| == Max(|s|, w)
    ensures t[..|s|] == s
    ensures forall k :: |s| <= k < |t| ==> t[k] == ' '
  {
    if |s| >= w then s else s + Spaces(w - |s|)
  }

  // ---------------------------------------------------------------------------
  // Joining

  /** `sep.join(cells)`. */
  function Join(cells: seq<string>, sep: string): string
  {
    if |cells| == 0 then ""
    else if |cells| == 1 then cells[0]
    else Join(cells[..|cells| - 1], sep) + sep + cells[|cells| - 1]
  }

  /** Where cell `k` starts in the joined line: the cells before it and their separators. */
  function Offset(cells: seq<string>, sepLength: nat, k: nat): nat
    requires k <= |cells|
  {
    if k == 0 then 0 else Offset(cells, sepLength, k - 1) + |cells[k - 1]| + sepLength
  }

  /** Offsets depend on the cell lengths only. */
  lemma {:induction false} OffsetByLengths(a: seq<string>, b: seq<string>, sepLength: nat, k: nat)
    requires |a| == |b| && k <= |a|
    requires forall i :: 0 <= i < |a| ==> |a[i]| == |b[i]|
    ensures Offset(a, sepLength, k) == Offset(b, sepLength, k)
  {
    if k > 0 {
      OffsetByLengths(a, b, sepLength, k - 1);
    }
  }

  /** Offsets of a prefix are the offsets of the whole. */
  lemma {:induction false} OffsetPrefix(cells: seq<string>, sepLength: nat, n: nat, k: nat)
    requires k <= n <= |cells|
    ensures Offset(cells[..n], sepLength, k) == Offset(cells, sepLength, k)
  {
    if k > 0 {
      OffsetPrefix(cells, sepLength, n, k - 1);
    }
  }

  /** The joined line has every cell and a separator between consecutive ones. */
  lemma {:induction false} JoinLength(cells: seq<string>, sep: string)
    requires |cells| > 0
    ensures |Join(cells, sep)| + |sep| == Offset(cells, |sep|, |cells|)
  {
    var n := |cells| - 1;
    if n > 0 {
      JoinLength(cells[..n], sep);
      OffsetPrefix(cells, |sep|, n, n);
    }
  }

  /** Cell `k` sits in the joined line at its offset. */
  lemma {:induction false} JoinPlacesCell(cells: seq<string>, sep: string, k: nat)
    requires k < |cells|
    ensures Offset(cells, |sep|, k) + |cells[k]| <= |Join(cells, sep)|
    ensures Join(cells, sep)[Offset(cells, |sep|, k)..Offset(cells, |sep|, k) + |cells[k]|] == cells[k]
  {
    var n := |cells| - 1;
    JoinLength(cells, sep);
    if n > 0 {
      var front := Join(cells[..n], sep);
      JoinLength(cells[..n], sep);
      OffsetPrefix(cells, |sep|, n, n);
      OffsetPrefix(cells, |sep|, n, k);
      var line := Join(cells, sep);
      assert line == front + sep + cells[n];
      var o := Offset(cells, |sep|, k);
      if k == n {
        assert o == |front| + |sep|;
        assert line[o..] == cells[n];
      } else {
        JoinPlacesCell(cells[..n], sep, k);
        assert o + |cells[k]| <= |front|;
        assert line[..|front|] == front;
        assert line[o..o + |cells[k]|] == front[o..o + |cells[k]|];
      }
    }
  }

  // ---------------------------------------------------------------------------
  // The table

  /** The value text of column `c` in a row's entries, if it has one. */
  function Lookup(items: seq<Item>, c: string): (o: Option<string>)
    ensures o.Some? <==> exists it :: it in items && it.column == c
    ensures o.Some? ==> Item(c, o.value) in items
  {
    if |items| == 0 then None
    else if items[0].column == c then Some(items[0].text)
    else
      assert forall it :: it in items <==> it == items[0] || it in items[1..];
      Lookup(items[1..], c)
  }

  /** A row's text for column `c`; a missing entry is the empty string. */
  function CellText(e: Entry, c: string): string {
    match Lookup(e.items, c)
    case Some(t) => t
    case None => ""
  }

  /** The width the table gives column `c`. */
  function ColumnWidth(rows: seq<Entry>, c: string): nat {
    Width(Flatten(rows), c)
  }

  /** The padded header cells: the row header, then each column name at its width. */
  function HeaderCells(rows: seq<Entry>, rowHeader: string): (cells: seq<string>)
    ensures |cells| == |Columns(rows)| + 1 && cells[0] == rowHeader
  {
    var columns := Columns(rows);
    [LJust(rowHeader, |rowHeader|)] + seq(|columns|, k requires 0 <= k < |columns| => LJust(columns[k], ColumnWidth(rows, columns[k])))
  }

  /** The padded cells of one row: its name at the row header's width, then each column's text. */
  function RowCells(rows: seq<Entry>, rowHeader: string, e: Entry): (cells: seq<string>)
    ensures |cells| == |Columns(rows)| + 1 && cells[0] == LJust(e.name, |rowHeader|)
  {
    var columns := Columns(rows);
    [LJust(e.name, |rowHeader|)] + seq(|columns|, k requires 0 <= k < |columns| => LJust(CellText(e, columns[k]), ColumnWidth(rows, columns[k])))
  }

  /** The written lines: header, divider, then one line per row. */
  function TableLines(rows: seq<Entry>, rowHeader: string): (lines: seq<string>)
    ensures |lines| == |rows| + 2
    ensures lines[0] == Join(HeaderCells(rows, rowHeader), Separator)
    ensures |lines[1]| == |lines[0]| && forall k :: 0 <= k < |lines[1]| ==> lines[1][k] == '-'
    ensures forall i :: 0 <= i < |rows| ==> lines[i + 2] == Join(RowCells(rows, rowHeader, rows[i]), Separator)
  {
    var header := Join(HeaderCells(rows, rowHeader), Separator);
    [header, seq(|header|, _ => '-')] +
      seq(|rows|, i requires 0 <= i < |rows| => Join(RowCells(rows, rowHeader, rows[i]), Separator))
  }

  /** A column of the table is at least as wide as its name. */
  lemma NameFitsColumn(rows: seq<Entry>, c: string)
    requires c in Columns(rows)
    ensures |c| <= ColumnWidth(rows, c)
  {
    var it :| it in Flatten(rows) && it.column == c;
  }

  /** A column of the table is at least as wide as each row's text in it. */
  lemma TextFitsColumn(rows: seq<Entry>, e: Entry, c: string)
    requires e in rows
    ensures |CellText(e, c)| <= ColumnWidth(rows, c)
  {
    match Lookup(e.items, c)
    case Some(t) => FlattenHolds(rows, Item(c, t));
    case None =>
  }

  /** Padding text no wider than `w` yields exactly `w` characters, the text
      followed by blanks. */
  lemma PadToWidth(s: string, w: nat)
    requires |s| <= w
    ensures |LJust(s, w)| == w && LJust(s, w)[..|s|] == s
    ensures forall j :: |s| <= j < w ==> LJust(s, w)[j] == ' '
  {
  }

  /** Every column cell is exactly as wide as its column: the header cell is
      the padded name, a row's cell is its padded text, blank when missing. */
  lemma CellsHaveColumnWidth(rows: seq<Entry>, rowHeader: string, e: Entry, k: nat)
    requires e in rows && k < |Columns(rows)|
    ensures var c, w := Columns(rows)[k], ColumnWidth(rows, Columns(rows)[k]);
            var h, r := HeaderCells(rows, rowHeader)[k + 1], RowCells(rows, rowHeader, e)[k + 1];
            |h| == w && |r| == w && h[..|c|] == c &&
            (Lookup(e.items, c).Some? ==> r[..|Lookup(e.items, c).value|] == Lookup(e.items, c).value) &&
            (Lookup(e.items, c).None? ==> forall j :: 0 <= j < w ==> r[j] == ' ')
  {
    var c := Columns(rows)[k];
    var w := ColumnWidth(rows, c);
    assert c in Columns(rows);
    NameFitsColumn(rows, c);
    TextFitsColumn(rows, e, c);
    assert HeaderCells(rows, rowHeader)[k + 1] == LJust(c, w);
    assert RowCells(rows, rowHeader, e)[k + 1] == LJust(CellText(e, c), w);
    PadToWidth(c, w);
    PadToWidth(CellText(e, c), w);
  }

  /** Lines joined from cells of equal lengths have equal lengths and hold
      each cell at the same offset. */
  lemma {:induction false} JoinedAlike(a: seq<string>, b: seq<string>, sep: string, k: nat)
    requires |a| == |b| && k < |a|
    requires forall j :: 0 <= j < |a| ==> |a[j]| == |b[j]|
    ensures |Join(a, sep)| == |Join(b, sep)|
    ensures var o := Offset(a, |sep|, k);
            o == Offset(b, |sep|, k) && o + |a[k]| <= |Join(a, sep)| && o + |b[k]| <= |Join(b, sep)| &&
            Join(a, sep)[o..o + |a[k]|] == a[k] && Join(b, sep)[o..o + |b[k]|] == b[k]
  {
    OffsetByLengths(a, b, |sep|, k);
    OffsetByLengths(a, b, |sep|, |a|);
    JoinLength(a, sep);
    JoinLength(b, sep);
    JoinPlacesCell(a, sep, k);
    JoinPlacesCell(b, sep, k);
  }

  /** A row's cells are as wide as the header's when its name fits the row header. */
  lemma {:induction false} RowCellsMatchHeader(rows: seq<Entry>, rowHeader: string, e: Entry)
    requires e in rows && |e.name| <= |rowHeader|
    ensures var hc, rc := HeaderCells(rows, rowHeader), RowCells(rows, rowHeader, e);
            |hc| == |rc| && forall j :: 0 <= j < |hc| ==> |hc[j]| == |rc[j]|
  {
    var hc, rc := HeaderCells(rows, rowHeader), RowCells(rows, rowHeader, e);
    forall j | 0 <= j < |hc|
      ensures |hc[j]| == |rc[j]|
    {
      if j > 0 {
        CellsHaveColumnWidth(rows, rowHeader, e, j - 1);
      }
    }
  }

  /** When no row name is longer than the row header, every line is as long as
      the header line and each column starts at the same position on every
      line, so the cells line up under their column names. */
  lemma {:induction false} RowsAlignWithHeader(rows: seq<Entry>, rowHeader: string, i: nat, k: nat)
    requires i < |rows| && k <= |Columns(rows)|
    requires forall e :: e in rows ==> |e.name| <= |rowHeader|
    ensures var hc, rc := HeaderCells(rows, rowHeader), RowCells(rows, rowHeader, rows[i]);
            var header, line := TableLines(rows, rowHeader)[0], TableLines(rows, rowHeader)[i + 2];
            var o := Offset(hc, |Separator|, k);
            |line| == |header| && |hc[k]| == |rc[k]| && o + |hc[k]| <= |header| &&
            header[o..o + |hc[k]|] == hc[k] && line[o..o + |hc[k]|] == rc[k]
  {
    var hc, rc := HeaderCells(rows, rowHeader), RowCells(rows, rowHeader, rows[i]);
    var lines := TableLines(rows, rowHeader);
    assert lines[0] == Join(hc, Separator) && lines[i + 2] == Join(rc, Separator);
    assert rows[i] in rows;
    RowCellsMatchHeader(rows, rowHeader, rows[i]);
    JoinedAlike(hc, rc, Separator, k);
  }
}
