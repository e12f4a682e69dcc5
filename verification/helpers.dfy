/** Small pure helpers of helpers.py (and the identical `end_file_index` of
    file_data_functions.py): output naming, data-file trailer counting,
    sentinel cleaning and keying frames by year.
 */
module Helpers {
  import opened Values

  // ---------------------------------------------------------------------------
  // Output naming. An absent or empty argument is the empty string (both are falsy).

  /** get_filename(user_args, configs_filename): the command-line name, else
      the configured name, else "output_" and the timestamp. */
  function GetFilename(cli: string, configured: string, timestamp: string): (name: string)
    ensures cli != "" ==> name == cli
    ensures cli == "" && configured != "" ==> name == configured
    ensures cli == "" && configured == "" ==> name == "output_" + timestamp
    ensures name != ""
  {
    if cli != "" then cli else if configured != "" then configured else "output_" + timestamp
  }

  /** The command-line default of `--output`. */
  const DefaultOutput: string := "generated_files"

  /** get_output_path(user_args, configs_path): the command-line path only
      when it differs from the default, else the configured path, else the default. */
  function GetOutputPath(cli: string, configured: string): (path: string)
    ensures cli != DefaultOutput ==> path == cli
    ensures cli == DefaultOutput ==> path == (if configured != "" then configured else DefaultOutput)
  {
    if cli != DefaultOutput then cli else if configured != "" then configured else cli
  }

  /** Naming the default directory on the command line cannot override a
      configured path, and the choice is stable when fed back as the configured path. */
  lemma OutputPathPrecedence(cli: string, configured: string)
    ensures configured != "" ==> GetOutputPath(DefaultOutput, configured) == configured
    ensures GetOutputPath(cli, GetOutputPath(cli, configured)) == GetOutputPath(cli, configured)
  {
  }

  // ---------------------------------------------------------------------------
  // end_file_index

  /** `line.startswith("# ")`. */
  predicate IsTrailer(line: string) {
    |line| >= 2 && line[0] == '#' && line[1] == ' '
  }

  /** Number of lines starting with "# ". */
  function Trailers(lines: seq<string>): (n: nat)
    ensures n <= |lines|
  {
    if |lines| == 0 then 0 else Trailers(lines[..|lines| - 1]) + (if IsTrailer(lines[|lines| - 1]) then 1 else 0)
  }

  /** end_file_index(filename) on the file's lines: the number of lines, less
      those starting with "# ", less one. */
  function EndFileIndex(lines: seq<string>): (n: int)
    ensures -1 <= n < |lines|
  {
    |lines| - Trailers(lines) - 1
  }

  lemma {:induction false} TrailersAppend(a: seq<string>, b: seq<string>)
    ensures Trailers(a + b) == Trailers(a) + Trailers(b)
    decreases |b|
  {
    if |b| == 0 {
      assert a + b == a;
    } else {
      TrailersAppend(a, b[..|b| - 1]);
      assert (a + b)[..|a + b| - 1] == a + b[..|b| - 1];
      assert (a + b)[|a + b| - 1] == b[|b| - 1];
    }
  }

  lemma {:induction false} AllTrailers(lines: seq<string>, expected: bool)
    requires forall k :: 0 <= k < |lines| ==> IsTrailer(lines[k]) == expected
    ensures Trailers(lines) == (if expected then |lines| else 0)
  {
    if |lines| > 0 {
      AllTrailers(lines[..|lines| - 1], expected);
    }
  }

  /** On a data file laid out as a header line, data lines and "# " trailer
      lines, the index is the number of data lines, the `nrows` to read. */
  lemma EndFileIndexCountsData(header: string, data: seq<string>, trailer: seq<string>)
    requires !IsTrailer(header)
    requires forall k :: 0 <= k < |data| ==> !IsTrailer(data[k])
    requires forall k :: 0 <= k < |trailer| ==> IsTrailer(trailer[k])
    ensures EndFileIndex([header] + data + trailer) == |data|
  {
    TrailersAppend([header] + data, trailer);
    TrailersAppend([header], data);
    AllTrailers(data, false);
    AllTrailers(trailer, true);
    assert [header][..0] == [];
  }

  // ---------------------------------------------------------------------------
  // Sentinel cleaning

  /** One cell of a raw data frame: a number (1e-4 m units), a text, or NaN. */
  datatype Cell = Number(units: int) | Text(text: string) | Missing

  /** The values `df.replace([-999, -99, 99, 'NA', 'RM'], np.nan)` turns into NaN. */
  predicate IsSentinel(c: Cell) {
    match c
    case Number(u) => u == -999 * Scale || u == -99 * Scale || u == 99 * Scale
    case Text(t) => t == "NA" || t == "RM"
    case Missing => false
  }

  /** The sentinel replacement of clean_dataframe on one cell. */
  function ReplaceSentinel(c: Cell): (d: Cell)
    ensures d.Missing? <==> c.Missing? || IsSentinel(c)
    ensures !IsSentinel(c) ==> d == c
  {
    if IsSentinel(c) then Missing else c
  }

  /** The replacement on a column, cell by cell. */
  function ReplaceSentinels(cells: seq<Cell>): (cleaned: seq<Cell>)
    ensures |cleaned| == |cells|
    ensures forall k :: 0 <= k < |cells| ==> cleaned[k] == ReplaceSentinel(cells[k])
  {
    seq(|cells|, k requires 0 <= k < |cells| => ReplaceSentinel(cells[k]))
  }

  /** Cleaning leaves no sentinel behind, so cleaning again changes nothing. */
  lemma CleaningIdempotent(cells: seq<Cell>)
    ensures forall k :: 0 <= k < |cells| ==> !IsSentinel(ReplaceSentinels(cells)[k])
    ensures ReplaceSentinels(ReplaceSentinels(cells)) == ReplaceSentinels(cells)
  {
  }

  // ---------------------------------------------------------------------------
  // get_df_dictionary

  /** A per-year frame: the years of its date column (NaT as None) and an
      opaque identity standing for its contents. */
  datatype Frame = Frame(years: seq<Option<int>>, id: nat)

  /** The key of a frame: the year of its first row. */
  function FirstYear(f: Frame): Option<int>
    requires |f.years| > 0
  {
    f.years[0]
  }

  /** get_df_dictionary(df_list, dt_col_pos): each frame keyed by the year of
      its first row, NaN years skipped, a later frame replacing an earlier one
      of the same year; `year[0]` raises KeyError on an empty frame. */
  function GetDfDictionary(frames: seq<Frame>): (o: Outcome<map<int, Frame>>)
    ensures o.Raised? <==> exists i :: 0 <= i < |frames| && |frames[i].years| == 0
    ensures o.Raised? ==> o.error == KeyError
    ensures !o.Hangs?
  {
    if |frames| == 0 then Done(map[])
    else
      var n := |frames| - 1;
      var last := frames[n];
      match GetDfDictionary(frames[..n])
      case Done(m) =>
        if |last.years| == 0 then Raised(KeyError)
        else if last.years[0].None? then Done(m)
        else Done(m[last.years[0].value := last])
      case Raised(e) => Raised(e)
      case Hangs => Hangs
  }

  /** A dictionary built from all frames was built from every prefix first. */
  lemma PrefixDone(frames: seq<Frame>)
    requires |frames| > 0 && GetDfDictionary(frames).Done?
    ensures GetDfDictionary(frames[..|frames| - 1]).Done?
    ensures |frames[|frames| - 1].years| > 0
    ensures var m0, last := GetDfDictionary(frames[..|frames| - 1]).value, frames[|frames| - 1];
            GetDfDictionary(frames).value == if last.years[0].None? then m0 else m0[last.years[0].value := last]
  {
  }

  /** The keys are exactly the non-NaN first years. */
  lemma {:induction false} DictionaryKeys(frames: seq<Frame>, y: int)
    requires GetDfDictionary(frames).Done?
    ensures y in GetDfDictionary(frames).value <==> exists i :: 0 <= i < |frames| && FirstYear(frames[i]) == Some(y)
  {
    if |frames| > 0 {
      var n := |frames| - 1;
      var prefix := frames[..n];
      PrefixDone(frames);
      DictionaryKeys(prefix, y);
      if exists i :: 0 <= i < n && FirstYear(prefix[i]) == Some(y) {
        var i :| 0 <= i < n && FirstYear(prefix[i]) == Some(y);
        assert FirstYear(frames[i]) == Some(y);
      }
      if exists i :: 0 <= i < |frames| && FirstYear(frames[i]) == Some(y) {
        var i :| 0 <= i < |frames| && FirstYear(frames[i]) == Some(y);
        if i < n {
          assert FirstYear(prefix[i]) == Some(y);
        }
      }
    }
  }

  /** Each key holds the last frame whose first year it is. */
  lemma {:induction false} DictionaryKeepsLast(frames: seq<Frame>, y: int)
    requires GetDfDictionary(frames).Done? && y in GetDfDictionary(frames).value
    ensures exists i :: 0 <= i < |frames| && FirstYear(frames[i]) == Some(y) && GetDfDictionary(frames).value[y] == frames[i] &&
                        forall j :: i < j < |frames| ==> FirstYear(frames[j]) != Some(y)
  {
    var n := |frames| - 1;
    var prefix := frames[..n];
    PrefixDone(frames);
    var m := GetDfDictionary(frames).value;
    if FirstYear(frames[n]) == Some(y) {
      assert m[y] == frames[n];
    } else {
      DictionaryKeepsLast(prefix, y);
      var i :| 0 <= i < n && FirstYear(prefix[i]) == Some(y) && GetDfDictionary(prefix).value[y] == prefix[i] &&
               forall j :: i < j < n ==> FirstYear(prefix[j]) != Some(y);
      assert m[y] == frames[i];
      forall j | i < j < |frames|
        ensures FirstYear(frames[j]) != Some(y)
      {
        if j < n {
          assert FirstYear(prefix[j]) != Some(y);
        }
      }
    }
  }
}
