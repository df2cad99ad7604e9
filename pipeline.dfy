/**
 * The `TobiiDataProcess` object (tobii_data_process.py, lines 8-77): the
 * loaded export, the name of the column to split it by, and the dictionary
 * of subsets that `tobii_data_divide` fills and `tobii_data_format` rewrites
 * entry by entry.
 */
module Pipeline {
  import opened Frame
  import opened OrderedDict
  import opened Partitioner
  import opened Formatter

  /** The default output folder of the constructor and of `save`. */
  const DefaultSaveFolder: string := "./divided_data"

  /** A dictionary of subsets whose every stored table is well formed, with the default index 0..n-1. */
  predicate Stored(d: Dict<Table>) {
    && OrderedDict.Valid(d)
    && forall k | k in d.values :: WellFormed(d.values[k]) && d.values[k].index == Range(|d.values[k].rows|)
  }

  /** Storing well-formed tables keeps every stored table well formed. */
  lemma {:induction false} StoredPutAll(d: Dict<Table>, es: seq<(string, Table)>)
    requires Stored(d)
    requires forall j | 0 <= j < |es| :: WellFormed(es[j].1) && es[j].1.index == Range(|es[j].1.rows|)
    ensures Stored(PutAll(d, es))
    decreases |es|
  {
    if es != [] {
      StoredPutAll(Put(d, es[0].0, es[0].1), es[1..]);
    }
  }

  /**
   * A subset after its turn in the formatting loop: the formatted table when
   * the `try` body succeeds, otherwise the subset as it was.
   */
  function Updated(t: Table, deleteColumns: seq<string>, exclusions: seq<string>): (u: Table)
    requires WellFormed(t)
    ensures WellFormed(u)
    ensures t.index == Range(|t.rows|) ==> u.index == Range(|u.rows|)
    ensures u == t || FormatSubset(t, deleteColumns, exclusions) == Success(u)
  {
    match FormatSubset(t, deleteColumns, exclusions)
    case Success(f) =>
      FormattedShape(FilterStimulus(t, exclusions), deleteColumns);
      f
    case Failure(_) => t
  }

  /**
   * The position of the first key whose subset has no stimulus column, where
   * the formatting loop stops with a KeyError; `|ks|` when there is none.
   */
  function AbortAt(d: Dict<Table>, ks: seq<string>): (n: nat)
    requires forall k | k in ks :: k in d.values
    ensures n <= |ks|
    ensures forall l | 0 <= l < n :: StimulusColumn in d.values[ks[l]].columns
    ensures n < |ks| ==> StimulusColumn !in d.values[ks[n]].columns
    decreases |ks|
  {
    if ks == [] then 0
    else if StimulusColumn !in d.values[ks[0]].columns then 0
    else 1 + AbortAt(d, ks[1..])
  }

  /** The subsets after the loop has visited the keys `visited`, each once. */
  function Visited(d: Dict<Table>, visited: seq<string>, deleteColumns: seq<string>, exclusions: seq<string>): (m: map<string, Table>)
    requires Stored(d)
    ensures m.Keys == d.values.Keys
  {
    map k | k in d.values :: if k in visited then Updated(d.values[k], deleteColumns, exclusions) else d.values[k]
  }

  /**
   * `tobii_data_format` on the dictionary `d`: the keys visited before the
   * first subset without a stimulus column are updated, the rest are left
   * as they were, and that subset, if any, ends the call with a KeyError.
   */
  function FormatAll(d: Dict<Table>, deleteColumns: seq<string>, exclusions: seq<string>): (r: (Dict<Table>, Option<Exception>))
    requires Stored(d)
    ensures Stored(r.0) && r.0.keys == d.keys && r.0.values.Keys == d.values.Keys
  {
    var n := AbortAt(d, d.keys);
    var visited := d.keys[..n];
    (Dict(d.keys, Visited(d, visited, deleteColumns, exclusions)),
     if n < |d.keys| then Some(KeyError(StimulusColumn)) else None)
  }

  /**
   * The loop's turn on the i-th key: no earlier turn has touched that key's
   * subset, and visiting it updates that subset and nothing else.
   */
  lemma VisitNext(d: Dict<Table>, i: nat, deleteColumns: seq<string>, exclusions: seq<string>)
    requires Stored(d) && i < |d.keys|
    ensures var cur := Dict(d.keys, Visited(d, d.keys[..i], deleteColumns, exclusions));
      && OrderedDict.Valid(cur)
      && d.keys[i] in d.values
      && cur.values[d.keys[i]] == d.values[d.keys[i]]
      && var next := Dict(d.keys, Visited(d, d.keys[..i + 1], deleteColumns, exclusions));
      && next == Put(cur, d.keys[i], Updated(d.values[d.keys[i]], deleteColumns, exclusions))
      && (Updated(d.values[d.keys[i]], deleteColumns, exclusions) == d.values[d.keys[i]] ==> next == cur)
  {
    var k := d.keys[i];
    assert k in d.values;
    assert k !in d.keys[..i] by {
      forall l | 0 <= l < i ensures d.keys[..i][l] != k {
        assert d.keys[l] != d.keys[i];
      }
    }
    TakeOneMore(d.keys, i);
  }

  /** The outcome of the `try` body on a subset with a stimulus column decides its update. */
  lemma UpdatedByTry(t: Table, deleteColumns: seq<string>, exclusions: seq<string>, r: Result<Table, Exception>)
    requires WellFormed(t) && StimulusColumn in t.columns
    requires r == Formatted(FilterStimulus(t, exclusions), deleteColumns)
    ensures Updated(t, deleteColumns, exclusions) == if r.Success? then r.value else t
  {
  }

  /** The two conditions that single out the first subset without a stimulus column determine its position. */
  lemma AbortAtUnique(d: Dict<Table>, ks: seq<string>, n: nat)
    requires forall k | k in ks :: k in d.values
    requires n <= |ks|
    requires forall l | 0 <= l < n :: StimulusColumn in d.values[ks[l]].columns
    requires n < |ks| ==> StimulusColumn !in d.values[ks[n]].columns
    ensures AbortAt(d, ks) == n
  {
  }

  /**
   * `tobii_data_format` raises exactly when some stored subset has no
   * stimulus column, and the exception is a KeyError for that column.
   */
  lemma FormatAllRaises(d: Dict<Table>, deleteColumns: seq<string>, exclusions: seq<string>)
    requires Stored(d)
    ensures FormatAll(d, deleteColumns, exclusions).1 ==
      if exists k | k in d.values :: StimulusColumn !in d.values[k].columns then Some(KeyError(StimulusColumn)) else None
  {
    var n := AbortAt(d, d.keys);
    if n < |d.keys| {
      assert d.keys[n] in d.values;
    } else {
      forall k | k in d.values
        ensures StimulusColumn in d.values[k].columns
      {
        assert k in Elems(d.keys);
        var l :| 0 <= l < |d.keys| && d.keys[l] == k;
      }
    }
  }

  /**
   * After `tobii_data_format`, a subset is either unchanged or the formatted
   * version of what it was; it is the formatted version exactly when every
   * subset before it in the dictionary has a stimulus column, it has one too,
   * and formatting it succeeds.
   */
  lemma FormatAllEntry(d: Dict<Table>, deleteColumns: seq<string>, exclusions: seq<string>, j: nat)
    requires Stored(d) && j < |d.keys|
    ensures var k := d.keys[j];
      var reached := forall l | 0 <= l <= j :: StimulusColumn in d.values[d.keys[l]].columns;
      FormatAll(d, deleteColumns, exclusions).0.values[k] ==
        if reached && FormatSubset(d.values[k], deleteColumns, exclusions).Success?
        then FormatSubset(d.values[k], deleteColumns, exclusions).value
        else d.values[k]
  {
    var n := AbortAt(d, d.keys);
    var k := d.keys[j];
    assert k in d.values;
    var reached := forall l | 0 <= l <= j :: StimulusColumn in d.values[d.keys[l]].columns;
    if j < n {
      assert k in d.keys[..n];
      assert reached;
    } else {
      assert k !in d.keys[..n] by {
        forall l | 0 <= l < n ensures d.keys[..n][l] != k {
          assert d.keys[l] != d.keys[j];
        }
      }
      assert !reached by {
        assert StimulusColumn !in d.values[d.keys[n]].columns;
      }
    }
  }

  /** One more turn of the loop over an entry it has already visited: a formatted subset stays as it is, and so does one whose formatting failed. */
  lemma UpdatedTwice(t: Table, deleteColumns: seq<string>, exclusions: seq<string>)
    requires WellFormed(t) && StimulusColumn in t.columns
    requires StartTimeColumn in deleteColumns && StimulusColumn !in deleteColumns
    ensures StimulusColumn in Updated(t, deleteColumns, exclusions).columns
    ensures Updated(Updated(t, deleteColumns, exclusions), deleteColumns, exclusions) == Updated(t, deleteColumns, exclusions)
  {
    var u := Updated(t, deleteColumns, exclusions);
    if u != t {
      FormattedShape(FilterStimulus(t, exclusions), deleteColumns);
      assert StimulusColumn in Without(t.columns, Elems(deleteColumns));
      ReformatFails(t, deleteColumns, exclusions, deleteColumns, exclusions);
    }
  }

  /**
   * Formatting keeps a stimulus column in every subset it visits (that column
   * is not dropped), so a second run stops at the same key as the first.
   */
  lemma FormatKeepsAbort(d: Dict<Table>, deleteColumns: seq<string>, exclusions: seq<string>)
    requires Stored(d)
    requires StartTimeColumn in deleteColumns && StimulusColumn !in deleteColumns
    ensures AbortAt(FormatAll(d, deleteColumns, exclusions).0, d.keys) == AbortAt(d, d.keys)
  {
    var d1 := FormatAll(d, deleteColumns, exclusions).0;
    var n := AbortAt(d, d.keys);
    var visited := d.keys[..n];
    assert d1.values == Visited(d, visited, deleteColumns, exclusions);
    forall l | 0 <= l < n
      ensures StimulusColumn in d1.values[d.keys[l]].columns
    {
      var k := d.keys[l];
      assert k in visited;
      UpdatedTwice(d.values[k], deleteColumns, exclusions);
    }
    if n < |d.keys| {
      var k := d.keys[n];
      assert k !in visited by {
        forall l | 0 <= l < n ensures visited[l] != k {
          assert d.keys[l] != d.keys[n];
        }
      }
    }
    AbortAtUnique(d1, d.keys, n);
  }

  /** A second visit of the keys the first run visited changes none of their subsets. */
  lemma RevisitChangesNothing(d: Dict<Table>, deleteColumns: seq<string>, exclusions: seq<string>)
    requires Stored(d)
    requires StartTimeColumn in deleteColumns && StimulusColumn !in deleteColumns
    ensures var d1 := FormatAll(d, deleteColumns, exclusions).0;
      Visited(d1, d.keys[..AbortAt(d, d.keys)], deleteColumns, exclusions) == d1.values
  {
    var d1 := FormatAll(d, deleteColumns, exclusions).0;
    var n := AbortAt(d, d.keys);
    var visited := d.keys[..n];
    assert d1.values == Visited(d, visited, deleteColumns, exclusions);
    forall k | k in d1.values
      ensures Visited(d1, visited, deleteColumns, exclusions)[k] == d1.values[k]
    {
      if k in visited {
        var l :| 0 <= l < n && visited[l] == k;
        UpdatedTwice(d.values[k], deleteColumns, exclusions);
      }
    }
  }

  /**
   * With the start time column among the columns to drop and the stimulus
   * column not, running `tobii_data_format` a second time changes nothing
   * and raises exactly when the first run did.
   */
  lemma FormatAllIdempotent(d: Dict<Table>, deleteColumns: seq<string>, exclusions: seq<string>)
    requires Stored(d)
    requires StartTimeColumn in deleteColumns && StimulusColumn !in deleteColumns
    ensures var once := FormatAll(d, deleteColumns, exclusions);
      FormatAll(once.0, deleteColumns, exclusions) == once
  {
    FormatKeepsAbort(d, deleteColumns, exclusions);
    RevisitChangesNothing(d, deleteColumns, exclusions);
  }

  /** With the default columns to drop, a second `tobii_data_format` changes nothing, whatever the exclusions. */
  lemma FormatDefaultsIdempotent(d: Dict<Table>, exclusions: seq<string>)
    requires Stored(d)
    ensures var once := FormatAll(d, DeleteColumns, exclusions);
      FormatAll(once.0, DeleteColumns, exclusions) == once
  {
    DefaultDeleteColumns();
    FormatAllIdempotent(d, DeleteColumns, exclusions);
  }

  /** The file a subset is saved to: its key with ".csv" appended. */
  function FileName(key: string): (name: string)
    ensures |name| == |key| + 4 && name[..|key|] == key && name[|key|..] == ".csv"
  {
    key + ".csv"
  }

  /**
   * `os.path.join(folder, name)` with the POSIX separator: a name that starts
   * with "/" replaces the folder; otherwise a "/" goes between the two unless
   * the folder is empty or already ends with one.
   */
  function JoinPath(folder: string, name: string): (path: string)
    ensures |name| <= |path| && path[|path| - |name|..] == name
    ensures |name| > 0 && name[0] == '/' ==> path == name
  {
    if |name| > 0 && name[0] == '/' then name
    else if folder == [] || folder[|folder| - 1] == '/' then folder + name
    else folder + "/" + name
  }

  /** Within one folder, relative names go to different paths. */
  lemma JoinPathInjective(folder: string, a: string, b: string)
    requires !(|a| > 0 && a[0] == '/') && !(|b| > 0 && b[0] == '/')
    ensures JoinPath(folder, a) == JoinPath(folder, b) ==> a == b
  {
    var prefix := if folder == [] || folder[|folder| - 1] == '/' then folder else folder + "/";
    assert JoinPath(folder, a) == prefix + a && JoinPath(folder, b) == prefix + b;
    assert a == (prefix + a)[|prefix|..];
    assert b == (prefix + b)[|prefix|..];
  }

  /** The files `save` writes, in order: for each key, its path and the subset stored under it. */
  function SaveTargets(d: Dict<Table>, folder: string): (files: seq<(string, Table)>)
    requires Stored(d)
    ensures |files| == |d.keys|
  {
    seq(|d.keys|, i requires 0 <= i < |d.keys| => (JoinPath(folder, FileName(d.keys[i])), d.values[d.keys[i]]))
  }

  /**
   * When no key starts with "/", `save` writes every stored subset to a
   * file of its own, named after its key, inside the folder: no two writes
   * go to the same path.
   */
  lemma SaveTargetsDistinct(d: Dict<Table>, folder: string)
    requires Stored(d)
    requires forall k | k in d.values :: !(|k| > 0 && k[0] == '/')
    ensures Distinct(seq(|d.keys|, i requires 0 <= i < |d.keys| => SaveTargets(d, folder)[i].0))
    ensures forall i | 0 <= i < |d.keys| :: SaveTargets(d, folder)[i].1 == d.values[d.keys[i]]
  {
    var files := SaveTargets(d, folder);
    forall i, j | 0 <= i < j < |d.keys|
      ensures files[i].0 != files[j].0
    {
      var a, b := d.keys[i], d.keys[j];
      assert a in d.values && b in d.values;
      JoinPathInjective(folder, FileName(a), FileName(b));
      assert FileName(a) != FileName(b) by {
        assert a == FileName(a)[..|a|] && b == FileName(b)[..|b|];
      }
    }
  }

  class TobiiDataProcess {
    /** `self.divided_data`: the subsets by key, in the order they were first stored. */
    var dividedData: Dict<Table>
    const saveFolderPath: string
    const groupbyColumnName: string
    const tobiiDataDf: Table

    /** The loaded table is well formed with text cells, and so is every stored subset. */
    ghost predicate Valid()
      reads this
    {
      && WellFormed(tobiiDataDf) && TextCells(tobiiDataDf)
      && Stored(dividedData)
    }

    /**
     * `TobiiDataProcess(target_data_path, groupby_column_name, save_folder_path)`
     * with the table `pd.read_table` loads from the path given as `data`.
     */
    constructor (data: Table, groupbyColumnName: string, saveFolderPath: string := DefaultSaveFolder)
      requires WellFormed(data) && TextCells(data)
      ensures Valid()
      ensures dividedData == Empty()
      ensures this.saveFolderPath == saveFolderPath && this.groupbyColumnName == groupbyColumnName && tobiiDataDf == data
    {
      dividedData := Empty();
      this.saveFolderPath := saveFolderPath;
      this.groupbyColumnName := groupbyColumnName;
      tobiiDataDf := data;
    }

    /**
     * `tobii_data_divide`: store every group of the loaded table under the key
     * "{group}_{participant}", with its index reset. A KeyError leaves the
     * dictionary as it was: the group column is read by `groupby` before the
     * loop, and a missing participant column fails on the first group, before
     * anything is stored.
     */
    method Divide() returns (error: Option<Exception>)
      requires Valid()
      modifies this
      ensures Valid()
      ensures match Partition(tobiiDataDf, groupbyColumnName)
        case Failure(e) => error == Some(e) && dividedData == old(dividedData)
        case Success(es) => error == None && dividedData == PutAll(old(dividedData), es)
    {
      if groupbyColumnName !in tobiiDataDf.columns {
        return Some(KeyError(groupbyColumnName));
      }
      error := StoreGroups();
    }

    /**
     * The loop over the groups of `groupby` (lines 37-42), once the group
     * column is known to exist. Reading the participant column fails on the
     * first group or not at all, so that check is made once, before the loop.
     */
    method StoreGroups() returns (error: Option<Exception>)
      requires Valid() && groupbyColumnName in tobiiDataDf.columns
      modifies this
      ensures Valid()
      ensures match Partition(tobiiDataDf, groupbyColumnName)
        case Failure(e) => error == Some(e) && dividedData == old(dividedData)
        case Success(es) => error == None && dividedData == PutAll(old(dividedData), es)
    {
      var t, col := tobiiDataDf, groupbyColumnName;
      var names := GroupNames(t, col);
      if |names| > 0 && ParticipantColumn !in t.columns {
        return Some(KeyError(ParticipantColumn));
      }
      ghost var es := Partition(t, col).value;
      for i := 0 to |names|
        invariant dividedData == PutAll(old(dividedData), es[..i])
      {
        assert names[i] in names;
        var (key, df) := Subset(t, col, names[i]);
        PartitionEntry(t, col, i);
        PutAllStep(old(dividedData), es, i);
        dividedData := Put(dividedData, key, df);
      }
      assert es[..|names|] == es;
      StoredPutAll(old(dividedData), es);
      return None;
    }

    /**
     * `tobii_data_format(delete_columns, delete_stimulus_name_list)`: for each
     * key in order, filter its subset; a missing stimulus column raises out
     * of the loop (the filter is outside the `try`); otherwise the subset is
     * replaced by its formatted version when the `try` body succeeds, and
     * kept when it raises.
     */
    method Format(deleteColumns: seq<string> := DeleteColumns, exclusions: seq<string> := DeleteStimulusNames) returns (error: Option<Exception>)
      requires Valid()
      modifies this
      ensures Valid()
      ensures (dividedData, error) == FormatAll(old(dividedData), deleteColumns, exclusions)
    {
      var keys := dividedData.keys;
      ghost var d0 := dividedData;
      var i := 0;
      while i < |keys|
        invariant 0 <= i <= |keys| && keys == d0.keys
        invariant forall l | 0 <= l < i :: StimulusColumn in d0.values[keys[l]].columns
        invariant dividedData == Dict(keys, Visited(d0, keys[..i], deleteColumns, exclusions))
      {
        var key := keys[i];
        VisitNext(d0, i, deleteColumns, exclusions);
        var df := dividedData.values[key];
        if StimulusColumn !in df.columns {
          AbortAtUnique(d0, keys, i);
          return Some(KeyError(StimulusColumn));
        }
        var tobiiData := FilterStimulus(df, exclusions);
        var r := FormatTry(tobiiData, deleteColumns);
        UpdatedByTry(df, deleteColumns, exclusions, r);
        if r.Success? {
          dividedData := Put(dividedData, key, r.value);
        }
        i := i + 1;
      }
      AbortAtUnique(d0, keys, i);
      return None;
    }

    /**
     * `save(save_folder_path)`: the files written, in order, each as its path
     * and the subset `to_csv` writes to it.
     */
    method Save(folder: string := DefaultSaveFolder) returns (written: seq<(string, Table)>)
      requires Valid()
      ensures written == SaveTargets(dividedData, folder)
    {
      written := [];
      for i := 0 to |dividedData.keys|
        invariant |written| == i
        invariant forall l | 0 <= l < i :: written[l] == SaveTargets(dividedData, folder)[l]
      {
        var key := dividedData.keys[i];
        assert key in Elems(dividedData.keys);
        var saveFileName := FileName(key);
        var saveFilePath := JoinPath(folder, saveFileName);
        written := written + [(saveFilePath, dividedData.values[key])];
      }
    }
  }
}
