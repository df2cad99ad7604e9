/**
 * The formatting stage for one subset (tobii_data_process.py, lines 47-63):
 * drop the rows whose stimulus name is missing or excluded, read the
 * recording start time of the first remaining row, drop the metadata
 * columns, reset the index and put a leading "time" column of times of day
 * 1/250 s apart, the first offset from the start time by the position of the
 * first remaining row.
 *
 * Time is kept in whole microseconds: 1/250 s is exactly 4000 us, and a
 * `timedelta` resolves to microseconds, so `timedelta(seconds=i / 250)` is
 * 4000 * i us.
 */
module Formatter {
  import opened Frame
  import opened TimeOfDay

  const StimulusColumn: string := "Presented Stimulus name"
  const StartTimeColumn: string := "Recording start time"
  const TimeColumn: string := "time"

  /** `TobiiDataProcess.DELETE_COLUMNS`, the default columns to drop. */
  const DeleteColumns: seq<string> := ["Recording timestamp", "Computer timestamp", "Sensor", "Recording start time"]

  /** The default `delete_stimulus_name_list`. */
  const DeleteStimulusNames: seq<string> := ["Eyetracker Calibration", "Text"]

  /**
   * The default columns to drop include the start time but neither the
   * stimulus column nor "time" (their names differ in length from every
   * default).
   */
  lemma DefaultDeleteColumns()
    ensures StartTimeColumn in DeleteColumns
    ensures StimulusColumn !in DeleteColumns && TimeColumn !in DeleteColumns
  {
    var lengths := [19, 18, 6, 20];
    assert |DeleteColumns| == 4 && DeleteColumns[3] == StartTimeColumn;
    forall i | 0 <= i < 4
      ensures |DeleteColumns[i]| == lengths[i]
    {
    }
    assert |StimulusColumn| == 23 && |TimeColumn| == 4;
  }

  /**
   * A row survives `dropna(subset=...)` and `~isin(exclusions)` on the
   * stimulus column: it has a value there, and no excluded name equals it.
   */
  predicate KeepRow(r: Row, exclusions: seq<string>): (keep: bool)
    ensures keep <==> StimulusColumn in r && r[StimulusColumn] != NA && forall x | x in exclusions :: r[StimulusColumn] != Str(x)
  {
    && StimulusColumn in r
    && r[StimulusColumn] != NA
    && !(r[StimulusColumn].Str? && r[StimulusColumn].text in exclusions)
  }

  function KeptPositions(t: Table, exclusions: seq<string>): (ps: seq<nat>)
  {
    Positions(t.rows, (r: Row) => KeepRow(r, exclusions))
  }

  /** The kept rows with their index labels, in their original order; the index is not reset here. */
  function FilterStimulus(t: Table, exclusions: seq<string>): (f: Table)
    requires WellFormed(t)
    ensures WellFormed(f) && f.columns == t.columns
  {
    var ps := KeptPositions(t, exclusions);
    Table(t.columns, Select(t.index, ps), Select(t.rows, ps))
  }

  /**
   * Row k of the filtered table is the k-th row of `t` that passes the
   * filter, with its label; the rows keep their order, and every row that
   * passes is kept.
   */
  lemma FilterStimulusSelects(t: Table, exclusions: seq<string>)
    requires WellFormed(t)
    ensures var f, ps := FilterStimulus(t, exclusions), KeptPositions(t, exclusions);
      && |f.rows| == |ps|
      && (forall k | 0 <= k < |ps| :: ps[k] < |t.rows| && f.rows[k] == t.rows[ps[k]] && f.index[k] == t.index[ps[k]])
      && (forall k | 0 <= k < |f.rows| :: KeepRow(f.rows[k], exclusions))
      && (forall k, l | 0 <= k < l < |ps| :: ps[k] < ps[l])
      && (forall p | 0 <= p < |t.rows| && KeepRow(t.rows[p], exclusions) :: p in ps)
  {
  }

  /**
   * `strptime(t["Recording start time"].iloc[0], "%H:%M:%S.%f")` as a time of
   * day: a KeyError without the column, an IndexError without rows, a
   * TypeError when the cell is not text (NaN), a ValueError when the text does
   * not match the format.
   */
  function StartTime(t: Table): (r: Result<nat, Exception>)
    requires WellFormed(t)
    ensures r.Success? <==> && StartTimeColumn in t.columns && |t.rows| > 0
                            && t.rows[0][StartTimeColumn].Str? && ParseTime(t.rows[0][StartTimeColumn].text).Some?
    ensures r.Success? ==> r.value == ParseTime(t.rows[0][StartTimeColumn].text).value && r.value < 86_400_000_000
  {
    if StartTimeColumn !in t.columns then Failure(KeyError(StartTimeColumn))
    else if |t.rows| == 0 then Failure(IndexError)
    else
      match t.rows[0][StartTimeColumn]
      case Str(s) => (match ParseTime(s) case Some(us) => Success(us) case None => Failure(ValueError))
      case _ => Failure(TypeError)
  }

  /** The time of day `first + i / 250 s`, as `.time()` keeps it. */
  function Stamp(first: nat, i: nat): (c: Cell)
    ensures c.Time? && c.micros == (first + 4000 * i) % 86_400_000_000
  {
    WrapDayIsMod(first + 4000 * i);
    Time(WrapDay(first + 4000 * i))
  }

  /** The `n` times of day `first`, `first + 1/250 s`, ... */
  function Stamps(first: nat, n: nat): (s: seq<Cell>)
    ensures |s| == n && forall i | 0 <= i < n :: s[i] == Stamp(first, i)
  {
    seq(n, i requires 0 <= i < n => Stamp(first, i))
  }

  /**
   * Lines 55-63 once the time of the first row, `first`, is known: drop the
   * listed columns, reset the index and put the timestamps in front.
   */
  function Stamped(t: Table, deleteColumns: seq<string>, first: nat): (r: Result<Table, Exception>)
    requires WellFormed(t)
  {
    match DropColumns(t, deleteColumns)
    case Failure(e) => Failure(e)
    case Success(dropped) =>
      var data := ResetIndex(dropped);
      InsertFirst(data, TimeColumn, Stamps(first, |data.rows|))
  }

  /**
   * The body of the `try` (lines 51-63) on the filtered subset `t`: the
   * formatted table, or the exception that ends the attempt. The first row's
   * time is the start time plus 1/250 s per row before it in the subset, as
   * its index label counts them.
   */
  function Formatted(t: Table, deleteColumns: seq<string>): (r: Result<Table, Exception>)
    requires WellFormed(t)
    ensures r.Failure? <==>
      || StartTime(t).Failure?
      || (exists c | c in deleteColumns :: c !in t.columns)
      || TimeColumn in Without(t.columns, Elems(deleteColumns))
    ensures StartTime(t).Failure? ==> r == Failure(StartTime(t).error)
    ensures r.Success? ==> |r.value.rows| == |t.rows| > 0 && r.value.columns == [TimeColumn] + Without(t.columns, Elems(deleteColumns))
  {
    match StartTime(t)
    case Failure(e) => Failure(e)
    case Success(start) => Stamped(t, deleteColumns, start + 4000 * t.index[0])
  }

  /**
   * The `try` body as the source runs it: the timestamps are written one by
   * one into a list of `len(tobii_data)` slots before the column is inserted.
   */
  method FormatTry(t: Table, deleteColumns: seq<string>) returns (r: Result<Table, Exception>)
    requires WellFormed(t)
    ensures r == Formatted(t, deleteColumns)
  {
    var start := StartTime(t);
    if start.Failure? {
      return Failure(start.error);
    }
    var firstRest := start.value + 4000 * t.index[0];
    var dropped := DropColumns(t, deleteColumns);
    if dropped.Failure? {
      return Failure(dropped.error);
    }
    var data := ResetIndex(dropped.value);
    var timeStamps := TimeStamps(firstRest, |data.rows|);
    r := InsertFirst(data, TimeColumn, timeStamps);
  }

  /** The list of `n` timestamps, written slot by slot into a preallocated array. */
  method TimeStamps(first: nat, n: nat) returns (stamps: seq<Cell>)
    ensures stamps == Stamps(first, n)
  {
    var timeStamps := new Cell[n](_ => NA);
    for i := 0 to n
      invariant forall k | 0 <= k < i :: timeStamps[k] == Stamp(first, k)
    {
      timeStamps[i] := Stamp(first, i);
    }
    stamps := timeStamps[..];
  }

  /**
   * Lines 47-63 on one stored subset: a KeyError when the stimulus column is
   * missing (raised by the filter, outside the `try`), otherwise the result
   * of the `try` body on the filtered rows.
   */
  function FormatSubset(t: Table, deleteColumns: seq<string>, exclusions: seq<string>): (r: Result<Table, Exception>)
    requires WellFormed(t)
    ensures StimulusColumn !in t.columns ==> r == Failure(KeyError(StimulusColumn))
    ensures r.Success? ==> 0 < |r.value.rows| == |KeptPositions(t, exclusions)|
  {
    if StimulusColumn !in t.columns then Failure(KeyError(StimulusColumn))
    else Formatted(FilterStimulus(t, exclusions), deleteColumns)
  }

  /**
   * Formatting a subset succeeds exactly when the stimulus column exists, some
   * row survives the filter, the start time column exists, the first
   * surviving row's start time parses, every column to drop exists, and no
   * column left after the drop is already called "time".
   */
  lemma FormatSubsetSucceedsIff(t: Table, deleteColumns: seq<string>, exclusions: seq<string>)
    requires WellFormed(t)
    ensures var ps := KeptPositions(t, exclusions);
      FormatSubset(t, deleteColumns, exclusions).Success? <==>
        && StimulusColumn in t.columns
        && |ps| > 0
        && StartTimeColumn in t.columns
        && t.rows[ps[0]][StartTimeColumn].Str?
        && ParseTime(t.rows[ps[0]][StartTimeColumn].text).Some?
        && (forall c | c in deleteColumns :: c in t.columns)
        && TimeColumn !in Without(t.columns, Elems(deleteColumns))
  {
  }

  /**
   * The shape of a formatted table: "time" first, then the original columns
   * less the dropped ones in their original order, none of the dropped
   * columns (other than "time" itself), an index 0..n-1, one row per row of
   * the filtered subset, and every other cell as it was.
   */
  lemma FormattedShape(t: Table, deleteColumns: seq<string>)
    requires WellFormed(t) && Formatted(t, deleteColumns).Success?
    ensures var f := Formatted(t, deleteColumns).value;
      && WellFormed(f)
      && f.columns == [TimeColumn] + Without(t.columns, Elems(deleteColumns))
      && (forall c | c in deleteColumns && c != TimeColumn :: c !in f.columns)
      && f.index == Range(|f.rows|)
      && |f.rows| == |t.rows|
      && (forall i, c | 0 <= i < |f.rows| && c in f.columns && c != TimeColumn :: c in t.rows[i] && f.rows[i][c] == t.rows[i][c])
  {
    FormattedIsStamped(t, deleteColumns);
    StampedShape(t, deleteColumns, StartTime(t).value + 4000 * t.index[0]);
  }

  /**
   * The "time" of formatted row i is the start time read from the first row,
   * plus 1/250 s for each row before the first one in the subset (its index
   * label) and for each of the i rows before row i, modulo one day.
   */
  lemma FormattedTimes(t: Table, deleteColumns: seq<string>, i: nat)
    requires WellFormed(t) && Formatted(t, deleteColumns).Success?
    requires i < |Formatted(t, deleteColumns).value.rows|
    ensures |t.rows| > 0 && StartTimeColumn in t.rows[0] && t.rows[0][StartTimeColumn].Str?
    ensures ParseTime(t.rows[0][StartTimeColumn].text).Some?
    ensures TimeColumn in Formatted(t, deleteColumns).value.rows[i]
    ensures Formatted(t, deleteColumns).value.rows[i][TimeColumn] == Stamp(ParseTime(t.rows[0][StartTimeColumn].text).value, t.index[0] + i)
  {
    FormattedIsStamped(t, deleteColumns);
    var start := StartTime(t).value;
    StampedRow(t, deleteColumns, start + 4000 * t.index[0], i);
    StampShift(start, t.index[0], i);
  }

  lemma FormattedIsStamped(t: Table, deleteColumns: seq<string>)
    requires WellFormed(t) && Formatted(t, deleteColumns).Success?
    ensures |t.index| > 0 && StartTime(t).Success?
    ensures Formatted(t, deleteColumns) == Stamped(t, deleteColumns, StartTime(t).value + 4000 * t.index[0])
  {
  }

  /** Row i of a successful drop-and-stamp step holds the i-th timestamp after `first`. */
  lemma StampedRow(t: Table, deleteColumns: seq<string>, first: nat, i: nat)
    requires WellFormed(t) && Stamped(t, deleteColumns, first).Success?
    requires i < |Stamped(t, deleteColumns, first).value.rows|
    ensures TimeColumn in Stamped(t, deleteColumns, first).value.rows[i]
    ensures Stamped(t, deleteColumns, first).value.rows[i][TimeColumn] == Stamp(first, i)
  {
    var data := ResetIndex(DropColumns(t, deleteColumns).value);
    var stamps := Stamps(first, |data.rows|);
    assert stamps[i] == Stamp(first, i);
  }

  /** The drop-and-stamp step keeps the rows and their other cells, and puts "time" first. */
  lemma StampedShape(t: Table, deleteColumns: seq<string>, first: nat)
    requires WellFormed(t) && Stamped(t, deleteColumns, first).Success?
    ensures var f := Stamped(t, deleteColumns, first).value;
      && WellFormed(f)
      && f.columns == [TimeColumn] + Without(t.columns, Elems(deleteColumns))
      && f.index == Range(|f.rows|)
      && |f.rows| == |t.rows|
      && (forall i, c | 0 <= i < |f.rows| && c in f.columns && c != TimeColumn :: c in t.rows[i] && f.rows[i][c] == t.rows[i][c])
  {
  }

  /** `b` is the time of day one sample (1/250 s) after `a`. */
  predicate NextSample(a: Cell, b: Cell) {
    a.Time? && b.Time? && b.micros == WrapDay(a.micros + 4000)
  }

  /** Consecutive times of a formatted table are 1/250 s apart, modulo one day. */
  lemma ConsecutiveTimes(t: Table, deleteColumns: seq<string>, i: nat)
    requires WellFormed(t) && Formatted(t, deleteColumns).Success?
    requires i + 1 < |Formatted(t, deleteColumns).value.rows|
    ensures var f := Formatted(t, deleteColumns).value;
      TimeColumn in f.rows[i] && TimeColumn in f.rows[i + 1] && NextSample(f.rows[i][TimeColumn], f.rows[i + 1][TimeColumn])
  {
    FormattedIsStamped(t, deleteColumns);
    StampedConsecutive(t, deleteColumns, StartTime(t).value + 4000 * t.index[0], i);
  }

  lemma StampedConsecutive(t: Table, deleteColumns: seq<string>, first: nat, i: nat)
    requires WellFormed(t) && Stamped(t, deleteColumns, first).Success?
    requires i + 1 < |Stamped(t, deleteColumns, first).value.rows|
    ensures var f := Stamped(t, deleteColumns, first).value;
      TimeColumn in f.rows[i] && TimeColumn in f.rows[i + 1] && NextSample(f.rows[i][TimeColumn], f.rows[i + 1][TimeColumn])
  {
    StampedRow(t, deleteColumns, first, i);
    StampedRow(t, deleteColumns, first, i + 1);
    StampStep(first, i);
  }

  /** The i-th time after the k-th sample is the (k + i)-th sample. */
  lemma StampShift(start: nat, k: nat, i: nat)
    ensures Stamp(start + 4000 * k, i) == Stamp(start, k + i)
  {
    assert start + 4000 * k + 4000 * i == start + 4000 * (k + i);
  }

  /** One sample later is 4000 us later, modulo one day. */
  lemma StampStep(first: nat, k: nat)
    ensures Stamp(first, k + 1).micros == WrapDay(Stamp(first, k).micros + 4000)
  {
    assert first + 4000 * (k + 1) == (first + 4000 * k) + 4000;
    WrapDayAdd(first + 4000 * k, 4000);
  }

  /**
   * The rows of a formatted subset are the rows of the subset that pass the
   * filter, all of them, in their original order, with every cell other
   * than "time" as it was.
   */
  lemma FormatSubsetRows(t: Table, deleteColumns: seq<string>, exclusions: seq<string>)
    requires WellFormed(t) && FormatSubset(t, deleteColumns, exclusions).Success?
    ensures var f, ps := FormatSubset(t, deleteColumns, exclusions).value, KeptPositions(t, exclusions);
      && |f.rows| == |ps|
      && (forall i | 0 <= i < |ps| :: ps[i] < |t.rows| && KeepRow(t.rows[ps[i]], exclusions))
      && (forall i, c | 0 <= i < |ps| && c in f.columns && c != TimeColumn :: c in t.rows[ps[i]] && f.rows[i][c] == t.rows[ps[i]][c])
      && (forall i, j | 0 <= i < j < |ps| :: ps[i] < ps[j])
      && (forall p | 0 <= p < |t.rows| && KeepRow(t.rows[p], exclusions) :: p in ps)
  {
    FilterStimulusSelects(t, exclusions);
    FormattedShape(FilterStimulus(t, exclusions), deleteColumns);
  }

  /**
   * On a stored subset, whose index is 0..n-1, the "time" of formatted row i
   * is the start time read from the first row that passes the filter, plus
   * 1/250 s for every row of the subset before that one and for each of the
   * i rows before row i, modulo one day.
   */
  lemma FormatSubsetTimes(t: Table, deleteColumns: seq<string>, exclusions: seq<string>, i: nat)
    requires WellFormed(t) && t.index == Range(|t.rows|)
    requires FormatSubset(t, deleteColumns, exclusions).Success?
    requires i < |FormatSubset(t, deleteColumns, exclusions).value.rows|
    ensures var ps := KeptPositions(t, exclusions);
      && |ps| > 0 && ps[0] < |t.rows| && StartTimeColumn in t.rows[ps[0]] && t.rows[ps[0]][StartTimeColumn].Str?
      && ParseTime(t.rows[ps[0]][StartTimeColumn].text).Some?
      && TimeColumn in FormatSubset(t, deleteColumns, exclusions).value.rows[i]
      && FormatSubset(t, deleteColumns, exclusions).value.rows[i][TimeColumn]
         == Stamp(ParseTime(t.rows[ps[0]][StartTimeColumn].text).value, ps[0] + i)
  {
    var f := FilterStimulus(t, exclusions);
    FilterStimulusSelects(t, exclusions);
    FormattedTimes(f, deleteColumns, i);
  }

  /**
   * A subset formatted once keeps its stimulus column but has lost its start
   * time column (when that column is among those dropped), so formatting it
   * again fails inside the `try` with a KeyError and leaves it as it is.
   */
  lemma ReformatFails(t: Table, dc: seq<string>, ex: seq<string>, dc2: seq<string>, ex2: seq<string>)
    requires WellFormed(t) && FormatSubset(t, dc, ex).Success?
    requires StartTimeColumn in dc && StimulusColumn !in dc && StimulusColumn != TimeColumn
    ensures var f := FormatSubset(t, dc, ex).value;
      WellFormed(f) && FormatSubset(f, dc2, ex2) == Failure(KeyError(StartTimeColumn))
  {
    FormattedShape(FilterStimulus(t, ex), dc);
  }
}
