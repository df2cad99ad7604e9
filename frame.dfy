/**
 * The in-memory table the pipeline works on: an ordered list of column
 * labels, a row index (the labels pandas keeps beside the rows) and one map
 * from column label to cell per row. Column selection, row selection and the
 * two column operations the formatter uses (drop, insert at the front) are
 * defined here by their plain sequence meaning.
 */
module Frame {

  datatype Option<T> = None | Some(value: T)

  datatype Result<T, E> = Success(value: T) | Failure(error: E)

  /** The Python exceptions the pipeline can raise, by class. */
  datatype Exception = KeyError(key: string) | IndexError | TypeError | ValueError

  /**
   * A cell: a missing value (pandas NaN), a text value as read from the
   * tab-separated export, or a time of day in microseconds after midnight
   * (the `datetime.time` values of the inserted "time" column).
   */
  datatype Cell = NA | Str(text: string) | Time(micros: nat)

  type Row = map<string, Cell>

  datatype Table = Table(columns: seq<string>, index: seq<nat>, rows: seq<Row>)

  predicate Distinct<T(==)>(s: seq<T>) {
    forall i, j | 0 <= i < j < |s| :: s[i] != s[j]
  }

  function Elems(s: seq<string>): (r: set<string>)
    ensures forall x :: x in r <==> x in s
  {
    set x | x in s
  }

  /** Column labels are unique, there is one index label per row, and every row has exactly the table's columns. */
  predicate WellFormed(t: Table) {
    && Distinct(t.columns)
    && |t.index| == |t.rows|
    && forall i | 0 <= i < |t.rows| :: t.rows[i].Keys == Elems(t.columns)
  }

  /** A prefix one element longer is the prefix followed by that element. */
  lemma TakeOneMore<T>(s: seq<T>, i: nat)
    requires i < |s|
    ensures s[..i + 1] == s[..i] + [s[i]]
  {
  }

  /** The default index 0, 1, ..., n-1 that `reset_index(drop=True)` installs. */
  function Range(n: nat): (r: seq<nat>)
    ensures |r| == n
    ensures forall i | 0 <= i < n :: r[i] == i
  {
    seq(n, i requires 0 <= i < n => i)
  }

  function ResetIndex(t: Table): (r: Table)
    ensures r.columns == t.columns && r.rows == t.rows
    ensures r.index == Range(|t.rows|)
    ensures WellFormed(t) ==> WellFormed(r)
  {
    t.(index := Range(|t.rows|))
  }

  /**
   * The positions of the elements of `s` that satisfy `keep`, in increasing
   * order: exactly the positions a boolean row mask selects.
   */
  function Positions<T>(s: seq<T>, keep: T -> bool): (ps: seq<nat>)
    ensures |ps| <= |s|
    ensures forall k | 0 <= k < |ps| :: ps[k] < |s| && keep(s[ps[k]])
    ensures forall k, l | 0 <= k < l < |ps| :: ps[k] < ps[l]
    ensures forall p | 0 <= p < |s| && keep(s[p]) :: p in ps
  {
    if s == [] then []
    else
      var ps := Positions(s[..|s| - 1], keep);
      if keep(s[|s| - 1]) then ps + [|s| - 1] else ps
  }

  /** The positions within a prefix one element longer: those of the prefix, then the new one if it is kept. */
  lemma PositionsStep<T>(s: seq<T>, keep: T -> bool, n: nat)
    requires n < |s|
    ensures Positions(s[..n + 1], keep) == Positions(s[..n], keep) + if keep(s[n]) then [n] else []
  {
    assert s[..n + 1][..n] == s[..n];
  }

  function Select<T>(s: seq<T>, ps: seq<nat>): (r: seq<T>)
    requires forall k | 0 <= k < |ps| :: ps[k] < |s|
    ensures |r| == |ps|
    ensures forall k | 0 <= k < |ps| :: r[k] == s[ps[k]]
  {
    seq(|ps|, k requires 0 <= k < |ps| => s[ps[k]])
  }

  /** The labels of `cols` that are not in `drop`, in their original order. */
  function Without(cols: seq<string>, drop: set<string>): (r: seq<string>)
    ensures Elems(r) == Elems(cols) - drop
    ensures Distinct(cols) ==> Distinct(r)
  {
    if cols == [] then []
    else
      var init, last := cols[..|cols| - 1], cols[|cols| - 1];
      assert cols == init + [last];
      var rest := Without(init, drop);
      assert Distinct(cols) ==> Distinct(init) && forall i | 0 <= i < |init| :: init[i] != last;
      assert Distinct(cols) ==> last !in Elems(rest);
      assert Distinct(cols) ==> forall i | 0 <= i < |rest| :: rest[i] != last;
      if last in drop then rest else rest + [last]
  }

  /** The first label of `labels` that is not a column of `t`, if any. */
  function FirstMissing(labels: seq<string>, cols: seq<string>): (r: Option<string>)
    ensures r.None? <==> forall c | c in labels :: c in cols
    ensures r.Some? ==> r.value in labels && r.value !in cols
  {
    if labels == [] then None
    else if labels[0] !in cols then Some(labels[0])
    else FirstMissing(labels[1..], cols)
  }

  /**
   * `drop(labels, axis=1)`: a KeyError when some label is not a column,
   * otherwise the table without those columns.
   */
  function DropColumns(t: Table, labels: seq<string>): (r: Result<Table, Exception>)
    requires WellFormed(t)
    ensures r.Failure? <==> exists c | c in labels :: c !in t.columns
    ensures r.Failure? ==> r.error.KeyError? && r.error.key in labels && r.error.key !in t.columns
    ensures r.Success? ==> WellFormed(r.value) && r.value.index == t.index && |r.value.rows| == |t.rows|
    ensures r.Success? ==> r.value.columns == Without(t.columns, Elems(labels))
    ensures r.Success? ==> forall i, c | 0 <= i < |t.rows| && c in r.value.columns :: r.value.rows[i][c] == t.rows[i][c]
  {
    match FirstMissing(labels, t.columns)
    case Some(c) => Failure(KeyError(c))
    case None =>
      var gone := Elems(labels);
      Success(Table(Without(t.columns, gone), t.index, seq(|t.rows|, i requires 0 <= i < |t.rows| => t.rows[i] - gone)))
  }

  /**
   * `insert(0, name, values)`: a ValueError when `name` is already a column,
   * otherwise the table with `name` as its new first column.
   */
  function InsertFirst(t: Table, name: string, values: seq<Cell>): (r: Result<Table, Exception>)
    requires WellFormed(t) && |values| == |t.rows|
    ensures r.Failure? <==> name in t.columns
    ensures r.Failure? ==> r.error == ValueError
    ensures r.Success? ==> WellFormed(r.value) && r.value.index == t.index && |r.value.rows| == |t.rows|
    ensures r.Success? ==> r.value.columns == [name] + t.columns
    ensures r.Success? ==> forall i | 0 <= i < |t.rows| :: r.value.rows[i][name] == values[i]
    ensures r.Success? ==> forall i, c | 0 <= i < |t.rows| && c in t.columns :: r.value.rows[i][c] == t.rows[i][c]
  {
    if name in t.columns then Failure(ValueError)
    else Success(Table([name] + t.columns, t.index, seq(|t.rows|, i requires 0 <= i < |t.rows| => t.rows[i][name := values[i]])))
  }
}
