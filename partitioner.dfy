/**
 * The partitioning stage: `groupby(column)` over the loaded table, one subset
 * per group, keyed "{group}_{participant}" (tobii_data_process.py, lines 33-42).
 *
 * pandas' `groupby` with its defaults iterates the groups in increasing order
 * of the group value and leaves out the rows whose group value is missing;
 * within a group the rows keep their order in the table.
 */
module Partitioner {
  import opened Frame
  import opened StringOrder

  const ParticipantColumn: string := "Participant name"

  /** Every cell holds text or is missing, as in a table read from a text export. */
  predicate TextCells(t: Table) {
    forall i, c | 0 <= i < |t.rows| && c in t.rows[i] :: !t.rows[i][c].Time?
  }

  /** `f"{value}"` for a cell of a text column: the text itself; a missing value (NaN) prints as "nan". */
  function CellText(c: Cell): (s: string)
    requires !c.Time?
    ensures c == NA ==> s == "nan"
    ensures c.Str? ==> s == c.text
  {
    match c
    case NA => "nan"
    case Str(s) => s
  }

  /** The subset key "{group}_{participant}". */
  function SubsetKey(group: string, participant: Cell): (k: string)
    requires !participant.Time?
    ensures |k| == |group| + 1 + |CellText(participant)|
    ensures k[..|group|] == group && k[|group|] == '_' && k[|group| + 1..] == CellText(participant)
  {
    group + "_" + CellText(participant)
  }

  /** The non-missing values of column `col`, in row order. */
  function ColumnTexts(rows: seq<Row>, col: string): (vs: seq<string>)
    requires forall i | 0 <= i < |rows| :: col in rows[i]
    ensures forall i | 0 <= i < |rows| && rows[i][col].Str? :: rows[i][col].text in vs
    ensures forall v | v in vs :: exists i | 0 <= i < |rows| :: rows[i][col] == Str(v)
  {
    if rows == [] then []
    else
      var init := rows[..|rows| - 1];
      var vs := ColumnTexts(init, col);
      assert forall i | 0 <= i < |init| :: init[i] == rows[i];
      match rows[|rows| - 1][col]
      case Str(v) => vs + [v]
      case _ => vs
  }

  /** The group values in the order `groupby` visits them: distinct, increasing, missing values left out. */
  function GroupNames(t: Table, col: string): (names: seq<string>)
    requires WellFormed(t) && col in t.columns
    ensures StrictlySorted(names)
    ensures forall i | 0 <= i < |t.rows| && t.rows[i][col].Str? :: t.rows[i][col].text in names
    ensures forall v | v in names :: exists i | 0 <= i < |t.rows| :: t.rows[i][col] == Str(v)
  {
    var vs := ColumnTexts(t.rows, col);
    var names := SortedSet(vs);
    assert forall v :: v in names <==> v in vs by {
      forall v ensures v in names <==> v in vs {
        assert v in names <==> v in Elems(names);
      }
    }
    names
  }

  /** The positions of the rows of group `name`, in table order. */
  function GroupPositions(t: Table, col: string, name: string): (ps: seq<nat>)
  {
    Positions(t.rows, (r: Row) => col in r && r[col] == Str(name))
  }

  /** One group with its index reset: `df.reset_index(drop=True)`. */
  function GroupTable(t: Table, col: string, name: string): (g: Table)
    requires WellFormed(t)
    ensures WellFormed(g) && g.columns == t.columns && g.index == Range(|g.rows|)
  {
    var ps := GroupPositions(t, col, name);
    Table(t.columns, Range(|ps|), Select(t.rows, ps))
  }

  lemma GroupNonEmpty(t: Table, col: string, name: string)
    requires WellFormed(t) && col in t.columns
    requires exists i | 0 <= i < |t.rows| :: t.rows[i][col] == Str(name)
    ensures |GroupPositions(t, col, name)| > 0
  {
    var i :| 0 <= i < |t.rows| && t.rows[i][col] == Str(name);
    assert i in GroupPositions(t, col, name);
  }

  /**
   * The dictionary entry for one group (lines 38-41): the key, from the
   * participant in the group's first row, and the group's rows with the
   * index reset.
   */
  function Subset(t: Table, col: string, name: string): (e: (string, Table))
    requires WellFormed(t) && TextCells(t) && col in t.columns && ParticipantColumn in t.columns
    requires exists i | 0 <= i < |t.rows| :: t.rows[i][col] == Str(name)
    ensures WellFormed(e.1) && e.1.index == Range(|e.1.rows|) && |e.1.rows| > 0
  {
    GroupNonEmpty(t, col, name);
    var g := GroupTable(t, col, name);
    (SubsetKey(name, g.rows[0][ParticipantColumn]), g)
  }

  /**
   * The entries `tobii_data_divide` stores, in the order it stores them; a
   * KeyError when the group column is missing, or when the participant column
   * is missing and there is a group to read it from.
   */
  function Partition(t: Table, col: string): (r: Result<seq<(string, Table)>, Exception>)
    requires WellFormed(t) && TextCells(t)
    ensures r.Failure? <==> col !in t.columns || (ParticipantColumn !in t.columns && |GroupNames(t, col)| > 0)
    ensures r.Failure? ==> r.error == KeyError(if col !in t.columns then col else ParticipantColumn)
    ensures r.Success? ==> |r.value| == |GroupNames(t, col)|
    ensures r.Success? ==> forall j | 0 <= j < |r.value| :: WellFormed(r.value[j].1) && r.value[j].1.index == Range(|r.value[j].1.rows|)
  {
    if col !in t.columns then Failure(KeyError(col))
    else
      var names := GroupNames(t, col);
      if |names| > 0 && ParticipantColumn !in t.columns then Failure(KeyError(ParticipantColumn))
      else Success(seq(|names|, j requires 0 <= j < |names| => Subset(t, col, names[j])))
  }

  /** The j-th entry of a partition is the subset of the j-th group value. */
  lemma PartitionEntry(t: Table, col: string, j: nat)
    requires WellFormed(t) && TextCells(t) && Partition(t, col).Success?
    requires j < |Partition(t, col).value|
    ensures GroupNames(t, col)[j] in GroupNames(t, col)
    ensures Partition(t, col).value[j] == Subset(t, col, GroupNames(t, col)[j])
  {
  }

  /**
   * Each stored subset holds exactly the rows of its group: every one of its
   * rows has the group's value, every row of the table with that value is in
   * it, and they keep their order in the table; its index is 0..n-1.
   */
  lemma {:induction false} SubsetHoldsItsGroup(t: Table, col: string, j: nat)
    requires WellFormed(t) && TextCells(t) && Partition(t, col).Success?
    requires j < |Partition(t, col).value|
    ensures var name, g, ps := GroupNames(t, col)[j], Partition(t, col).value[j].1, GroupPositions(t, col, GroupNames(t, col)[j]);
      && g.columns == t.columns && g.index == Range(|g.rows|)
      && |g.rows| == |ps| > 0
      && (forall k | 0 <= k < |ps| :: ps[k] < |t.rows| && g.rows[k] == t.rows[ps[k]] && g.rows[k][col] == Str(name))
      && (forall k, l | 0 <= k < l < |ps| :: ps[k] < ps[l])
      && (forall p | 0 <= p < |t.rows| && t.rows[p][col] == Str(name) :: p in ps)
  {
    var names := GroupNames(t, col);
    assert names[j] in names;
    GroupNonEmpty(t, col, names[j]);
  }

  /**
   * The key of the j-th subset is its group value, "_", and the participant
   * of the first row of the table that belongs to the group.
   */
  lemma {:induction false} SubsetKeyFormat(t: Table, col: string, j: nat, p: nat)
    requires WellFormed(t) && TextCells(t) && Partition(t, col).Success?
    requires j < |Partition(t, col).value|
    requires p < |t.rows| && t.rows[p][col] == Str(GroupNames(t, col)[j])
    requires forall q | 0 <= q < p :: t.rows[q][col] != Str(GroupNames(t, col)[j])
    ensures ParticipantColumn in t.rows[p]
    ensures Partition(t, col).value[j].0 == GroupNames(t, col)[j] + "_" + CellText(t.rows[p][ParticipantColumn])
  {
    var names := GroupNames(t, col);
    assert names[j] in names;
    var ps := GroupPositions(t, col, names[j]);
    assert p in ps;
    assert ps[0] == p by {
      assert t.rows[ps[0]][col] == Str(names[j]);
    }
  }

  /**
   * Partition completeness: a row with a group value lies in exactly the
   * subset of that value, and a row whose group value is missing in none.
   */
  lemma {:induction false} EveryRowInOneSubset(t: Table, col: string, p: nat)
    requires WellFormed(t) && TextCells(t) && Partition(t, col).Success?
    requires p < |t.rows|
    ensures t.rows[p][col].Str? <==> exists j | 0 <= j < |GroupNames(t, col)| :: p in GroupPositions(t, col, GroupNames(t, col)[j])
    ensures forall j | 0 <= j < |GroupNames(t, col)| ::
      p in GroupPositions(t, col, GroupNames(t, col)[j]) <==> t.rows[p][col] == Str(GroupNames(t, col)[j])
  {
    var names := GroupNames(t, col);
    forall j | 0 <= j < |names|
      ensures p in GroupPositions(t, col, names[j]) <==> t.rows[p][col] == Str(names[j])
    {
      var ps := GroupPositions(t, col, names[j]);
      if p in ps {
        var k :| 0 <= k < |ps| && ps[k] == p;
      }
    }
    if t.rows[p][col].Str? {
      var v := t.rows[p][col].text;
      assert v in names;
      var j :| 0 <= j < |names| && names[j] == v;
      assert p in GroupPositions(t, col, names[j]);
    }
  }

  /** `groupby` visits each group value once. */
  lemma GroupNamesDistinct(t: Table, col: string)
    requires WellFormed(t) && col in t.columns
    ensures Distinct(GroupNames(t, col))
  {
    SortedIsDistinct(GroupNames(t, col));
  }
}
