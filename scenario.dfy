/**
 * A worked instance of the formatting stage: a subset of four samples whose
 * stimulus names are missing, "Text", "ImageA" and "ImageA", recorded from
 * 10:00:00.000, with "Text" excluded. The first two rows are dropped, and
 * the two left are stamped 8 ms and 12 ms after the start, because the
 * first of them was the third sample.
 */
module Scenario {
  import opened Frame
  import opened TimeOfDay
  import opened Formatter

  predicate Recording(t: Table) {
    && WellFormed(t) && t.index == Range(4)
    && StimulusColumn in t.columns && StartTimeColumn in t.columns
    && (forall c | c in DeleteColumns :: c in t.columns)
    && TimeColumn !in t.columns
    && t.rows[0][StimulusColumn] == NA && t.rows[1][StimulusColumn] == Str("Text")
    && t.rows[2][StimulusColumn] == Str("ImageA") && t.rows[3][StimulusColumn] == Str("ImageA")
    && forall i | 0 <= i < 4 :: t.rows[i][StartTimeColumn] == Str("10:00:00.000")
  }

  lemma StartParses()
    ensures ParseTime("10:00:00.000") == Some(36_000_000_000)
  {
    assert "10:00:00.000" == "10" + ":" + "00" + ":" + "00" + "." + "000";
    assert DigitsValue("10") == 10 && DigitsValue("00") == 0 && DigitsValue("000") == 0;
    ParseTimeFields("10", "00", "00", "000");
  }

  lemma KeepsLastTwo(t: Table)
    requires |t.rows| == 4 && forall i | 0 <= i < 4 :: StimulusColumn in t.rows[i]
    requires t.rows[0][StimulusColumn] == NA && t.rows[1][StimulusColumn] == Str("Text")
    requires t.rows[2][StimulusColumn] == Str("ImageA") && t.rows[3][StimulusColumn] == Str("ImageA")
    ensures KeptPositions(t, ["Text"]) == [2, 3]
  {
    var rows, keep := t.rows, (r: Row) => KeepRow(r, ["Text"]);
    assert !keep(rows[0]) && !keep(rows[1]) && keep(rows[2]) && keep(rows[3]);
    PositionsStep(rows, keep, 0);
    PositionsStep(rows, keep, 1);
    PositionsStep(rows, keep, 2);
    PositionsStep(rows, keep, 3);
    assert rows[..0] == [] && rows[..4] == rows;
  }

  /** The formatted subset has two rows, both "ImageA", stamped 10:00:00.008 and 10:00:00.012. */
  lemma {:induction false} FormatRecording(t: Table)
    requires Recording(t)
    ensures FormatSubset(t, DeleteColumns, ["Text"]).Success?
    ensures var f := FormatSubset(t, DeleteColumns, ["Text"]).value;
      && |f.rows| == 2 && f.columns[0] == TimeColumn && StimulusColumn in f.columns
      && f.rows[0][TimeColumn] == Time(36_000_008_000) && f.rows[1][TimeColumn] == Time(36_000_012_000)
      && f.rows[0][StimulusColumn] == Str("ImageA") && f.rows[1][StimulusColumn] == Str("ImageA")
  {
    KeepsLastTwo(t);
    StartParses();
    FormatSubsetSucceedsIff(t, DeleteColumns, ["Text"]);
    DefaultDeleteColumns();
    assert StimulusColumn in Without(t.columns, Elems(DeleteColumns));
    assert TimeColumn !in Without(t.columns, Elems(DeleteColumns));
    var f := FormatSubset(t, DeleteColumns, ["Text"]).value;
    FormatSubsetRows(t, DeleteColumns, ["Text"]);
    FilterStimulusSelects(t, ["Text"]);
    FormattedShape(FilterStimulus(t, ["Text"]), DeleteColumns);
    FormatSubsetTimes(t, DeleteColumns, ["Text"], 0);
    FormatSubsetTimes(t, DeleteColumns, ["Text"], 1);
  }
}
