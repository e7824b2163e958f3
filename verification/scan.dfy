/**
 * The sequential scan cursor (memam_beginscan, memam_getnextslot) over a
 * table's rows.
 */
module Scan {
  import opened Wrappers

  /** struct Row: its columns; each struct Column holds one int. */
  datatype Row = Row(columns: seq<int>)

  /** struct Table: a name and its rows; nrows is |rows|. */
  datatype Table = Table(name: string, rows: seq<Row>)

  /** Every row has a column 0, the one getnextslot reads. */
  predicate HasFirstColumns(t: Table)
  {
    forall i :: 0 <= i < |t.rows| ==> |t.rows[i].columns| > 0
  }

  /** The cursor may read the table: it is within the rows and every row has a column 0. */
  predicate Readable(table: Option<Table>, cursor: nat)
  {
    table.Some? ==> HasFirstColumns(table.value) && cursor <= |table.value.rows|
  }

  /** The values a scan at this cursor still has to emit: column 0 of each remaining row. */
  function Remaining(table: Option<Table>, cursor: nat): seq<int>
    requires Readable(table, cursor)
  {
    if table.None? then []
    else
      var rows := table.value.rows;
      seq(|rows| - cursor, i requires 0 <= i < |rows| - cursor => rows[cursor + i].columns[0])
  }

  /** The output slot: cleared, or a virtual tuple with column 0 set. */
  datatype Slot = Cleared | Virtual(value0: int, isnull0: bool)

  /** What one getnextslot call returns, leaves in the slot and leaves in the cursor. */
  datatype Step = Step(more: bool, slot: Slot, cursor: nat)

  /**
   * memam_getnextslot: no row when the table is absent or the cursor has
   * reached nrows; otherwise column 0 of the row under the cursor, not
   * null, and the cursor moves on by one.
   */
  function NextSlot(table: Option<Table>, cursor: nat): (s: Step)
    requires Readable(table, cursor)
    ensures Readable(table, s.cursor)
    ensures !s.more ==> s.cursor == cursor && s.slot == Cleared && Remaining(table, cursor) == []
    ensures s.more ==> s.cursor == cursor + 1 && s.slot.Virtual? && !s.slot.isnull0
    ensures s.more ==> Remaining(table, cursor) == [s.slot.value0] + Remaining(table, s.cursor)
  {
    if table.None? || cursor == |table.value.rows| then Step(false, Cleared, cursor)
    else
      var r := Step(true, Virtual(table.value.rows[cursor].columns[0], false), cursor + 1);
      assert Remaining(table, cursor) == [r.slot.value0] + Remaining(table, r.cursor);
      r
  }

  /** The values a scan emits from this cursor on, pulling until getnextslot returns false. */
  function ScanOutput(table: Option<Table>, cursor: nat): seq<int>
    requires Readable(table, cursor)
    decreases if table.Some? then |table.value.rows| - cursor else 0
  {
    var s := NextSlot(table, cursor);
    if !s.more then [] else [s.slot.value0] + ScanOutput(table, s.cursor)
  }

  /** A scan over a materialized table emits column 0 of every remaining row, in row order, once. */
  lemma {:induction false} ScanEmitsRemainingRows(table: Option<Table>, cursor: nat)
    requires Readable(table, cursor)
    ensures ScanOutput(table, cursor) == Remaining(table, cursor)
    decreases if table.Some? then |table.value.rows| - cursor else 0
  {
    var s := NextSlot(table, cursor);
    if s.more {
      ScanEmitsRemainingRows(table, s.cursor);
    }
  }

  /**
   * get_table as written: it reads the value stored under the relation's
   * name and drops it, never setting *table, so the table stays NULL.
   */
  function GetTable(kv: map<string, string>, relName: string): (t: Option<Table>)
    ensures t.None?
  {
    None
  }

  /** With get_table as written, every scan ends at its first call and emits nothing. */
  lemma AsWrittenScanIsEmpty(kv: map<string, string>, relName: string, cursor: nat)
    ensures !NextSlot(GetTable(kv, relName), cursor).more
    ensures ScanOutput(GetTable(kv, relName), cursor) == []
  {
  }

  /** The custom part of struct MemScanDesc: the cursor (a uint32 in C). */
  class ScanDesc {
    var relName: string
    var cursor: nat

    /** memam_beginscan: a new descriptor on the relation, its cursor at 0. */
    constructor BeginScan(relName: string)
      ensures this.relName == relName && cursor == 0
    {
      this.relName := relName;
      cursor := 0;
    }

    /**
     * memam_getnextslot, given the table get_table produced for the
     * relation: the step NextSlot describes, applied to the cursor.
     */
    method GetNextSlot(table: Option<Table>) returns (more: bool, slot: Slot)
      requires Readable(table, cursor)
      modifies this`cursor
      ensures Step(more, slot, cursor) == NextSlot(table, old(cursor))
      ensures Readable(table, cursor)
    {
      if table.None? || cursor == |table.value.rows| {
        return false, Cleared;
      }
      slot := Virtual(table.value.rows[cursor].columns[0], false);
      cursor := cursor + 1;
      more := true;
    }
  }
}
