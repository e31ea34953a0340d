/**
 * The data-frame variants of the due-date rule: `calculate_due_dates` counts
 * from `Start_Date` (already a timestamp) and assigns the `Next_Review_Date`
 * and `Status` columns of the whole frame at once, after every row has been
 * computed.
 */
module DueFrames {
  import opened Wrappers
  import opened Calendar
  import opened Text
  import opened DueDates

  /** A timestamp the frame can hold. */
  type Timestamp = d: Date | ValidDate(d) witness Date(1970, 1, 1)

  /** One row of the projects frame, with the columns the rule reads and writes. */
  datatype Row = Row(
    projectId: string,
    start: Timestamp,
    frequency: Number,
    next: Option<Date>,
    status: Option<DueStatus>)

  /** `calculate_for_project` of the first definition: the next review from `Start_Date`, and its status. */
  function RowDue(row: Row, today: Date): (r: Result<Row, DueError>)
    ensures r.Ok? <==> NextReviewAfter(row.start, row.frequency).Ok?
    ensures r.Ok? ==> r.value == row.(next := r.value.next, status := r.value.status)
  {
    match NextReviewAfter(row.start, row.frequency)
    case Err(e) => Err(e)
    case Ok(next) => Ok(row.(next := Some(next), status := Some(DateStatus(next, today))))
  }

  /** `calculate_for_project` of the live definition: only the next review. */
  function RowNext(row: Row): (r: Result<Row, DueError>)
    ensures r.Ok? <==> NextReviewAfter(row.start, row.frequency).Ok?
    ensures r.Ok? ==> r.value == row.(next := r.value.next)
  {
    match NextReviewAfter(row.start, row.frequency)
    case Err(e) => Err(e)
    case Ok(next) => Ok(row.(next := Some(next)))
  }

  /**
   * The frame rule is the record rule moved to `Start_Date`: the next review is
   * the start moved by `int(years * 12)` months, and the status follows the same
   * 0/30-day thresholds.
   */
  lemma RowDueSpec(row: Row, today: Date)
    requires RowDue(row, today).Ok?
    ensures var k := MonthsOf(row.frequency).value;
      && AddMonths(row.start, k).Some?
      && RowDue(row, today).value.next == AddMonths(row.start, k)
      && RowDue(row, today).value.status == Some(StatusFor(DaysBetween(today, AddMonths(row.start, k).value)))
  {
  }

  /** The live definition computes the same next review and leaves `Status` as it was. */
  lemma RowNextAgrees(row: Row, today: Date)
    ensures RowNext(row).Ok? <==> RowDue(row, today).Ok?
    ensures RowNext(row).Ok? ==>
      RowNext(row).value == RowDue(row, today).value.(status := row.status)
  {
  }

  function RowDueFn(today: Date): Row -> Result<Row, DueError>
  {
    row => RowDue(row, today)
  }

  function RowNextFn(): Row -> Result<Row, DueError>
  {
    row => RowNext(row)
  }

  /**
   * `calculate_due_dates(projects_df, current_date)`: `apply` computes every
   * row first (a raising row raises out of the call), then both columns are
   * assigned at once, so the frame is either fully updated or untouched.
   */
  method CalculateDueDates(frame: array<Row>, today: Date) returns (err: Option<DueError>)
    modifies frame
    ensures MapAll(RowDueFn(today), old(frame[..])).Ok? ==>
      err == None && frame[..] == MapAll(RowDueFn(today), old(frame[..])).value
    ensures MapAll(RowDueFn(today), old(frame[..])).Err? ==>
      err == Some(MapAll(RowDueFn(today), old(frame[..])).error) && frame[..] == old(frame[..])
  {
    err := ApplyColumns(RowDueFn(today), frame);
  }

  /** The live `calculate_due_dates(projects_df)`: the same, assigning `Next_Review_Date` only. */
  method CalculateNextDates(frame: array<Row>) returns (err: Option<DueError>)
    modifies frame
    ensures MapAll(RowNextFn(), old(frame[..])).Ok? ==>
      err == None && frame[..] == MapAll(RowNextFn(), old(frame[..])).value
    ensures MapAll(RowNextFn(), old(frame[..])).Err? ==>
      err == Some(MapAll(RowNextFn(), old(frame[..])).error) && frame[..] == old(frame[..])
  {
    err := ApplyColumns(RowNextFn(), frame);
  }

  /** `frame.apply(f, axis=1)` into a new frame, then the columns assigned back when no row raised. */
  method ApplyColumns(f: Row -> Result<Row, DueError>, frame: array<Row>) returns (err: Option<DueError>)
    modifies frame
    ensures MapAll(f, old(frame[..])).Ok? ==> err == None && frame[..] == MapAll(f, old(frame[..])).value
    ensures MapAll(f, old(frame[..])).Err? ==>
      err == Some(MapAll(f, old(frame[..])).error) && frame[..] == old(frame[..])
  {
    var computed := new Row[frame.Length](i requires 0 <= i < frame.Length reads frame => frame[i]);
    assert computed[..] == frame[..];
    err := UpdateEach(f, computed);
    if err == None {
      forall i | 0 <= i < frame.Length {
        frame[i] := computed[i];
      }
      assert frame[..] == computed[..];
    }
  }

  /** Every row of a successful recompute carries both columns, with the record rule's next review. */
  lemma CalculateDueDatesRows(rows: seq<Row>, today: Date)
    requires MapAll(RowDueFn(today), rows).Ok?
    ensures |MapAll(RowDueFn(today), rows).value| == |rows|
    ensures forall i :: 0 <= i < |rows| ==>
      var v := MapAll(RowDueFn(today), rows).value[i];
      && v.projectId == rows[i].projectId
      && MonthsOf(rows[i].frequency).Some?
      && v.next == AddMonths(rows[i].start, MonthsOf(rows[i].frequency).value)
      && v.status.Some?
  {
    MapAllSpec(RowDueFn(today), rows);
    var vs := MapAll(RowDueFn(today), rows).value;
    forall i | 0 <= i < |rows|
      ensures vs[i].projectId == rows[i].projectId && MonthsOf(rows[i].frequency).Some?
      ensures vs[i].next == AddMonths(rows[i].start, MonthsOf(rows[i].frequency).value) && vs[i].status.Some?
    {
      assert RowDueFn(today)(rows[i]) == RowDue(rows[i], today);
      RowDueSpec(rows[i], today);
    }
  }
}
