/**
 * `ScheduleManager`: the class schedule table loaded once at construction
 * and the availability query over it. The table is the sequence of CSV rows;
 * the query is the boolean-mask selection followed by an emptiness test.
 */
module Schedule {

  /** A cell of the `availability` column as the CSV reader types it. */
  datatype Cell = BoolCell(b: bool) | IntCell(n: int) | TextCell(s: string) | Missing

  datatype Row = Row(classType: string, date: string, time: string, availability: Cell)

  /**
   * The stored DataFrame: the rows of the CSV file, or the empty fallback
   * without any column that a missing file leaves behind.
   */
  datatype Table = Frame(rows: seq<Row>) | NoColumns

  /** What reading the CSV file gave: its rows, or `FileNotFoundError`. */
  datatype CsvRead = Parsed(rows: seq<Row>) | FileNotFound

  /** The column comparison `cell == True`; Python holds `1 == True`. */
  predicate EqualsTrue(c: Cell) {
    c == BoolCell(true) || c == IntCell(1)
  }

  /** The four-way mask of `check_availability` at one row. */
  predicate Selects(row: Row, classType: string, date: string, time: string) {
    && row.classType == classType
    && row.date == date
    && row.time == time
    && EqualsTrue(row.availability)
  }

  /** Some row of the table offers the class at that date and time. */
  ghost predicate Offered(rows: seq<Row>, classType: string, date: string, time: string) {
    exists row :: row in rows && Selects(row, classType, date, time)
  }

  /** `schedule[mask]`: the selected rows, in table order. */
  function Available(rows: seq<Row>, classType: string, date: string, time: string): (r: seq<Row>)
    ensures |r| <= |rows|
    ensures forall row :: row in r <==> row in rows && Selects(row, classType, date, time)
    decreases |rows|
  {
    if rows == [] then []
    else
      var rest := Available(rows[1..], classType, date, time);
      assert forall row :: row in rows <==> row == rows[0] || row in rows[1..];
      if Selects(rows[0], classType, date, time) then [rows[0]] + rest else rest
  }

  /** `load_schedule`, with the file read given as its outcome. */
  function LoadSchedule(read: CsvRead): (t: Table)
    ensures read.FileNotFound? <==> t == NoColumns
    ensures read.Parsed? ==> t.Frame? && t.rows == read.rows
  {
    match read
    case Parsed(rows) => Frame(rows)
    case FileNotFound => NoColumns
  }

  class ScheduleManager {
    const csvPath: string
    /** Assigned once by the constructor and never again. */
    const schedule: Table

    constructor (csvPath: string, read: CsvRead)
      ensures this.csvPath == csvPath
      ensures schedule == LoadSchedule(read)
    {
      this.csvPath := csvPath;
      schedule := LoadSchedule(read);
    }

    /**
     * Whether some row offers the class at that date and time. The mask reads
     * the four columns; on the column-less fallback table Python raises
     * `KeyError` there, and the model requires a loaded table instead.
     */
    function CheckAvailability(classType: string, date: string, time: string): (r: bool)
      requires schedule.Frame?
      ensures r <==> Offered(schedule.rows, classType, date, time)
    {
      var selected := Available(schedule.rows, classType, date, time);
      assert selected != [] ==> selected[0] in selected;
      selected != []
    }

    function GetSchedule(): (t: Table)
      ensures t == schedule
    {
      schedule
    }
  }

  // ---------------------------------------------------------------------------
  // Properties of the query
  // ---------------------------------------------------------------------------

  /** The selection of a concatenation is the concatenation of the selections. */
  lemma {:induction false} AvailableAppend(a: seq<Row>, b: seq<Row>, classType: string, date: string, time: string)
    ensures Available(a + b, classType, date, time)
      == Available(a, classType, date, time) + Available(b, classType, date, time)
    decreases |a|
  {
    if a == [] {
      assert a + b == b;
    } else {
      assert (a + b)[0] == a[0] && (a + b)[1..] == a[1..] + b;
      AvailableAppend(a[1..], b, classType, date, time);
    }
  }

  /** Appending rows turns the answer true exactly when an appended row matches. */
  lemma AppendedRows(a: seq<Row>, b: seq<Row>, classType: string, date: string, time: string)
    ensures (Available(a + b, classType, date, time) != [])
      <==> (Available(a, classType, date, time) != [] || Available(b, classType, date, time) != [])
  {
    AvailableAppend(a, b, classType, date, time);
  }

  /** The selection keeps every selected row as often as the table holds it, and no other row. */
  lemma {:induction false} AvailableCount(rows: seq<Row>, row: Row, classType: string, date: string, time: string)
    ensures multiset(Available(rows, classType, date, time))[row]
      == if Selects(row, classType, date, time) then multiset(rows)[row] else 0
    decreases |rows|
  {
    if rows != [] {
      assert rows == [rows[0]] + rows[1..];
      AvailableCount(rows[1..], row, classType, date, time);
    }
  }

  /** Reordering the table reorders the selection, so the answer does not change. */
  lemma RowOrderIrrelevant(a: seq<Row>, b: seq<Row>, classType: string, date: string, time: string)
    requires multiset(a) == multiset(b)
    ensures multiset(Available(a, classType, date, time)) == multiset(Available(b, classType, date, time))
    ensures (Available(a, classType, date, time) != []) == (Available(b, classType, date, time) != [])
  {
    var sa := Available(a, classType, date, time);
    var sb := Available(b, classType, date, time);
    forall row ensures multiset(sa)[row] == multiset(sb)[row] {
      AvailableCount(a, row, classType, date, time);
      AvailableCount(b, row, classType, date, time);
    }
    assert multiset(sa) == multiset(sb);
    assert |sa| == |multiset(sa)| && |sb| == |multiset(sb)|;
  }

  /** A table with no available row selects nothing. */
  lemma {:induction false} NoneSelected(rows: seq<Row>, classType: string, date: string, time: string)
    requires forall row :: row in rows ==> !EqualsTrue(row.availability)
    ensures Available(rows, classType, date, time) == []
    decreases |rows|
  {
    if rows != [] {
      assert rows[0] in rows;
      NoneSelected(rows[1..], classType, date, time);
    }
  }

  /** Rows whose availability is not `True` never change the selection, wherever they sit. */
  lemma UnavailableRowsIgnored(a: seq<Row>, extra: seq<Row>, b: seq<Row>, classType: string, date: string, time: string)
    requires forall row :: row in extra ==> !EqualsTrue(row.availability)
    ensures Available(a + extra + b, classType, date, time) == Available(a + b, classType, date, time)
  {
    AvailableAppend(a + extra, b, classType, date, time);
    AvailableAppend(a, extra, classType, date, time);
    AvailableAppend(a, b, classType, date, time);
    NoneSelected(extra, classType, date, time);
  }
}
