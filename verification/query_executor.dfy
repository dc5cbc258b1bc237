/** Running a query against the analytical database (api/db_handler.py). The
    database is abstract: whether its file exists, whether a read-only
    connection opens, and what executing and fetching a statement yields.
    Every failure becomes an empty result; on success each result row becomes
    one record with not-a-number replaced by null. The connection's lifetime
    is recorded as a trace of events so that closing it can be stated. */
module QueryExecutor {
  import opened Common

  /** What happened to the database connection, in order. */
  datatype Event = Opened | Executed(sql: string) | Closed

  /** The records returned and the connection events of one call. */
  datatype Execution = Execution(records: seq<Record>, trace: seq<Event>)

  /** `replace({np.nan: None})` on one cell. */
  function CleanCell(c: Cell): (d: Cell)
    ensures !d.NaN?
    ensures c.NaN? ==> d == Null
    ensures !c.NaN? ==> d == c
  {
    if c.NaN? then Null else c
  }

  /** One row as a record: column names paired with the cleaned cells, in
      column order (`to_dict('records')`). */
  function ToRecord(columns: seq<string>, row: seq<Cell>): (r: Record)
    requires |row| == |columns|
    ensures |r| == |columns|
    ensures forall j :: 0 <= j < |r| ==> r[j].0 == columns[j] && r[j].1 == CleanCell(row[j])
  {
    if |row| == 0 then [] else [(columns[0], CleanCell(row[0]))] + ToRecord(columns[1..], row[1..])
  }

  /** Every row of the table as a record, in row order. */
  function ToRecords(t: Table): (rs: seq<Record>)
    ensures |rs| == |t.rows|
    ensures forall i :: 0 <= i < |rs| ==> rs[i] == ToRecord(t.columns, t.rows[i])
  {
    seq(|t.rows|, i requires 0 <= i < |t.rows| => ToRecord(t.columns, t.rows[i]))
  }

  /** No cell of any record is not-a-number. */
  predicate NoNaN(rs: seq<Record>)
  {
    forall i, j :: 0 <= i < |rs| && 0 <= j < |rs[i]| ==> !rs[i][j].1.NaN?
  }

  /** A connection that was opened is closed, exactly once, as the last event. */
  predicate ClosedIfOpened(trace: seq<Event>)
  {
    Opened in trace ==>
      && trace[|trace| - 1] == Closed
      && multiset(trace)[Opened] == 1
      && multiset(trace)[Closed] == 1
  }

  /** `execute_query`: an empty result when the database file is missing or
      when connecting, executing or fetching fails; otherwise one record per
      result row, in order, over the result's columns, with every
      not-a-number cell replaced by null. */
  function ExecuteQuery(sql: string, fileExists: bool, connects: bool, run: string -> Outcome<Table>): (e: Execution)
    ensures !fileExists ==> e.records == [] && e.trace == []
    ensures fileExists && !connects ==> e.records == [] && Opened !in e.trace
    ensures fileExists && connects ==> e.trace == [Opened, Executed(sql), Closed]
    ensures fileExists && connects && run(sql).Err? ==> e.records == []
    ensures fileExists && connects && run(sql).Ok? ==>
      var t := run(sql).value;
      && |e.records| == |t.rows|
      && forall i :: 0 <= i < |e.records| ==>
           && |e.records[i]| == |t.columns|
           && forall j :: 0 <= j < |t.columns| ==>
                e.records[i][j] == (t.columns[j], if t.rows[i][j].NaN? then Null else t.rows[i][j])
    ensures NoNaN(e.records)
    ensures ClosedIfOpened(e.trace)
  {
    if !fileExists then Execution([], [])
    else if !connects then Execution([], [])
    else
      match run(sql)
      case Err => Execution([], [Opened, Executed(sql), Closed])
      case Ok(t) => Execution(ToRecords(t), [Opened, Executed(sql), Closed])
  }

  /** Cleaning is idempotent: the records already hold no not-a-number, so
      cleaning them again changes nothing. */
  lemma RecordsAreClean(sql: string, fileExists: bool, connects: bool, run: string -> Outcome<Table>)
    ensures var rs := ExecuteQuery(sql, fileExists, connects, run).records;
      forall i, j :: 0 <= i < |rs| && 0 <= j < |rs[i]| ==> CleanCell(rs[i][j].1) == rs[i][j].1
  {
  }

  /** The names of a record's fields, in order. */
  function Keys(r: Record): (ks: seq<string>)
    ensures |ks| == |r| && forall j :: 0 <= j < |r| ==> ks[j] == r[j].0
  {
    if |r| == 0 then [] else [r[0].0] + Keys(r[1..])
  }

  /** The values of a record's fields, in order. */
  function Values(r: Record): (vs: seq<Cell>)
    ensures |vs| == |r| && forall j :: 0 <= j < |r| ==> vs[j] == r[j].1
  {
    if |r| == 0 then [] else [r[0].1] + Values(r[1..])
  }

  /** The cleaned table, as a table. */
  function CleanTable(t: Table): (c: Table)
  {
    Frame(t.columns, seq(|t.rows|, i requires 0 <= i < |t.rows| =>
      seq(|t.rows[i]|, j requires 0 <= j < |t.rows[i]| => CleanCell(t.rows[i][j]))))
  }

  /** Reading the records back as a table gives the query result with
      not-a-number replaced by null: no row, column or value is lost,
      reordered or altered otherwise. */
  lemma RecordsRoundTrip(t: Table)
    ensures var rs := ToRecords(t);
      && (forall i :: 0 <= i < |rs| ==> Keys(rs[i]) == t.columns)
      && Frame(t.columns, seq(|rs|, i requires 0 <= i < |rs| => Values(rs[i]))) == CleanTable(t)
  {
    var rs := ToRecords(t);
    var back := seq(|rs|, i requires 0 <= i < |rs| => Values(rs[i]));
    var clean := CleanTable(t);
    assert |back| == |clean.rows|;
    forall i | 0 <= i < |back|
      ensures back[i] == clean.rows[i]
    {
      assert |back[i]| == |clean.rows[i]|;
    }
  }
}
