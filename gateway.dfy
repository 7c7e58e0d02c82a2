/** The result projections of the four entry points: what each completion
    handler passes to the caller's callback once the pool has answered. */
module Gateway {
  import opened Values
  import Booleans

  /** What the driver hands the completion handler as `results`. */
  datatype QueryResults =
    | Failed                                    // the query failed: `results` is undefined
    | Packet(affectedRows: int, insertId: int)  // the OK packet of a statement that returns no rows
    | Rows(rows: seq<Row>)                      // the rows of a SELECT

  /** `mysql_execute`: `(results) ? results.affectedRows : 0`. A failure and a
      statement that changed no row deliver the same 0. */
  function ExecuteValue(results: QueryResults): (v: Value)
    ensures v == Num(0.0) <==> results.Failed? || (results.Packet? && results.affectedRows == 0)
    ensures results.Packet? ==> v == Num(results.affectedRows as real)
    ensures results.Rows? ==> v == Undefined
  {
    match results
    case Failed => Num(0.0)
    case Packet(affected, _) => Num(affected as real)
    case Rows(_) => Undefined
  }

  /** `mysql_insert`: `(results) ? results.insertId : 0`. A failure and an
      insert that generated no identifier deliver the same 0. */
  function InsertValue(results: QueryResults): (v: Value)
    ensures v == Num(0.0) <==> results.Failed? || (results.Packet? && results.insertId == 0)
    ensures results.Packet? ==> v == Num(results.insertId as real)
    ensures results.Rows? ==> v == Undefined
  {
    match results
    case Failed => Num(0.0)
    case Packet(_, id) => Num(id as real)
    case Rows(_) => Undefined
  }

  /** What a completion handler does: call back with a value, or throw (the
      callback is then never called). */
  datatype Delivery = Deliver(value: Value) | Throws

  /** `mysql_fetch_scalar`: the rows are coerced, then
      `(results) ? Object.values(results[0])[0] : null`. An empty result set
      (or an OK packet) has no `results[0]`, and `Object.values(undefined)`
      throws. */
  function ScalarValue(results: QueryResults, fields: Option<seq<Field>>): (d: Delivery)
    requires results.Rows? && results.rows != [] ==> RowOk(results.rows[0])
    ensures results.Failed? ==> d == Deliver(Null)
    ensures d.Throws? <==> results.Packet? || results == Rows([])
    ensures results.Rows? && results.rows != [] && fields.None? ==> d == Deliver(FirstValue(results.rows[0]))
  {
    match results
    case Failed => Deliver(Null)
    case Packet(_, _) => Throws
    case Rows(rows) =>
      if rows == [] then Throws
      else
        Booleans.CoercedOk(fields, rows, 0);
        Deliver(FirstValue(Booleans.Coerced(fields, rows)[0]))
  }

  /** When the first column of the first row is a TINYINT(1) column, the
      scalar is that cell's `value !== 0`. */
  lemma ScalarOfFlag(rows: seq<Row>, fields: seq<Field>)
    requires rows != [] && RowOk(rows[0]) && rows[0].columns != []
    requires Booleans.TinyBoolCount(fields, rows[0].columns[0]) == 1
    ensures ScalarValue(Rows(rows), Some(fields)) == Deliver(Bool(DiffersFromZero(FirstValue(rows[0]))))
  {
    var name := rows[0].columns[0];
    Booleans.CoerceFieldsPointwise(fields, rows);
    Booleans.CoerceRowColumns(fields, rows[0]);
    Booleans.CoerceRowGet(fields, rows[0], name);
    Booleans.CoerceRowOk(fields, rows[0]);
    var first := Booleans.CoerceRow(fields, rows[0]);
    assert first.columns[0] == name;
  }

  /** When the first column of the first row is named by no TINYINT(1)
      column, the scalar is that cell as the driver returned it. */
  lemma ScalarOfPlainColumn(rows: seq<Row>, fields: seq<Field>)
    requires rows != [] && RowOk(rows[0]) && rows[0].columns != []
    requires Booleans.TinyBoolCount(fields, rows[0].columns[0]) == 0
    ensures ScalarValue(Rows(rows), Some(fields)) == Deliver(FirstValue(rows[0]))
  {
    var name := rows[0].columns[0];
    Booleans.CoerceFieldsPointwise(fields, rows);
    Booleans.CoerceRowColumns(fields, rows[0]);
    Booleans.CoerceRowGet(fields, rows[0], name);
    Booleans.CoerceRowOk(fields, rows[0]);
    var first := Booleans.CoerceRow(fields, rows[0]);
    assert first.columns[0] == name;
  }
}
