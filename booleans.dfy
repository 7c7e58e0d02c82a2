/** TINYINT(1) to boolean coercion: `useBoolean` walks the column descriptors
    and, for each TINYINT of display length 1, overwrites that column of
    every row with `value !== 0`, in place. */
module Booleans {
  import opened Values

  /** A column the driver reports as TINYINT(1). */
  predicate IsTinyBool(f: Field) {
    f.typeCode == TINY && f.length == 1
  }

  /** `row[name] = (row[name] !== 0)`. */
  function CoerceCell(row: Row, name: string): (r: Row)
    ensures Get(r, name) == Bool(DiffersFromZero(Get(row, name)))
    ensures forall other :: other != name ==> Get(r, other) == Get(row, other)
    ensures r.values.Keys == row.values.Keys + {name}
    ensures row.columns <= r.columns
    ensures RowOk(row) ==> RowOk(r)
  {
    Set(row, name, Bool(DiffersFromZero(Get(row, name))))
  }

  /** The inner `results.forEach`: one column coerced in every row. */
  function CoerceColumn(rows: seq<Row>, name: string): (r: seq<Row>)
    ensures |r| == |rows|
    ensures forall i :: 0 <= i < |rows| ==> r[i] == CoerceCell(rows[i], name)
  {
    if rows == [] then [] else [CoerceCell(rows[0], name)] + CoerceColumn(rows[1..], name)
  }

  /** One turn of the outer `fields.forEach` over the whole result set. */
  function ApplyField(f: Field, rows: seq<Row>): seq<Row> {
    if IsTinyBool(f) then CoerceColumn(rows, f.name) else rows
  }

  /** The outer `fields.forEach`, in the source's order: field by field, each
      over all rows. */
  function CoerceFields(fields: seq<Field>, rows: seq<Row>): (r: seq<Row>)
    ensures |r| == |rows|
    decreases |fields|
  {
    if fields == [] then rows else CoerceFields(fields[1..], ApplyField(fields[0], rows))
  }

  /** What `useBoolean(fields, results)` leaves in `results`; an absent field
      list leaves the rows as they are. */
  function Coerced(fields: Option<seq<Field>>, rows: seq<Row>): (r: seq<Row>)
    ensures |r| == |rows|
    ensures fields.None? ==> r == rows
  {
    match fields
    case None => rows
    case Some(fs) => CoerceFields(fs, rows)
  }

  /** The inner `results.forEach`: `results[index][name] = (results[index][name] !== 0)`
      for every index, in place. */
  method CoerceColumnInPlace(results: array<Row>, name: string)
    modifies results
    ensures results[..] == CoerceColumn(old(results[..]), name)
  {
    var j := 0;
    while j < results.Length
      invariant 0 <= j <= results.Length
      invariant forall k :: 0 <= k < j ==> results[k] == CoerceCell(old(results[k]), name)
      invariant forall k :: j <= k < results.Length ==> results[k] == old(results[k])
    {
      results[j] := Set(results[j], name, Bool(Get(results[j], name) != Num(0.0)));
      j := j + 1;
    }
  }

  /** `useBoolean(fields, results)`: rewrites the rows of `results` in place. */
  method UseBoolean(fields: Option<seq<Field>>, results: array<Row>)
    modifies results
    ensures results[..] == Coerced(fields, old(results[..]))
  {
    if fields.Some? {
      var fs := fields.value;
      var i := 0;
      while i < |fs|
        invariant 0 <= i <= |fs|
        invariant CoerceFields(fs[i..], results[..]) == CoerceFields(fs, old(results[..]))
      {
        var field := fs[i];
        ghost var before := results[..];
        if field.typeCode == 1 && field.length == 1 {
          CoerceColumnInPlace(results, field.name);
        }
        assert results[..] == ApplyField(field, before);
        assert fs[i..][1..] == fs[i + 1..];
        i := i + 1;
      }
    }
  }

  // ---------------------------------------------------------------------
  // Reference definition: each row on its own

  /** All fields applied, in order, to a single row. */
  function CoerceRow(fields: seq<Field>, row: Row): Row
    decreases |fields|
  {
    if fields == [] then row
    else CoerceRow(fields[1..], if IsTinyBool(fields[0]) then CoerceCell(row, fields[0].name) else row)
  }

  /** The source's field-by-field pass equals coercing each row on its own:
      rows keep their number and order, and each row's outcome depends only
      on that row. */
  lemma {:induction false} CoerceFieldsPointwise(fields: seq<Field>, rows: seq<Row>)
    ensures |CoerceFields(fields, rows)| == |rows|
    ensures forall i :: 0 <= i < |rows| ==> CoerceFields(fields, rows)[i] == CoerceRow(fields, rows[i])
    decreases |fields|
  {
    if fields != [] {
      var next := ApplyField(fields[0], rows);
      CoerceFieldsPointwise(fields[1..], next);
      forall i | 0 <= i < |rows|
        ensures CoerceFields(fields, rows)[i] == CoerceRow(fields, rows[i])
      {
        assert next[i] == if IsTinyBool(fields[0]) then CoerceCell(rows[i], fields[0].name) else rows[i];
      }
    }
  }

  /** How many fields name column `name` and are TINYINT(1). */
  function TinyBoolCount(fields: seq<Field>, name: string): nat {
    if fields == [] then 0
    else (if IsTinyBool(fields[0]) && fields[0].name == name then 1 else 0) + TinyBoolCount(fields[1..], name)
  }

  /** The names of the TINYINT(1) columns. */
  function TinyBoolNames(fields: seq<Field>): set<string> {
    set f | f in fields && IsTinyBool(f) :: f.name
  }

  /** A column no TINYINT(1) field names keeps its value; one named once
      becomes `value !== 0`; one named by two or more such fields (two
      joined tables with a same-named flag) ends up `true`, because the
      second pass compares a boolean with 0. */
  lemma {:induction false} CoerceRowGet(fields: seq<Field>, row: Row, name: string)
    ensures TinyBoolCount(fields, name) == 0 ==> Get(CoerceRow(fields, row), name) == Get(row, name)
    ensures TinyBoolCount(fields, name) == 1 ==>
      Get(CoerceRow(fields, row), name) == Bool(DiffersFromZero(Get(row, name)))
    ensures TinyBoolCount(fields, name) >= 2 ==> Get(CoerceRow(fields, row), name) == Bool(true)
    decreases |fields|
  {
    if fields != [] {
      var f := fields[0];
      var next := if IsTinyBool(f) then CoerceCell(row, f.name) else row;
      CoerceRowGet(fields[1..], next, name);
      if IsTinyBool(f) && f.name == name {
        assert Get(next, name) == Bool(DiffersFromZero(Get(row, name)));
      } else {
        assert Get(next, name) == Get(row, name);
      }
    }
  }

  /** Every TINYINT(1) column becomes a property of every row (created if the
      row lacked it); no other property appears or disappears. */
  lemma {:induction false} CoerceRowKeys(fields: seq<Field>, row: Row)
    ensures CoerceRow(fields, row).values.Keys == row.values.Keys + TinyBoolNames(fields)
    decreases |fields|
  {
    if fields != [] {
      var f := fields[0];
      var next := if IsTinyBool(f) then CoerceCell(row, f.name) else row;
      CoerceRowKeys(fields[1..], next);
      assert fields == [f] + fields[1..];
      assert TinyBoolNames(fields) == (if IsTinyBool(f) then {f.name} else {}) + TinyBoolNames(fields[1..]);
    }
  }

  /** The TINYINT(1) column names not among `known`, each once, in the order
      of the fields that first name them. */
  function AddedColumns(fields: seq<Field>, known: set<string>): seq<string>
    decreases |fields|
  {
    if fields == [] then []
    else if IsTinyBool(fields[0]) && fields[0].name !in known then
      [fields[0].name] + AddedColumns(fields[1..], known + {fields[0].name})
    else AddedColumns(fields[1..], known)
  }

  /** Existing columns keep their enumeration order; the columns the pass
      creates come after them, in the order of the fields that name them. */
  lemma {:induction false} CoerceRowColumns(fields: seq<Field>, row: Row)
    ensures CoerceRow(fields, row).columns == row.columns + AddedColumns(fields, row.values.Keys)
    ensures row.columns <= CoerceRow(fields, row).columns
    decreases |fields|
  {
    if fields != [] {
      var f := fields[0];
      var next := if IsTinyBool(f) then CoerceCell(row, f.name) else row;
      CoerceRowColumns(fields[1..], next);
      if IsTinyBool(f) && f.name !in row.values {
        assert next.columns == row.columns + [f.name];
        assert next.values.Keys == row.values.Keys + {f.name};
        ConcatAssoc(row.columns, [f.name], AddedColumns(fields[1..], next.values.Keys));
      } else if IsTinyBool(f) {
        assert next.values.Keys == row.values.Keys;
      }
    }
  }

  /** The pass keeps a row well formed: every property, old or created, is
      enumerated exactly once. */
  lemma {:induction false} CoerceRowOk(fields: seq<Field>, row: Row)
    requires RowOk(row)
    ensures RowOk(CoerceRow(fields, row))
    decreases |fields|
  {
    if fields != [] {
      var f := fields[0];
      var next := if IsTinyBool(f) then CoerceCell(row, f.name) else row;
      CoerceRowOk(fields[1..], next);
    }
  }

  /** `useBoolean` keeps every well-formed row well formed. */
  lemma CoercedOk(fields: Option<seq<Field>>, rows: seq<Row>, i: nat)
    requires i < |rows| && RowOk(rows[i])
    ensures RowOk(Coerced(fields, rows)[i])
  {
    if fields.Some? {
      CoerceFieldsPointwise(fields.value, rows);
      CoerceRowOk(fields.value, rows[i]);
    }
  }

  /** The whole pass read column by column: absent fields change nothing, and
      with a field list every row's column has the value CoerceRowGet gives. */
  lemma CoercedGet(fields: Option<seq<Field>>, rows: seq<Row>, i: nat, name: string)
    requires i < |rows|
    ensures fields.None? ==> Coerced(fields, rows)[i] == rows[i]
    ensures fields.Some? && TinyBoolCount(fields.value, name) == 0 ==>
      Get(Coerced(fields, rows)[i], name) == Get(rows[i], name)
    ensures fields.Some? && TinyBoolCount(fields.value, name) == 1 ==>
      Get(Coerced(fields, rows)[i], name) == Bool(DiffersFromZero(Get(rows[i], name)))
    ensures fields.Some? && TinyBoolCount(fields.value, name) >= 2 ==>
      Get(Coerced(fields, rows)[i], name) == Bool(true)
  {
    if fields.Some? {
      CoerceFieldsPointwise(fields.value, rows);
      CoerceRowGet(fields.value, rows[i], name);
    }
  }

  /** A field list with no TINYINT(1) column (an empty one included) leaves
      the rows as they are. */
  lemma {:induction false} NoTinyBoolLeavesRows(fields: seq<Field>, rows: seq<Row>)
    requires forall f :: f in fields ==> !IsTinyBool(f)
    ensures CoerceFields(fields, rows) == rows
    decreases |fields|
  {
    if fields != [] {
      assert fields[0] in fields;
      assert forall f :: f in fields[1..] ==> f in fields;
      NoTinyBoolLeavesRows(fields[1..], rows);
    }
  }

  /** The coercion is not idempotent: a second pass over a coerced `false`
      yields `true`, since `false !== 0`. */
  lemma CoercionNotIdempotent()
    ensures var fs := [Field("active", TINY, 1)];
            var rows := [Row(["active"], map["active" := Num(0.0)])];
            Coerced(Some(fs), rows)[0] == Row(["active"], map["active" := Bool(false)])
            && Coerced(Some(fs), Coerced(Some(fs), rows)) != Coerced(Some(fs), rows)
  {
    var fs := [Field("active", TINY, 1)];
    var rows := [Row(["active"], map["active" := Num(0.0)])];
    var once := Coerced(Some(fs), rows);
    CoerceFieldsPointwise(fs, rows);
    assert fs[1..] == [];
    assert once[0] == CoerceCell(rows[0], "active");
    assert map["active" := Num(0.0)]["active" := Bool(false)] == map["active" := Bool(false)];
    CoercedGet(Some(fs), rows, 0, "active");
    CoercedGet(Some(fs), once, 0, "active");
    assert TinyBoolCount(fs, "active") == 1;
    assert Get(once[0], "active") == Bool(false);
    assert Get(Coerced(Some(fs), once)[0], "active") == Bool(true);
  }
}
