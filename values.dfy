/** JavaScript values as the gateway sees them: query parameters, the cells of
    result rows, and the column metadata the database driver reports. */
module Values {

  datatype Option<+T> = None | Some(value: T)

  /** A JavaScript value. Numbers are taken as mathematical reals; an object is
      represented by its own properties (an array's own properties are its
      indices and "length", a Date has none). */
  datatype Value =
    | Undefined
    | Null
    | Bool(b: bool)
    | Num(n: real)
    | Str(s: string)
    | Obj(props: map<string, Value>)

  /** `v !== 0`: strict inequality against the number zero (no coercion, so
      "0", false and null all differ from 0). */
  predicate DiffersFromZero(v: Value) {
    v != Num(0.0)
  }

  /** A row of a result set: the column names in the order the driver created
      them (the order Object.values enumerates them) and the value of each. */
  datatype Row = Row(columns: seq<string>, values: map<string, Value>)

  /** A row as the driver builds it and as property assignment keeps it: each
      own property listed exactly once in the enumeration order. */
  ghost predicate RowOk(row: Row) {
    && (forall i, j :: 0 <= i < j < |row.columns| ==> row.columns[i] != row.columns[j])
    && (forall name :: name in row.columns <==> name in row.values)
  }

  /** `row[name]`: reading a missing property yields undefined. */
  function Get(row: Row, name: string): (v: Value)
    ensures name !in row.values ==> v == Undefined
  {
    if name in row.values then row.values[name] else Undefined
  }

  /** `row[name] = v`: an existing property keeps its place in the enumeration
      order; a new one is appended at the end. */
  function Set(row: Row, name: string, v: Value): (r: Row)
    ensures Get(r, name) == v
    ensures forall other :: other != name ==> Get(r, other) == Get(row, other)
    ensures r.values.Keys == row.values.Keys + {name}
    ensures row.columns <= r.columns
    ensures name in row.values ==> r.columns == row.columns
    ensures RowOk(row) ==> RowOk(r)
  {
    Row(if name in row.values then row.columns else row.columns + [name],
        row.values[name := v])
  }

  /** `Object.values(row)[0]`: the value of the property enumerated first,
      undefined for a row without properties. */
  function FirstValue(row: Row): (v: Value)
    requires RowOk(row)
    ensures row.values.Keys == {} ==> v == Undefined
    ensures row.values.Keys != {} ==> row.columns[0] in row.values && v == row.values[row.columns[0]]
  {
    if row.columns == [] then Undefined else Get(row, row.columns[0])
  }

  /** Concatenation regroups freely; stated once so that larger proofs need
      not rediscover it. */
  lemma ConcatAssoc<T>(x: seq<T>, y: seq<T>, z: seq<T>)
    ensures x + (y + z) == (x + y) + z
  {
  }

  /** A column descriptor as the driver reports it: the column's name, its
      MySQL type code and its declared display length. */
  datatype Field = Field(name: string, typeCode: int, length: int)

  /** MySQL's type code for TINYINT. */
  const TINY: int := 1
}
