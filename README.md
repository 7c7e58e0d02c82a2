# mysql-async query gateway, modelled in Dafny

The plugin is a thin adapter between a host application and a MySQL
connection pool. It has four entry points: `mysql_execute`,
`mysql_fetch_all`, `mysql_fetch_scalar` and `mysql_insert`. Each one
substitutes named `@name` placeholders in the query template with escaped
parameter values (`prepareQuery`), sends the statement to the pool, and
hands one projection of the result to the caller's callback. The two
entry points that read rows, `mysql_fetch_all` and `mysql_fetch_scalar`,
first turn every TINYINT(1) column of the returned rows into a boolean
(`useBoolean`, src/mysql.js:62 and 72). `mysql_execute` and `mysql_insert`
deliver a field of the OK packet and coerce nothing.

This project models the placeholder substitution, the coercion and the
projections, and proves their properties.

- `values.dfy` (module `Values`) defines JavaScript values, result rows and
  the column descriptors the driver reports. A row keeps its column names in
  the order the driver created them. That order is the order
  `Object.values` enumerates them in. Reading a missing property gives
  `undefined`. Assigning a new property appends it at the end. `RowOk`
  says a row lists each of its properties exactly once; the driver builds
  rows that way, and assignment and coercion keep it.
- `placeholders.dfy` (module `Placeholders`) models `prepareQuery`.
  `Substitute` is the single left-to-right pass of `/@(\w+)/g`. The greedy
  `\w+` is `WordRun`. Each token is rendered by `RenderToken`: the escaped
  bare key if it is an own property, else the escaped `@key`, else the
  token itself. `mysql.escape` is a parameter `escape: Value -> string`, so
  every result holds for any escaping function. The scanner is tied to a
  reference definition: a query is a canonical sequence of `Segment`s (text
  and placeholders), `Tokenize` produces that sequence, and substitution is
  the rendering of the segments one by one.
- `booleans.dfy` (module `Booleans`) models `useBoolean`. `UseBoolean` is an
  in-place method over an `array<Row>`. Its outer loop runs over the fields
  and its inner loop, `CoerceColumnInPlace`, over the rows, as in the
  source. It is proved against `Coerced`, a field-by-field fold.
  `CoerceFieldsPointwise` proves that fold equal to `CoerceRow`, a reference
  that coerces each row on its own (the two loops swapped). The column-level
  lemmas are stated on `CoerceRow`.
- `gateway.dfy` (module `Gateway`) models the projections that the
  completion handlers deliver. `QueryResults` stands for the driver's
  `results`: undefined on failure, an OK packet, or rows.

Some behaviour of the source is modelled exactly as written:

- Coercion compares strictly with the number 0. So a NULL, `"0"` or
  `false` cell becomes `true`.
- A matching column missing from a row is created with `true`.
- A column named by two TINYINT(1) descriptors ends up `true`, because the
  second pass compares a boolean with 0. This happens when two joined
  tables share a flag's name. `CoerceRowGet` states it, and
  `CoercionNotIdempotent` shows the same effect for two passes.

## Model

| member | source | states |
|---|---|---|
| `Values.Get` | src/mysql.js:40 | reading a property the row does not have gives `undefined` |
| `Values.Set` | src/mysql.js:40 | after `row[name] = v`, `name` reads `v`, every other property reads as before, the key set gains `name`, the existing column order is a prefix of the new one and is unchanged when `name` already existed, and a well-formed row stays well formed |
| `Values.FirstValue` | src/mysql.js:73 | on a well-formed row, `Object.values(row)[0]` is `undefined` exactly when the row has no properties, and otherwise the value of an own property, the one enumerated first |
| `Placeholders.WordRun` | src/mysql.js:10 | the greedy `\w+`: a prefix made only of word characters, followed by a non-word character or the end |
| `Placeholders.PrepareQuery` | src/mysql.js:7-20 | when `parameters` is null or not an object, the query comes back unchanged |
| `Placeholders.SubstituteNoTokens` | src/mysql.js:10 | a query with no `@` directly followed by a word character comes back unchanged, whatever the mapping |
| `Placeholders.NoKeysLeaveQuery` | src/mysql.js:10-17 | under a mapping with no key a token could look up (the empty object included), every token stays verbatim and the query comes back unchanged |
| `Placeholders.SubstituteAppend` | src/mysql.js:10 | substitution distributes over any split of the query where the second part does not start with a word character, so text between tokens is copied unchanged |
| `Placeholders.SubstituteToken` | src/mysql.js:10-16 | a token `@key` becomes `escape(parameters[key])` when the bare key is present (it wins over `@key`), else `escape(parameters["@key"])`, else stays verbatim with its `@`; the replacement is emitted as is and scanning resumes after the key |
| `Placeholders.SubstituteRendersSegments` | src/mysql.js:10-17 | for every canonical segmentation of a query, the substituted query is the concatenation of its texts and its independently rendered placeholders |
| `Placeholders.TokenizeUnparse` | src/mysql.js:10 | splitting a query into segments neither loses nor adds text |
| `Placeholders.TokenizeCanonical` | src/mysql.js:10 | the segments are canonical: maximal `@\w+` placeholders and non-empty token-free texts |
| `Placeholders.PrepareQueryBySegments` | src/mysql.js:7-20 | for an object's own properties, `prepareQuery` equals rendering the query's segments one by one |
| `Placeholders.LookupExamples` | src/mysql.js:11-16 | `SELECT * FROM t WHERE id=@id` gives the same statement with `{id: 5}` and `{"@id": 5}`, and stays unchanged with neither key |
| `Placeholders.ReplacementNotRescanned` | src/mysql.js:10-16 | a replacement that reads like another token (`@b`, with `b` a parameter) is emitted as it is |
| `Booleans.CoerceCell` | src/mysql.js:40 | the column becomes `Bool(old value !== 0)`, other properties are unchanged, the key is created if missing, the column order is kept, and a well-formed row stays well formed |
| `Booleans.CoerceColumn` | src/mysql.js:39-41 | every row, and only that many rows, has the one column coerced |
| `Booleans.CoerceFields` | src/mysql.js:36-43 | the field-by-field pass keeps the number of rows |
| `Booleans.Coerced` | src/mysql.js:34-46 | an absent field list returns the rows unchanged; the number of rows is kept |
| `Booleans.CoerceColumnInPlace` | src/mysql.js:39-41 | the inner in-place loop leaves the array equal to `CoerceColumn` of its old contents |
| `Booleans.UseBoolean` | src/mysql.js:34-46 | the in-place nested loops leave the array equal to `Coerced(fields, old contents)` |
| `Booleans.CoerceFieldsPointwise` | src/mysql.js:36-41 | the source's field-outer pass equals coercing each row on its own: row count and order are kept, and each row's outcome depends only on that row |
| `Booleans.CoerceRowGet` | src/mysql.js:38-40 | a column named by no TINYINT(1) field keeps its value (multi-width TINYINTs included); one named once becomes `value !== 0`; one named twice or more becomes `true` |
| `Booleans.CoerceRowKeys` | src/mysql.js:38-40 | the row's keys afterwards are its old keys plus the TINYINT(1) column names, and nothing else |
| `Booleans.CoerceRowColumns` | src/mysql.js:36-41 | existing columns keep their enumeration order, and the columns the pass creates follow them, once each, in the order of the TINYINT(1) fields that first name them |
| `Booleans.CoerceRowOk` | src/mysql.js:36-41 | coercing a well-formed row leaves every property, old or created, enumerated exactly once |
| `Booleans.CoercedOk` | src/mysql.js:34-46 | the whole pass keeps each well-formed row well formed |
| `Booleans.CoercedGet` | src/mysql.js:34-46 | for the whole pass, per row and column: no field list means the row is unchanged, and otherwise the column values are those given by `CoerceRowGet` |
| `Booleans.NoTinyBoolLeavesRows` | src/mysql.js:36-43 | a field list with no TINYINT(1) descriptor (the empty list included) leaves every row unchanged |
| `Booleans.CoercionNotIdempotent` | src/mysql.js:40 | one pass turns `0` into `false`, and a second pass turns that `false` into `true` |
| `Gateway.ExecuteValue` | src/mysql.js:53 | the callback gets 0 exactly when the query failed or changed no row, the affected-row count for an OK packet, and `undefined` for rows |
| `Gateway.InsertValue` | src/mysql.js:82 | the callback gets 0 exactly when the query failed or generated no identifier, otherwise the insert id of an OK packet, and `undefined` for rows |
| `Gateway.ScalarValue` | src/mysql.js:72-73 | a failed query delivers `null`; the handler throws exactly for an OK packet or an empty row set; without fields the scalar is the first row's first column |
| `Gateway.ScalarOfFlag` | src/mysql.js:72-73 | when the first column is a TINYINT(1) column, the scalar is that cell's `value !== 0` |
| `Gateway.ScalarOfPlainColumn` | src/mysql.js:72-73 | when no TINYINT(1) field names the first column, the scalar is that cell as the driver returned it |

## Left out

- `mysql.escape` is foreign library code. It is a parameter of the model, and nothing is proved about SQL-injection safety.
- The pool is left out: `pool.query`, `mysql.createPool`, the `onServerResourceStart` handler and the `onMySQLReady` event. They are network I/O and host-runtime events.
- The `GetConvar` configuration reads and the module-level `connectionString`, `debug` and `pool` variables are left out. They are host configuration, not logic.
- `writeDebug` is left out. It is console output built from clock readings and floating-point milliseconds.
- `safeInvoke` is left out. It defers the callback with `setImmediate`, and asynchronous delivery has no sequential content to verify. The projections give the value the callback would receive.
- The `mysql_fetch_all` projection is `UseBoolean` itself. The failed case, where `useBoolean(undefined, undefined)` hands back `undefined`, is not modelled because the model's rows are an array.
- The driver supplies no field list for a failed query or an OK packet. So `ScalarValue` coerces only when it gets rows.
- JavaScript numbers are modelled as mathematical reals. NaN is not represented. `-0 === 0`, so it makes no difference to the coercion.
- Objects are modelled by their own properties only. Lookups through the prototype chain are not modelled. Examples are a row property inherited from the driver's row class, or a parameter object that overrides `hasOwnProperty`.
- A function passed as `parameters` is not represented. Its `typeof` is `'function'`, so the source would return the query unchanged, the same as for any other non-object.
- JavaScript enumerates integer-like property names before all others. A row's columns are enumerated in insertion order instead.
- `prepareQuery` with a query that is not a string is not modelled. When `parameters` is an object the source throws on it (`query.replace` is not a function); otherwise it hands the query back unchanged.
- `useBoolean` with a field list that is not an array is not modelled. The source throws on it (`fields.forEach` is not a function).
- Rows with a property listed twice, or listed without a value, are outside the model: `ScalarValue` and `FirstValue` ask for a well-formed first row (`RowOk`). The driver does not build such rows.
