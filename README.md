# Dynamic-schema loader of sirad-example, in Dafny

This project models the two transformations at the heart of `db.py`, a
utility that loads pipe-delimited record files into relational tables.

- **Schema builder (`make_table`).** It reads the layout, an ordered set of
  field descriptors, each with a `DATA` flag, a `NAME` and a `TYPE`. The
  builder starts the table with the integer primary key `RECORD_ID`. For
  each descriptor whose `DATA` is exactly `"1"`, in layout order, it calls
  `append_column` with a column of that `NAME`: `DATE` becomes DateTime,
  `NUMBER` becomes Float, and any other type becomes String(255). Then it
  appends `VALID_SSN` (Integer) and `IMPORT_DT` (DateTime, with a default).
- **Bulk loader (`load`).** Every value of every row is tried against the
  timestamp format `"%Y-%m-%d %H:%M:%S"`. A value that parses is replaced in
  place by the timestamp. Any other value stays the same string. The rows are
  collected in file order for a single bulk insert.

The table's columns form a collection keyed by name, as in SQLAlchemy 1.x.
`append_column` behaves as follows:
- a column with a blank name is refused with `ArgumentError`, and the table is
  unchanged;
- a column whose name is already present replaces the column of that name at
  its position, and the list does not grow;
- if the replaced column was the primary key and the new one is not, it raises
  `ArgumentError`; the replacement has already happened by then;
- a column with a new name goes at the end.

So a repeated `NAME` gives one column, placed at the first occurrence and
typed by the last. A `NAME` equal to `VALID_SSN` or `IMPORT_DT` is later
replaced by that trailer column. A blank `NAME`, or the `NAME` `RECORD_ID`,
makes `make_table` raise.

The modules:

- `Schema` (schema.dfy) holds the column types, columns and descriptors.
  - `Appended` is `append_column` on a column list. The error cases are the
    `SchemaError` values.
  - `Table` is a class whose column list changes through `AppendColumn`, as
    `table.append_column` does.
  - `MakeTable` is the loop of `make_table`. It is proved equal to the
    specification function `TableColumns`, errors included.
  - The general lemmas hold for every layout: when the build succeeds, the
    primary key, the set of names, the count, where a name is placed and which
    occurrence wins.
  - For layouts whose included `NAME`s are non-blank, distinct and not a fixed
    column's name (`NamesFit`), the lemmas state the exact column list, the
    positions and the count.
- `Loader` (loader.dfy) holds the two loops of `load`.
  - `CoerceRow` updates one row's map key by key. `Load` appends the coerced
    rows to a sequence.
  - Both take the parser as a parameter of type `string -> Option<Timestamp>`,
    so every property of the loops holds for any parser.
  - A parse failure is `None`; the source raises and catches `ValueError`.
- `Timestamps` (timestamps.dfy) is a strict stand-in for `datetime.strptime`.
  - It accepts exactly the zero-padded 19-character spelling of a valid date
    and time: years 1 to 9999, days checked against the month (leap years
    included), hours below 24, minutes and seconds below 60.
  - `Format` is its proved inverse.
- `Wrappers` (wrappers.dfy) holds `Option` and `Result`.

Some facts about `db.py` that the model keeps:
- `make_table` compares `DATA` with the string `"1"` (db.py:33). A flag such as
  `"01"` or `"true"` excludes the field.
- `TYPE` may be any string (db.py:36-42). Only `DATE` and `NUMBER` are special.
- `load` matches the timestamp format with `datetime.strptime` (db.py:66). That
  parser is lenient; see "Left out".

## Model

| member | source | states |
|---|---|---|
| Schema.MakeTable | db.py:21-52 | make_table fails exactly when `TableColumns(layout)` fails, and with the same error; on success the new table has the given name, distinct column names, and exactly the columns `TableColumns(layout)` |
| Schema.Table.constructor | db.py:27-30 | a new table holds only its primary-key column |
| Schema.Table.AppendColumn | db.py:43-50 | the outcome and the new columns are those of `Appended`: a blank name is refused and changes nothing; a name already present replaces that column where it stands, even when the call then fails; names stay distinct |
| Schema.IndexOfName | db.py:43 | the column lookup by name: None exactly when no column has the name, otherwise the first position that has it |
| Schema.TypeFor | db.py:37-42 | DateTime exactly for `DATE`, Float exactly for `NUMBER`, Text of capacity 255 for every other declared type, never Integer |
| Schema.AppendedFacts | db.py:43 | on a list that starts with RECORD_ID as its only key and has distinct names, appending a non-key column succeeds exactly when its name is non-blank and not RECORD_ID, and fails with BlankName or PrimaryKeyRedefined otherwise; on success the list keeps those properties, gains the name and holds the column; every earlier position keeps its name and only the column of the same name changes; a new name goes at the end |
| Schema.AddedColumnsFacts | db.py:32-43 | the layout loop on such a list succeeds exactly when every included NAME is non-blank and not RECORD_ID; on success the list keeps its properties, its names are the old names plus the included NAMEs, every position keeps its name, and a column no included NAME matches is kept whole |
| Schema.TableColumnsFacts | db.py:21-52 | make_table succeeds exactly when every included NAME is non-blank and not RECORD_ID, and otherwise raises BlankName or PrimaryKeyRedefined("RECORD_ID"); on success RECORD_ID is first and the only key, names are distinct, the names are the three fixed ones plus the included NAMEs, and VALID_SSN and IMPORT_DT are present as defined |
| Schema.RecordIdFirstAndOnlyKey | db.py:27-30 | on success the first column is RECORD_ID, the Integer primary key, and no other column is a primary key |
| Schema.ColumnsFromLayout | db.py:27-50 | on success every column is RECORD_ID, VALID_SSN, IMPORT_DT or the column of an included descriptor; IMPORT_DT is the only column with a default |
| Schema.ColumnCount | db.py:27-50 | on success there are as many columns as distinct names among the three fixed names and the included NAMEs |
| Schema.UnlistedNameAbsent | db.py:27-50 | a name that no included descriptor carries, and that is not a fixed column's name, names no column |
| Schema.LastOccurrenceWins | db.py:32-43 | the column of the last included descriptor with a given NAME (other than a trailer's) is in the table: later descriptors of that NAME replace earlier ones |
| Schema.FirstOccurrenceOrder | db.py:32-43 | a NAME that first occurs at included descriptor j is placed after the column of every included descriptor before j |
| Schema.ExcludedDescriptorIgnored | db.py:33-34 | a descriptor whose DATA is not `"1"` can be inserted anywhere in the layout without changing the outcome |
| Schema.NothingIncluded | db.py:27-50 | a layout with no included descriptor, the empty layout among them, yields exactly RECORD_ID, VALID_SSN, IMPORT_DT |
| Schema.PlainWhenNamesFit | db.py:27-50 | when the included NAMEs fit, the table is RECORD_ID, one column per included descriptor in layout order, then VALID_SSN and IMPORT_DT |
| Schema.CountAndTrailer | db.py:45-50 | when the NAMEs fit, the column count is the number of included descriptors plus 3, and the last two columns are VALID_SSN (Integer) and then IMPORT_DT (DateTime with a default) |
| Schema.IncludedPlacement | db.py:32-43 | when the NAMEs fit, the included descriptor at index i becomes the column at position 1 + (included descriptors before i), named by its NAME and typed by its TYPE |
| Schema.OrderPreserved | db.py:32-43 | when the NAMEs fit, two included descriptors appear as columns in their layout order, at those positions |
| Schema.DataColumnsFromLayout | db.py:32-43 | when the NAMEs fit, every column between RECORD_ID and the trailers is the column of some included descriptor |
| Schema.AmountNoteScenario | db.py:32-50 | AMOUNT (NUMBER, included) and NOTE (TEXT, excluded) yield RECORD_ID, AMOUNT as Float, VALID_SSN, IMPORT_DT |
| Schema.RepeatedNameReplacedInPlace | db.py:32-43 | X as NUMBER, Y as TEXT, then X as DATE yield RECORD_ID, X as DateTime, Y, VALID_SSN, IMPORT_DT |
| Schema.TrailerNameReplacesDataColumn | db.py:45-50 | a data column named VALID_SSN or IMPORT_DT is replaced by that trailer at its position; IMPORT_DT then comes before VALID_SSN |
| Schema.RefusedNames | db.py:27-43 | a blank NAME fails with BlankName; a data column named RECORD_ID fails with PrimaryKeyRedefined("RECORD_ID") |
| Timestamps.DaysInMonth | db.py:66 | a month has 28 to 31 days, and 29 exactly for February of a leap year |
| Timestamps.ParseFormat | db.py:66 | every valid timestamp is recognized from its own spelling in the pattern |
| Timestamps.FormatParse | db.py:66 | whatever the recognizer accepts is a valid timestamp whose spelling is exactly the input string |
| Timestamps.ParseCharacterized | db.py:66 | a string parses to t if and only if t is valid and the string is t's spelling |
| Timestamps.ParseExamples | db.py:66 | "2023-01-15 08:30:00" is 15 January 2023, 08:30:00; "N/A" does not parse |
| Timestamps.ParseLeapDay | db.py:66 | 29 February parses in a leap year |
| Timestamps.ParseRejectsImpossibleFields | db.py:65-68 | well-shaped strings naming no real moment (29 February 2023, 31 April, hour 24) do not parse |
| Loader.CoerceRow | db.py:64-69 | after visiting every key once, the row is `CoercedRow(parse, record)`: each value is replaced by its timestamp where the parse succeeds and is kept otherwise |
| Loader.Load | db.py:55-70 | the collected rows are `CoercedRows(parse, records)`: one coerced row per record, in file order |
| Loader.RowsAndKeysPreserved | db.py:60-70 | there are as many output rows as input rows, and each has exactly its input row's keys |
| Loader.ReplacedOnlyOnSuccess | db.py:64-69 | a value stays the identical string if and only if its parse fails; on success it becomes the parsed timestamp |
| Loader.CoercionIgnoresColumn | db.py:64-66 | equal strings are coerced alike under any key and in any row, so the declared column type plays no part |
| Loader.StrictCoercionLosesNothing | db.py:64-69 | with the strict recognizer every produced timestamp is valid, and writing the cells back as text gives back the input row |
| Loader.StrictStampIff | db.py:64-67 | with the strict recognizer a value becomes a timestamp if and only if it is the spelling of a valid timestamp |
| Loader.CoercionExamples | db.py:64-69 | "2023-01-15 08:30:00" becomes the timestamp 15 January 2023, 08:30:00; "N/A" stays the string "N/A" |

## Left out

- The database engine, the `MetaData` registry, `create_all`, `drop` and the bulk `eng.execute(table.insert(), rows)` (db.py:16-18, 71, 80-84). These are storage side effects behind SQLAlchemy. `Load` returns the rows that would be inserted.
- The registration of the table in the shared `MetaData` (db.py:27-30), the error SQLAlchemy raises when a table name is defined twice, and the half-built table that stays registered after `append_column` raises. This is library state. `MakeTable` returns the error and no table.
- The rest of SQLAlchemy. Only the column-collection behaviour of `append_column` described above is modelled. Columns are keyed by their name, which is SQLAlchemy's default `key`. Foreign keys, constraints and events do not occur in `db.py`.
- CountAndTrailer: the exact count and the trailers at the last two positions are stated only for layouts whose included `NAME`s fit (`NamesFit`: non-blank, pairwise distinct, none of `RECORD_ID`, `VALID_SSN`, `IMPORT_DT`). For other layouts a repeated name or a trailer's name merges columns: `ColumnCount` gives the count in general, `TableColumnsFacts` the presence of both trailers, and `TrailerNameReplacesDataColumn` shows that the trailers can then stand elsewhere.
- IncludedPlacement: the exact position is stated only when the `NAME`s fit. In general a repeated `NAME` keeps its first position (`FirstOccurrenceOrder`) and takes its last definition (`LastOccurrenceWins`).
- OrderPreserved: stated with positions only when the `NAME`s fit. In general `FirstOccurrenceOrder` gives the order of first occurrences.
- DataColumnsFromLayout: stated by position only when the `NAME`s fit. In general `ColumnsFromLayout` says every column is a fixed column or one of an included descriptor.
- IncludedColumnsAppend: a fact about the plain list `IncludedColumns` (one column per included descriptor). That list is the table's data part only when the `NAME`s fit (`PlainWhenNamesFit`); otherwise later columns replace earlier ones of the same name.
- IncludedColumnsCount: counts the plain list, so it counts the table's data columns only when the `NAME`s fit. In general `ColumnCount` counts distinct names.
- PlainWhenNamesFit: the plain list holds only when the `NAME`s fit; `RepeatedNameReplacedInPlace`, `TrailerNameReplacesDataColumn` and `RefusedNames` show the other outcomes.
- Opening the data file and splitting it with `csv.DictReader` (db.py:61-62). The records are given as a sequence of maps from header name to string. DictReader can also produce ragged-row values (`None`, or a list under the `None` key). `strptime` would raise `TypeError` on those, and the `except ValueError` does not catch it. The model has string values only.
- The order of keys within a row. Python dicts keep header order, and `row[k] = dv` does not move a key. A Dafny map has no order, so only the keys and values are modelled.
- `rpe.layout.layout_to_dict` (db.py:14, 26). Its source is not part of this model. Its result is taken as the input sequence of descriptors. The keys of that mapping are never read by `make_table`, so only its values are kept, in iteration order. A descriptor missing `DATA`, `NAME` or `TYPE` would raise `KeyError`; descriptors always carry all three fields here.
- `datetime.datetime.utcnow` as the default of `IMPORT_DT` (db.py:49). It reads the wall clock, so only the presence of a default is recorded.
- The exact leniency of `strptime`, and in particular Timestamps.Parse:
  - `strptime` also accepts one-digit months, days, hours, minutes and seconds;
  - it accepts a space-padded day and any run of white space where the format has its space;
  - it accepts non-ASCII decimal digits.
  - `Timestamps.Parse` accepts only the zero-padded ASCII form. The `Loader` properties that do not mention `Parse` hold for any parser, the lenient one included. `StrictCoercionLosesNothing` and `StrictStampIff` hold for the strict recognizer only.
- Time-zone awareness. `strptime` with this format gives a naive timestamp; the model's `Timestamp` is its six fields.
- `main`'s fixed orchestration of the `tax` and `credit_scores` datasets (db.py:74-88), and the unused `ttype` parameter of `make_table` (db.py:21).
