/**
 * The value coercion of load: every value of every row read from the data
 * file is tried against the timestamp pattern; a value the parser accepts is
 * replaced by the timestamp, any other value stays the same string. The rows
 * are collected in file order for the single bulk insert.
 *
 * The parser is a parameter, so the loop properties hold for any parser;
 * the strict recognizer of module Timestamps is one instance.
 */
module Loader {
  import opened Wrappers
  import opened Timestamps

  /** A row value after coercion: the original string or a parsed timestamp. */
  datatype Cell = Raw(text: string) | Stamp(time: Timestamp)

  /** A row as the CSV reader hands it over: header name to field string. */
  type Record = map<string, string>

  type Row = map<string, Cell>

  /** A fallible timestamp parse: None where the library raises ValueError. */
  type Parser = string -> Option<Timestamp>

  /** The coercion of one value, whatever column it sits in. */
  function CoercedValue(parse: Parser, v: string): Cell {
    match parse(v)
    case Some(t) => Stamp(t)
    case None => Raw(v)
  }

  function CoercedRow(parse: Parser, record: Record): Row {
    map k | k in record :: CoercedValue(parse, record[k])
  }

  function CoercedRows(parse: Parser, records: seq<Record>): seq<Row> {
    seq(|records|, i requires 0 <= i < |records| => CoercedRow(parse, records[i]))
  }

  /** The inner loop of load: each key of the row is visited once and its value replaced on a successful parse. */
  method CoerceRow(parse: Parser, record: Record) returns (row: Row)
    ensures row == CoercedRow(parse, record)
  {
    row := map k | k in record :: Raw(record[k]);
    var pending := record.Keys;
    while pending != {}
      invariant pending <= record.Keys && row.Keys == record.Keys
      invariant forall k | k in record ::
        row[k] == if k in pending then Raw(record[k]) else CoercedValue(parse, record[k])
      decreases pending
    {
      var k :| k in pending;
      // The value seen for k is still the one read, since no key is visited twice.
      var v := record[k];
      match parse(v) {
        case Some(dv) =>
          row := row[k := Stamp(dv)];
        case None =>
      }
      pending := pending - {k};
    }
  }

  /** load without the file reading and the insert: the coerced rows, one per record, in order. */
  method Load(parse: Parser, records: seq<Record>) returns (rows: seq<Row>)
    ensures rows == CoercedRows(parse, records)
  {
    rows := [];
    for i := 0 to |records|
      invariant |rows| == i
      invariant forall j | 0 <= j < i :: rows[j] == CoercedRow(parse, records[j])
    {
      var row := CoerceRow(parse, records[i]);
      rows := rows + [row];
    }
  }

  // ----- Properties of the coercion, for any parser -----

  /** One output row per input row, in the same order, each with exactly the input row's keys. */
  lemma RowsAndKeysPreserved(parse: Parser, records: seq<Record>)
    ensures |CoercedRows(parse, records)| == |records|
    ensures forall i | 0 <= i < |records| :: CoercedRows(parse, records)[i].Keys == records[i].Keys
  {
  }

  /**
   * A value is replaced exactly when the parse succeeds, and then by the parsed
   * timestamp; a value whose parse fails stays the identical string.
   */
  lemma ReplacedOnlyOnSuccess(parse: Parser, records: seq<Record>, i: nat, k: string)
    requires i < |records| && k in records[i]
    ensures k in CoercedRows(parse, records)[i]
    ensures CoercedRows(parse, records)[i][k] == Raw(records[i][k]) <==> parse(records[i][k]).None?
    ensures parse(records[i][k]).Some? ==> CoercedRows(parse, records)[i][k] == Stamp(parse(records[i][k]).value)
  {
  }

  /** Coercion does not look at the column: equal strings are coerced alike in any row and under any key. */
  lemma CoercionIgnoresColumn(parse: Parser, records: seq<Record>, i: nat, k: string, j: nat, l: string)
    requires i < |records| && k in records[i] && j < |records| && l in records[j]
    requires records[i][k] == records[j][l]
    ensures CoercedRows(parse, records)[i][k] == CoercedRows(parse, records)[j][l]
  {
  }

  // ----- With the strict recognizer -----

  /** Writes a cell back as text; a timestamp in the pattern's spelling. */
  function Render(c: Cell): string
    requires c.Stamp? ==> Valid(c.time)
  {
    match c
    case Raw(s) => s
    case Stamp(t) => Format(t)
  }

  /** Every timestamp the strict recognizer produces is valid, and rendering gives back the original row. */
  lemma StrictCoercionLosesNothing(record: Record)
    ensures forall k | k in CoercedRow(Parse, record) ::
      var c := CoercedRow(Parse, record)[k]; (c.Stamp? ==> Valid(c.time)) && Render(c) == record[k]
  {
    forall k | k in record
      ensures var c := CoercedRow(Parse, record)[k]; (c.Stamp? ==> Valid(c.time)) && Render(c) == record[k]
    {
      var v := record[k];
      if Parse(v).Some? {
        FormatParse(v, Parse(v).value);
      }
    }
  }

  /** Under the strict recognizer a value becomes a timestamp exactly when it spells a valid one. */
  lemma StrictStampIff(v: string)
    ensures CoercedValue(Parse, v).Stamp? <==> exists t :: Valid(t) && Format(t) == v
  {
    if CoercedValue(Parse, v).Stamp? {
      var t := Parse(v).value;
      FormatParse(v, t);
    }
    if exists t :: Valid(t) && Format(t) == v {
      var t :| Valid(t) && Format(t) == v;
      ParseFormat(t);
    }
  }

  /** "2023-01-15 08:30:00" becomes 15 January 2023, 08:30:00; "N/A" stays the string "N/A". */
  lemma CoercionExamples()
    ensures CoercedValue(Parse, "2023-01-15 08:30:00") == Stamp(Timestamp(2023, 1, 15, 8, 30, 0))
    ensures CoercedValue(Parse, "N/A") == Raw("N/A")
  {
    ParseExamples();
  }
}
