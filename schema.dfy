/**
 * The schema builder of make_table: a table definition derived from the
 * descriptors of a layout. The table starts with the integer primary key
 * RECORD_ID, continues with one typed column per descriptor whose DATA flag
 * is "1", in layout order, and ends with the trailer columns VALID_SSN and
 * IMPORT_DT.
 */
module Schema {
  import opened Wrappers

  /** The capacity of the String column used for every non-date, non-number field. */
  const TextCapacity: nat := 255

  datatype ColumnType = Integer | Float | Text(capacity: nat) | DateTime

  datatype Column = Column(name: string, ctype: ColumnType, primaryKey: bool, hasDefault: bool)

  /** One entry of the layout: DATA (inclusion flag), NAME (column name), TYPE (declared type). */
  datatype Descriptor = Descriptor(data: string, name: string, declared: string)

  /** The two ways append_column refuses a column: SQLAlchemy raises ArgumentError for each. */
  datatype SchemaError = BlankName | PrimaryKeyRedefined(name: string)

  const RecordId := Column("RECORD_ID", Integer, true, false)
  const ValidSsn := Column("VALID_SSN", Integer, false, false)
  /** The default of IMPORT_DT is the wall-clock time of insertion; only its presence is kept. */
  const ImportDt := Column("IMPORT_DT", DateTime, false, true)

  const FixedNames: set<string> := {"RECORD_ID", "VALID_SSN", "IMPORT_DT"}

  /** Only a DATA flag of exactly "1" includes a descriptor. */
  predicate IsIncluded(d: Descriptor) {
    d.data == "1"
  }

  /** The column type for a declared TYPE: DATE is DateTime, NUMBER is Float, anything else Text(255). */
  function TypeFor(declared: string): (t: ColumnType)
    ensures t == DateTime <==> declared == "DATE"
    ensures t == Float <==> declared == "NUMBER"
    ensures t.Text? <==> declared != "DATE" && declared != "NUMBER"
    ensures t != Integer && (t.Text? ==> t.capacity == TextCapacity)
  {
    if declared == "DATE" then DateTime
    else if declared == "NUMBER" then Float
    else Text(TextCapacity)
  }

  /** The column an included descriptor becomes. */
  function ColumnFor(d: Descriptor): Column {
    Column(d.name, TypeFor(d.declared), false, false)
  }

  // ----- The table's column collection, keyed by name -----

  function Names(cols: seq<Column>): set<string> {
    set p | 0 <= p < |cols| :: cols[p].name
  }

  /** No two columns share a name, as in SQLAlchemy's column collection. */
  predicate NamesDistinct(cols: seq<Column>) {
    forall p, q | 0 <= p < q < |cols| :: cols[p].name != cols[q].name
  }

  /** The position of the first column called n, if any. */
  function IndexOfName(cols: seq<Column>, n: string): (r: Option<nat>)
    ensures r.None? <==> forall p | 0 <= p < |cols| :: cols[p].name != n
    ensures r.Some? ==> r.value < |cols| && cols[r.value].name == n
    ensures r.Some? ==> forall p | 0 <= p < r.value :: cols[p].name != n
  {
    if cols == [] then None
    else if cols[0].name == n then Some(0)
    else match IndexOfName(cols[1..], n)
      case None => None
      case Some(p) => Some(p + 1)
  }

  /**
   * append_column on a table whose columns are cols. A blank name is refused. A
   * name already present is replaced where it stands; that is refused when it
   * would turn the primary key into a non-key column. A new name goes at the end.
   */
  function Appended(cols: seq<Column>, c: Column): Result<seq<Column>, SchemaError> {
    if c.name == "" then Err(BlankName)
    else match IndexOfName(cols, c.name)
      case None => Ok(cols + [c])
      case Some(p) =>
        if cols[p].primaryKey && !c.primaryKey then Err(PrimaryKeyRedefined(c.name))
        else Ok(cols[p := c])
  }

  /** The loop of make_table over layout, starting from the columns cols; the first refusal ends it. */
  function AddedColumns(cols: seq<Column>, layout: seq<Descriptor>): Result<seq<Column>, SchemaError>
    decreases |layout|
  {
    if layout == [] then Ok(cols)
    else match AddedColumns(cols, layout[..|layout| - 1])
      case Err(e) => Err(e)
      case Ok(cs) =>
        var d := layout[|layout| - 1];
        if IsIncluded(d) then Appended(cs, ColumnFor(d)) else Ok(cs)
  }

  /** The outcome of make_table: the table's column list, or the error append_column raises. */
  function TableColumns(layout: seq<Descriptor>): Result<seq<Column>, SchemaError> {
    match AddedColumns([RecordId], layout)
    case Err(e) => Err(e)
    case Ok(cs) =>
      match Appended(cs, ValidSsn)
      case Err(e) => Err(e)
      case Ok(cs') => Appended(cs', ImportDt)
  }

  // ----- Reference definitions over the layout -----

  /** The names of the included descriptors. */
  function IncludedNames(layout: seq<Descriptor>): set<string> {
    set i | 0 <= i < |layout| && IsIncluded(layout[i]) :: layout[i].name
  }

  /** Every included NAME is one append_column accepts: not blank, not RECORD_ID. */
  predicate AcceptedNames(layout: seq<Descriptor>) {
    forall i | 0 <= i < |layout| && IsIncluded(layout[i]) :: layout[i].name != "" && layout[i].name != "RECORD_ID"
  }

  /** The included NAMEs are non-blank, pairwise distinct and none of the fixed columns' names. */
  predicate NamesFit(layout: seq<Descriptor>) {
    (forall i | 0 <= i < |layout| && IsIncluded(layout[i]) :: layout[i].name != "" && layout[i].name !in FixedNames) &&
    (forall i, j | 0 <= i < j < |layout| && IsIncluded(layout[i]) && IsIncluded(layout[j]) :: layout[i].name != layout[j].name)
  }

  /** The included descriptors' columns, one each, in layout order. */
  function IncludedColumns(layout: seq<Descriptor>): seq<Column>
    decreases |layout|
  {
    if layout == [] then []
    else
      var rest, d := IncludedColumns(layout[..|layout| - 1]), layout[|layout| - 1];
      if IsIncluded(d) then rest + [ColumnFor(d)] else rest
  }

  /** The number of included descriptors, counted from the front. */
  function CountIncluded(layout: seq<Descriptor>): nat {
    if layout == [] then 0
    else (if IsIncluded(layout[0]) then 1 else 0) + CountIncluded(layout[1..])
  }

  /** What every column list make_table builds satisfies: RECORD_ID first and the only key, names distinct. */
  predicate Keyed(cols: seq<Column>) {
    |cols| >= 1 && cols[0] == RecordId && NamesDistinct(cols) &&
    forall p | 0 < p < |cols| :: !cols[p].primaryKey
  }

  // ----- The table object -----

  /** The table being built: its name and its columns, in order. */
  class Table {
    const name: string
    var columns: seq<Column>

    ghost predicate Valid()
      reads this
    {
      NamesDistinct(columns)
    }

    constructor (name: string, key: Column)
      ensures Valid() && this.name == name && columns == [key]
    {
      this.name := name;
      columns := [key];
    }

    /** append_column: the outcome and the new columns are those of Appended; a blank name changes nothing. */
    method AppendColumn(c: Column) returns (outcome: Result<(), SchemaError>)
      requires Valid()
      modifies this
      ensures Valid()
      ensures Appended(old(columns), c).Ok? ==> outcome == Ok(()) && columns == Appended(old(columns), c).value
      ensures Appended(old(columns), c).Err? ==> outcome == Err(Appended(old(columns), c).error)
      ensures c.name == "" ==> columns == old(columns)
      ensures c.name != "" && IndexOfName(old(columns), c.name).Some? ==>
        columns == old(columns)[IndexOfName(old(columns), c.name).value := c]
    {
      if c.name == "" {
        return Err(BlankName);
      }
      match IndexOfName(columns, c.name) {
        case None =>
          columns := columns + [c];
          outcome := Ok(());
        case Some(p) =>
          var replaced := columns[p];
          columns := columns[p := c];
          outcome := if replaced.primaryKey && !c.primaryKey then Err(PrimaryKeyRedefined(c.name)) else Ok(());
      }
    }
  }

  /** make_table: the primary key, the loop over the layout, the two trailers; an error of append_column propagates. */
  method MakeTable(name: string, layout: seq<Descriptor>) returns (r: Result<Table, SchemaError>)
    ensures r.Err? <==> TableColumns(layout).Err?
    ensures r.Err? ==> r.error == TableColumns(layout).error
    ensures r.Ok? ==> fresh(r.value) && r.value.name == name && r.value.Valid()
    ensures r.Ok? ==> r.value.columns == TableColumns(layout).value
  {
    var table := new Table(name, RecordId);
    for i := 0 to |layout|
      invariant table.Valid() && AddedColumns([RecordId], layout[..i]) == Ok(table.columns)
    {
      var d := layout[i];
      assert layout[..i + 1][..i] == layout[..i];
      if d.data != "1" {
        continue;
      }
      var ctype;
      if d.declared == "DATE" {
        ctype := DateTime;
      } else if d.declared == "NUMBER" {
        ctype := Float;
      } else {
        ctype := Text(TextCapacity);
      }
      var outcome := table.AppendColumn(Column(d.name, ctype, false, false));
      if outcome.Err? {
        AddedColumnsAppend([RecordId], layout[..i + 1], layout[i + 1..]);
        assert layout[..i + 1] + layout[i + 1..] == layout;
        return Err(outcome.error);
      }
    }
    assert layout[..|layout|] == layout;
    var outcome := table.AppendColumn(ValidSsn);
    if outcome.Err? {
      return Err(outcome.error);
    }
    outcome := table.AppendColumn(ImportDt);
    if outcome.Err? {
      return Err(outcome.error);
    }
    return Ok(table);
  }

  // ----- Properties of the collection and of the loop -----

  /** The loop over a concatenated layout is the loop over the first part, then over the second. */
  lemma {:induction false} AddedColumnsAppend(cols: seq<Column>, a: seq<Descriptor>, b: seq<Descriptor>)
    ensures AddedColumns(cols, a + b) ==
      match AddedColumns(cols, a)
      case Err(e) => Err(e)
      case Ok(cs) => AddedColumns(cs, b)
    decreases |b|
  {
    if b == [] {
      assert a + b == a;
    } else {
      var b' := b[..|b| - 1];
      assert (a + b)[..|a + b| - 1] == a + b';
      AddedColumnsAppend(cols, a, b');
    }
  }

  lemma NamesAppend(cols: seq<Column>, c: Column)
    ensures Names(cols + [c]) == Names(cols) + {c.name}
  {
    var ext := cols + [c];
    forall x | x in Names(cols) ensures x in Names(ext) {
      var p :| 0 <= p < |cols| && cols[p].name == x;
      assert ext[p] == cols[p];
    }
    assert ext[|cols|] == c;
  }

  lemma NamesUpdate(cols: seq<Column>, p: nat, c: Column)
    requires p < |cols| && cols[p].name == c.name
    ensures Names(cols[p := c]) == Names(cols)
  {
    var upd := cols[p := c];
    forall x | x in Names(cols) ensures x in Names(upd) {
      var q :| 0 <= q < |cols| && cols[q].name == x;
      assert upd[q].name == x;
    }
    forall x | x in Names(upd) ensures x in Names(cols) {
      var q :| 0 <= q < |upd| && upd[q].name == x;
      assert cols[q].name == x;
    }
  }

  /** A distinct-named column list has as many columns as names. */
  lemma {:induction false} DistinctNamesCount(cols: seq<Column>)
    requires NamesDistinct(cols)
    ensures |Names(cols)| == |cols|
    decreases |cols|
  {
    if cols != [] {
      var init, c := cols[..|cols| - 1], cols[|cols| - 1];
      assert cols == init + [c];
      NamesAppend(init, c);
      DistinctNamesCount(init);
      assert c.name !in Names(init);
    }
  }

  lemma IncludedNamesStep(layout: seq<Descriptor>)
    requires layout != []
    ensures var init, d := layout[..|layout| - 1], layout[|layout| - 1];
      IncludedNames(layout) == IncludedNames(init) + (if IsIncluded(d) then {d.name} else {})
  {
    var init, d := layout[..|layout| - 1], layout[|layout| - 1];
    forall x | x in IncludedNames(init) ensures x in IncludedNames(layout) {
      var i :| 0 <= i < |init| && IsIncluded(init[i]) && init[i].name == x;
      assert layout[i] == init[i];
    }
    forall x | x in IncludedNames(layout) ensures x in IncludedNames(init) || (IsIncluded(d) && x == d.name) {
      var i :| 0 <= i < |layout| && IsIncluded(layout[i]) && layout[i].name == x;
      if i < |init| {
        assert init[i] == layout[i];
      }
    }
  }

  /**
   * One append_column on a keyed list: it succeeds exactly for a non-blank name
   * other than RECORD_ID; then the list stays keyed, gains c's name, holds c,
   * keeps every earlier position's name, and only the column named like c changes.
   */
  lemma AppendedFacts(cols: seq<Column>, c: Column)
    requires Keyed(cols) && !c.primaryKey
    ensures Appended(cols, c).Ok? <==> c.name != "" && c.name != "RECORD_ID"
    ensures Appended(cols, c).Err? ==>
      Appended(cols, c).error == (if c.name == "" then BlankName else PrimaryKeyRedefined("RECORD_ID"))
    ensures Appended(cols, c).Ok? ==>
      var r := Appended(cols, c).value;
      Keyed(r) && Names(r) == Names(cols) + {c.name} && c in r && |cols| <= |r| &&
      (forall p | 0 <= p < |cols| :: r[p].name == cols[p].name && (cols[p].name != c.name ==> r[p] == cols[p])) &&
      (c.name !in Names(cols) ==> r == cols + [c])
  {
    if c.name != "" {
      match IndexOfName(cols, c.name)
      case None =>
        NamesAppend(cols, c);
        assert (cols + [c])[|cols|] == c;
      case Some(p) =>
        if p != 0 {
          assert cols[0].name == "RECORD_ID" != c.name;
          NamesUpdate(cols, p, c);
          assert cols[p := c][p] == c;
        }
    }
  }

  /**
   * The loop from a keyed list succeeds exactly when every included NAME is
   * accepted; then the list stays keyed, gains the included names, keeps the
   * name at every earlier position, and keeps whole every column whose name no
   * later descriptor carries.
   */
  lemma {:induction false} AddedColumnsFacts(cols: seq<Column>, layout: seq<Descriptor>)
    requires Keyed(cols)
    ensures AddedColumns(cols, layout).Ok? <==> AcceptedNames(layout)
    ensures AddedColumns(cols, layout).Err? ==>
      AddedColumns(cols, layout).error in {BlankName, PrimaryKeyRedefined("RECORD_ID")}
    ensures AddedColumns(cols, layout).Ok? ==>
      var r := AddedColumns(cols, layout).value;
      Keyed(r) && Names(r) == Names(cols) + IncludedNames(layout) && |cols| <= |r| &&
      forall p | 0 <= p < |cols| ::
        r[p].name == cols[p].name && (cols[p].name !in IncludedNames(layout) ==> r[p] == cols[p])
    decreases |layout|
  {
    if layout == [] {
      assert IncludedNames(layout) == {};
    } else {
      var init, d := layout[..|layout| - 1], layout[|layout| - 1];
      AddedColumnsFacts(cols, init);
      IncludedNamesStep(layout);
      assert AcceptedNames(layout) <==> AcceptedNames(init) && (IsIncluded(d) ==> d.name != "" && d.name != "RECORD_ID") by {
        forall i | 0 <= i < |init| ensures init[i] == layout[i] {}
      }
      if AddedColumns(cols, init).Ok? && IsIncluded(d) {
        AppendedFacts(AddedColumns(cols, init).value, ColumnFor(d));
      }
    }
  }

  /** append_column keeps the columns it had and adds or substitutes only c. */
  lemma AppendedMembers(cols: seq<Column>, c: Column)
    ensures Appended(cols, c).Ok? ==> forall x | x in Appended(cols, c).value :: x in cols || x == c
  {
    if Appended(cols, c).Ok? && IndexOfName(cols, c.name).Some? {
      var p := IndexOfName(cols, c.name).value;
      forall x | x in cols[p := c] ensures x in cols || x == c {
        var q :| 0 <= q < |cols| && cols[p := c][q] == x;
        if q != p {
          assert cols[q] == x;
        }
      }
    }
  }

  /** Every column the loop leaves is one it started with or the column of an included descriptor. */
  lemma {:induction false} AddedColumnsMembers(cols: seq<Column>, layout: seq<Descriptor>)
    ensures AddedColumns(cols, layout).Ok? ==>
      forall x | x in AddedColumns(cols, layout).value ::
        x in cols || exists i | 0 <= i < |layout| :: IsIncluded(layout[i]) && x == ColumnFor(layout[i])
    decreases |layout|
  {
    if layout != [] && AddedColumns(cols, layout).Ok? {
      var init, d := layout[..|layout| - 1], layout[|layout| - 1];
      AddedColumnsMembers(cols, init);
      var cs := AddedColumns(cols, init).value;
      if IsIncluded(d) {
        AppendedMembers(cs, ColumnFor(d));
      }
      forall x | x in AddedColumns(cols, layout).value
        ensures x in cols || exists i | 0 <= i < |layout| :: IsIncluded(layout[i]) && x == ColumnFor(layout[i])
      {
        if x in cs && x !in cols {
          var i :| 0 <= i < |init| && IsIncluded(init[i]) && x == ColumnFor(init[i]);
          assert layout[i] == init[i];
        }
      }
    }
  }

  // ----- What make_table produces, for every layout -----

  /** The fixed names are three different strings (they have the same length). */
  lemma FixedNamesDiffer()
    ensures "RECORD_ID" != "VALID_SSN" && "RECORD_ID" != "IMPORT_DT" && "VALID_SSN" != "IMPORT_DT"
  {
    assert "RECORD_ID"[0] == 'R' && "VALID_SSN"[0] == 'V' && "IMPORT_DT"[0] == 'I';
  }

  lemma NamesOfKey()
    ensures Names([RecordId]) == {"RECORD_ID"}
  {
    assert [RecordId][0].name == "RECORD_ID";
  }

  /** A non-blank name that no column carries is appended at the end. */
  lemma AppendFresh(cols: seq<Column>, c: Column)
    requires c.name != "" && forall p | 0 <= p < |cols| :: cols[p].name != c.name
    ensures Appended(cols, c) == Ok(cols + [c])
  {
  }

  /** A name first carried by the non-key column at p replaces that column. */
  lemma AppendReplace(cols: seq<Column>, p: nat, c: Column)
    requires p < |cols| && c.name != "" && cols[p].name == c.name && !cols[p].primaryKey
    requires forall q | 0 <= q < p :: cols[q].name != c.name
    ensures Appended(cols, c) == Ok(cols[p := c])
  {
  }

  /** One more descriptor at the end of the layout is one more step of the loop. */
  lemma AddedSnoc(cols: seq<Column>, init: seq<Descriptor>, d: Descriptor)
    ensures AddedColumns(cols, init + [d]) ==
      match AddedColumns(cols, init)
      case Err(e) => Err(e)
      case Ok(cs) => if IsIncluded(d) then Appended(cs, ColumnFor(d)) else Ok(cs)
  {
    assert (init + [d])[..|init|] == init;
  }

  /** The two trailer appends on a keyed list always succeed and leave both trailers in it. */
  lemma TrailerFacts(cs: seq<Column>)
    requires Keyed(cs)
    ensures Appended(cs, ValidSsn).Ok? && Appended(Appended(cs, ValidSsn).value, ImportDt).Ok?
    ensures var r := Appended(Appended(cs, ValidSsn).value, ImportDt).value;
      Keyed(r) && Names(r) == Names(cs) + {"VALID_SSN", "IMPORT_DT"} && ValidSsn in r && ImportDt in r &&
      |cs| <= |r| &&
      forall p | 0 <= p < |cs| ::
        r[p].name == cs[p].name && (cs[p].name !in {"VALID_SSN", "IMPORT_DT"} ==> r[p] == cs[p])
  {
    FixedNamesDiffer();
    AppendedFacts(cs, ValidSsn);
    var r1 := Appended(cs, ValidSsn).value;
    AppendedFacts(r1, ImportDt);
    var r2 := Appended(r1, ImportDt).value;
    var p :| 0 <= p < |r1| && r1[p] == ValidSsn;
    assert r2[p] == ValidSsn;
  }

  /**
   * make_table succeeds exactly when every included NAME is non-blank and not
   * RECORD_ID. Its column list then starts with RECORD_ID, the only primary key;
   * no two columns share a name; the names are the fixed ones and the included
   * NAMEs; and VALID_SSN and IMPORT_DT are the trailer columns themselves.
   */
  lemma TableColumnsFacts(layout: seq<Descriptor>)
    ensures TableColumns(layout).Ok? <==> AcceptedNames(layout)
    ensures TableColumns(layout).Err? ==> TableColumns(layout).error in {BlankName, PrimaryKeyRedefined("RECORD_ID")}
    ensures TableColumns(layout).Ok? ==>
      var cols := TableColumns(layout).value;
      Keyed(cols) && Names(cols) == FixedNames + IncludedNames(layout) && ValidSsn in cols && ImportDt in cols
  {
    AddedColumnsFacts([RecordId], layout);
    NamesOfKey();
    if AddedColumns([RecordId], layout).Ok? {
      TrailerFacts(AddedColumns([RecordId], layout).value);
    }
  }

  /** RECORD_ID, an Integer primary key, comes first and is the only primary-key column. */
  lemma RecordIdFirstAndOnlyKey(layout: seq<Descriptor>)
    ensures TableColumns(layout).Ok? ==> TableColumns(layout).value[0] == RecordId
    ensures TableColumns(layout).Ok? ==>
      forall p | 0 < p < |TableColumns(layout).value| :: !TableColumns(layout).value[p].primaryKey
  {
    TableColumnsFacts(layout);
  }

  /**
   * Every column of the table is RECORD_ID, VALID_SSN, IMPORT_DT or the column
   * of an included descriptor; so IMPORT_DT is the only column with a default.
   */
  lemma ColumnsFromLayout(layout: seq<Descriptor>)
    ensures TableColumns(layout).Ok? ==>
      forall x | x in TableColumns(layout).value ::
        x in {RecordId, ValidSsn, ImportDt} ||
        exists i | 0 <= i < |layout| :: IsIncluded(layout[i]) && x == ColumnFor(layout[i])
    ensures TableColumns(layout).Ok? ==>
      forall p | 0 <= p < |TableColumns(layout).value| ::
        TableColumns(layout).value[p].hasDefault <==> TableColumns(layout).value[p] == ImportDt
  {
    AddedColumnsMembers([RecordId], layout);
    if TableColumns(layout).Ok? {
      var cs := AddedColumns([RecordId], layout).value;
      AppendedMembers(cs, ValidSsn);
      AppendedMembers(Appended(cs, ValidSsn).value, ImportDt);
      var cols := TableColumns(layout).value;
      forall p | 0 <= p < |cols| ensures cols[p].hasDefault ==> cols[p] == ImportDt {
        assert cols[p] in cols;
      }
    }
  }

  /** There is one column per distinct name among the fixed names and the included NAMEs. */
  lemma ColumnCount(layout: seq<Descriptor>)
    ensures TableColumns(layout).Ok? ==> |TableColumns(layout).value| == |FixedNames + IncludedNames(layout)|
  {
    TableColumnsFacts(layout);
    if TableColumns(layout).Ok? {
      DistinctNamesCount(TableColumns(layout).value);
    }
  }

  /** A name carried by no included descriptor, and not a fixed column's, names no column. */
  lemma UnlistedNameAbsent(layout: seq<Descriptor>, n: string)
    requires forall i | 0 <= i < |layout| :: IsIncluded(layout[i]) ==> layout[i].name != n
    requires n !in FixedNames
    ensures TableColumns(layout).Ok? ==>
      forall p | 0 <= p < |TableColumns(layout).value| :: TableColumns(layout).value[p].name != n
  {
    TableColumnsFacts(layout);
    if TableColumns(layout).Ok? {
      var cols := TableColumns(layout).value;
      forall p | 0 <= p < |cols| ensures cols[p].name != n {
        assert cols[p].name in Names(cols);
      }
    }
  }

  /**
   * When several included descriptors share a NAME, the last one decides the
   * column: each append_column replaced the one before. (A data column named
   * after a trailer is replaced by the trailer instead.)
   */
  lemma LastOccurrenceWins(layout: seq<Descriptor>, i: nat)
    requires i < |layout| && IsIncluded(layout[i]) && layout[i].name != "VALID_SSN" && layout[i].name != "IMPORT_DT"
    requires forall k | i < k < |layout| && IsIncluded(layout[k]) :: layout[k].name != layout[i].name
    ensures TableColumns(layout).Ok? ==> ColumnFor(layout[i]) in TableColumns(layout).value
  {
    var c := ColumnFor(layout[i]);
    var front, back := layout[..i + 1], layout[i + 1..];
    assert front + back == layout;
    AddedColumnsAppend([RecordId], front, back);
    assert front[..i] == layout[..i];
    if TableColumns(layout).Ok? {
      AddedColumnsFacts([RecordId], layout[..i]);
      AddedColumnsFacts([RecordId], front);
      var r0 := AddedColumns([RecordId], layout[..i]).value;
      AppendedFacts(r0, c);
      var r1 := AddedColumns([RecordId], front).value;
      var p :| 0 <= p < |r1| && r1[p] == c;
      assert c.name !in IncludedNames(back) by {
        forall k | 0 <= k < |back| && IsIncluded(back[k]) ensures back[k].name != c.name {
          assert back[k] == layout[i + 1 + k];
        }
      }
      AddedColumnsFacts(r1, back);
      var r2 := AddedColumns(r1, back).value;
      TrailerFacts(r2);
      assert TableColumns(layout).value[p] == c;
    }
  }

  /**
   * A NAME takes its place in the table at its first included occurrence:
   * if the included descriptor at j carries a NAME that no included
   * descriptor before j carries, its column stands after that of any earlier
   * included descriptor i.
   */
  lemma FirstOccurrenceOrder(layout: seq<Descriptor>, i: nat, j: nat)
    requires i < j < |layout| && IsIncluded(layout[i]) && IsIncluded(layout[j])
    requires forall k | 0 <= k < j && IsIncluded(layout[k]) :: layout[k].name != layout[j].name
    ensures TableColumns(layout).Ok? ==>
      exists p, q | 0 <= p < q < |TableColumns(layout).value| ::
        TableColumns(layout).value[p].name == layout[i].name && TableColumns(layout).value[q].name == layout[j].name
  {
    var c := ColumnFor(layout[j]);
    var front, back := layout[..j + 1], layout[j + 1..];
    assert front + back == layout;
    AddedColumnsAppend([RecordId], front, back);
    assert front[..j] == layout[..j];
    if TableColumns(layout).Ok? {
      TableColumnsFacts(layout);
      assert layout[j].name != "RECORD_ID";
      AddedColumnsFacts([RecordId], layout[..j]);
      NamesOfKey();
      var r0 := AddedColumns([RecordId], layout[..j]).value;
      assert layout[..j][i] == layout[i];
      assert layout[i].name in IncludedNames(layout[..j]);
      var p :| 0 <= p < |r0| && r0[p].name == layout[i].name;
      assert c.name !in Names(r0) by {
        forall k | 0 <= k < j && IsIncluded(layout[..j][k]) ensures layout[..j][k].name != c.name {
          assert layout[..j][k] == layout[k];
        }
      }
      AppendedFacts(r0, c);
      var r1 := AddedColumns([RecordId], front).value;
      assert r1 == r0 + [c];
      var q := |r0|;
      AddedColumnsFacts(r1, back);
      var r2 := AddedColumns(r1, back).value;
      TrailerFacts(r2);
      var cols := TableColumns(layout).value;
      assert cols[p].name == layout[i].name && cols[q].name == layout[j].name;
    }
  }

  /** Inserting a descriptor whose DATA is not "1" anywhere in the layout changes nothing. */
  lemma ExcludedDescriptorIgnored(before: seq<Descriptor>, d: Descriptor, after: seq<Descriptor>)
    requires !IsIncluded(d)
    ensures TableColumns(before + [d] + after) == TableColumns(before + after)
  {
    AddedColumnsAppend([RecordId], before + [d], after);
    AddedColumnsAppend([RecordId], before, [d]);
    AddedColumnsAppend([RecordId], before, after);
    if AddedColumns([RecordId], before).Ok? {
      var cs := AddedColumns([RecordId], before).value;
      assert [d][..0] == [];
      assert AddedColumns(cs, [d]) == Ok(cs);
    }
  }

  /** A layout that includes nothing, the empty one among them, yields exactly the three fixed columns. */
  lemma NothingIncluded(layout: seq<Descriptor>)
    requires forall i | 0 <= i < |layout| :: !IsIncluded(layout[i])
    ensures TableColumns(layout) == Ok([RecordId, ValidSsn, ImportDt])
  {
    NothingAdded(layout);
    FixedNamesDiffer();
    AppendFresh([RecordId], ValidSsn);
    assert [RecordId] + [ValidSsn] == [RecordId, ValidSsn];
    AppendFresh([RecordId, ValidSsn], ImportDt);
    assert [RecordId, ValidSsn] + [ImportDt] == [RecordId, ValidSsn, ImportDt];
  }

  lemma {:induction false} NothingAdded(layout: seq<Descriptor>)
    requires forall i | 0 <= i < |layout| :: !IsIncluded(layout[i])
    ensures AddedColumns([RecordId], layout) == Ok([RecordId])
    decreases |layout|
  {
    if layout != [] {
      NothingAdded(layout[..|layout| - 1]);
    }
  }

  // ----- Layouts whose NAMEs fit: the table is the plain list -----

  /** Splitting the layout splits the included columns. */
  lemma {:induction false} IncludedColumnsAppend(a: seq<Descriptor>, b: seq<Descriptor>)
    ensures IncludedColumns(a + b) == IncludedColumns(a) + IncludedColumns(b)
    decreases |b|
  {
    if b == [] {
      assert a + b == a;
    } else {
      var b' := b[..|b| - 1];
      assert (a + b)[..|a + b| - 1] == a + b';
      IncludedColumnsAppend(a, b');
    }
  }

  /** The included columns number the included descriptors. */
  lemma {:induction false} IncludedColumnsCount(layout: seq<Descriptor>)
    ensures |IncludedColumns(layout)| == CountIncluded(layout)
  {
    if layout != [] {
      IncludedColumnsAppend([layout[0]], layout[1..]);
      assert [layout[0]] + layout[1..] == layout;
      assert [layout[0]][..0] == [];
      IncludedColumnsCount(layout[1..]);
    }
  }

  /** Every included column is the column of some included descriptor. */
  lemma {:induction false} IncludedColumnsFrom(layout: seq<Descriptor>, p: nat)
    requires p < |IncludedColumns(layout)|
    ensures exists i | 0 <= i < |layout| :: IsIncluded(layout[i]) && IncludedColumns(layout)[p] == ColumnFor(layout[i])
    decreases |layout|
  {
    var init, last := layout[..|layout| - 1], |layout| - 1;
    if IsIncluded(layout[last]) && p == |IncludedColumns(layout)| - 1 {
      assert IncludedColumns(layout)[p] == ColumnFor(layout[last]);
    } else {
      assert IncludedColumns(layout)[p] == IncludedColumns(init)[p];
      IncludedColumnsFrom(init, p);
      var i :| 0 <= i < |init| && IsIncluded(init[i]) && IncludedColumns(init)[p] == ColumnFor(init[i]);
      assert layout[i] == init[i];
    }
  }

  /** When the NAMEs fit, no append_column replaces anything: RECORD_ID, the included columns in order, the trailers. */
  lemma PlainWhenNamesFit(layout: seq<Descriptor>)
    requires NamesFit(layout)
    ensures TableColumns(layout) == Ok([RecordId] + IncludedColumns(layout) + [ValidSsn, ImportDt])
  {
    PlainLoopWhenNamesFit(layout);
    var cs := [RecordId] + IncludedColumns(layout);
    forall p | 0 <= p < |cs| ensures cs[p].name != "VALID_SSN" && cs[p].name != "IMPORT_DT" {
      if p > 0 {
        IncludedColumnsFrom(layout, p - 1);
      }
    }
    FixedNamesDiffer();
    assert (cs + [ValidSsn])[|cs|].name == "VALID_SSN";
    assert IndexOfName(cs + [ValidSsn], "IMPORT_DT") == None;
    assert cs + [ValidSsn] + [ImportDt] == cs + [ValidSsn, ImportDt];
  }

  lemma {:induction false} PlainLoopWhenNamesFit(layout: seq<Descriptor>)
    requires NamesFit(layout)
    ensures AddedColumns([RecordId], layout) == Ok([RecordId] + IncludedColumns(layout))
    decreases |layout|
  {
    if layout != [] {
      var init, d := layout[..|layout| - 1], layout[|layout| - 1];
      assert NamesFit(init) by {
        forall i | 0 <= i < |init| ensures init[i] == layout[i] {}
      }
      PlainLoopWhenNamesFit(init);
      assert layout == init + [d];
      AddedSnoc([RecordId], init, d);
      if IsIncluded(d) {
        assert d.name != "" && d.name !in FixedNames;
        var cs := [RecordId] + IncludedColumns(init);
        forall p | 0 <= p < |cs| ensures cs[p].name != d.name {
          if p > 0 {
            IncludedColumnsFrom(init, p - 1);
            var i :| 0 <= i < |init| && IsIncluded(init[i]) && IncludedColumns(init)[p - 1] == ColumnFor(init[i]);
            assert init[i] == layout[i];
          }
        }
        AppendFresh(cs, ColumnFor(d));
        assert [RecordId] + IncludedColumns(layout) == cs + [ColumnFor(d)];
      }
    } else {
      assert [RecordId] + IncludedColumns(layout) == [RecordId];
    }
  }

  /**
   * For fitting NAMEs the column count is the number of included descriptors
   * plus three, and the list ends with VALID_SSN (Integer) and IMPORT_DT
   * (DateTime, defaulted).
   */
  lemma CountAndTrailer(layout: seq<Descriptor>)
    requires NamesFit(layout)
    ensures TableColumns(layout).Ok?
    ensures |TableColumns(layout).value| == CountIncluded(layout) + 3
    ensures TableColumns(layout).value[|TableColumns(layout).value| - 2] == ValidSsn
    ensures TableColumns(layout).value[|TableColumns(layout).value| - 1] == ImportDt
  {
    PlainWhenNamesFit(layout);
    IncludedColumnsCount(layout);
  }

  /**
   * For fitting NAMEs the included descriptor at index i becomes the column at
   * position 1 + (number of included descriptors before it), named by its NAME
   * and typed by its TYPE.
   */
  lemma IncludedPlacement(layout: seq<Descriptor>, i: nat)
    requires NamesFit(layout) && i < |layout| && IsIncluded(layout[i])
    ensures TableColumns(layout).Ok?
    ensures 1 + CountIncluded(layout[..i]) < |TableColumns(layout).value| - 2
    ensures TableColumns(layout).value[1 + CountIncluded(layout[..i])] == ColumnFor(layout[i])
  {
    var d := layout[i];
    PlainWhenNamesFit(layout);
    assert layout == layout[..i] + [d] + layout[i + 1..];
    IncludedColumnsAppend(layout[..i] + [d], layout[i + 1..]);
    IncludedColumnsAppend(layout[..i], [d]);
    assert IncludedColumns([d]) == [ColumnFor(d)] by {
      assert [d][..0] == [];
    }
    IncludedColumnsCount(layout[..i]);
    IncludedColumnsCount(layout);
  }

  /** Counting a longer prefix never gives less; an included element in between adds one. */
  lemma PrefixCountGrows(layout: seq<Descriptor>, i: nat, j: nat)
    requires i < j <= |layout| && IsIncluded(layout[i])
    ensures CountIncluded(layout[..i]) < CountIncluded(layout[..j])
  {
    assert layout[..j] == layout[..i] + [layout[i]] + layout[i + 1..j];
    IncludedColumnsAppend(layout[..i] + [layout[i]], layout[i + 1..j]);
    IncludedColumnsAppend(layout[..i], [layout[i]]);
    assert IncludedColumns([layout[i]]) == [ColumnFor(layout[i])] by {
      assert [layout[i]][..0] == [];
    }
    IncludedColumnsCount(layout[..i]);
    IncludedColumnsCount(layout[..j]);
  }

  /** For fitting NAMEs included descriptors appear as columns in their layout order, at the stated positions. */
  lemma OrderPreserved(layout: seq<Descriptor>, i: nat, j: nat)
    requires NamesFit(layout) && i < j < |layout| && IsIncluded(layout[i]) && IsIncluded(layout[j])
    ensures TableColumns(layout).Ok?
    ensures 1 + CountIncluded(layout[..i]) < 1 + CountIncluded(layout[..j]) < |TableColumns(layout).value| - 2
    ensures TableColumns(layout).value[1 + CountIncluded(layout[..i])] == ColumnFor(layout[i])
    ensures TableColumns(layout).value[1 + CountIncluded(layout[..j])] == ColumnFor(layout[j])
  {
    PrefixCountGrows(layout, i, j);
    IncludedPlacement(layout, i);
    IncludedPlacement(layout, j);
  }

  /** For fitting NAMEs every column between RECORD_ID and the trailers is the column of an included descriptor. */
  lemma DataColumnsFromLayout(layout: seq<Descriptor>, p: nat)
    requires NamesFit(layout)
    requires 1 <= p < CountIncluded(layout) + 1
    ensures TableColumns(layout).Ok? && p < |TableColumns(layout).value|
    ensures exists i | 0 <= i < |layout| :: IsIncluded(layout[i]) && TableColumns(layout).value[p] == ColumnFor(layout[i])
  {
    PlainWhenNamesFit(layout);
    IncludedColumnsCount(layout);
    IncludedColumnsFrom(layout, p - 1);
  }

  // ----- Examples -----

  /** A NUMBER field, AMOUNT, is kept as a Float; an excluded TEXT field, NOTE, is absent. */
  lemma AmountNoteScenario()
    ensures TableColumns([Descriptor("1", "AMOUNT", "NUMBER"), Descriptor("0", "NOTE", "TEXT")])
         == Ok([RecordId, Column("AMOUNT", Float, false, false), ValidSsn, ImportDt])
  {
    var a, n := Descriptor("1", "AMOUNT", "NUMBER"), Descriptor("0", "NOTE", "TEXT");
    var amount := ColumnFor(a);
    FixedNamesDiffer();
    assert [] + [a] == [a] && [a] + [n] == [a, n];
    AddedSnoc([RecordId], [], a);
    AppendFresh([RecordId], amount);
    assert [RecordId] + [amount] == [RecordId, amount];
    AddedSnoc([RecordId], [a], n);
    assert AddedColumns([RecordId], [a, n]) == Ok([RecordId, amount]);
    AppendFresh([RecordId, amount], ValidSsn);
    assert [RecordId, amount] + [ValidSsn] == [RecordId, amount, ValidSsn];
    AppendFresh([RecordId, amount, ValidSsn], ImportDt);
    assert [RecordId, amount, ValidSsn] + [ImportDt] == [RecordId, amount, ValidSsn, ImportDt];
  }

  /** A repeated NAME replaces the earlier column where it stands: X is a DateTime before Y. */
  lemma RepeatedNameReplacedInPlace()
    ensures TableColumns([Descriptor("1", "X", "NUMBER"), Descriptor("1", "Y", "TEXT"), Descriptor("1", "X", "DATE")])
         == Ok([RecordId, Column("X", DateTime, false, false), Column("Y", Text(TextCapacity), false, false), ValidSsn, ImportDt])
  {
    var dx, dy, dx' := Descriptor("1", "X", "NUMBER"), Descriptor("1", "Y", "TEXT"), Descriptor("1", "X", "DATE");
    var x, y, x' := ColumnFor(dx), ColumnFor(dy), ColumnFor(dx');
    FixedNamesDiffer();
    assert [] + [dx] == [dx] && [dx] + [dy] == [dx, dy] && [dx, dy] + [dx'] == [dx, dy, dx'];
    AddedSnoc([RecordId], [], dx);
    AppendFresh([RecordId], x);
    assert [RecordId] + [x] == [RecordId, x];
    AddedSnoc([RecordId], [dx], dy);
    AppendFresh([RecordId, x], y);
    assert [RecordId, x] + [y] == [RecordId, x, y];
    AddedSnoc([RecordId], [dx, dy], dx');
    AppendReplace([RecordId, x, y], 1, x');
    assert [RecordId, x, y][1 := x'] == [RecordId, x', y];
    assert AddedColumns([RecordId], [dx, dy, dx']) == Ok([RecordId, x', y]);
    AppendFresh([RecordId, x', y], ValidSsn);
    assert [RecordId, x', y] + [ValidSsn] == [RecordId, x', y, ValidSsn];
    AppendFresh([RecordId, x', y, ValidSsn], ImportDt);
    assert [RecordId, x', y, ValidSsn] + [ImportDt] == [RecordId, x', y, ValidSsn, ImportDt];
  }

  /** A data column named after a trailer is replaced by that trailer, which then stands where the data column did. */
  lemma TrailerNameReplacesDataColumn()
    ensures TableColumns([Descriptor("1", "VALID_SSN", "TEXT")]) == Ok([RecordId, ValidSsn, ImportDt])
    ensures TableColumns([Descriptor("1", "IMPORT_DT", "TEXT")]) == Ok([RecordId, ImportDt, ValidSsn])
  {
    var dv, di := Descriptor("1", "VALID_SSN", "TEXT"), Descriptor("1", "IMPORT_DT", "TEXT");
    var v, i := ColumnFor(dv), ColumnFor(di);
    FixedNamesDiffer();
    assert [] + [dv] == [dv] && [] + [di] == [di];
    AddedSnoc([RecordId], [], dv);
    AppendFresh([RecordId], v);
    assert [RecordId] + [v] == [RecordId, v];
    AppendReplace([RecordId, v], 1, ValidSsn);
    assert [RecordId, v][1 := ValidSsn] == [RecordId, ValidSsn];
    AppendFresh([RecordId, ValidSsn], ImportDt);
    assert [RecordId, ValidSsn] + [ImportDt] == [RecordId, ValidSsn, ImportDt];
    AddedSnoc([RecordId], [], di);
    AppendFresh([RecordId], i);
    assert [RecordId] + [i] == [RecordId, i];
    AppendFresh([RecordId, i], ValidSsn);
    assert [RecordId, i] + [ValidSsn] == [RecordId, i, ValidSsn];
    AppendReplace([RecordId, i, ValidSsn], 1, ImportDt);
    assert [RecordId, i, ValidSsn][1 := ImportDt] == [RecordId, ImportDt, ValidSsn];
  }

  /** A blank NAME, or a data column named RECORD_ID, makes make_table fail. */
  lemma RefusedNames()
    ensures TableColumns([Descriptor("1", "", "NUMBER")]) == Err(BlankName)
    ensures TableColumns([Descriptor("1", "RECORD_ID", "TEXT")]) == Err(PrimaryKeyRedefined("RECORD_ID"))
  {
    var b, r := Descriptor("1", "", "NUMBER"), Descriptor("1", "RECORD_ID", "TEXT");
    assert [b][..0] == [] && [r][..0] == [];
  }
}
