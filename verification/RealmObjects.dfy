/** Create or update: rows of one table, found again by primary key. Cells are integers or
    strings; links and lists are not part of this model. */
module RealmObjects {
  import opened Wrappers

  datatype Value = NullValue | IntValue(number: int) | StringValue(text: string)

  datatype PropertyType = IntType | StringType

  datatype Property = Property(name: string, kind: PropertyType, nullable: bool, primary: bool)

  type Schema = seq<Property>
  type Row = seq<Value>

  /** What is asked for: for each property the value given, if any, and the default, if any.
      Where values may be missing (an array of values) an explicit null is not given for a
      property that is not nullable: values are validated before. */
  datatype Request = Request(supplied: seq<Option<Value>>, defaults: seq<Option<Value>>, allowMissing: bool)

  predicate RequestOk(schema: Schema, req: Request) {
    && |req.supplied| == |req.defaults| == |schema|
    && (req.allowMissing ==> forall i | 0 <= i < |schema| && !schema[i].nullable ::
          req.supplied[i] != Some(NullValue) && req.defaults[i] != Some(NullValue))
  }

  datatype Mode = Mode(tryUpdate: bool, onlyDiff: bool, currentRow: Option<nat>, inMigration: bool)

  datatype Error = MissingPropertyValue(index: nat) | InvalidNullKey | ExistingKey

  datatype Outcome = Done(row: nat) | Failed(error: Error)

  // ----- the table -----

  function PrimaryFrom(schema: Schema, i: nat): (r: Option<nat>)
    ensures r.Some? ==> r.value < |schema| && schema[r.value].primary
    decreases |schema| - i
  {
    if i >= |schema| then None else if schema[i].primary then Some(i) else PrimaryFrom(schema, i + 1)
  }

  function Primary(schema: Schema): (r: Option<nat>)
    ensures r.Some? ==> r.value < |schema| && schema[r.value].primary
  {
    PrimaryFrom(schema, 0)
  }

  /** A type has at most one primary key. */
  predicate SchemaOk(schema: Schema) {
    forall i, j | 0 <= i < |schema| && 0 <= j < |schema| && schema[i].primary && schema[j].primary :: i == j
  }

  predicate RowsOk(schema: Schema, rows: seq<Row>) {
    forall i | 0 <= i < |rows| :: |rows[i]| == |schema|
  }

  function EmptyValue(p: Property): Value {
    if p.nullable then NullValue else if p.kind.IntType? then IntValue(0) else StringValue("")
  }

  function EmptyRow(schema: Schema): (r: Row)
    ensures |r| == |schema| && forall i | 0 <= i < |r| :: r[i] == EmptyValue(schema[i])
  {
    if schema == [] then [] else [EmptyValue(schema[0])] + EmptyRow(schema[1..])
  }

  /** The first row with the value in the column. */
  function FindFrom(rows: seq<Row>, col: nat, v: Value, i: nat): (r: Option<nat>)
    requires forall j | 0 <= j < |rows| :: col < |rows[j]|
    ensures r.Some? ==> i <= r.value < |rows| && rows[r.value][col] == v
    ensures r.Some? ==> forall j | i <= j < r.value :: rows[j][col] != v
    ensures r.None? ==> forall j | i <= j < |rows| :: rows[j][col] != v
    decreases |rows| - i
  {
    if i >= |rows| then None else if rows[i][col] == v then Some(i) else FindFrom(rows, col, v, i + 1)
  }

  // ----- what one call comes to -----

  /** The value a property gets: what is given, or, in a new row, the default. */
  function ValueFor(req: Request, created: bool, i: nat): Option<Value>
    requires i < |req.supplied| && i < |req.defaults|
  {
    if req.supplied[i].Some? then req.supplied[i] else if created then req.defaults[i] else None
  }

  /** Does the property stop the call? Not if the row is there and nothing is given for it. */
  predicate Lacks(schema: Schema, req: Request, created: bool, skipPrimary: bool, i: nat)
    requires RequestOk(schema, req) && i < |schema|
  {
    var v := ValueFor(req, created, i);
    && !(skipPrimary && schema[i].primary)
    && (created || v.Some?)
    && (v.None? || v.value.NullValue?) && !schema[i].nullable
    && (schema[i].primary || !req.allowMissing)
  }

  /** The cell after the call. */
  function CellAfter(schema: Schema, req: Request, created: bool, skipPrimary: bool, i: nat, before: Value): Value
    requires RequestOk(schema, req) && i < |schema|
  {
    var v := ValueFor(req, created, i);
    if (skipPrimary && schema[i].primary) || v.None? then before else v.value
  }

  /** Setting the properties in order, up to the first that stops the call. */
  function Populate(schema: Schema, req: Request, created: bool, skipPrimary: bool, row: Row, i: nat)
    : (Row, Option<Error>)
    requires RequestOk(schema, req) && |row| == |schema|
    decreases |schema| - i
  {
    if i >= |schema| then (row, None)
    else if Lacks(schema, req, created, skipPrimary, i) then (row, Some(MissingPropertyValue(i)))
    else Populate(schema, req, created, skipPrimary,
                  row[i := CellAfter(schema, req, created, skipPrimary, i, row[i])], i + 1)
  }

  /** One write to a cell, as observers see it. */
  datatype Write = Write(row: nat, col: nat, before: Value, after: Value)

  /** The writes of that loop to row `n`; in the difference mode a cell that has the value is not
      written. */
  function PopulateWrites(schema: Schema, req: Request, created: bool, skipPrimary: bool, onlyDiff: bool,
                          n: nat, row: Row, i: nat): seq<Write>
    requires RequestOk(schema, req) && |row| == |schema|
    decreases |schema| - i
  {
    if i >= |schema| || Lacks(schema, req, created, skipPrimary, i) then []
    else
      var v := ValueFor(req, created, i);
      var skipped := (skipPrimary && schema[i].primary) || v.None? || (onlyDiff && v.value == row[i]);
      (if skipped then [] else [Write(n, i, row[i], v.value)])
      + PopulateWrites(schema, req, created, skipPrimary, onlyDiff, n, row, i + 1)
  }

  datatype Target = Existing(row: nat) | New(blank: Row, skipPrimary: bool) | NoTarget(error: Error)

  /** Which row the call is about. */
  function Aim(schema: Schema, rows: seq<Row>, req: Request, mode: Mode): Target
    requires RowsOk(schema, rows) && RequestOk(schema, req)
  {
    match Primary(schema)
    case None =>
      if mode.onlyDiff && mode.currentRow.Some? then Existing(mode.currentRow.value)
      else New(EmptyRow(schema), true)
    case Some(k) =>
      var v := ValueFor(req, true, k);
      if v.None? && !schema[k].nullable then NoTarget(MissingPropertyValue(k))
      else
        var key := if v.None? then NullValue else v.value;
        if key.NullValue? && !schema[k].nullable then NoTarget(InvalidNullKey)
        else
          var found := FindFrom(rows, k, key, 0);
          if found.None? then New(EmptyRow(schema)[k := key], true)
          else if mode.tryUpdate then Existing(found.value)
          else if mode.inMigration then New(EmptyRow(schema), false)
          else NoTarget(ExistingKey)
  }

  predicate ModeOk(schema: Schema, rows: seq<Row>, mode: Mode) {
    mode.currentRow.Some? ==> mode.currentRow.value < |rows|
  }

  function Create(schema: Schema, rows: seq<Row>, req: Request, mode: Mode): (seq<Row>, Outcome)
    requires RowsOk(schema, rows) && RequestOk(schema, req) && ModeOk(schema, rows, mode)
  {
    match Aim(schema, rows, req, mode)
    case NoTarget(e) => (rows, Failed(e))
    case Existing(n) =>
      var (row, e) := Populate(schema, req, false, true, rows[n], 0);
      (rows[n := row], if e.Some? then Failed(e.value) else Done(n))
    case New(empty, skip) =>
      var (row, e) := Populate(schema, req, true, skip, empty, 0);
      (rows + [row], if e.Some? then Failed(e.value) else Done(|rows|))
  }

  /** The cells that a call writes. The key of a new row is set when the row is made. */
  function CreateWrites(schema: Schema, rows: seq<Row>, req: Request, mode: Mode): seq<Write>
    requires RowsOk(schema, rows) && RequestOk(schema, req) && ModeOk(schema, rows, mode)
  {
    match Aim(schema, rows, req, mode)
    case NoTarget(_) => []
    case Existing(n) => PopulateWrites(schema, req, false, true, mode.onlyDiff, n, rows[n], 0)
    case New(blank, skip) => PopulateWrites(schema, req, true, skip, mode.onlyDiff, |rows|, blank, 0)
  }

  // ----- what that means -----

  lemma {:induction false} PopulateSize(
      schema: Schema, req: Request, created: bool, skip: bool, row: Row, i: nat)
    requires RequestOk(schema, req) && |row| == |schema|
    ensures |Populate(schema, req, created, skip, row, i).0| == |row|
    ensures forall j | 0 <= j < i && j < |row| :: Populate(schema, req, created, skip, row, i).0[j] == row[j]
    ensures forall j | 0 <= j < |row| && skip && schema[j].primary ::
              Populate(schema, req, created, skip, row, i).0[j] == row[j]
    decreases |schema| - i
  {
    if i < |schema| && !Lacks(schema, req, created, skip, i) {
      PopulateSize(schema, req, created, skip, row[i := CellAfter(schema, req, created, skip, i, row[i])], i + 1);
    }
  }

  /** Setting the properties succeeds if and only if none is lacking, and then every cell is what
      was asked for it. */
  lemma {:induction false} PopulateSucceedsIff(
      schema: Schema, req: Request, created: bool, skip: bool, row: Row, i: nat)
    requires RequestOk(schema, req) && |row| == |schema| && i <= |schema|
    ensures var (row', e) := Populate(schema, req, created, skip, row, i);
            && (e.None? <==> forall j | i <= j < |schema| :: !Lacks(schema, req, created, skip, j))
            && (e.None? ==> |row'| == |row| && forall j | i <= j < |schema| ::
                  row'[j] == CellAfter(schema, req, created, skip, j, row[j]))
    decreases |schema| - i
  {
    if i < |schema| && !Lacks(schema, req, created, skip, i) {
      var next := row[i := CellAfter(schema, req, created, skip, i, row[i])];
      PopulateSucceedsIff(schema, req, created, skip, next, i + 1);
      PopulateSize(schema, req, created, skip, next, i + 1);
    }
  }

  ghost predicate UniqueKeys(schema: Schema, rows: seq<Row>)
    requires RowsOk(schema, rows)
  {
    Primary(schema).Some? ==>
      forall i, j | 0 <= i < j < |rows| :: rows[i][Primary(schema).value] != rows[j][Primary(schema).value]
  }

  lemma {:induction false} CreateKeepsRows(schema: Schema, rows: seq<Row>, req: Request, mode: Mode)
    requires RowsOk(schema, rows) && RequestOk(schema, req) && ModeOk(schema, rows, mode)
    ensures RowsOk(schema, Create(schema, rows, req, mode).0)
    ensures |rows| <= |Create(schema, rows, req, mode).0|
  {
    match Aim(schema, rows, req, mode)
    case NoTarget(e) =>
    case Existing(n) => PopulateSize(schema, req, false, true, rows[n], 0);
    case New(empty, skip) => PopulateSize(schema, req, true, skip, empty, 0);
  }

  /** Outside migrations a call, successful or not, keeps primary keys unique. */
  lemma {:induction false} CreateKeepsKeysUnique(schema: Schema, rows: seq<Row>, req: Request, mode: Mode)
    requires RowsOk(schema, rows) && RequestOk(schema, req) && ModeOk(schema, rows, mode)
    requires UniqueKeys(schema, rows) && !mode.inMigration
    ensures RowsOk(schema, Create(schema, rows, req, mode).0)
    ensures UniqueKeys(schema, Create(schema, rows, req, mode).0)
  {
    CreateKeepsRows(schema, rows, req, mode);
    match Aim(schema, rows, req, mode)
    case NoTarget(e) =>
    case Existing(n) => PopulateSize(schema, req, false, true, rows[n], 0);
    case New(empty, skip) => PopulateSize(schema, req, true, skip, empty, 0);
  }

  datatype Call = Call(req: Request, mode: Mode)

  /** Calls one after another; a call about a row that is not there is not made. */
  function Run(schema: Schema, rows: seq<Row>, calls: seq<Call>): seq<Row>
    requires RowsOk(schema, rows)
    decreases |calls|
  {
    if calls == [] then rows
    else if RequestOk(schema, calls[0].req) && ModeOk(schema, rows, calls[0].mode) then
      CreateKeepsRows(schema, rows, calls[0].req, calls[0].mode);
      Run(schema, Create(schema, rows, calls[0].req, calls[0].mode).0, calls[1..])
    else Run(schema, rows, calls[1..])
  }

  /** Over every sequence of calls outside migrations primary keys stay unique and no row goes. */
  lemma {:induction false} RunKeepsKeysUnique(schema: Schema, rows: seq<Row>, calls: seq<Call>)
    requires RowsOk(schema, rows) && UniqueKeys(schema, rows)
    requires forall i | 0 <= i < |calls| :: !calls[i].mode.inMigration
    ensures var rows' := Run(schema, rows, calls);
            RowsOk(schema, rows') && UniqueKeys(schema, rows') && |rows| <= |rows'|
    decreases |calls|
  {
    hide Create, UniqueKeys;
    if calls != [] {
      if RequestOk(schema, calls[0].req) && ModeOk(schema, rows, calls[0].mode) {
        CreateKeepsKeysUnique(schema, rows, calls[0].req, calls[0].mode);
        CreateKeepsRows(schema, rows, calls[0].req, calls[0].mode);
        RunKeepsKeysUnique(schema, Create(schema, rows, calls[0].req, calls[0].mode).0, calls[1..]);
      } else {
        RunKeepsKeysUnique(schema, rows, calls[1..]);
      }
    }
  }

  /** Which row, if any, has the key that is asked for. */
  function Holder(schema: Schema, rows: seq<Row>, req: Request, k: nat): (r: Option<nat>)
    requires RowsOk(schema, rows) && RequestOk(schema, req) && k < |schema|
    ensures r.Some? ==> r.value < |rows|
  {
    var v := ValueFor(req, true, k);
    FindFrom(rows, k, if v.None? then NullValue else v.value, 0)
  }

  /** Exactly when a successful call keeps keys unique, migrations included: not when a migration
      creates, without updating, an object whose key a row has already. */
  lemma {:induction false} KeysStayUniqueIff(schema: Schema, rows: seq<Row>, req: Request, mode: Mode)
    requires RowsOk(schema, rows) && RequestOk(schema, req) && ModeOk(schema, rows, mode)
    requires UniqueKeys(schema, rows) && SchemaOk(schema) && Create(schema, rows, req, mode).1.Done?
    ensures RowsOk(schema, Create(schema, rows, req, mode).0)
    ensures UniqueKeys(schema, Create(schema, rows, req, mode).0) <==>
              || Primary(schema).None? || mode.tryUpdate || !mode.inMigration
              || Holder(schema, rows, req, Primary(schema).value).None?
  {
    CreateKeepsRows(schema, rows, req, mode);
    if Primary(schema).Some? {
      var k := Primary(schema).value;
      var holder := Holder(schema, rows, req, k);
      var rows' := Create(schema, rows, req, mode).0;
      match Aim(schema, rows, req, mode)
      case NoTarget(e) =>
      case Existing(n) => PopulateSize(schema, req, false, true, rows[n], 0);
      case New(blank, skip) =>
        if skip {
          PopulateSize(schema, req, true, true, blank, 0);
        } else {
          PopulateSucceedsIff(schema, req, true, false, blank, 0);
          var (row, e) := Populate(schema, req, true, false, blank, 0);
          assert rows' == rows + [row] && e.None?;
          assert row[k] == CellAfter(schema, req, true, false, k, blank[k]);
          assert rows'[holder.value] == rows[holder.value] && rows'[|rows|] == row;
          assert row[k] == rows[holder.value][k];
        }
    }
  }

  /** A witness: the same key twice. */
  lemma {:induction false} MigrationsMayRepeatKeys(key: int)
    ensures var schema := [Property("id", IntType, false, true)];
            var req := Request([Some(IntValue(key))], [None], false);
            var mode := Mode(false, false, None, true);
            Create(schema, [[IntValue(key)]], req, mode) == ([[IntValue(key)], [IntValue(key)]], Done(1))
  {
    var schema := [Property("id", IntType, false, true)];
    var req := Request([Some(IntValue(key))], [None], false);
    var mode := Mode(false, false, None, true);
    var rows := [[IntValue(key)]];
    assert Primary(schema) == Some(0);
    assert FindFrom(rows, 0, IntValue(key), 0) == Some(0);
    var empty := EmptyRow(schema);
    assert Aim(schema, rows, req, mode) == New(empty, false);
    PopulateSucceedsIff(schema, req, true, false, empty, 0);
    var (row, e) := Populate(schema, req, true, false, empty, 0);
    assert !Lacks(schema, req, true, false, 0);
    assert row == [IntValue(key)];
    assert Create(schema, rows, req, mode) == (rows + [row], Done(1));
    assert rows + [row] == [[IntValue(key)], [IntValue(key)]];
  }

  /** On a row that is there only properties that are given, and not the key, change; no other
      row does. */
  lemma {:induction false} UpdateChangesOnlySupplied(schema: Schema, rows: seq<Row>, req: Request, mode: Mode)
    requires RowsOk(schema, rows) && RequestOk(schema, req) && ModeOk(schema, rows, mode)
    requires var out := Create(schema, rows, req, mode).1; out.Done? && out.row < |rows|
    ensures var (rows', out) := Create(schema, rows, req, mode);
            && |rows'| == |rows| && (forall i | 0 <= i < |rows| && i != out.row :: rows'[i] == rows[i])
            && |rows'[out.row]| == |schema|
            && forall j | 0 <= j < |schema| :: rows'[out.row][j] ==
                 if req.supplied[j].Some? && !schema[j].primary then req.supplied[j].value else rows[out.row][j]
  {
    var target := Aim(schema, rows, req, mode);
    assert target.Existing?;
    PopulateSucceedsIff(schema, req, false, true, rows[target.row], 0);
    var (row, e) := Populate(schema, req, false, true, rows[target.row], 0);
    assert Create(schema, rows, req, mode) == (rows[target.row := row], Done(target.row)) && e.None?;
  }

  /** A new row holds what is given, else the default, else the empty value; its key is the key
      asked for. */
  lemma {:induction false} CreateFillsRow(schema: Schema, rows: seq<Row>, req: Request, mode: Mode)
    requires RowsOk(schema, rows) && RequestOk(schema, req) && ModeOk(schema, rows, mode) && SchemaOk(schema)
    requires Create(schema, rows, req, mode).1 == Done(|rows|)
    ensures var rows' := Create(schema, rows, req, mode).0;
            && |rows'| == |rows| + 1 && rows'[..|rows|] == rows && |rows'[|rows|]| == |schema|
            && forall j | 0 <= j < |schema| :: rows'[|rows|][j] ==
                 if ValueFor(req, true, j).Some? then ValueFor(req, true, j).value else EmptyValue(schema[j])
  {
    var target := Aim(schema, rows, req, mode);
    assert target.New?;
    PopulateSucceedsIff(schema, req, true, target.skipPrimary, target.blank, 0);
    var (row, e) := Populate(schema, req, true, target.skipPrimary, target.blank, 0);
    assert Create(schema, rows, req, mode) == (rows + [row], Done(|rows|)) && e.None?;
    PrimaryIsFound(schema, 0);
  }

  lemma {:induction false} PrimaryIsFound(schema: Schema, i: nat)
    ensures PrimaryFrom(schema, i).None? ==> forall j | i <= j < |schema| :: !schema[j].primary
    decreases |schema| - i
  {
    if i < |schema| {
      PrimaryIsFound(schema, i + 1);
    }
  }

  /** Asking again for what was asked for changes nothing and finds the same row. */
  lemma {:induction false} AskingAgainChangesNothing(
      schema: Schema, rows: seq<Row>, req: Request, mode: Mode, again: Mode)
    requires RowsOk(schema, rows) && RequestOk(schema, req) && ModeOk(schema, rows, mode) && SchemaOk(schema)
    requires UniqueKeys(schema, rows) && Primary(schema).Some? && !mode.inMigration
    requires Create(schema, rows, req, mode).1.Done? && again.tryUpdate
    requires ModeOk(schema, Create(schema, rows, req, mode).0, again)
    ensures var (rows', out) := Create(schema, rows, req, mode);
            RowsOk(schema, rows') && Create(schema, rows', req, again) == (rows', out)
  {
    var (rows', out) := Create(schema, rows, req, mode);
    CreateKeepsKeysUnique(schema, rows, req, mode);
    var k := Primary(schema).value;
    var v := ValueFor(req, true, k);
    var key := if v.None? then NullValue else v.value;
    var row := rows'[out.row];
    assert row[k] == key by { KeyOfRow(schema, rows, req, mode); }
    assert Aim(schema, rows', req, again) == Existing(out.row);
    Settled(schema, rows, req, mode);
    PopulateSucceedsIff(schema, req, false, true, row, 0);
    var row' := Populate(schema, req, false, true, row, 0).0;
    assert row' == row;
    assert rows'[out.row := row'] == rows';
  }

  lemma {:induction false} KeyOfRow(schema: Schema, rows: seq<Row>, req: Request, mode: Mode)
    requires RowsOk(schema, rows) && RequestOk(schema, req) && ModeOk(schema, rows, mode) && SchemaOk(schema)
    requires Primary(schema).Some? && Create(schema, rows, req, mode).1.Done? && !mode.inMigration
    ensures var (rows', out) := Create(schema, rows, req, mode);
            var v := ValueFor(req, true, Primary(schema).value);
            && RowsOk(schema, rows') && out.row < |rows'|
            && rows'[out.row][Primary(schema).value] == if v.None? then NullValue else v.value
  {
    CreateKeepsRows(schema, rows, req, mode);
    var target := Aim(schema, rows, req, mode);
    if target.Existing? {
      PopulateSize(schema, req, false, true, rows[target.row], 0);
    } else {
      PopulateSize(schema, req, true, true, target.blank, 0);
    }
  }

  /** After a successful call nothing that is given is lacking, and it stands in the row. */
  lemma {:induction false} Settled(schema: Schema, rows: seq<Row>, req: Request, mode: Mode)
    requires RowsOk(schema, rows) && RequestOk(schema, req) && ModeOk(schema, rows, mode) && SchemaOk(schema)
    requires Primary(schema).Some? && Create(schema, rows, req, mode).1.Done? && !mode.inMigration
    ensures var (rows', out) := Create(schema, rows, req, mode);
            && RowsOk(schema, rows') && out.row < |rows'|
            && forall j | 0 <= j < |schema| ::
                 !Lacks(schema, req, false, true, j) &&
                 CellAfter(schema, req, false, true, j, rows'[out.row][j]) == rows'[out.row][j]
  {
    CreateKeepsRows(schema, rows, req, mode);
    var target := Aim(schema, rows, req, mode);
    if target.Existing? {
      PopulateSucceedsIff(schema, req, false, true, rows[target.row], 0);
      var (row, e) := Populate(schema, req, false, true, rows[target.row], 0);
      assert Create(schema, rows, req, mode) == (rows[target.row := row], Done(target.row)) && e.None?;
    } else {
      assert target.New? && target.skipPrimary;
      PopulateSucceedsIff(schema, req, true, true, target.blank, 0);
      var (row, e) := Populate(schema, req, true, true, target.blank, 0);
      assert Create(schema, rows, req, mode) == (rows + [row], Done(|rows|)) && e.None?;
      forall j | 0 <= j < |schema|
        ensures !Lacks(schema, req, false, true, j) && CellAfter(schema, req, false, true, j, row[j]) == row[j]
      {
        assert !Lacks(schema, req, true, true, j);
        assert row[j] == CellAfter(schema, req, true, true, j, target.blank[j]);
      }
      assert (rows + [row])[|rows|] == row;
    }
  }

  /** Writing only differences ends in the same table, with the same outcome, for every table and
      request, if there is a primary key or no current row; otherwise it never does, for the full
      call then makes a row of its own. */
  lemma {:induction false} OnlyDiffEndsTheSameIff(schema: Schema, rows: seq<Row>, req: Request, mode: Mode)
    requires RowsOk(schema, rows) && RequestOk(schema, req) && ModeOk(schema, rows, mode)
    ensures Create(schema, rows, req, mode.(onlyDiff := true)) == Create(schema, rows, req, mode.(onlyDiff := false))
            <==> Primary(schema).Some? || mode.currentRow.None?
  {
    var diff, full := mode.(onlyDiff := true), mode.(onlyDiff := false);
    if Primary(schema).None? && mode.currentRow.Some? {
      assert |Create(schema, rows, req, diff).0| == |rows|;
      assert |Create(schema, rows, req, full).0| == |rows| + 1;
    } else {
      assert Aim(schema, rows, req, diff) == Aim(schema, rows, req, full);
    }
  }

  // ----- the table object -----

  class Table {
    const schema: Schema
    var rows: seq<Row>
    var writes: seq<Write>

    constructor (schema: Schema)
      requires SchemaOk(schema)
      ensures this.schema == schema && rows == [] && writes == [] && Valid()
    {
      this.schema, rows, writes := schema, [], [];
    }

    ghost predicate Valid()
      reads this
    {
      SchemaOk(schema) && RowsOk(schema, rows)
    }

    method FindFirst(col: nat, v: Value) returns (found: Option<nat>)
      requires Valid() && col < |schema|
      ensures found == FindFrom(rows, col, v, 0)
    {
      var i := 0;
      while i < |rows|
        invariant 0 <= i <= |rows| && FindFrom(rows, col, v, 0) == FindFrom(rows, col, v, i)
      {
        if rows[i][col] == v {
          return Some(i);
        }
        i := i + 1;
      }
      found := None;
    }

    method AddEmptyRow() returns (n: nat)
      requires Valid()
      modifies this`rows
      ensures Valid() && n == |old(rows)| && rows == old(rows) + [EmptyRow(schema)]
    {
      n := |rows|;
      rows := rows + [EmptyRow(schema)];
    }

    /** Writes the cell; in the difference mode only if the value is another. */
    method SetProperty(n: nat, col: nat, v: Value, onlyDiff: bool)
      requires Valid() && n < |rows| && col < |schema|
      modifies this
      ensures Valid() && rows == old(rows)[n := old(rows)[n][col := v]]
      ensures writes == old(writes) +
                        if onlyDiff && old(rows)[n][col] == v then [] else [Write(n, col, old(rows)[n][col], v)]
    {
      assert rows[n][col] == v ==> rows[n][col := v] == rows[n];
      assert rows[n := rows[n]] == rows;
      if schema[col].nullable && v.NullValue? {
        if !onlyDiff || !rows[n][col].NullValue? {
          writes := writes + [Write(n, col, rows[n][col], v)];
          rows := rows[n := rows[n][col := v]];
        }
        return;
      }
      if !onlyDiff || rows[n][col] != v {
        writes := writes + [Write(n, col, rows[n][col], v)];
        rows := rows[n := rows[n][col := v]];
      }
    }

    method FillRow(n: nat, req: Request, created: bool, skipPrimary: bool, onlyDiff: bool) returns (e: Option<Error>)
      requires Valid() && n < |rows| && RequestOk(schema, req)
      modifies this
      ensures Valid() && |rows| == |old(rows)|
      ensures (rows[n], e) == Populate(schema, req, created, skipPrimary, old(rows)[n], 0)
      ensures forall i | 0 <= i < |rows| && i != n :: rows[i] == old(rows)[i]
      ensures writes == old(writes) + PopulateWrites(schema, req, created, skipPrimary, onlyDiff, n, old(rows)[n], 0)
    {
      hide Lacks, EmptyValue;
      ghost var row := rows[n];
      var i := 0;
      while i < |schema|
        invariant 0 <= i <= |schema| && Valid() && |rows| == |old(rows)|
        invariant Populate(schema, req, created, skipPrimary, rows[n], i)
               == Populate(schema, req, created, skipPrimary, row, 0)
        invariant forall j | 0 <= j < |rows| && j != n :: rows[j] == old(rows)[j]
        invariant forall j | i <= j < |schema| :: rows[n][j] == row[j]
        invariant writes + PopulateWrites(schema, req, created, skipPrimary, onlyDiff, n, row, i)
               == old(writes) + PopulateWrites(schema, req, created, skipPrimary, onlyDiff, n, row, 0)
      {
        assert CellAfter(schema, req, created, skipPrimary, i, rows[n][i]) == rows[n][i] ==>
          rows[n][i := rows[n][i]] == rows[n];
        IsLacking(schema, req, created, skipPrimary, i);
        ghost var more := PopulateWrites(schema, req, created, skipPrimary, onlyDiff, n, row, i + 1);
        Regroup(writes, [], more);
        if !(skipPrimary && schema[i].primary) {
          var v := req.supplied[i];
          if created || v.Some? {
            if v.None? {
              v := req.defaults[i];
            }
            if (v.None? || v.value.NullValue?) && !schema[i].nullable {
              if schema[i].primary || !req.allowMissing {
                assert writes + [] == writes;
                return Some(MissingPropertyValue(i));
              }
            }
            if v.Some? {
              Regroup(writes, [Write(n, i, row[i], v.value)], more);
              SetProperty(n, i, v.value, onlyDiff);
            }
          }
        }
        i := i + 1;
      }
      e := None;
      assert writes + [] == writes;
    }

    method CreateObject(req: Request, mode: Mode) returns (out: Outcome)
      requires Valid() && RequestOk(schema, req) && ModeOk(schema, rows, mode)
      modifies this
      ensures Valid() && (rows, out) == Create(schema, old(rows), req, mode)
      ensures writes == old(writes) + CreateWrites(schema, old(rows), req, mode)
    {
      hide Populate, PopulateWrites, EmptyValue, EmptyRow, Lacks;
      assert writes + [] == writes;
      var created, skipPrimary := false, true;
      var n;
      var primary := Primary(schema);
      if primary.Some? {
        var k := primary.value;
        var given := req.supplied[k];
        if given.None? {
          given := req.defaults[k];
        }
        if given.None? {
          if !schema[k].nullable {
            return Failed(MissingPropertyValue(k));
          }
          given := Some(NullValue);
        }
        if given.value.NullValue? && !schema[k].nullable {
          return Failed(InvalidNullKey);
        }
        var found := FindFirst(k, given.value);
        if found.None? {
          created := true;
          n := AddEmptyRow();
          rows := rows[n := rows[n][k := given.value]];
        } else {
          n := found.value;
          if !mode.tryUpdate {
            if mode.inMigration {
              n := AddEmptyRow();
              created, skipPrimary := true, false;
            } else {
              return Failed(ExistingKey);
            }
          }
        }
      } else {
        if mode.onlyDiff && mode.currentRow.Some? {
          n := mode.currentRow.value;
        } else {
          n := AddEmptyRow();
          created := true;
        }
      }
      assert created ==> n == |old(rows)| && rows == old(rows) + [rows[n]];
      assert Aim(schema, old(rows), req, mode) == if created then New(rows[n], skipPrimary) else Existing(n);
      hide Aim;
      var e := FillRow(n, req, created, skipPrimary, mode.onlyDiff);
      assert rows == if created then old(rows) + [rows[n]] else old(rows)[n := rows[n]];
      out := if e.Some? then Failed(e.value) else Done(n);
    }
  }

  lemma {:induction false} IsLacking(schema: Schema, req: Request, created: bool, skip: bool, i: nat)
    requires RequestOk(schema, req) && i < |schema|
    ensures Lacks(schema, req, created, skip, i) <==>
            var v := ValueFor(req, created, i);
            && !(skip && schema[i].primary) && (created || v.Some?)
            && (v.None? || v.value.NullValue?) && !schema[i].nullable && (schema[i].primary || !req.allowMissing)
  {
  }

  lemma {:induction false} Regroup<T>(a: seq<T>, b: seq<T>, c: seq<T>)
    ensures a + (b + c) == a + b + c
    ensures a + [] == a
  {
  }
}
