/** What a create call comes to, for every table, request and mode: when it fails, which row it is
    about, what that row holds afterwards, and which cells are written. */
module RealmCreate {
  import opened Wrappers
  import opened RealmObjects

  /** The value asked for: the one given, else the default, else null. */
  function Asked(req: Request, j: nat): Value
    requires j < |req.supplied| && j < |req.defaults|
  {
    if req.supplied[j].Some? then req.supplied[j].value
    else if req.defaults[j].Some? then req.defaults[j].value
    else NullValue
  }

  predicate Given(req: Request, j: nat)
    requires j < |req.supplied| && j < |req.defaults|
  {
    req.supplied[j].Some? || req.defaults[j].Some?
  }

  ghost predicate PrimaryAt(schema: Schema, k: nat) {
    k < |schema| && schema[k].primary && forall j | 0 <= j < |schema| && schema[j].primary :: j == k
  }

  ghost predicate Keyless(schema: Schema) {
    forall j | 0 <= j < |schema| :: !schema[j].primary
  }

  ghost predicate Held(rows: seq<Row>, k: nat, v: Value)
    requires forall j | 0 <= j < |rows| :: k < |rows[j]|
  {
    exists n :: 0 <= n < |rows| && rows[n][k] == v
  }

  lemma {:induction false} ThePrimary(schema: Schema, k: nat)
    requires PrimaryAt(schema, k)
    ensures Primary(schema) == Some(k) && SchemaOk(schema)
  {
    PrimaryIsFound(schema, 0);
  }

  // ----- when the key is refused -----

  /** A call fails because the key exists if and only if some row holds the key that is asked for,
      and the call neither updates nor runs in a migration. It changes nothing then. */
  lemma {:induction false} ExistingKeyIff(schema: Schema, rows: seq<Row>, req: Request, mode: Mode, k: nat)
    requires RowsOk(schema, rows) && RequestOk(schema, req) && ModeOk(schema, rows, mode) && PrimaryAt(schema, k)
    ensures Create(schema, rows, req, mode).1 == Failed(ExistingKey) <==>
              && (Asked(req, k) != NullValue || schema[k].nullable)
              && !mode.tryUpdate && !mode.inMigration && Held(rows, k, Asked(req, k))
    ensures Create(schema, rows, req, mode).1 == Failed(ExistingKey) ==>
              Create(schema, rows, req, mode).0 == rows && CreateWrites(schema, rows, req, mode) == []
  {
    ThePrimary(schema, k);
    OwnErrors(schema, rows, req, mode);
  }

  /** It fails for a null key if and only if null is given or the default, where it may not be. */
  lemma {:induction false} InvalidNullKeyIff(schema: Schema, rows: seq<Row>, req: Request, mode: Mode, k: nat)
    requires RowsOk(schema, rows) && RequestOk(schema, req) && ModeOk(schema, rows, mode) && PrimaryAt(schema, k)
    ensures Create(schema, rows, req, mode).1 == Failed(InvalidNullKey) <==>
              Given(req, k) && Asked(req, k) == NullValue && !schema[k].nullable
    ensures Create(schema, rows, req, mode).1 == Failed(InvalidNullKey) ==>
              Create(schema, rows, req, mode).0 == rows && CreateWrites(schema, rows, req, mode) == []
  {
    ThePrimary(schema, k);
    OwnErrors(schema, rows, req, mode);
  }

  /** It fails for a missing key if and only if none is given, there is no default, and null may
      not be one. */
  lemma {:induction false} MissingKeyIff(schema: Schema, rows: seq<Row>, req: Request, mode: Mode, k: nat)
    requires RowsOk(schema, rows) && RequestOk(schema, req) && ModeOk(schema, rows, mode) && PrimaryAt(schema, k)
    ensures Create(schema, rows, req, mode).1 == Failed(MissingPropertyValue(k)) <==>
              !Given(req, k) && !schema[k].nullable
    ensures Create(schema, rows, req, mode).1 == Failed(MissingPropertyValue(k)) ==>
              Create(schema, rows, req, mode).0 == rows && CreateWrites(schema, rows, req, mode) == []
  {
    ThePrimary(schema, k);
    OwnErrors(schema, rows, req, mode);
  }

  lemma {:induction false} PopulateErrors(schema: Schema, req: Request, created: bool, skip: bool, row: Row, i: nat)
    requires RequestOk(schema, req) && |row| == |schema|
    ensures var e := Populate(schema, req, created, skip, row, i).1;
            e.Some? ==> && e.value.MissingPropertyValue? && e.value.index < |schema|
                        && Lacks(schema, req, created, skip, e.value.index)
    decreases |schema| - i
  {
    if i < |schema| && !Lacks(schema, req, created, skip, i) {
      PopulateErrors(schema, req, created, skip, row[i := CellAfter(schema, req, created, skip, i, row[i])], i + 1);
    }
  }

  /** Setting the properties fails for a property that lacks its value, and for no other reason. */
  lemma {:induction false} OwnErrors(schema: Schema, rows: seq<Row>, req: Request, mode: Mode)
    requires RowsOk(schema, rows) && RequestOk(schema, req) && ModeOk(schema, rows, mode)
    ensures var target, out := Aim(schema, rows, req, mode), Create(schema, rows, req, mode).1;
            && (target.Existing? && out.Failed? ==>
                  && out.error.MissingPropertyValue? && out.error.index < |schema|
                  && Lacks(schema, req, false, true, out.error.index))
            && (target.New? && out.Failed? ==>
                  && out.error.MissingPropertyValue? && out.error.index < |schema|
                  && Lacks(schema, req, true, target.skipPrimary, out.error.index))
  {
    hide Lacks, Populate;
    match Aim(schema, rows, req, mode)
    case NoTarget(_) =>
    case Existing(n) => PopulateErrors(schema, req, false, true, rows[n], 0);
    case New(blank, skip) => PopulateErrors(schema, req, true, skip, blank, 0);
  }

  // ----- which row a call is about -----

  ghost predicate KeyUsable(schema: Schema, req: Request, k: nat)
    requires RequestOk(schema, req) && k < |schema|
  {
    Asked(req, k) != NullValue || schema[k].nullable
  }

  /** The row a call updates: the first that holds the key, or without a key, in the difference
      mode, the current row. */
  ghost predicate Updates(schema: Schema, rows: seq<Row>, req: Request, mode: Mode, n: nat)
    requires RowsOk(schema, rows) && RequestOk(schema, req)
  {
    && n < |rows|
    && ((Keyless(schema) && mode.onlyDiff && mode.currentRow == Some(n))
        || (exists k: nat :: PrimaryAt(schema, k) && KeyUsable(schema, req, k) && mode.tryUpdate
                        && rows[n][k] == Asked(req, k) && forall m | 0 <= m < n :: rows[m][k] != Asked(req, k)))
  }

  /** It makes a row if no row holds the key, in a migration also if one does, and without a key
      unless the current row is meant. */
  ghost predicate Makes(schema: Schema, rows: seq<Row>, req: Request, mode: Mode)
    requires RowsOk(schema, rows) && RequestOk(schema, req)
  {
    || (Keyless(schema) && !(mode.onlyDiff && mode.currentRow.Some?))
    || (exists k: nat :: PrimaryAt(schema, k) && KeyUsable(schema, req, k)
                    && (!Held(rows, k, Asked(req, k)) || (mode.inMigration && !mode.tryUpdate)))
  }

  lemma {:induction false} UpdatesAims(schema: Schema, rows: seq<Row>, req: Request, mode: Mode, n: nat)
    requires RowsOk(schema, rows) && RequestOk(schema, req) && Updates(schema, rows, req, mode, n)
    ensures Aim(schema, rows, req, mode) == Existing(n)
  {
    if !Keyless(schema) {
      var k: nat :| PrimaryAt(schema, k) && KeyUsable(schema, req, k) && mode.tryUpdate
               && rows[n][k] == Asked(req, k) && forall m | 0 <= m < n :: rows[m][k] != Asked(req, k);
      ThePrimary(schema, k);
    }
  }

  lemma {:induction false} MakesAims(schema: Schema, rows: seq<Row>, req: Request, mode: Mode)
    requires RowsOk(schema, rows) && RequestOk(schema, req) && Makes(schema, rows, req, mode)
    ensures SchemaOk(schema)
    ensures var target := Aim(schema, rows, req, mode);
            && target.New? && |target.blank| == |schema|
            && (forall j | 0 <= j < |schema| :: target.blank[j] ==
                  if schema[j].primary && !Held(rows, j, Asked(req, j)) then Asked(req, j) else EmptyValue(schema[j]))
            && (target.skipPrimary <==>
                  forall j | 0 <= j < |schema| && schema[j].primary :: !Held(rows, j, Asked(req, j)))
  {
    if !Keyless(schema) {
      var k: nat :| PrimaryAt(schema, k) && KeyUsable(schema, req, k)
               && (!Held(rows, k, Asked(req, k)) || (mode.inMigration && !mode.tryUpdate));
      ThePrimary(schema, k);
    }
  }

  /** Every call does one of these, or its key is refused. */
  lemma {:induction false} EveryCallIsOneOf(schema: Schema, rows: seq<Row>, req: Request, mode: Mode)
    requires RowsOk(schema, rows) && RequestOk(schema, req) && ModeOk(schema, rows, mode) && SchemaOk(schema)
    ensures || (exists n :: Updates(schema, rows, req, mode, n))
            || Makes(schema, rows, req, mode)
            || (exists k: nat :: PrimaryAt(schema, k) &&
                  (!KeyUsable(schema, req, k)
                   || (Held(rows, k, Asked(req, k)) && !mode.tryUpdate && !mode.inMigration)))
  {
    PrimaryIsFound(schema, 0);
    if Primary(schema).None? {
      assert Keyless(schema);
      if mode.onlyDiff && mode.currentRow.Some? {
        assert Updates(schema, rows, req, mode, mode.currentRow.value);
      }
    } else {
      var k := Primary(schema).value;
      assert PrimaryAt(schema, k);
      var found := FindFrom(rows, k, Asked(req, k), 0);
      if found.Some? && KeyUsable(schema, req, k) && mode.tryUpdate {
        assert Updates(schema, rows, req, mode, found.value);
      }
    }
  }

  // ----- what the row holds -----

  /** The first property that stops a call: null, or, in a new row, nothing at all, where a value
      is needed. */
  ghost predicate StopsAt(schema: Schema, req: Request, created: bool, stop: nat)
    requires RequestOk(schema, req)
  {
    && stop <= |schema|
    && (stop < |schema| ==> Stops(schema, req, created, stop))
    && (forall j | 0 <= j < stop :: !Stops(schema, req, created, j))
  }

  predicate Stops(schema: Schema, req: Request, created: bool, j: nat)
    requires RequestOk(schema, req) && j < |schema|
  {
    && !schema[j].primary && !schema[j].nullable && !req.allowMissing
    && (if created then Asked(req, j) == NullValue else req.supplied[j] == Some(NullValue))
  }

  /** There is one for every request. */
  lemma {:induction false} SomeStop(schema: Schema, req: Request, created: bool, from: nat) returns (stop: nat)
    requires RequestOk(schema, req) && from <= |schema|
    requires forall j | 0 <= j < from :: !Stops(schema, req, created, j)
    ensures StopsAt(schema, req, created, stop)
    decreases |schema| - from
  {
    if from == |schema| || Stops(schema, req, created, from) {
      stop := from;
    } else {
      stop := SomeStop(schema, req, created, from + 1);
    }
  }

  /** Setting the properties stops at the first that lacks its value; those before it are set, the
      others are as they were. */
  lemma {:induction false} PopulateUpTo(
      schema: Schema, req: Request, created: bool, skip: bool, row: Row, i: nat, stop: nat)
    requires RequestOk(schema, req) && |row| == |schema| && i <= stop <= |schema|
    requires stop < |schema| ==> Lacks(schema, req, created, skip, stop)
    requires forall j | i <= j < stop :: !Lacks(schema, req, created, skip, j)
    ensures var (row', e) := Populate(schema, req, created, skip, row, i);
            && e == (if stop == |schema| then None else Some(MissingPropertyValue(stop)))
            && |row'| == |schema|
            && forall j | 0 <= j < |schema| :: row'[j] ==
                 if i <= j < stop then CellAfter(schema, req, created, skip, j, row[j]) else row[j]
    decreases stop - i
  {
    hide Lacks, CellAfter;
    if i < stop {
      PopulateUpTo(schema, req, created, skip, row[i := CellAfter(schema, req, created, skip, i, row[i])], i + 1, stop);
    }
  }

  /** The writes of that, in the order of the properties, and no others. */
  lemma {:induction false} WritesUpTo(
      schema: Schema, req: Request, created: bool, skip: bool, onlyDiff: bool, n: nat, row: Row, i: nat, stop: nat)
    requires RequestOk(schema, req) && |row| == |schema| && i <= stop <= |schema|
    requires stop < |schema| ==> Lacks(schema, req, created, skip, stop)
    requires forall j | i <= j < stop :: !Lacks(schema, req, created, skip, j)
    ensures var ws := PopulateWrites(schema, req, created, skip, onlyDiff, n, row, i);
            && (forall a, b | 0 <= a < b < |ws| :: ws[a].col < ws[b].col)
            && (forall w :: w in ws <==>
                  && w.row == n && i <= w.col < stop && !(skip && schema[w.col].primary)
                  && ValueFor(req, created, w.col) == Some(w.after) && w.before == row[w.col]
                  && (onlyDiff ==> w.before != w.after))
    decreases stop - i
  {
    hide Lacks;
    if i < stop {
      WritesUpTo(schema, req, created, skip, onlyDiff, n, row, i + 1, stop);
      var more := PopulateWrites(schema, req, created, skip, onlyDiff, n, row, i + 1);
      assert forall a | 0 <= a < |more| :: more[a] in more && more[a].col > i;
    }
  }

  /** A call about a row that is there: the properties that are given, the key apart, are set up to
      the first that is null where it may not be; nothing else changes. Each of them is written, in
      the difference mode only if it is another value. */
  lemma {:induction false} UpdateLaw(
      schema: Schema, rows: seq<Row>, req: Request, mode: Mode, n: nat, stop: nat)
    requires RowsOk(schema, rows) && RequestOk(schema, req) && ModeOk(schema, rows, mode)
    requires Updates(schema, rows, req, mode, n) && StopsAt(schema, req, false, stop)
    ensures var (rows', out) := Create(schema, rows, req, mode);
            && out == (if stop == |schema| then Done(n) else Failed(MissingPropertyValue(stop)))
            && |rows'| == |rows| && (forall m | 0 <= m < |rows| && m != n :: rows'[m] == rows[m])
            && |rows'[n]| == |schema|
            && forall j | 0 <= j < |schema| :: rows'[n][j] ==
                 if j < stop && !schema[j].primary && req.supplied[j].Some? then req.supplied[j].value else rows[n][j]
    ensures var ws := CreateWrites(schema, rows, req, mode);
            && (forall a, b | 0 <= a < b < |ws| :: ws[a].col < ws[b].col)
            && (forall w :: w in ws <==>
                  && w.row == n && w.col < stop && !schema[w.col].primary && req.supplied[w.col] == Some(w.after)
                  && w.before == rows[n][w.col] && (mode.onlyDiff ==> w.before != w.after))
  {
    UpdatesAims(schema, rows, req, mode, n);
    forall j | 0 <= j < |schema| ensures Lacks(schema, req, false, true, j) == Stops(schema, req, false, j) {}
    hide Aim, Updates, Stops, Lacks, Populate, PopulateWrites;
    PopulateUpTo(schema, req, false, true, rows[n], 0, stop);
    WritesUpTo(schema, req, false, true, mode.onlyDiff, n, rows[n], 0, stop);
  }

  /** A call that makes a row: the row comes after all others and has the key asked for; up to the
      first property without a value that needs one it holds what is given or the default; the other
      cells are empty: null, 0 or the empty text. In a migration, when the key is held already, the
      key is one of these cells. */
  lemma {:induction false} NewRowLaw(schema: Schema, rows: seq<Row>, req: Request, mode: Mode, stop: nat)
    requires RowsOk(schema, rows) && RequestOk(schema, req) && ModeOk(schema, rows, mode)
    requires Makes(schema, rows, req, mode) && StopsAt(schema, req, true, stop)
    ensures var (rows', out) := Create(schema, rows, req, mode);
            && out == (if stop == |schema| then Done(|rows|) else Failed(MissingPropertyValue(stop)))
            && |rows'| == |rows| + 1 && rows'[..|rows|] == rows && |rows'[|rows|]| == |schema|
            && forall j | 0 <= j < |schema| :: rows'[|rows|][j] ==
                 if schema[j].primary && !Held(rows, j, Asked(req, j)) then Asked(req, j)
                 else if j < stop && Given(req, j) then Asked(req, j)
                 else if schema[j].nullable then NullValue
                 else if schema[j].kind == IntType then IntValue(0) else StringValue("")
  {
    MakesAims(schema, rows, req, mode);
    var target := Aim(schema, rows, req, mode);
    NewLacks(schema, rows, req, mode);
    hide Aim, Makes, Stops, Lacks, Populate, PopulateWrites, Held;
    PopulateUpTo(schema, req, true, target.skipPrimary, target.blank, 0, stop);
  }

  lemma {:induction false} NewLacks(schema: Schema, rows: seq<Row>, req: Request, mode: Mode)
    requires RowsOk(schema, rows) && RequestOk(schema, req) && Makes(schema, rows, req, mode)
    requires Aim(schema, rows, req, mode).New?
    ensures forall j | 0 <= j < |schema| ::
              Lacks(schema, req, true, Aim(schema, rows, req, mode).skipPrimary, j) == Stops(schema, req, true, j)
  {
    forall j | 0 <= j < |schema| && schema[j].primary
      ensures KeyUsable(schema, req, j)
    {
      var k: nat :| PrimaryAt(schema, k) && KeyUsable(schema, req, k)
               && (!Held(rows, k, Asked(req, k)) || (mode.inMigration && !mode.tryUpdate));
    }
  }

  /** The writes to a new row: what is given or the default, up to the same property; the key only
      when another row holds it. */
  lemma {:induction false} NewRowWrites(schema: Schema, rows: seq<Row>, req: Request, mode: Mode, stop: nat)
    requires RowsOk(schema, rows) && RequestOk(schema, req) && ModeOk(schema, rows, mode)
    requires Makes(schema, rows, req, mode) && StopsAt(schema, req, true, stop)
    ensures var ws := CreateWrites(schema, rows, req, mode);
            && (forall a, b | 0 <= a < b < |ws| :: ws[a].col < ws[b].col)
            && (forall w :: w in ws <==>
                  && w.row == |rows| && w.col < stop && Given(req, w.col) && w.after == Asked(req, w.col)
                  && (schema[w.col].primary ==> Held(rows, w.col, Asked(req, w.col)))
                  && w.before == EmptyValue(schema[w.col]) && (mode.onlyDiff ==> w.before != w.after))
  {
    MakesAims(schema, rows, req, mode);
    var target := Aim(schema, rows, req, mode);
    NewLacks(schema, rows, req, mode);
    forall j | 0 <= j < |schema| && schema[j].primary && Held(rows, j, Asked(req, j))
      ensures !target.skipPrimary && forall i | 0 <= i < |schema| && schema[i].primary :: i == j {}
    hide Aim, Makes, Stops, Lacks, Populate, PopulateWrites, Held;
    WritesUpTo(schema, req, true, target.skipPrimary, mode.onlyDiff, |rows|, target.blank, 0, stop);
  }
}
