/** Audited tables: a row trigger logs every insert and update, and physical deletes are refused. */
module AuditLog {
  import opened JsonDiff
  import opened Wrappers

  /** A row image carries its table's id column as text. */
  predicate HasId(o: Image) { "id" in o && o["id"].Text? }

  type Row = o: Image | HasId(o) witness map["id" := Text("")]

  function Id(r: Row): string { r["id"].s }

  datatype Key = Key(table: string, id: string)

  datatype Action = INSERT | UPDATE | DELETE | STATUS_CHANGE | ANONYMIZE

  datatype Entry = Entry(key: Key, action: Action, old_data: Option<Image>, new_data: Row, actor: Option<string>)

  datatype Db = Db(rows: map<Key, Row>, log: seq<Entry>)

  const EMPTY: Db := Db(map[], [])

  /** One statement; an update lists the matched ids with their new images. */
  datatype Statement =
    | Insert(table: string, row: Row)
    | Update(table: string, changes: seq<(string, Row)>)
    | Delete(table: string, id: string, allowed: bool)

  const STATUS_TABLES: set<string> :=
    {"leases", "deposits", "expense_claims", "applicants", "lending_records",
     "dunning_notices", "warnings", "terminations", "incidents", "work_events"}

  /** The ->> operator reads an absent key and JSON Null alike. */
  function Plain(o: Image, k: string): Option<Json> {
    if k in o && o[k] != Null then Some(o[k]) else None
  }

  predicate LiveRow(o: Image) { Plain(o, "deleted_at") == None }

  function Classify(table: string, before: Image, after: Image): Action {
    if LiveRow(before) && !LiveRow(after) then DELETE
    else if table in STATUS_TABLES && Plain(before, "status") != Plain(after, "status") then STATUS_CHANGE
    else if table == "users" && Plain(before, "anonymized_at") == None && Plain(after, "anonymized_at") != None
    then ANONYMIZE
    else UPDATE
  }

  function InsertRow(db: Db, table: string, row: Row, actor: Option<string>): Option<Db> {
    var k := Key(table, Id(row));
    if k in db.rows then None
    else Some(Db(db.rows[k := row], db.log + [Entry(k, INSERT, None, row, actor)]))
  }

  /** The new image may carry another id; the log files it under that one. */
  function UpdateRow(db: Db, table: string, id: string, row: Row, actor: Option<string>): Option<Db> {
    var from, to := Key(table, id), Key(table, Id(row));
    if from !in db.rows || (to != from && to in db.rows) then None
    else
      var e := Entry(to, Classify(table, db.rows[from], row), Some(db.rows[from]), row, actor);
      Some(Db((db.rows - {from})[to := row], db.log + [e]))
  }

  function UpdateRows(db: Db, table: string, changes: seq<(string, Row)>, actor: Option<string>): Option<Db>
    decreases changes
  {
    if changes == [] then Some(db)
    else
      var next := UpdateRow(db, table, changes[0].0, changes[0].1, actor);
      if next.None? then None else UpdateRows(next.value, table, changes[1..], actor)
  }

  /** None when the statement fails as a whole. */
  function Execute(db: Db, s: Statement, actor: Option<string>): Option<Db> {
    match s
    case Insert(table, row) => InsertRow(db, table, row, actor)
    case Update(table, changes) => UpdateRows(db, table, changes, actor)
    case Delete(table, id, allowed) =>
      var k := Key(table, id);
      if k in db.rows && !allowed then None else Some(db.(rows := db.rows - {k}))
  }

  function Step(db: Db, s: Statement, actor: Option<string>): Db {
    var next := Execute(db, s, actor);
    if next.Some? then next.value else db
  }

  // Replay

  function Replay(log: seq<Entry>): map<Key, Row> {
    if log == [] then map[]
    else
      var e := log[|log| - 1];
      Replay(log[..|log| - 1])[e.key := e.new_data]
  }

  function Find(rows: map<Key, Row>, k: Key): Option<Image> {
    if k in rows then Some(rows[k]) else None
  }

  ghost predicate InSync(db: Db) {
    Replay(db.log) == db.rows
  }

  /** Each entry's old image is what replaying the earlier entries gives for its record. */
  ghost predicate Chained(log: seq<Entry>) {
    log == [] ||
    var e, rest := log[|log| - 1], log[..|log| - 1];
    Chained(rest) && e.old_data == Find(Replay(rest), e.key)
  }

  lemma {:induction false} ChainedAt(log: seq<Entry>, i: nat)
    requires Chained(log) && i < |log|
    ensures log[i].old_data == Find(Replay(log[..i]), log[i].key)
  {
    if i < |log| - 1 {
      assert log[..|log| - 1][..i] == log[..i];
      ChainedAt(log[..|log| - 1], i);
    }
  }

  lemma ReplayAppend(log: seq<Entry>, e: Entry)
    ensures Replay(log + [e]) == Replay(log)[e.key := e.new_data]
  {
    assert (log + [e])[..|log|] == log;
  }

  lemma KeptIdInSync(db: Db, table: string, id: string, row: Row, actor: Option<string>)
    requires InSync(db) && UpdateRow(db, table, id, row, actor).Some? && Id(row) == id
    ensures
      var n := UpdateRow(db, table, id, row, actor).value;
      InSync(n) && (Chained(db.log) ==> Chained(n.log))
  {
    var k := Key(table, id);
    var n := UpdateRow(db, table, id, row, actor).value;
    var e := n.log[|db.log|];
    assert n.log == db.log + [e];
    ReplayAppend(db.log, e);
    assert (db.rows - {k})[k := row] == db.rows[k := row];
    assert n.log[..|db.log|] == db.log;
  }

  lemma MovedIdOutOfSync(db: Db, table: string, id: string, row: Row, actor: Option<string>)
    requires InSync(db) && UpdateRow(db, table, id, row, actor).Some? && Id(row) != id
    ensures !InSync(UpdateRow(db, table, id, row, actor).value)
  {
    var n := UpdateRow(db, table, id, row, actor).value;
    var e := n.log[|db.log|];
    assert n.log == db.log + [e];
    ReplayAppend(db.log, e);
    assert Key(table, id) in Replay(n.log) && Key(table, id) !in n.rows;
  }

  /** An update keeps the log a full account of the rows exactly when it keeps the id. */
  lemma UpdateRowInSync(db: Db, table: string, id: string, row: Row, actor: Option<string>)
    requires InSync(db) && UpdateRow(db, table, id, row, actor).Some?
    ensures
      var n := UpdateRow(db, table, id, row, actor).value;
      && (InSync(n) <==> Id(row) == id)
      && (Id(row) == id && Chained(db.log) ==> Chained(n.log))
  {
    if Id(row) == id {
      KeptIdInSync(db, table, id, row, actor);
    } else {
      MovedIdOutOfSync(db, table, id, row, actor);
    }
  }

  /** So does a delete, exactly when it is refused or finds no row. */
  lemma DeleteInSync(db: Db, table: string, id: string, allowed: bool, actor: Option<string>)
    requires InSync(db)
    ensures InSync(Step(db, Delete(table, id, allowed), actor)) <==> !(allowed && Key(table, id) in db.rows)
  {
    if Key(table, id) !in db.rows {
      assert db.rows - {Key(table, id)} == db.rows;
    }
  }

  predicate KeepsIds(s: Statement) {
    match s
    case Insert(_, _) => true
    case Update(_, changes) => forall c <- changes :: Id(c.1) == c.0
    case Delete(_, _, allowed) => !allowed
  }

  ghost predicate Sound(db: Db) {
    InSync(db) && Chained(db.log)
  }

  lemma {:induction false} UpdateRowsSound(db: Db, table: string, changes: seq<(string, Row)>, actor: Option<string>)
    requires Sound(db) && UpdateRows(db, table, changes, actor).Some?
    requires forall c <- changes :: Id(c.1) == c.0
    ensures Sound(UpdateRows(db, table, changes, actor).value)
    decreases changes
  {
    if changes != [] {
      assert changes[0] in changes;
      UpdateRowInSync(db, table, changes[0].0, changes[0].1, actor);
      var next := UpdateRow(db, table, changes[0].0, changes[0].1, actor).value;
      UpdateRowsSound(next, table, changes[1..], actor);
    }
  }

  lemma StepSound(db: Db, s: Statement, actor: Option<string>)
    requires Sound(db) && KeepsIds(s)
    ensures Sound(Step(db, s, actor))
  {
    match s
    case Insert(table, row) =>
      var k := Key(table, Id(row));
      if k !in db.rows {
        var e := Entry(k, INSERT, None, row, actor);
        ReplayAppend(db.log, e);
        assert (db.log + [e])[..|db.log|] == db.log;
      }
    case Update(table, changes) =>
      if UpdateRows(db, table, changes, actor).Some? {
        UpdateRowsSound(db, table, changes, actor);
      }
    case Delete(table, id, allowed) =>
      DeleteInSync(db, table, id, allowed, actor);
  }

  function Run(db: Db, ss: seq<(Statement, Option<string>)>): Db
    decreases ss
  {
    if ss == [] then db else Run(Step(db, ss[0].0, ss[0].1), ss[1..])
  }

  /** Over every run: replaying the log rebuilds the tables, and every old image is the one before. */
  lemma {:induction false} ReplayRebuilds(db: Db, ss: seq<(Statement, Option<string>)>)
    requires Sound(db)
    requires forall s <- ss :: KeepsIds(s.0)
    ensures Sound(Run(db, ss))
    decreases ss
  {
    if ss != [] {
      assert ss[0] in ss;
      StepSound(db, ss[0].0, ss[0].1);
      ReplayRebuilds(Step(db, ss[0].0, ss[0].1), ss[1..]);
    }
  }

  /** The place of a record's last entry, or -1. */
  function LastOf(log: seq<Entry>, k: Key): (i: int)
    ensures -1 <= i < |log|
    ensures i >= 0 ==> log[i].key == k
    ensures forall j :: i < j < |log| ==> log[j].key != k
  {
    if log == [] then -1
    else if log[|log| - 1].key == k then |log| - 1
    else LastOf(log[..|log| - 1], k)
  }

  /** Replay finds the new image of a record's last entry. */
  lemma {:induction false} ReplayIsLastEntry(log: seq<Entry>, k: Key)
    ensures
      var i := LastOf(log, k);
      && (k in Replay(log) <==> i >= 0)
      && (k in Replay(log) ==> Replay(log)[k] == log[i].new_data)
  {
    if log != [] {
      ReplayIsLastEntry(log[..|log| - 1], k);
    }
  }

  /** So in a chained log, each entry's old image is the new image of the record's previous entry. */
  lemma OldIsPreviousNew(log: seq<Entry>, i: nat)
    requires Chained(log) && i < |log|
    ensures
      var j := LastOf(log[..i], log[i].key);
      log[i].old_data == if j >= 0 then Some(log[j].new_data) else None
  {
    ChainedAt(log, i);
    ReplayIsLastEntry(log[..i], log[i].key);
  }

  // What is logged

  predicate IsFilled(o: Image, c: string) { c in o && o[c] != Null }

  /** The two images show different statuses; none and JSON Null show the same. */
  predicate StatusDiffers(before: Image, after: Image) {
    || IsFilled(before, "status") != IsFilled(after, "status")
    || (IsFilled(before, "status") && before["status"] != after["status"])
  }

  /** The entry's action says what happened between its images. */
  predicate ActionFits(e: Entry) {
    if e.old_data.None? then e.action == INSERT
    else
      var before, after, table := e.old_data.value, e.new_data, e.key.table;
      var deleted := !IsFilled(before, "deleted_at") && IsFilled(after, "deleted_at");
      var moved :=
        && table in {"leases", "deposits", "expense_claims", "applicants", "lending_records",
                     "dunning_notices", "warnings", "terminations", "incidents", "work_events"}
        && StatusDiffers(before, after);
      var anonymized := table == "users" && !IsFilled(before, "anonymized_at") && IsFilled(after, "anonymized_at");
      && (e.action == DELETE <==> deleted)
      && (e.action == STATUS_CHANGE <==> !deleted && moved)
      && (e.action == ANONYMIZE <==> !deleted && anonymized)
      && (e.action == UPDATE <==> !deleted && !moved && !anonymized)
  }

  lemma ClassifyFits(e: Entry)
    requires e.old_data.Some? && e.action == Classify(e.key.table, e.old_data.value, e.new_data)
    ensures ActionFits(e)
  {
    assert {"users"} !! STATUS_TABLES;
  }

  /** The later log extends the earlier one by entries of this table and actor, each with a fitting action. */
  ghost predicate Extends(log: seq<Entry>, later: seq<Entry>, table: string, actor: Option<string>) {
    && |log| <= |later| && later[..|log|] == log
    && forall i :: |log| <= i < |later| ==>
        later[i].key.table == table && later[i].actor == actor && ActionFits(later[i])
  }

  lemma ExtendsTwice(a: seq<Entry>, b: seq<Entry>, c: seq<Entry>, table: string, actor: Option<string>)
    requires Extends(a, b, table, actor) && Extends(b, c, table, actor)
    ensures Extends(a, c, table, actor)
  {
    assert c[..|a|] == c[..|b|][..|a|];
    forall i | |a| <= i < |b|
      ensures c[i] == b[i]
    {
      assert c[..|b|][i] == b[i];
    }
  }

  lemma {:induction false} UpdateRowsExtends(
    db: Db, table: string, changes: seq<(string, Row)>, actor: Option<string>)
    requires UpdateRows(db, table, changes, actor).Some?
    ensures
      var n := UpdateRows(db, table, changes, actor).value;
      Extends(db.log, n.log, table, actor) && |n.log| == |db.log| + |changes|
    decreases changes
  {
    if changes != [] {
      var next := UpdateRow(db, table, changes[0].0, changes[0].1, actor).value;
      ClassifyFits(next.log[|db.log|]);
      UpdateRowsExtends(next, table, changes[1..], actor);
      ExtendsTwice(db.log, next.log, UpdateRows(db, table, changes, actor).value.log, table, actor);
    }
  }

  /** A statement that is accepted logs one entry for each row written, with its table and actor; others log none. */
  lemma StepExtends(db: Db, s: Statement, actor: Option<string>)
    ensures
      var n := Step(db, s, actor);
      && Extends(db.log, n.log, s.table, actor)
      && |n.log| - |db.log|
         == if Execute(db, s, actor).None? || s.Delete? then 0 else if s.Insert? then 1 else |s.changes|
  {
    if s.Update? && Execute(db, s, actor).Some? {
      UpdateRowsExtends(db, s.table, s.changes, actor);
    }
  }

  /**
    Over every run from the empty database, each entry's action is the one its own images and table
    call for, and the entries of the last statement carry its table and actor.
   */
  lemma ActionsExact(ss: seq<(Statement, Option<string>)>, s: Statement, actor: Option<string>)
    ensures
      var db := Run(EMPTY, ss);
      var n := Step(db, s, actor);
      && (forall e <- n.log :: ActionFits(e))
      && |db.log| <= |n.log| && n.log[..|db.log|] == db.log
      && forall i :: |db.log| <= i < |n.log| ==> n.log[i].key.table == s.table && n.log[i].actor == actor
  {
    var db := Run(EMPTY, ss);
    RunFits(EMPTY, ss);
    StepExtends(db, s, actor);
    StepFits(db, s, actor);
  }

  lemma StepFits(db: Db, s: Statement, actor: Option<string>)
    requires forall e <- db.log :: ActionFits(e)
    ensures forall e <- Step(db, s, actor).log :: ActionFits(e)
  {
    var n := Step(db, s, actor);
    StepExtends(db, s, actor);
    forall e | e in n.log
      ensures ActionFits(e)
    {
      var i :| 0 <= i < |n.log| && n.log[i] == e;
      if i < |db.log| {
        assert n.log[..|db.log|][i] == e;
      }
    }
  }

  lemma {:induction false} RunFits(db: Db, ss: seq<(Statement, Option<string>)>)
    requires forall e <- db.log :: ActionFits(e)
    ensures forall e <- Run(db, ss).log :: ActionFits(e)
    decreases ss
  {
    if ss != [] {
      StepFits(db, ss[0].0, ss[0].1);
      RunFits(Step(db, ss[0].0, ss[0].1), ss[1..]);
    }
  }

  /** An insert goes through exactly under a free key; it adds the row as given, with one entry that shows it. */
  lemma InsertExact(db: Db, table: string, row: Row, actor: Option<string>)
    ensures
      var k, n := Key(table, Id(row)), Execute(db, Insert(table, row), actor);
      && (n.Some? <==> k !in db.rows)
      && (n.Some? ==>
            && k in n.value.rows && n.value.rows[k] == row && n.value.rows.Keys == db.rows.Keys + {k}
            && (forall x <- db.rows :: n.value.rows[x] == db.rows[x])
            && |n.value.log| == |db.log| + 1 && n.value.log[..|db.log|] == db.log
            && n.value.log[|db.log|] == Entry(k, INSERT, None, row, actor))
  {
  }

  ghost predicate DistinctIds(changes: seq<(string, Row)>) {
    forall i, j :: 0 <= i < j < |changes| ==> changes[i].0 != changes[j].0
  }

  /** The i-th change became its row's image, with an entry that shows the image before and the new one. */
  predicate WrittenAt(db: Db, n: Db, table: string, changes: seq<(string, Row)>, i: nat)
    requires i < |changes| && |n.log| == |db.log| + |changes|
  {
    var k, e := Key(table, changes[i].0), n.log[|db.log| + i];
    && k in db.rows && k in n.rows && n.rows[k] == changes[i].1
    && e.key == k && e.old_data == Some(db.rows[k]) && e.new_data == changes[i].1
  }

  /** All changes were written and logged in order, and other rows stay. */
  ghost predicate Written(db: Db, n: Db, table: string, changes: seq<(string, Row)>) {
    && n.rows.Keys == db.rows.Keys && |n.log| == |db.log| + |changes|
    && (forall i: nat :: i < |changes| ==> WrittenAt(db, n, table, changes, i))
    && forall x <- db.rows :: (forall c <- changes :: Key(table, c.0) != x) ==> n.rows[x] == db.rows[x]
  }

  lemma WrittenFirst(db: Db, next: Db, n: Db, table: string, changes: seq<(string, Row)>, actor: Option<string>)
    requires changes != [] && DistinctIds(changes) && Id(changes[0].1) == changes[0].0
    requires UpdateRow(db, table, changes[0].0, changes[0].1, actor) == Some(next)
    requires Written(next, n, table, changes[1..]) && n.log[..|next.log|] == next.log
    ensures Written(db, n, table, changes)
  {
    var k := Key(table, changes[0].0);
    assert next.rows == db.rows[k := changes[0].1];
    forall c | c in changes[1..]
      ensures Key(table, c.0) != k
    {
      var j :| 0 <= j < |changes| - 1 && changes[1..][j] == c;
      assert changes[j + 1] == c;
    }
    forall i: nat | i < |changes|
      ensures WrittenAt(db, n, table, changes, i)
    {
      if i == 0 {
        assert n.log[|db.log|] == n.log[..|next.log|][|db.log|];
        assert n.rows[k] == next.rows[k];
      } else {
        assert WrittenAt(next, n, table, changes[1..], i - 1);
        assert changes[1..][i - 1] in changes[1..];
      }
    }
    forall x | x in db.rows && forall c <- changes :: Key(table, c.0) != x
      ensures n.rows[x] == db.rows[x]
    {
      assert changes[0] in changes && forall c :: c in changes[1..] ==> c in changes;
    }
  }

  /**
    An update of distinct rows that keeps ids goes through exactly when all rows are there. Each becomes
    its new image, with one entry showing the old and the new one, in order; other rows stay.
   */
  lemma {:induction false} UpdateExact(db: Db, table: string, changes: seq<(string, Row)>, actor: Option<string>)
    requires DistinctIds(changes) && forall c <- changes :: Id(c.1) == c.0
    ensures
      var n := Execute(db, Update(table, changes), actor);
      && (n.Some? <==> forall c <- changes :: Key(table, c.0) in db.rows)
      && (n.Some? ==> Written(db, n.value, table, changes))
    decreases changes
  {
    if changes != [] {
      var k, rest := Key(table, changes[0].0), changes[1..];
      assert changes[0] in changes && forall c :: c in changes <==> c == changes[0] || c in rest;
      if k in db.rows {
        var next := UpdateRow(db, table, changes[0].0, changes[0].1, actor).value;
        assert next.rows == db.rows[k := changes[0].1];
        assert forall i :: 0 <= i < |rest| ==> rest[i] == changes[i + 1];
        UpdateExact(next, table, rest, actor);
        if UpdateRows(next, table, rest, actor).Some? {
          UpdateRowsExtends(next, table, rest, actor);
          WrittenFirst(db, next, UpdateRows(next, table, rest, actor).value, table, changes, actor);
        }
      }
    }
  }

  // Folding the report

  function History(log: seq<Entry>, k: Key): seq<Entry> {
    if log == [] then []
    else
      var e := log[|log| - 1];
      History(log[..|log| - 1], k) + if e.key == k then [e] else []
  }

  /** The changes shown for one entry. */
  function Report(e: Entry): Changes {
    Diff(e.old_data, Some(e.new_data))
  }

  /** Applies the reported changes in order, from the empty object. */
  function Fold(entries: seq<Entry>): Image {
    if entries == [] then map[]
    else Apply(Fold(entries[..|entries| - 1]), Report(entries[|entries| - 1]))
  }

  /** Every image of a table has that table's columns. */
  ghost predicate Shaped(log: seq<Entry>, columns: map<string, set<string>>) {
    forall e <- log :: e.key.table in columns && e.new_data.Keys == columns[e.key.table]
  }

  lemma ShapedPrefix(log: seq<Entry>, columns: map<string, set<string>>)
    requires log != [] && Chained(log) && Shaped(log, columns)
    ensures Chained(log[..|log| - 1]) && Shaped(log[..|log| - 1], columns)
  {
    var rest := log[..|log| - 1];
    assert forall x :: x in rest ==> x in log;
  }

  /** No update drops a column. */
  lemma SameColumns(log: seq<Entry>, columns: map<string, set<string>>)
    requires log != [] && Chained(log) && Shaped(log, columns)
    ensures var e := log[|log| - 1]; e.old_data.Some? ==> e.old_data.value.Keys <= e.new_data.Keys
  {
    var last := |log| - 1;
    OldIsPreviousNew(log, last);
    var j := LastOf(log[..last], log[last].key);
    assert log[last] in log;
    if j >= 0 {
      assert log[j] in log && log[..last][j] == log[j];
    }
  }

  function OrEmpty(o: Option<Image>): Image {
    if o.Some? then o.value else map[]
  }

  /** One more entry of a record takes the folded object from the old image to the new one. */
  lemma FoldEntry(e: Entry)
    requires OrEmpty(e.old_data).Keys <= e.new_data.Keys
    ensures Apply(OrEmpty(e.old_data), Report(e)) == e.new_data
  {
    var folded := OrEmpty(e.old_data);
    ApplyDiff(folded, e.new_data);
    assert Diff(e.old_data, Some(e.new_data)) == Diff(Some(folded), Some(e.new_data));
  }

  lemma FoldAppend(entries: seq<Entry>, e: Entry)
    ensures Fold(entries + [e]) == Apply(Fold(entries), Report(e))
  {
    assert (entries + [e])[..|entries|] == entries;
  }

  lemma {:induction false} FoldHistory(log: seq<Entry>, k: Key, columns: map<string, set<string>>)
    requires Chained(log) && Shaped(log, columns)
    ensures Fold(History(log, k)) == OrEmpty(Find(Replay(log), k))
  {
    if log != [] {
      var last := |log| - 1;
      var e, rest := log[last], log[..last];
      ShapedPrefix(log, columns);
      FoldHistory(rest, k, columns);
      if e.key == k {
        SameColumns(log, columns);
        assert e.old_data == Find(Replay(rest), k);
        FoldAppend(History(rest, k), e);
        FoldEntry(e);
      } else {
        assert History(log, k) == History(rest, k);
      }
    }
  }

  /** A statement writes whole rows of its table. */
  predicate FitsColumns(s: Statement, columns: map<string, set<string>>) {
    match s
    case Insert(table, row) => table in columns && row.Keys == columns[table]
    case Update(table, changes) => table in columns && forall c <- changes :: c.1.Keys == columns[table]
    case Delete(_, _, _) => true
  }

  lemma {:induction false} UpdateRowsShaped(
    db: Db, table: string, changes: seq<(string, Row)>, actor: Option<string>, columns: map<string, set<string>>)
    requires Shaped(db.log, columns) && FitsColumns(Update(table, changes), columns)
    requires UpdateRows(db, table, changes, actor).Some?
    ensures Shaped(UpdateRows(db, table, changes, actor).value.log, columns)
    decreases changes
  {
    if changes != [] {
      assert changes[0] in changes && forall c :: c in changes[1..] ==> c in changes;
      var next := UpdateRow(db, table, changes[0].0, changes[0].1, actor).value;
      UpdateRowsShaped(next, table, changes[1..], actor, columns);
    }
  }

  /** Every run of whole-row statements keeps the log a full account, with the columns of each table. */
  lemma {:induction false} RunShaped(db: Db, ss: seq<(Statement, Option<string>)>, columns: map<string, set<string>>)
    requires Sound(db) && Shaped(db.log, columns)
    requires forall s <- ss :: KeepsIds(s.0) && FitsColumns(s.0, columns)
    ensures Sound(Run(db, ss)) && Shaped(Run(db, ss).log, columns)
    decreases ss
  {
    if ss != [] {
      assert ss[0] in ss;
      var s, actor := ss[0].0, ss[0].1;
      StepSound(db, s, actor);
      if s.Update? && UpdateRows(db, s.table, s.changes, actor).Some? {
        UpdateRowsShaped(db, s.table, s.changes, actor, columns);
      }
      RunShaped(Step(db, s, actor), ss[1..], columns);
    }
  }

  /** After every run, folding the changes reported for a record gives its current row. */
  lemma FoldRebuilds(ss: seq<(Statement, Option<string>)>, k: Key, columns: map<string, set<string>>)
    requires forall s <- ss :: KeepsIds(s.0) && FitsColumns(s.0, columns)
    ensures
      var db := Run(EMPTY, ss);
      Fold(History(db.log, k)) == OrEmpty(Find(db.rows, k))
  {
    RunShaped(EMPTY, ss, columns);
    FoldHistory(Run(EMPTY, ss).log, k, columns);
  }

  // Composing the report

  /** The reported changes of some entries, composed into one. */
  function Net(entries: seq<Entry>): Changes {
    if entries == [] then map[]
    else Compose(Net(entries[..|entries| - 1]), Report(entries[|entries| - 1]))
  }

  predicate LinkedAt(entries: seq<Entry>, columns: set<string>, i: nat)
    requires i < |entries|
  {
    && entries[i].new_data.Keys == columns
    && entries[i].old_data == if i == 0 then None else Some(entries[i - 1].new_data)
  }

  /** A record's history: each entry takes up where the one before ended, and the columns stay. */
  ghost predicate Linked(entries: seq<Entry>, columns: set<string>) {
    forall i: nat :: i < |entries| ==> LinkedAt(entries, columns, i)
  }

  lemma LinkedLast(entries: seq<Entry>, columns: set<string>, e: Entry)
    ensures Linked(entries + [e], columns) <==> Linked(entries, columns) && LinkedAt(entries + [e], columns, |entries|)
  {
    forall i: nat | i < |entries|
      ensures LinkedAt(entries + [e], columns, i) <==> LinkedAt(entries, columns, i)
    {
    }
  }

  lemma {:induction false} HistoryLinked(log: seq<Entry>, k: Key, columns: map<string, set<string>>)
    requires Chained(log) && Shaped(log, columns) && k.table in columns
    ensures
      var entries := History(log, k);
      && Linked(entries, columns[k.table])
      && Find(Replay(log), k) == if entries == [] then None else Some(entries[|entries| - 1].new_data)
  {
    if log != [] {
      var last := |log| - 1;
      assert log[last] in log;
      ShapedPrefix(log, columns);
      var before := History(log[..last], k);
      HistoryLinked(log[..last], k, columns);
      if log[last].key == k {
        assert History(log, k) == before + [log[last]];
        assert log[last].old_data == Find(Replay(log[..last]), k);
        LinkedLast(before, columns[k.table], log[last]);
        assert LinkedAt(before + [log[last]], columns[k.table], |before|);
      } else {
        assert History(log, k) == before;
      }
    }
  }

  predicate EverFilled(entries: seq<Entry>, c: string) {
    exists e :: e in entries && IsFilled(e.new_data, c)
  }

  /** The column is JSON Null now, and was something else in an earlier image. */
  predicate Emptied(entries: seq<Entry>, c: string) {
    && entries != [] && Get(Some(entries[|entries| - 1].new_data), c) == Some(Null)
    && EverFilled(entries, c)
  }

  lemma EverFilledLast(entries: seq<Entry>, e: Entry, c: string)
    ensures EverFilled(entries + [e], c) <==> EverFilled(entries, c) || IsFilled(e.new_data, c)
  {
    assert forall x :: x in entries + [e] <==> x in entries || x == e;
  }

  /** What the composition shows of one column, from the insert on: the last value, unless it was emptied. */
  lemma {:induction false} NetColumn(entries: seq<Entry>, columns: set<string>, c: string)
    requires entries != [] && Linked(entries, columns)
    ensures c in Net(entries) <==> c in columns && !Emptied(entries, c)
    ensures c in Net(entries) ==>
      c in entries[|entries| - 1].new_data && Net(entries)[c] == Change(Null, entries[|entries| - 1].new_data[c])
  {
    var last := |entries| - 1;
    var rest, e := entries[..last], entries[last];
    assert entries == rest + [e];
    assert LinkedAt(entries, columns, last);
    LinkedLast(rest, columns, e);
    EverFilledLast(rest, e, c);
    assert c in Report(e) <==> Get(e.old_data, c) != Get(Some(e.new_data), c);
    if last == 0 {
      assert !EverFilled(rest, c);
    } else {
      var prev := rest[last - 1];
      assert prev in rest && e.old_data == Some(prev.new_data);
      assert LinkedAt(rest, columns, last - 1);
      assert IsFilled(prev.new_data, c) ==> EverFilled(rest, c);
      NetColumn(rest, columns, c);
    }
  }

  lemma NetFromInsert(entries: seq<Entry>, columns: set<string>)
    requires entries != [] && Linked(entries, columns)
    ensures
      Net(entries) == Diff(None, Some(entries[|entries| - 1].new_data)) <==> !exists c :: Emptied(entries, c)
  {
    var now := entries[|entries| - 1].new_data;
    var net, whole := Net(entries), Diff(None, Some(now));
    assert LinkedAt(entries, columns, |entries| - 1);
    forall c
      ensures c in whole <==> c in columns
      ensures (c in net <==> c in whole) <==> !Emptied(entries, c)
      ensures c in net ==> c in whole && net[c] == whole[c]
    {
      NetColumn(entries, columns, c);
      assert c in whole <==> Get(None, c) != Get(Some(now), c);
    }
    if net == whole {
      assert forall c :: c in net <==> c in whole;
    }
  }

  lemma {:induction false} NoHistory(log: seq<Entry>, k: Key, columns: map<string, set<string>>)
    requires Shaped(log, columns) && k.table !in columns
    ensures History(log, k) == [] && LastOf(log, k) == -1
  {
    if log != [] {
      assert log[|log| - 1] in log;
      assert forall x :: x in log[..|log| - 1] ==> x in log;
      NoHistory(log[..|log| - 1], k, columns);
    }
  }

  lemma NetOfLog(log: seq<Entry>, k: Key, columns: map<string, set<string>>)
    requires Chained(log) && Shaped(log, columns)
    ensures Net(History(log, k)) == Diff(None, Find(Replay(log), k)) <==> !exists c :: Emptied(History(log, k), c)
  {
    var entries := History(log, k);
    if k.table !in columns {
      NoHistory(log, k, columns);
      ReplayIsLastEntry(log, k);
    } else {
      HistoryLinked(log, k, columns);
      if entries != [] {
        NetFromInsert(entries, columns[k.table]);
      }
    }
  }

  /**
    After every run, the composed changes of a record are its overall change, from nothing to the
    current row, exactly when no column that is Null now was filled before.
   */
  lemma NetIsOverall(ss: seq<(Statement, Option<string>)>, k: Key, columns: map<string, set<string>>)
    requires forall s <- ss :: KeepsIds(s.0) && FitsColumns(s.0, columns)
    ensures
      var db := Run(EMPTY, ss);
      Net(History(db.log, k)) == Diff(None, Find(db.rows, k)) <==> !exists c :: Emptied(History(db.log, k), c)
  {
    RunShaped(EMPTY, ss, columns);
    NetOfLog(Run(EMPTY, ss).log, k, columns);
  }

  lemma ComposeColumns(a: Image, b: Image, c: Image)
    requires a.Keys == b.Keys == c.Keys
    ensures Compose(Diff(Some(a), Some(b)), Diff(Some(b), Some(c))) == Diff(Some(a), Some(c))
  {
    ComposeExact(Some(a), Some(b), Some(c));
    assert forall k :: !BlurredByWay(Some(a), Some(b), Some(c), k);
  }

  lemma NetOne(e: Entry)
    ensures Net([e]) == Report(e)
  {
    assert [e][..0] == [];
    assert Compose(map[], Report(e)) == Report(e);
  }

  lemma NetLast(entries: seq<Entry>, e: Entry)
    ensures Net(entries + [e]) == Compose(Net(entries), Report(e))
  {
    assert (entries + [e])[..|entries|] == entries;
  }

  lemma LinkedAround(entries: seq<Entry>, columns: set<string>, i: nat)
    requires Linked(entries, columns) && 0 < i < |entries|
    ensures entries[i].old_data.Some? && entries[i].old_data.value.Keys == columns
    ensures entries[i].new_data.Keys == columns
  {
    assert LinkedAt(entries, columns, i) && LinkedAt(entries, columns, i - 1);
  }

  lemma NetOneMore(entries: seq<Entry>, e: Entry, columns: set<string>, from: Image)
    requires from.Keys == columns == e.new_data.Keys && e.old_data.Some? && e.old_data.value.Keys == columns
    requires Net(entries) == Diff(Some(from), e.old_data)
    ensures Net(entries + [e]) == Diff(Some(from), Some(e.new_data))
  {
    NetLast(entries, e);
    ComposeColumns(from, e.old_data.value, e.new_data);
  }

  /** From any later point of a history on, composing is always right. */
  lemma {:induction false} NetSince(entries: seq<Entry>, columns: set<string>, i: nat)
    requires Linked(entries, columns) && 0 < i < |entries|
    ensures Net(entries[i..]) == Diff(entries[i].old_data, Some(entries[|entries| - 1].new_data))
  {
    var last := |entries| - 1;
    var rest, e := entries[..last], entries[last];
    LinkedAround(entries, columns, i);
    LinkedAround(entries, columns, last);
    assert LinkedAt(entries, columns, last);
    if i == last {
      assert entries[i..] == [e];
      NetOne(e);
    } else {
      assert entries == rest + [e] && entries[i..] == rest[i..] + [e];
      LinkedLast(rest, columns, e);
      NetSince(rest, columns, i);
      NetOneMore(rest[i..], e, columns, entries[i].old_data.value);
    }
  }

  /** A row is inserted with an empty column, which is filled and emptied again. */
  function FillAndEmpty(k: Key, bare: Row, filled: Row): seq<(Statement, Option<string>)> {
    [(Insert(k.table, bare), None), (Update(k.table, [(k.id, filled)]), None), (Update(k.table, [(k.id, bare)]), None)]
  }

  /** That is a run where the two differ. */
  lemma EmptiedDropsOut(k: Key, bare: Row, filled: Row, c: string)
    requires Id(bare) == k.id == Id(filled) && bare.Keys == filled.Keys
    requires c in bare && bare[c] == Null && filled[c] != Null
    ensures
      var db := Run(EMPTY, FillAndEmpty(k, bare, filled));
      Find(db.rows, k) == Some(bare) && Net(History(db.log, k)) != Diff(None, Some(bare))
  {
    var ss := FillAndEmpty(k, bare, filled);
    var log := FillAndEmptyLog(k, bare, filled);
    FillAndEmptyRuns(k, bare, filled);
    OwnHistory(log, k);
    assert log[1] in log && IsFilled(log[1].new_data, c);
    assert Emptied(log, c);
    forall s | s in ss
      ensures KeepsIds(s.0) && FitsColumns(s.0, map[k.table := bare.Keys])
    {
    }
    NetIsOverall(ss, k, map[k.table := bare.Keys]);
  }

  function FillAndEmptyLog(k: Key, bare: Row, filled: Row): seq<Entry> {
    [Entry(k, INSERT, None, bare, None),
     Entry(k, Classify(k.table, bare, filled), Some(bare), filled, None),
     Entry(k, Classify(k.table, filled, bare), Some(filled), bare, None)]
  }

  lemma {:induction false} OwnHistory(log: seq<Entry>, k: Key)
    requires forall e <- log :: e.key == k
    ensures History(log, k) == log
  {
    if log != [] {
      assert log[|log| - 1] in log;
      OwnHistory(log[..|log| - 1], k);
    }
  }

  lemma FillAndEmptyRuns(k: Key, bare: Row, filled: Row)
    requires Id(bare) == k.id == Id(filled)
    ensures Run(EMPTY, FillAndEmpty(k, bare, filled)) == Db(map[k := bare], FillAndEmptyLog(k, bare, filled))
  {
    var ss, log := FillAndEmpty(k, bare, filled), FillAndEmptyLog(k, bare, filled);
    var db1, db2, db3 := Db(map[k := bare], log[..1]), Db(map[k := filled], log[..2]), Db(map[k := bare], log);
    OneUpdate(db1, k, filled);
    OneUpdate(db2, k, bare);
    assert Step(EMPTY, ss[0].0, None) == db1 && Step(db1, ss[1].0, None) == db2 && Step(db2, ss[2].0, None) == db3;
    var later, last := ss[1..], ss[1..][1..];
    assert later[0] == ss[1] && last[0] == ss[2] && last[1..] == [];
    assert Run(db2, last) == Run(db3, last[1..]) == db3;
    assert Run(db1, later) == Run(db2, last);
  }

  lemma OneUpdate(db: Db, k: Key, row: Row)
    requires k in db.rows && Id(row) == k.id && db.rows.Keys == {k}
    ensures
      var e := Entry(k, Classify(k.table, db.rows[k], row), Some(db.rows[k]), row, None);
      Step(db, Update(k.table, [(k.id, row)]), None) == Db(map[k := row], db.log + [e])
  {
    var changes := [(k.id, row)];
    var n := UpdateRow(db, k.table, k.id, row, None).value;
    assert n.rows == map[k := row];
    assert changes[1..] == [];
    assert UpdateRows(n, k.table, [], None) == Some(n);
  }

  class Database {
    var rows: map<Key, Row>
    var log: seq<Entry>

    ghost function Contents(): Db
      reads this
    {
      Db(rows, log)
    }

    constructor ()
      ensures Contents() == EMPTY
    {
      rows, log := map[], [];
    }

    method InsertOne(table: string, row: Row, actor: Option<string>) returns (ok: bool)
      modifies this
      ensures ok <==> Execute(old(Contents()), Insert(table, row), actor).Some?
      ensures Contents() == Step(old(Contents()), Insert(table, row), actor)
      ensures old(Sound(Contents())) ==> Sound(Contents())
    {
      if Sound(Contents()) {
        StepSound(Contents(), Insert(table, row), actor);
      }
      var k := Key(table, Id(row));
      if k in rows {
        return false;
      }
      rows := rows[k := row];
      log := log + [Entry(k, INSERT, None, row, actor)];
      return true;
    }

    /** The trigger's choice of action for an update, deciding in this order. */
    method ChooseAction(table: string, before: Image, after: Image) returns (act: Action)
      ensures act == Classify(table, before, after)
      ensures act == DELETE <==> LiveRow(before) && !LiveRow(after)
    {
      if ("deleted_at" !in before || before["deleted_at"].Null?)
         && "deleted_at" in after && !after["deleted_at"].Null? {
        act := DELETE;
      } else if table in STATUS_TABLES && Plain(before, "status") != Plain(after, "status") {
        act := STATUS_CHANGE;
      } else if table == "users"
                && ("anonymized_at" !in before || before["anonymized_at"].Null?)
                && "anonymized_at" in after && !after["anonymized_at"].Null? {
        act := ANONYMIZE;
      } else {
        act := UPDATE;
      }
    }

    /** Row after row, each followed by its trigger; a failing row undoes the statement. */
    method UpdateMany(table: string, changes: seq<(string, Row)>, actor: Option<string>) returns (ok: bool)
      modifies this
      ensures ok <==> Execute(old(Contents()), Update(table, changes), actor).Some?
      ensures Contents() == Step(old(Contents()), Update(table, changes), actor)
      ensures old(Sound(Contents())) && KeepsIds(Update(table, changes)) ==> Sound(Contents())
    {
      if Sound(Contents()) && KeepsIds(Update(table, changes)) {
        StepSound(Contents(), Update(table, changes), actor);
      }
      var newRows, newLog := rows, log;
      assert changes[0..] == changes;
      for i := 0 to |changes|
        invariant Contents() == old(Contents())
        invariant UpdateRows(Contents(), table, changes, actor)
                  == UpdateRows(Db(newRows, newLog), table, changes[i..], actor)
      {
        var id, row := changes[i].0, changes[i].1;
        var from, to := Key(table, id), Key(table, Id(row));
        if from !in newRows || (to != from && to in newRows) {
          return false;
        }
        var act := ChooseAction(table, newRows[from], row);
        var e := Entry(to, act, Some(newRows[from]), row, actor);
        newRows := (newRows - {from})[to := row];
        newLog := newLog + [e];
      }
      rows, log := newRows, newLog;
      return true;
    }

    method DeleteOne(table: string, id: string, allowed: bool, actor: Option<string>) returns (ok: bool)
      modifies this
      ensures ok <==> Execute(old(Contents()), Delete(table, id, allowed), actor).Some?
      ensures Contents() == Step(old(Contents()), Delete(table, id, allowed), actor)
      ensures old(InSync(Contents())) ==> (InSync(Contents()) <==> !(allowed && Key(table, id) in old(rows)))
    {
      if InSync(Contents()) {
        DeleteInSync(Contents(), table, id, allowed, actor);
      }
      var k := Key(table, id);
      if k in rows && !allowed {
        return false;
      }
      rows := rows - {k};
      return true;
    }
  }
}
