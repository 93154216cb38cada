/** Record histories under the repository's queries, which update live rows only. */
module Lifecycle {
  import opened AuditLog
  import opened JsonDiff
  import opened Wrappers

  ghost predicate HasDelete(log: seq<Entry>, k: Key) {
    exists i :: 0 <= i < |log| && log[i].key == k && log[i].action == DELETE
  }

  /** INSERT comes first and once, DELETE at most once and last, and it is what marks a row deleted. */
  ghost predicate Orderly(db: Db) {
    && (forall i, j :: 0 <= i < j < |db.log| && db.log[i].key == db.log[j].key ==>
          db.log[i].action != DELETE && db.log[j].action != INSERT)
    && (forall i :: 0 <= i < |db.log| ==> (db.log[i].action == INSERT <==> db.log[i].old_data.None?))
    && (forall k :: k in db.rows ==> (LiveRow(db.rows[k]) <==> !HasDelete(db.log, k)))
  }

  lemma HasDeleteAppend(log: seq<Entry>, e: Entry, k: Key)
    ensures HasDelete(log + [e], k) <==> HasDelete(log, k) || (e.key == k && e.action == DELETE)
  {
    var both := log + [e];
    assert both[|log|] == e;
    if HasDelete(log, k) {
      var i :| 0 <= i < |log| && log[i].key == k && log[i].action == DELETE;
      assert both[i] == log[i];
    }
  }

  lemma LiveUpdateOrderly(db: Db, table: string, id: string, row: Row, actor: Option<string>)
    requires Sound(db) && Orderly(db)
    requires Id(row) == id && UpdateRow(db, table, id, row, actor).Some?
    requires LiveRow(db.rows[Key(table, id)])
    ensures Orderly(UpdateRow(db, table, id, row, actor).value)
  {
    var n := UpdateRow(db, table, id, row, actor).value;
    forall x | x in n.rows
      ensures LiveRow(n.rows[x]) <==> !HasDelete(n.log, x)
    {
      HasDeleteAppend(db.log, n.log[|db.log|], x);
    }
  }

  lemma DeadUpdateDisorderly(db: Db, table: string, id: string, row: Row, actor: Option<string>)
    requires Orderly(db)
    requires Id(row) == id && UpdateRow(db, table, id, row, actor).Some?
    requires !LiveRow(db.rows[Key(table, id)])
    ensures !Orderly(UpdateRow(db, table, id, row, actor).value)
  {
    var k := Key(table, id);
    var n := UpdateRow(db, table, id, row, actor).value;
    var i :| 0 <= i < |db.log| && db.log[i].key == k && db.log[i].action == DELETE;
    assert n.log[i] == db.log[i] && n.log[|db.log|].key == k;
  }

  /** An update that keeps the id keeps histories orderly exactly when it meets a live row. */
  lemma UpdateRowOrderly(db: Db, table: string, id: string, row: Row, actor: Option<string>)
    requires Sound(db) && Orderly(db)
    requires Id(row) == id && UpdateRow(db, table, id, row, actor).Some?
    ensures Orderly(UpdateRow(db, table, id, row, actor).value) <==> LiveRow(db.rows[Key(table, id)])
  {
    if LiveRow(db.rows[Key(table, id)]) {
      LiveUpdateOrderly(db, table, id, row, actor);
    } else {
      DeadUpdateDisorderly(db, table, id, row, actor);
    }
  }

  lemma InsertRowOrderly(db: Db, table: string, row: Row, actor: Option<string>)
    requires Sound(db) && Orderly(db) && LiveRow(row)
    requires InsertRow(db, table, row, actor).Some?
    ensures Orderly(InsertRow(db, table, row, actor).value)
  {
    var k := Key(table, Id(row));
    var n := InsertRow(db, table, row, actor).value;
    ReplayIsLastEntry(db.log, k);
    forall x | x in n.rows
      ensures LiveRow(n.rows[x]) <==> !HasDelete(n.log, x)
    {
      HasDeleteAppend(db.log, n.log[|db.log|], x);
    }
  }

  /** The shapes of the write queries on users, groups and contacts. */
  datatype Query =
    | Create(table: string, row: Row)
    | SetLive(table: string, ids: seq<string>, assign: Image)
    | SoftDelete(table: string, id: string, at: string, actor: Json)

  /** Created rows are live, and no SET list but the soft delete's names id or deleted_at. */
  predicate WellFormed(q: Query) {
    match q
    case Create(_, row) => LiveRow(row)
    case SetLive(_, _, assign) => "id" !in assign && "deleted_at" !in assign
    case SoftDelete(_, _, _, _) => true
  }

  function Assigned(row: Row, assign: Image): Row
    requires "id" !in assign
  {
    row + assign
  }

  /** The rows meeting the WHERE clause, with deleted_at IS NULL among its conditions. */
  function Matched(rows: map<Key, Row>, table: string, ids: seq<string>, assign: Image): seq<(string, Row)>
    requires "id" !in assign
  {
    if ids == [] then []
    else
      var k := Key(table, ids[0]);
      var rest := Matched(rows, table, ids[1..], assign);
      if k in rows && LiveRow(rows[k]) then [(ids[0], Assigned(rows[k], assign))] + rest else rest
  }

  /** deleted_at and, by the BEFORE trigger, updated_at are the transaction's time. */
  function Deletion(at: string, who: Json): Image {
    map["deleted_at" := Text(at), "updated_at" := Text(at), "updated_by" := who]
  }

  function Compile(db: Db, q: Query): Statement
    requires WellFormed(q)
  {
    match q
    case Create(table, row) => Insert(table, row)
    case SetLive(table, ids, assign) => Update(table, Matched(db.rows, table, ids, assign))
    case SoftDelete(table, id, at, who) =>
      Update(table, Matched(db.rows, table, [id], Deletion(at, who)))
  }

  /** Rows are filed under their own id. */
  ghost predicate Keyed(db: Db) {
    forall k <- db.rows :: Id(db.rows[k]) == k.id
  }

  ghost predicate MeetsLive(db: Db, table: string, c: (string, Row)) {
    Id(c.1) == c.0 && Key(table, c.0) in db.rows && LiveRow(db.rows[Key(table, c.0)])
  }

  lemma {:induction false} MatchedMeetsLive(db: Db, table: string, ids: seq<string>, assign: Image)
    requires Keyed(db) && "id" !in assign
    ensures forall c <- Matched(db.rows, table, ids, assign) ::
      MeetsLive(db, table, c) && ("deleted_at" !in assign ==> LiveRow(c.1))
  {
    if ids != [] {
      MatchedMeetsLive(db, table, ids[1..], assign);
    }
  }

  ghost predicate Good(db: Db) {
    Sound(db) && Orderly(db) && Keyed(db)
  }

  /** One live row updated, or several that stay live. */
  lemma {:induction false} UpdateRowsGood(db: Db, table: string, changes: seq<(string, Row)>, actor: Option<string>)
    requires Good(db)
    requires forall c <- changes :: MeetsLive(db, table, c)
    requires |changes| > 1 ==> forall c <- changes :: LiveRow(c.1)
    ensures UpdateRows(db, table, changes, actor).Some? && Good(UpdateRows(db, table, changes, actor).value)
    decreases changes
  {
    if changes != [] {
      var id, row := changes[0].0, changes[0].1;
      assert MeetsLive(db, table, changes[0]);
      UpdateRowInSync(db, table, id, row, actor);
      UpdateRowOrderly(db, table, id, row, actor);
      var next := UpdateRow(db, table, id, row, actor).value;
      forall c | c in changes[1..]
        ensures MeetsLive(next, table, c)
      {
        assert c in changes;
      }
      UpdateRowsGood(next, table, changes[1..], actor);
    }
  }

  lemma QueryGood(db: Db, q: Query, actor: Option<string>)
    requires Good(db) && WellFormed(q)
    ensures Good(Step(db, Compile(db, q), actor))
  {
    match q
    case Create(table, row) =>
      StepSound(db, Insert(table, row), actor);
      if InsertRow(db, table, row, actor).Some? {
        InsertRowOrderly(db, table, row, actor);
      }
    case SetLive(table, ids, assign) =>
      MatchedMeetsLive(db, table, ids, assign);
      UpdateRowsGood(db, table, Matched(db.rows, table, ids, assign), actor);
    case SoftDelete(table, id, at, who) =>
      var assign := Deletion(at, who);
      MatchedMeetsLive(db, table, [id], assign);
      assert |Matched(db.rows, table, [id], assign)| <= 1;
      UpdateRowsGood(db, table, Matched(db.rows, table, [id], assign), actor);
  }

  /** Row k is deleted, with one more entry that says so; other rows and other columns stay. */
  ghost predicate DeletedOne(db: Db, n: Db, k: Key, columns: Image)
    requires k in db.rows
  {
    && n.rows.Keys == db.rows.Keys && !LiveRow(n.rows[k])
    && (forall c <- db.rows[k] :: c in n.rows[k] && (c !in columns ==> n.rows[k][c] == db.rows[k][c]))
    && (forall x <- db.rows :: x != k ==> n.rows[x] == db.rows[x])
    && |n.log| == |db.log| + 1 && n.log[..|db.log|] == db.log
    && n.log[|db.log|].key == k && n.log[|db.log|].action == DELETE
  }

  /** The row with the three columns set one by one. */
  function Deleted(row: Image, at: string, who: Json): Image {
    row["deleted_at" := Text(at)]["updated_at" := Text(at)]["updated_by" := who]
  }

  lemma DeletionOfRow(row: Row, at: string, who: Json)
    requires LiveRow(row)
    ensures
      var gone := Assigned(row, Deletion(at, who));
      && Id(gone) == Id(row) && !LiveRow(gone) && gone == Deleted(row, at, who)
      && forall c <- row :: c in gone && (c !in Deletion(at, who) ==> gone[c] == row[c])
  {
    assert Assigned(row, Deletion(at, who))["deleted_at"] == Text(at);
  }

  lemma DeleteLogged(db: Db, k: Key, row: Row, actor: Option<string>)
    requires k in db.rows && LiveRow(db.rows[k]) && Id(row) == k.id && !LiveRow(row)
    ensures
      var n := UpdateRow(db, k.table, k.id, row, actor);
      && n.Some? && n.value.rows == db.rows[k := row]
      && |n.value.log| == |db.log| + 1 && n.value.log[..|db.log|] == db.log
      && n.value.log[|db.log|].key == k && n.value.log[|db.log|].action == DELETE
  {
    assert (db.rows - {k})[k := row] == db.rows[k := row];
  }

  lemma DeletionDeletes(db: Db, k: Key, at: string, who: Json, actor: Option<string>)
    requires Good(db) && k in db.rows && LiveRow(db.rows[k])
    ensures
      var n := UpdateRow(db, k.table, k.id, Assigned(db.rows[k], Deletion(at, who)), actor);
      && n.Some? && DeletedOne(db, n.value, k, Deletion(at, who))
      && n.value.rows[k] == Deleted(db.rows[k], at, who)
  {
    var row := Assigned(db.rows[k], Deletion(at, who));
    DeletionOfRow(db.rows[k], at, who);
    DeleteLogged(db, k, row, actor);
  }

  /** A soft delete of a live row marks it deleted, logged as one DELETE; of any other row it does nothing. */
  lemma SoftDeleteExact(db: Db, table: string, id: string, at: string, who: Json, actor: Option<string>)
    requires Good(db)
    ensures
      var k := Key(table, id);
      var n := Step(db, Compile(db, SoftDelete(table, id, at, who)), actor);
      if k in db.rows && LiveRow(db.rows[k]) then
        && DeletedOne(db, n, k, Deletion(at, who))
        && n.rows[k] == Deleted(db.rows[k], at, who)
      else n == db
  {
    var k := Key(table, id);
    if k in db.rows && LiveRow(db.rows[k]) {
      DeletionDeletes(db, k, at, who, actor);
      var row := Assigned(db.rows[k], Deletion(at, who));
      assert Matched(db.rows, table, [id], Deletion(at, who)) == [(id, row)];
      var n := UpdateRow(db, table, id, row, actor).value;
      assert UpdateRows(n, table, [], actor) == Some(n);
    } else {
      assert Matched(db.rows, table, [id], Deletion(at, who)) == [];
    }
  }

  ghost predicate NoDeletes(log: seq<Entry>, from: nat) {
    forall i :: from <= i < |log| ==> log[i].action != DELETE && log[i].action != INSERT
  }

  /** On the way from the rows of db to those with the columns set on some live ones. */
  ghost predicate Between(db: Db, now: Db, assign: Image)
    requires "id" !in assign
  {
    && now.rows.Keys == db.rows.Keys && |db.log| <= |now.log| && NoDeletes(now.log, |db.log|)
    && forall x <- db.rows :: now.rows[x] == db.rows[x] ||
         (LiveRow(db.rows[x]) && now.rows[x] == Assigned(db.rows[x], assign))
  }

  lemma WriteOne(db: Db, now: Db, k: Key, assign: Image, actor: Option<string>)
    requires Keyed(db) && "id" !in assign && "deleted_at" !in assign && Between(db, now, assign)
    requires k in db.rows && LiveRow(db.rows[k])
    ensures
      var row := Assigned(db.rows[k], assign);
      var next := UpdateRow(now, k.table, k.id, row, actor);
      next.Some? && next.value.rows == now.rows[k := row] && Between(db, next.value, assign)
  {
    var row := Assigned(db.rows[k], assign);
    assert Id(row) == k.id && LiveRow(row) && LiveRow(now.rows[k]);
    var next := UpdateRow(now, k.table, k.id, row, actor).value;
    assert next.rows == now.rows[k := row];
  }

  /** A live row of the table with one of the ids. */
  predicate Hits(db: Db, x: Key, table: string, ids: seq<string>)
    requires x in db.rows
  {
    x.table == table && x.id in ids && LiveRow(db.rows[x])
  }

  /** The matched rows, written one after the other, with the images computed before the first write. */
  lemma {:induction false} UpdateRowsExact(
    db: Db, now: Db, table: string, ids: seq<string>, assign: Image, actor: Option<string>, x: Key)
    requires Keyed(db) && "id" !in assign && "deleted_at" !in assign && Between(db, now, assign)
    ensures
      var n := UpdateRows(now, table, Matched(db.rows, table, ids, assign), actor);
      && n.Some? && Between(db, n.value, assign)
      && (x in db.rows ==>
            n.value.rows[x] ==
            if Hits(db, x, table, ids) then Assigned(db.rows[x], assign) else now.rows[x])
    decreases ids
  {
    if ids != [] {
      var k := Key(table, ids[0]);
      assert x.id in ids <==> x.id == ids[0] || x.id in ids[1..];
      if k in db.rows && LiveRow(db.rows[k]) {
        WriteOne(db, now, k, assign, actor);
        var row := Assigned(db.rows[k], assign);
        var next := UpdateRow(now, table, ids[0], row, actor).value;
        assert Matched(db.rows, table, ids, assign)[1..] == Matched(db.rows, table, ids[1..], assign);
        UpdateRowsExact(db, next, table, ids[1..], assign, actor, x);
      } else {
        UpdateRowsExact(db, now, table, ids[1..], assign, actor, x);
      }
    }
  }

  /** Any other update sets its columns on exactly the live rows asked for, and logs no INSERT or DELETE. */
  lemma SetLiveExact(db: Db, table: string, ids: seq<string>, assign: Image, actor: Option<string>)
    requires Good(db) && WellFormed(SetLive(table, ids, assign))
    ensures
      var n := Step(db, Compile(db, SetLive(table, ids, assign)), actor);
      && n.rows.Keys == db.rows.Keys && NoDeletes(n.log, |db.log|)
      && (forall x <- db.rows ::
            && LiveRow(n.rows[x]) == LiveRow(db.rows[x])
            && n.rows[x] == if Hits(db, x, table, ids) then db.rows[x] + assign else db.rows[x])
  {
    var n := Step(db, Compile(db, SetLive(table, ids, assign)), actor);
    UpdateRowsExact(db, db, table, ids, assign, actor, Key(table, ""));
    forall x | x in db.rows
      ensures n.rows[x] == if Hits(db, x, table, ids) then Assigned(db.rows[x], assign) else db.rows[x]
    {
      UpdateRowsExact(db, db, table, ids, assign, actor, x);
    }
  }

  function RunQueries(db: Db, qs: seq<(Query, Option<string>)>): Db
    requires forall q <- qs :: WellFormed(q.0)
    decreases qs
  {
    if qs == [] then db
    else
      assert qs[0] in qs;
      RunQueries(Step(db, Compile(db, qs[0].0), qs[0].1), qs[1..])
  }

  /** Over every run of the queries, the log stays a full account and every history is orderly. */
  lemma {:induction false} HistoriesAreOrderly(db: Db, qs: seq<(Query, Option<string>)>)
    requires Good(db) && forall q <- qs :: WellFormed(q.0)
    ensures Good(RunQueries(db, qs))
    decreases qs
  {
    if qs != [] {
      assert qs[0] in qs;
      QueryGood(db, qs[0].0, qs[0].1);
      HistoriesAreOrderly(Step(db, Compile(db, qs[0].0), qs[0].1), qs[1..]);
    }
  }

  /** A history starts with INSERT; only its last entry may be a DELETE, and then the row is deleted. */
  lemma HistoryShape(db: Db, i: nat)
    requires Good(db) && i < |db.log|
    ensures db.log[i].key in db.rows
    ensures LastOf(db.log[..i], db.log[i].key) == -1 <==> db.log[i].action == INSERT
    ensures db.log[i].action == DELETE ==>
      !LiveRow(db.rows[db.log[i].key]) && forall j :: i < j < |db.log| ==> db.log[j].key != db.log[i].key
  {
    ReplayIsLastEntry(db.log, db.log[i].key);
    OldIsPreviousNew(db.log, i);
    ReplayIsLastEntry(db.log[..i], db.log[i].key);
  }
}
