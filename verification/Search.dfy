/** User search: a ranked id list joined with rows fetched in any order, back in ranking order. */
module Search {
  import opened Wrappers

  datatype UserRow = UserRow(id: int, name: string)

  ghost predicate UniqueIds(rows: seq<UserRow>) {
    forall i, j :: 0 <= i < j < |rows| ==> rows[i].id != rows[j].id
  }

  function RowFor(id: int, rows: seq<UserRow>): Option<UserRow> {
    if rows == [] then None
    else if rows[0].id == id then Some(rows[0])
    else RowFor(id, rows[1..])
  }

  /** The nested-loop join: for each id in rank order, its row if there is one. */
  function Ranked(ids: seq<int>, rows: seq<UserRow>): seq<UserRow> {
    if ids == [] then []
    else
      var rest := Ranked(ids[..|ids| - 1], rows);
      var row := RowFor(ids[|ids| - 1], rows);
      if row.Some? then rest + [row.value] else rest
  }

  lemma {:induction false} RowForExact(id: int, rows: seq<UserRow>)
    requires UniqueIds(rows)
    ensures forall row :: RowFor(id, rows) == Some(row) <==> row in rows && row.id == id
  {
    if rows != [] {
      var rest := rows[1..];
      assert UniqueIds(rest) by {
        assert forall i :: 0 <= i < |rest| ==> rest[i] == rows[i + 1];
      }
      RowForExact(id, rest);
      forall row | row in rest
        ensures row.id != rows[0].id
      {
        var k :| 0 <= k < |rest| && rest[k] == row;
        assert rows[k + 1] == row;
      }
      assert forall row :: row in rows <==> row == rows[0] || row in rest;
    }
  }

  predicate HasRow(id: int, rows: seq<UserRow>) {
    exists row :: row in rows && row.id == id
  }

  /** The ranked ids for which there is a row, in ranking order, each as often as it is ranked. */
  function Found(ids: seq<int>, rows: seq<UserRow>): seq<int> {
    if ids == [] then []
    else Found(ids[..|ids| - 1], rows) + if HasRow(ids[|ids| - 1], rows) then [ids[|ids| - 1]] else []
  }

  /** The answer has exactly those ids, in that order, each with its own row. */
  lemma {:induction false} RankedExact(ids: seq<int>, rows: seq<UserRow>)
    requires UniqueIds(rows)
    ensures
      var ranked := Ranked(ids, rows);
      && |ranked| == |Found(ids, rows)|
      && forall k :: 0 <= k < |ranked| ==> ranked[k].id == Found(ids, rows)[k] && ranked[k] in rows
  {
    if ids != [] {
      RankedExact(ids[..|ids| - 1], rows);
      RowForExact(ids[|ids| - 1], rows);
    }
  }

  /** The order in which the rows came back does not matter. */
  lemma {:induction false} RowOrderIgnored(ids: seq<int>, rows: seq<UserRow>, other: seq<UserRow>)
    requires UniqueIds(rows) && UniqueIds(other) && multiset(rows) == multiset(other)
    ensures Ranked(ids, rows) == Ranked(ids, other)
  {
    if ids != [] {
      var id := ids[|ids| - 1];
      RowOrderIgnored(ids[..|ids| - 1], rows, other);
      RowForExact(id, rows);
      RowForExact(id, other);
      assert forall row :: row in rows <==> row in multiset(rows);
      assert forall row :: row in other <==> row in multiset(other);
      assert forall row :: RowFor(id, rows) == Some(row) <==> RowFor(id, other) == Some(row);
    }
  }

  method SearchUsers(results: seq<int>, rows: seq<UserRow>) returns (ordered: seq<UserRow>)
    requires UniqueIds(rows)
    ensures ordered == Ranked(results, rows)
    ensures forall row <- ordered :: row in rows && row.id in results
  {
    var byID: map<int, UserRow> := map[];
    for i := 0 to |rows|
      invariant forall row: UserRow :: row.id in byID && byID[row.id] == row <==> row in rows[..i]
      invariant forall id <- byID :: byID[id].id == id
    {
      forall row | row in rows[..i]
        ensures row.id != rows[i].id
      {
        var k :| 0 <= k < i && rows[..i][k] == row;
        assert rows[k] == row;
      }
      assert forall row :: row in rows[..i + 1] <==> row == rows[i] || row in rows[..i];
      byID := byID[rows[i].id := rows[i]];
    }
    assert rows[..|rows|] == rows;
    ordered := [];
    for i := 0 to |results|
      invariant ordered == Ranked(results[..i], rows)
      invariant forall row <- ordered :: row in rows && row.id in results
    {
      var id := results[i];
      RowForExact(id, rows);
      assert results[..i + 1][..i] == results[..i];
      if id in byID {
        assert byID[id].id in byID;
        assert RowFor(id, rows) == Some(byID[id]);
        ordered := ordered + [byID[id]];
      }
    }
    assert results[..|results|] == results;
  }
}
