/** Leases and ownerships: the exclusion constraint keeps each unit's live records apart. */
module Occupancy {
  import opened Wrappers

  /** A calendar day, counted from some fixed one. */
  type Date = int

  /** Records are never physically deleted; a record's place in its table stands for its UUID. */
  datatype Record = Record(unit: int, start: Date, end: Option<Date>, deleted: bool)

  predicate WellFormed(r: Record) { r.end.Some? ==> r.start <= r.end.value }

  /** The day is in the range from the start to the end, both included. */
  predicate Covers(r: Record, d: Date) {
    r.start <= d && (r.end.Some? ==> d <= r.end.value)
  }

  /** The range operator &&, on bounds. */
  predicate RangesOverlap(r: Record, s: Record) {
    (s.end.Some? ==> r.start <= s.end.value) && (r.end.Some? ==> s.start <= r.end.value)
  }

  predicate Conflict(r: Record, s: Record) {
    !r.deleted && !s.deleted && r.unit == s.unit && RangesOverlap(r, s)
  }

  predicate Excluded(rows: seq<Record>, id: int, r: Record) {
    exists i :: 0 <= i < |rows| && i != id && Conflict(rows[i], r)
  }

  datatype Statement =
    | Insert(row: Record)
    | Update(id: nat, row: Record)

  datatype Outcome = Done | NoRow | CheckFailed | Overlap

  datatype Next = Next(rows: seq<Record>, outcome: Outcome)

  function Step(rows: seq<Record>, s: Statement): Next {
    match s
    case Insert(r) =>
      if !WellFormed(r) then Next(rows, CheckFailed)
      else if Excluded(rows, |rows|, r) then Next(rows, Overlap)
      else Next(rows + [r], Done)
    case Update(id, r) =>
      if id >= |rows| then Next(rows, NoRow)
      else if !WellFormed(r) then Next(rows, CheckFailed)
      else if Excluded(rows, id, r) then Next(rows, Overlap)
      else Next(rows[id := r], Done)
  }

  /** A soft delete is the update that sets deleted_at. */
  function SoftDelete(rows: seq<Record>, id: nat): Statement
    requires id < |rows|
  {
    Update(id, rows[id].(deleted := true))
  }

  ghost predicate Disjoint(rows: seq<Record>) {
    && (forall r <- rows :: WellFormed(r))
    && (forall i, j :: 0 <= i < j < |rows| ==> !Conflict(rows[i], rows[j]))
  }

  /** The bounds test is right: ranges overlap exactly when they share a day. */
  lemma OverlapIsSharedDay(r: Record, s: Record)
    requires WellFormed(r) && WellFormed(s)
    ensures RangesOverlap(r, s) <==> exists d :: Covers(r, d) && Covers(s, d)
  {
    var d := if r.start < s.start then s.start else r.start;
    if RangesOverlap(r, s) {
      assert Covers(r, d) && Covers(s, d);
    }
  }

  predicate Occupies(rows: seq<Record>, i: nat, unit: int, d: Date) {
    i < |rows| && !rows[i].deleted && rows[i].unit == unit && Covers(rows[i], d)
  }

  ghost predicate OnePerDay(rows: seq<Record>) {
    forall i: nat, j: nat, unit, d :: Occupies(rows, i, unit, d) && Occupies(rows, j, unit, d) ==> i == j
  }

  /** What the constraint keeps apart is exactly what would share a unit and a day. */
  lemma DisjointIsOnePerDay(rows: seq<Record>)
    requires forall r <- rows :: WellFormed(r)
    ensures Disjoint(rows) <==> OnePerDay(rows)
  {
    forall i: nat, j: nat | i < |rows| && j < |rows| && i != j
      ensures Conflict(rows[i], rows[j]) <==>
        exists d :: Occupies(rows, i, rows[i].unit, d) && Occupies(rows, j, rows[i].unit, d)
    {
      assert rows[i] in rows && rows[j] in rows;
      OverlapIsSharedDay(rows[i], rows[j]);
      if Conflict(rows[i], rows[j]) {
        var d :| Covers(rows[i], d) && Covers(rows[j], d);
        assert Occupies(rows, i, rows[i].unit, d) && Occupies(rows, j, rows[i].unit, d);
      }
    }
  }

  /**
    A write goes through exactly when its row exists, its record is well-formed, and no other live
    record of the unit covers one of its days; then it changes that place only, and else nothing.
   */
  lemma AcceptedExactly(rows: seq<Record>, s: Statement)
    requires Disjoint(rows)
    ensures
      var id := if s.Insert? then |rows| else s.id;
      var n := Step(rows, s);
      && (n.outcome == Done <==>
            && id < |rows| + (if s.Insert? then 1 else 0)
            && WellFormed(s.row)
            && (s.row.deleted || forall i: nat, d :: i != id && Occupies(rows, i, s.row.unit, d) ==> !Covers(s.row, d)))
      && (n.outcome == Done ==> |n.rows| == (if s.Insert? then |rows| + 1 else |rows|) && n.rows[id] == s.row)
      && (n.outcome != Done ==> n.rows == rows)
      && (forall i :: 0 <= i < |rows| && i != id ==> n.rows[i] == rows[i])
  {
    var r := s.row;
    if WellFormed(r) && !r.deleted {
      forall i: nat | i < |rows| && !rows[i].deleted && rows[i].unit == r.unit
        ensures Conflict(rows[i], r) <==> exists d :: Occupies(rows, i, r.unit, d) && Covers(r, d)
      {
        assert rows[i] in rows;
        OverlapIsSharedDay(rows[i], r);
        if Conflict(rows[i], r) {
          var d :| Covers(rows[i], d) && Covers(r, d);
          assert Occupies(rows, i, r.unit, d);
        }
      }
    }
  }

  lemma StepDisjoint(rows: seq<Record>, s: Statement)
    requires Disjoint(rows)
    ensures Disjoint(Step(rows, s).rows)
  {
    var n := Step(rows, s).rows;
    forall r | r in n
      ensures WellFormed(r)
    {
      var k :| 0 <= k < |n| && n[k] == r;
      assert k < |rows| && n[k] == rows[k] ==> rows[k] in rows;
    }
  }

  function Run(rows: seq<Record>, ss: seq<Statement>): seq<Record>
    decreases ss
  {
    if ss == [] then rows else Run(Step(rows, ss[0]).rows, ss[1..])
  }

  /** After any run of inserts, updates and soft deletes, a unit has at most one live record a day. */
  lemma {:induction false} OccupancyUnique(rows: seq<Record>, ss: seq<Statement>)
    requires Disjoint(rows)
    ensures Disjoint(Run(rows, ss)) && OnePerDay(Run(rows, ss))
    decreases ss
  {
    if ss == [] {
      DisjointIsOnePerDay(rows);
    } else {
      StepDisjoint(rows, ss[0]);
      OccupancyUnique(Step(rows, ss[0]).rows, ss[1..]);
    }
  }

  // The timeline of a unit

  /** The live records of a unit. */
  function LiveOf(rows: seq<Record>, unit: int): seq<Record> {
    if rows == [] then []
    else (if !rows[0].deleted && rows[0].unit == unit then [rows[0]] else []) + LiveOf(rows[1..], unit)
  }

  function Place(r: Record, line: seq<Record>): (placed: seq<Record>)
    ensures multiset(placed) == multiset(line) + multiset{r}
  {
    if line == [] then [r]
    else if r.start <= line[0].start then
      assert line == [line[0]] + line[1..];
      [r] + line
    else
      assert line == [line[0]] + line[1..];
      [line[0]] + Place(r, line[1..])
  }

  /** The live records of a unit, ordered by start. */
  function Timeline(rows: seq<Record>, unit: int): (line: seq<Record>)
    ensures multiset(line) == multiset(LiveOf(rows, unit))
  {
    if rows == [] then []
    else if !rows[0].deleted && rows[0].unit == unit then Place(rows[0], Timeline(rows[1..], unit))
    else Timeline(rows[1..], unit)
  }

  /** One record is over before the other starts. */
  predicate EndsBefore(r: Record, s: Record) { r.end.Some? && r.end.value < s.start }

  ghost predicate InOrder(line: seq<Record>) {
    forall i, j :: 0 <= i < j < |line| ==> EndsBefore(line[i], line[j])
  }

  lemma Apart(r: Record, s: Record)
    requires WellFormed(r) && WellFormed(s) && !RangesOverlap(r, s)
    ensures if r.start <= s.start then EndsBefore(r, s) else EndsBefore(s, r)
  {
  }

  lemma PrependInOrder(r: Record, line: seq<Record>)
    requires InOrder(line) && forall s <- line :: EndsBefore(r, s)
    ensures InOrder([r] + line)
  {
    var both := [r] + line;
    forall i, j | 0 <= i < j < |both|
      ensures EndsBefore(both[i], both[j])
    {
      assert both[j] == line[j - 1] && line[j - 1] in line;
      assert i > 0 ==> both[i] == line[i - 1];
    }
  }

  lemma PlacedMembers(r: Record, line: seq<Record>, s: Record)
    ensures s in Place(r, line) <==> s == r || s in line
  {
    assert s in Place(r, line) <==> s in multiset(Place(r, line));
    assert s in line <==> s in multiset(line);
  }

  lemma {:induction false} PlaceInOrder(r: Record, line: seq<Record>)
    requires InOrder(line) && WellFormed(r)
    requires forall s <- line :: WellFormed(s) && !RangesOverlap(r, s)
    ensures InOrder(Place(r, line))
  {
    if line != [] {
      var head, rest := line[0], line[1..];
      assert head in line && forall s :: s in rest ==> s in line;
      forall s | s in rest
        ensures EndsBefore(head, s)
      {
        var k :| 0 <= k < |rest| && rest[k] == s;
        assert line[k + 1] == s;
      }
      Apart(r, head);
      if r.start <= head.start {
        forall s | s in line
          ensures EndsBefore(r, s)
        {
          assert s == head || s in rest;
          Apart(r, s);
        }
        PrependInOrder(r, line);
      } else {
        PlaceInOrder(r, rest);
        forall s | s in Place(r, rest)
          ensures EndsBefore(head, s)
        {
          PlacedMembers(r, rest, s);
        }
        PrependInOrder(head, Place(r, rest));
      }
    }
  }

  lemma {:induction false} LiveOfMembers(rows: seq<Record>, unit: int, s: Record)
    ensures s in LiveOf(rows, unit) <==> s in rows && !s.deleted && s.unit == unit
  {
    if rows != [] {
      LiveOfMembers(rows[1..], unit, s);
    }
  }

  /** Sorted by start, each record ends before the next starts; only the last can be open-ended. */
  lemma {:induction false} TimelineInOrder(rows: seq<Record>, unit: int)
    requires Disjoint(rows)
    ensures InOrder(Timeline(rows, unit))
  {
    if rows != [] {
      var r, rest := rows[0], rows[1..];
      TailDisjoint(rows);
      TimelineInOrder(rest, unit);
      if !r.deleted && r.unit == unit {
        var line := Timeline(rest, unit);
        forall s | s in line
          ensures WellFormed(s) && !RangesOverlap(r, s)
        {
          assert s in multiset(line);
          LiveOfMembers(rest, unit, s);
          var k :| 0 <= k < |rest| && rest[k] == s;
          assert rows[k + 1] == s && rows[k + 1] in rows;
          assert !Conflict(rows[0], rows[k + 1]);
        }
        assert r in rows;
        PlaceInOrder(r, line);
      }
    }
  }

  // Counting days

  /** The days a record covers between two days, both included. */
  function DaysOf(r: Record, lo: Date, hi: Date): set<Date> {
    set d | lo <= d <= hi && Covers(r, d)
  }

  /** The part of a record's duration between two days. */
  function Duration(r: Record, lo: Date, hi: Date): nat {
    var from := if r.start < lo then lo else r.start;
    var to := if r.end.Some? && r.end.value < hi then r.end.value else hi;
    if from <= to then to - from + 1 else 0
  }

  predicate Occupied(rows: seq<Record>, unit: int, d: Date) {
    exists r :: r in rows && !r.deleted && r.unit == unit && Covers(r, d)
  }

  function OccupiedDays(rows: seq<Record>, unit: int, lo: Date, hi: Date): set<Date> {
    set d | lo <= d <= hi && Occupied(rows, unit, d)
  }

  function TotalDuration(rows: seq<Record>, unit: int, lo: Date, hi: Date): nat {
    if rows == [] then 0
    else (if !rows[0].deleted && rows[0].unit == unit then Duration(rows[0], lo, hi) else 0)
         + TotalDuration(rows[1..], unit, lo, hi)
  }

  lemma {:induction false} DayCount(r: Record, lo: Date, hi: Date)
    ensures |DaysOf(r, lo, hi)| == Duration(r, lo, hi)
    decreases hi - lo
  {
    if lo <= hi {
      DayCount(r, lo, hi - 1);
      assert DaysOf(r, lo, hi) == DaysOf(r, lo, hi - 1) + if Covers(r, hi) then {hi} else {};
    } else {
      assert DaysOf(r, lo, hi) == {};
    }
  }

  lemma FirstOrRest(rows: seq<Record>, unit: int, d: Date)
    requires rows != []
    ensures Occupied(rows, unit, d) <==> Occupies(rows, 0, unit, d) || Occupied(rows[1..], unit, d)
  {
    assert forall s :: s in rows <==> s == rows[0] || s in rows[1..];
  }

  lemma FirstNotRest(rows: seq<Record>, unit: int, d: Date)
    requires Disjoint(rows) && rows != [] && Occupies(rows, 0, unit, d)
    ensures !Occupied(rows[1..], unit, d)
  {
    forall s | s in rows[1..] && !s.deleted && s.unit == unit
      ensures !Covers(s, d)
    {
      var k :| 0 <= k < |rows| - 1 && rows[1..][k] == s;
      assert rows[k + 1] == s && !Conflict(rows[0], rows[k + 1]);
      assert rows[0] in rows && s in rows;
      OverlapIsSharedDay(rows[0], s);
    }
  }

  lemma TailDisjoint(rows: seq<Record>)
    requires Disjoint(rows) && rows != []
    ensures Disjoint(rows[1..])
  {
    var rest := rows[1..];
    assert forall s :: s in rest ==> s in rows;
    assert forall i, j :: 0 <= i < j < |rest| ==> rest[i] == rows[i + 1] && rest[j] == rows[j + 1];
  }

  /** The days of the first record, if it counts for the unit. */
  function FirstDays(rows: seq<Record>, unit: int, lo: Date, hi: Date): set<Date>
    requires rows != []
  {
    if !rows[0].deleted && rows[0].unit == unit then DaysOf(rows[0], lo, hi) else {}
  }

  lemma DaysSplit(rows: seq<Record>, unit: int, lo: Date, hi: Date)
    requires Disjoint(rows) && rows != []
    ensures OccupiedDays(rows, unit, lo, hi) == FirstDays(rows, unit, lo, hi) + OccupiedDays(rows[1..], unit, lo, hi)
    ensures FirstDays(rows, unit, lo, hi) !! OccupiedDays(rows[1..], unit, lo, hi)
  {
    forall d
      ensures d in OccupiedDays(rows, unit, lo, hi) <==>
        d in FirstDays(rows, unit, lo, hi) || d in OccupiedDays(rows[1..], unit, lo, hi)
      ensures !(d in FirstDays(rows, unit, lo, hi) && d in OccupiedDays(rows[1..], unit, lo, hi))
    {
      FirstOrRest(rows, unit, d);
      if Occupies(rows, 0, unit, d) {
        FirstNotRest(rows, unit, d);
      }
    }
  }

  /** No day is counted twice: in any window, occupied days are the sum of the durations in it. */
  lemma {:induction false} DaysAddUp(rows: seq<Record>, unit: int, lo: Date, hi: Date)
    requires Disjoint(rows)
    ensures |OccupiedDays(rows, unit, lo, hi)| == TotalDuration(rows, unit, lo, hi)
  {
    if rows == [] {
      assert OccupiedDays(rows, unit, lo, hi) == {};
    } else {
      TailDisjoint(rows);
      DaysAddUp(rows[1..], unit, lo, hi);
      DaysSplit(rows, unit, lo, hi);
      DayCount(rows[0], lo, hi);
    }
  }

  class Register {
    var rows: seq<Record>

    constructor ()
      ensures rows == []
    {
      rows := [];
    }

    method InsertRecord(r: Record) returns (o: Outcome)
      modifies this
      ensures o == Step(old(rows), Insert(r)).outcome && rows == Step(old(rows), Insert(r)).rows
      ensures old(Disjoint(rows)) ==>
        && Disjoint(rows)
        && (o == Done && !r.deleted ==> forall i: nat, d :: Covers(r, d) ==> !Occupies(old(rows), i, r.unit, d))
    {
      if Disjoint(rows) {
        StepDisjoint(rows, Insert(r));
        AcceptedExactly(rows, Insert(r));
      }
      if !WellFormed(r) {
        return CheckFailed;
      }
      if Excluded(rows, |rows|, r) {
        return Overlap;
      }
      rows := rows + [r];
      return Done;
    }

    method UpdateRecord(id: nat, r: Record) returns (o: Outcome)
      modifies this
      ensures o == Step(old(rows), Update(id, r)).outcome && rows == Step(old(rows), Update(id, r)).rows
      ensures old(Disjoint(rows)) ==>
        && Disjoint(rows)
        && (o == Done && !r.deleted ==>
              forall i: nat, d :: i != id && Covers(r, d) ==> !Occupies(old(rows), i, r.unit, d))
    {
      if Disjoint(rows) {
        StepDisjoint(rows, Update(id, r));
        AcceptedExactly(rows, Update(id, r));
      }
      if id >= |rows| {
        return NoRow;
      }
      if !WellFormed(r) {
        return CheckFailed;
      }
      if Excluded(rows, id, r) {
        return Overlap;
      }
      rows := rows[id := r];
      return Done;
    }

    /** A soft delete takes the record out of the constraint, so it always goes through. */
    method SoftDeleteRecord(id: nat) returns (o: Outcome)
      requires Disjoint(rows) && id < |rows|
      modifies this
      ensures o == Done && rows == Step(old(rows), SoftDelete(old(rows), id)).rows
    {
      assert rows[id] in rows;
      o := UpdateRecord(id, rows[id].(deleted := true));
    }
  }
}
