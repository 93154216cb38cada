/** Double-entry bookkeeping: journals that can be locked, entries the triggers then protect. */
module Ledger {

  /**
    Amounts are in cents. A row's place in its table stands for its UUID; should an entry be physically
    deleted, those after it move up.
   */
  datatype Entry = Entry(journal: nat, debit: int, credit: int, deleted: bool)

  datatype Books = Books(locked: seq<bool>, entries: seq<Entry>)

  /** NUMERIC(12,2) columns and the NUMERIC(18,2) variables of the balance check. */
  const COLUMN_LIMIT: int := 1_000_000_000_000
  const SUM_LIMIT: int := 1_000_000_000_000_000_000

  /** The CHECK constraints of an entry: one side is positive, the other zero. */
  predicate WellFormed(e: Entry) {
    && 0 <= e.debit < COLUMN_LIMIT && 0 <= e.credit < COLUMN_LIMIT
    && ((e.debit > 0 && e.credit == 0) || (e.credit > 0 && e.debit == 0))
  }

  predicate Live(e: Entry, j: nat) { e.journal == j && !e.deleted }

  function Debits(entries: seq<Entry>, j: nat): int {
    if entries == [] then 0
    else
      var last := |entries| - 1;
      Debits(entries[..last], j) + if Live(entries[last], j) then entries[last].debit else 0
  }

  function Credits(entries: seq<Entry>, j: nat): int {
    if entries == [] then 0
    else
      var last := |entries| - 1;
      Credits(entries[..last], j) + if Live(entries[last], j) then entries[last].credit else 0
  }

  datatype Statement =
    | InsertJournal(lock: bool)
    | SetLocked(journal: nat, lock: bool)
    | InsertEntry(entry: Entry)
    | UpdateEntry(id: nat, entry: Entry)
    | DeleteEntry(id: nat, allowed: bool)

  datatype Outcome = Done | NoRow | NotBalanced | OutOfRange | JournalLocked | CheckFailed | NoJournal | DeleteForbidden

  datatype Next = Next(books: Books, outcome: Outcome)

  predicate JournalIsLocked(b: Books, j: nat) {
    j < |b.locked| && b.locked[j]
  }

  function Step(b: Books, s: Statement): Next {
    match s
    case InsertJournal(lock) =>
      Next(b.(locked := b.locked + [lock]), Done)
    case SetLocked(j, lock) =>
      if j >= |b.locked| then Next(b, NoRow)
      else if !b.locked[j] && lock && (Debits(b.entries, j) >= SUM_LIMIT || Credits(b.entries, j) >= SUM_LIMIT)
      then Next(b, OutOfRange)
      else if !b.locked[j] && lock && Debits(b.entries, j) != Credits(b.entries, j) then Next(b, NotBalanced)
      else Next(b.(locked := b.locked[j := lock]), Done)
    case InsertEntry(e) =>
      if JournalIsLocked(b, e.journal) then Next(b, JournalLocked)
      else if !WellFormed(e) then Next(b, CheckFailed)
      else if e.journal >= |b.locked| then Next(b, NoJournal)
      else Next(b.(entries := b.entries + [e]), Done)
    case UpdateEntry(id, e) =>
      if id >= |b.entries| then Next(b, NoRow)
      else if JournalIsLocked(b, e.journal) then Next(b, JournalLocked)
      else if !WellFormed(e) then Next(b, CheckFailed)
      else if e.journal >= |b.locked| then Next(b, NoJournal)
      else Next(b.(entries := b.entries[id := e]), Done)
    case DeleteEntry(id, allowed) =>
      if id >= |b.entries| then Next(b, NoRow)
      else if !allowed then Next(b, DeleteForbidden)
      else if JournalIsLocked(b, b.entries[id].journal) then Next(b, JournalLocked)
      else Next(b.(entries := b.entries[..id] + b.entries[id + 1..]), Done)
  }

  ghost predicate Valid(b: Books) {
    forall e <- b.entries :: WellFormed(e) && e.journal < |b.locked|
  }

  ghost predicate Balanced(b: Books) {
    forall j: nat :: j < |b.locked| && b.locked[j] ==> Debits(b.entries, j) == Credits(b.entries, j)
  }

  lemma StepValid(b: Books, s: Statement)
    requires Valid(b)
    ensures Valid(Step(b, s).books)
  {
    var n := Step(b, s).books;
    forall e | e in n.entries
      ensures WellFormed(e) && e.journal < |n.locked|
    {
      var k :| 0 <= k < |n.entries| && n.entries[k] == e;
      assert k < |b.entries| && n.entries[k] == b.entries[k] ==> b.entries[k] in b.entries;
    }
  }

  /** What one entry adds to a journal's debits minus its credits. */
  function Weight(e: Entry, j: nat): int {
    if Live(e, j) then e.debit - e.credit else 0
  }

  lemma {:induction false} Replaced(entries: seq<Entry>, id: nat, e: Entry, j: nat)
    requires id < |entries|
    ensures
      Debits(entries[id := e], j) - Credits(entries[id := e], j)
      == Debits(entries, j) - Credits(entries, j) - Weight(entries[id], j) + Weight(e, j)
  {
    var last := |entries| - 1;
    if id == last {
      assert entries[id := e][..last] == entries[..last];
    } else {
      assert entries[id := e][..last] == entries[..last][id := e];
      Replaced(entries[..last], id, e, j);
    }
  }

  /** Without one entry, each journal's sums lack just its amounts. */
  lemma {:induction false} Removed(entries: seq<Entry>, id: nat, j: nat)
    requires id < |entries|
    ensures
      var e, rest := entries[id], entries[..id] + entries[id + 1..];
      && Debits(rest, j) == Debits(entries, j) - (if Live(e, j) then e.debit else 0)
      && Credits(rest, j) == Credits(entries, j) - (if Live(e, j) then e.credit else 0)
  {
    var last := |entries| - 1;
    var rest := entries[..id] + entries[id + 1..];
    if id == last {
      assert rest == entries[..last];
    } else {
      Removed(entries[..last], id, j);
      assert rest[..last - 1] == entries[..last][..id] + entries[..last][id + 1..];
      assert rest[last - 1] == entries[last];
    }
  }

  /** A physical delete, allowed or not, leaves the sums of every locked journal as they are. */
  lemma DeleteKeepsLocked(b: Books, id: nat, allowed: bool, j: nat)
    requires JournalIsLocked(b, j)
    ensures
      var n := Step(b, DeleteEntry(id, allowed)).books;
      Debits(n.entries, j) == Debits(b.entries, j) && Credits(n.entries, j) == Credits(b.entries, j)
  {
    if id < |b.entries| {
      Removed(b.entries, id, j);
    }
  }

  /** The journal trigger looks at NEW only: an update may take a live entry out of a locked journal. */
  predicate TakesFromLocked(b: Books, s: Statement) {
    s.UpdateEntry? && s.id < |b.entries| && !b.entries[s.id].deleted
    && JournalIsLocked(b, b.entries[s.id].journal)
  }

  /** An accepted statement keeps every locked journal balanced exactly when it does not do that. */
  lemma StepBalanced(b: Books, s: Statement)
    requires Valid(b) && Balanced(b) && Step(b, s).outcome == Done
    ensures Balanced(Step(b, s).books) <==> !TakesFromLocked(b, s)
  {
    var n := Step(b, s).books;
    match s
    case InsertJournal(_) =>
      UnusedJournal(b.entries, |b.locked|);
    case SetLocked(_, _) =>
    case InsertEntry(e) =>
      assert n.entries[..|b.entries|] == b.entries;
    case UpdateEntry(id, e) =>
      var was := b.entries[id];
      assert was in b.entries;
      forall j: nat | j < |b.locked| && b.locked[j]
        ensures Debits(n.entries, j) - Credits(n.entries, j) == -Weight(was, j)
      {
        Replaced(b.entries, id, e, j);
      }
    case DeleteEntry(id, allowed) =>
      forall j: nat | j < |b.locked| && b.locked[j]
        ensures Debits(n.entries, j) == Credits(n.entries, j)
      {
        DeleteKeepsLocked(b, id, allowed, j);
      }
  }

  lemma {:induction false} UnusedJournal(entries: seq<Entry>, j: nat)
    requires forall e <- entries :: e.journal != j
    ensures Debits(entries, j) == 0 == Credits(entries, j)
  {
    if entries != [] {
      assert entries[|entries| - 1] in entries;
      UnusedJournal(entries[..|entries| - 1], j);
    }
  }

  // What is booked

  /** What an entry counts for in a journal, on each side. */
  function Amounts(e: Entry, j: nat): (int, int) {
    if e.journal == j && !e.deleted then (e.debit, e.credit) else (0, 0)
  }

  /** A row may be written in a journal that exists and is open, with a positive amount on one side only. */
  predicate MayWrite(b: Books, e: Entry) {
    && e.journal < |b.locked| && !b.locked[e.journal]
    && 0 <= e.debit < COLUMN_LIMIT && 0 <= e.credit < COLUMN_LIMIT
    && ((e.debit > 0 && e.credit == 0) || (e.credit > 0 && e.debit == 0))
  }

  /** An insert goes through exactly there; the row reads back as given after all earlier ones. */
  lemma InsertExact(b: Books, e: Entry)
    ensures
      var n := Step(b, InsertEntry(e));
      && (n.outcome == Done <==> MayWrite(b, e))
      && n.books.locked == b.locked
      && (n.outcome != Done ==> n.books == b)
      && (n.outcome == Done ==>
            && |n.books.entries| == |b.entries| + 1 && n.books.entries[|b.entries|] == e
            && n.books.entries[..|b.entries|] == b.entries)
  {
  }

  /** An update goes through exactly for a row that is there, into such a journal, and replaces that row only. */
  lemma UpdateExact(b: Books, id: nat, e: Entry)
    ensures
      var n := Step(b, UpdateEntry(id, e));
      && (n.outcome == Done <==> id < |b.entries| && MayWrite(b, e))
      && n.books.locked == b.locked
      && (n.outcome != Done ==> n.books == b)
      && (n.outcome == Done ==>
            && |n.books.entries| == |b.entries| && n.books.entries[id] == e
            && forall i :: 0 <= i < |b.entries| && i != id ==> n.books.entries[i] == b.entries[i])
  {
  }

  /** A journal's lock changes exactly as asked, but for a step to locked with unequal sums; entries stay. */
  lemma LockExact(b: Books, j: nat, lock: bool)
    ensures
      var n := Step(b, SetLocked(j, lock));
      var closes := j < |b.locked| && !b.locked[j] && lock;
      var fits := Debits(b.entries, j) < SUM_LIMIT && Credits(b.entries, j) < SUM_LIMIT;
      && (n.outcome == Done <==> j < |b.locked| && (closes ==> fits && Debits(b.entries, j) == Credits(b.entries, j)))
      && (n.outcome == NotBalanced <==> closes && fits && Debits(b.entries, j) != Credits(b.entries, j))
      && n.books.entries == b.entries
      && n.books.locked == if n.outcome == Done then b.locked[..j] + [lock] + b.locked[j + 1..] else b.locked
  {
  }

  /** What the accepted statement takes out of a journal, and puts in. */
  function TakenOut(b: Books, s: Statement, j: nat): (int, int) {
    if (s.UpdateEntry? || s.DeleteEntry?) && s.id < |b.entries| && Step(b, s).outcome == Done
    then Amounts(b.entries[s.id], j) else (0, 0)
  }

  function PutIn(b: Books, s: Statement, j: nat): (int, int) {
    if (s.InsertEntry? || s.UpdateEntry?) && Step(b, s).outcome == Done then Amounts(s.entry, j) else (0, 0)
  }

  lemma {:induction false} ReplacedSums(entries: seq<Entry>, id: nat, e: Entry, j: nat)
    requires id < |entries|
    ensures
      var n := entries[id := e];
      && Debits(n, j) == Debits(entries, j) - Amounts(entries[id], j).0 + Amounts(e, j).0
      && Credits(n, j) == Credits(entries, j) - Amounts(entries[id], j).1 + Amounts(e, j).1
  {
    var last := |entries| - 1;
    if id == last {
      assert entries[id := e][..last] == entries[..last];
    } else {
      assert entries[id := e][..last] == entries[..last][id := e];
      ReplacedSums(entries[..last], id, e, j);
    }
  }

  /** A statement changes each journal's sums by just that, on each side. */
  lemma StepBooks(b: Books, s: Statement, j: nat)
    ensures
      var n := Step(b, s).books.entries;
      && Debits(n, j) == Debits(b.entries, j) - TakenOut(b, s, j).0 + PutIn(b, s, j).0
      && Credits(n, j) == Credits(b.entries, j) - TakenOut(b, s, j).1 + PutIn(b, s, j).1
  {
    if Step(b, s).outcome == Done {
      match s
      case InsertEntry(e) =>
        assert (b.entries + [e])[..|b.entries|] == b.entries;
      case UpdateEntry(id, e) =>
        ReplacedSums(b.entries, id, e, j);
      case DeleteEntry(id, _) =>
        Removed(b.entries, id, j);
      case _ =>
    }
  }

  // Runs

  function Run(b: Books, ss: seq<Statement>): Books
    decreases ss
  {
    if ss == [] then b else Run(Step(b, ss[0]).books, ss[1..])
  }

  function TotalTakenOut(b: Books, ss: seq<Statement>, j: nat): (int, int)
    decreases ss
  {
    if ss == [] then (0, 0)
    else
      var rest := TotalTakenOut(Step(b, ss[0]).books, ss[1..], j);
      (TakenOut(b, ss[0], j).0 + rest.0, TakenOut(b, ss[0], j).1 + rest.1)
  }

  function TotalPutIn(b: Books, ss: seq<Statement>, j: nat): (int, int)
    decreases ss
  {
    if ss == [] then (0, 0)
    else
      var rest := TotalPutIn(Step(b, ss[0]).books, ss[1..], j);
      (PutIn(b, ss[0], j).0 + rest.0, PutIn(b, ss[0], j).1 + rest.1)
  }

  /** Over every run, a journal's debits and credits are what accepted statements put in less what they took out. */
  lemma {:induction false} RunBooks(b: Books, ss: seq<Statement>, j: nat)
    ensures
      var n := Run(b, ss).entries;
      && Debits(n, j) == Debits(b.entries, j) + TotalPutIn(b, ss, j).0 - TotalTakenOut(b, ss, j).0
      && Credits(n, j) == Credits(b.entries, j) + TotalPutIn(b, ss, j).1 - TotalTakenOut(b, ss, j).1
    decreases ss
  {
    if ss != [] {
      StepBooks(b, ss[0], j);
      RunBooks(Step(b, ss[0]).books, ss[1..], j);
    }
  }

  /** The statements that leave a locked journal out of balance. */
  predicate Breaks(b: Books, s: Statement) {
    Step(b, s).outcome == Done && TakesFromLocked(b, s)
  }

  predicate NeverBreaks(b: Books, ss: seq<Statement>)
    decreases ss
  {
    ss == [] || (!Breaks(b, ss[0]) && NeverBreaks(Step(b, ss[0]).books, ss[1..]))
  }

  /** Over every run without such a statement, locked journals balance. */
  lemma {:induction false} LockedJournalsBalance(b: Books, ss: seq<Statement>)
    requires Valid(b) && Balanced(b) && NeverBreaks(b, ss)
    ensures Valid(Run(b, ss)) && Balanced(Run(b, ss))
    decreases ss
  {
    if ss != [] {
      StepValid(b, ss[0]);
      if Step(b, ss[0]).outcome == Done {
        StepBalanced(b, ss[0]);
      }
      LockedJournalsBalance(Step(b, ss[0]).books, ss[1..]);
    }
  }

  predicate KeepsJournal(b: Books, s: Statement) {
    s.UpdateEntry? && s.id < |b.entries| ==> s.entry.journal == b.entries[s.id].journal
  }

  predicate AllKeepJournal(b: Books, ss: seq<Statement>)
    decreases ss
  {
    ss == [] || (KeepsJournal(b, ss[0]) && AllKeepJournal(Step(b, ss[0]).books, ss[1..]))
  }

  /** From empty books, updates that keep journal_id can never unbalance a locked journal. */
  lemma KeptJournalsBalance(ss: seq<Statement>)
    requires AllKeepJournal(Books([], []), ss)
    ensures Balanced(Run(Books([], []), ss))
  {
    KeepersNeverBreak(Books([], []), ss);
    LockedJournalsBalance(Books([], []), ss);
  }

  lemma {:induction false} KeepersNeverBreak(b: Books, ss: seq<Statement>)
    requires AllKeepJournal(b, ss)
    ensures NeverBreaks(b, ss)
    decreases ss
  {
    if ss != [] {
      KeepersNeverBreak(Step(b, ss[0]).books, ss[1..]);
    }
  }

  const LOCKED_PAIR: Books := Books([true, false], [Entry(0, 100, 0, false), Entry(0, 0, 100, false)])

  /** Two journals, a debit and a credit in the first, and the first one locked. */
  lemma LockedPairIsReached()
    ensures exists ss: seq<Statement> ::
      AllKeepJournal(Books([], []), ss) && Run(Books([], []), ss) == LOCKED_PAIR
  {
    var debit, credit := Entry(0, 100, 0, false), Entry(0, 0, 100, false);
    PairBalances();
    var b4 := Books([false, false], [debit, credit]);
    var b3 := Books([false, false], [debit]);
    var s5 := [SetLocked(0, true)];
    assert [debit] + [credit] == [debit, credit] && [] + [debit] == [debit];
    assert [false] + [false] == [false, false] && [] + [false] == [false];
    assert [false, false][0 := true] == [true, false];
    assert [SetLocked(0, true)] + [] == s5;
    Prepend(b4, SetLocked(0, true), [], LOCKED_PAIR);
    Prepend(b3, InsertEntry(credit), s5, LOCKED_PAIR);
    var s4 := [InsertEntry(credit)] + s5;
    Prepend(Books([false, false], []), InsertEntry(debit), s4, LOCKED_PAIR);
    var s3 := [InsertEntry(debit)] + s4;
    Prepend(Books([false], []), InsertJournal(false), s3, LOCKED_PAIR);
    Prepend(Books([], []), InsertJournal(false), [InsertJournal(false)] + s3, LOCKED_PAIR);
  }

  lemma PairBalances()
    ensures Debits(LOCKED_PAIR.entries, 0) == 100 == Credits(LOCKED_PAIR.entries, 0)
  {
    var debit := LOCKED_PAIR.entries[0];
    var none: seq<Entry> := [];
    assert [debit][..0] == none && Debits(none, 0) == 0 == Credits(none, 0);
    assert Debits([debit], 0) == 100 && Credits([debit], 0) == 0;
    assert LOCKED_PAIR.entries[..1] == [debit];
  }

  lemma Prepend(b: Books, s: Statement, ss: seq<Statement>, end: Books)
    requires KeepsJournal(b, s) && AllKeepJournal(Step(b, s).books, ss) && Run(Step(b, s).books, ss) == end
    ensures AllKeepJournal(b, [s] + ss) && Run(b, [s] + ss) == end
  {
    assert ([s] + ss)[1..] == ss;
  }

  /** The hypothesis is needed: moving one entry away is accepted and unbalances the locked journal. */
  lemma MovingAwayUnbalances()
    ensures
      var n := Step(LOCKED_PAIR, UpdateEntry(0, Entry(1, 100, 0, false)));
      n.outcome == Done && Balanced(LOCKED_PAIR) && !Balanced(n.books)
  {
    PairBalances();
    StepBalanced(LOCKED_PAIR, UpdateEntry(0, Entry(1, 100, 0, false)));
  }

  // What balance means

  lemma {:induction false} OneSided(entries: seq<Entry>, j: nat)
    requires forall e <- entries :: WellFormed(e)
    ensures Debits(entries, j) > 0 <==> exists e :: e in entries && Live(e, j) && e.debit > 0
    ensures Credits(entries, j) > 0 <==> exists e :: e in entries && Live(e, j) && e.credit > 0
    ensures Debits(entries, j) >= 0 && Credits(entries, j) >= 0
  {
    if entries != [] {
      var rest, last := entries[..|entries| - 1], entries[|entries| - 1];
      assert entries == rest + [last];
      assert forall e :: e in entries <==> e in rest || e == last;
      assert last in entries;
      OneSided(rest, j);
    }
  }

  /** A locked journal with any live entry has a debit and a credit. */
  lemma BothSides(b: Books, j: nat, e: Entry)
    requires Valid(b) && Balanced(b) && JournalIsLocked(b, j)
    requires e in b.entries && Live(e, j)
    ensures exists d, c ::
      d in b.entries && c in b.entries && Live(d, j) && Live(c, j) && d.debit > 0 && c.credit > 0
  {
    OneSided(b.entries, j);
  }

  function LockedDebits(b: Books, n: nat): int
    requires n <= |b.locked|
  {
    if n == 0 then 0 else LockedDebits(b, n - 1) + if b.locked[n - 1] then Debits(b.entries, n - 1) else 0
  }

  function LockedCredits(b: Books, n: nat): int
    requires n <= |b.locked|
  {
    if n == 0 then 0 else LockedCredits(b, n - 1) + if b.locked[n - 1] then Credits(b.entries, n - 1) else 0
  }

  /** The live entries in locked journals, summed entry by entry. */
  function Posted(b: Books, entries: seq<Entry>): (sums: (int, int)) {
    if entries == [] then (0, 0)
    else
      var rest := Posted(b, entries[..|entries| - 1]);
      var e := entries[|entries| - 1];
      if !e.deleted && JournalIsLocked(b, e.journal) then (rest.0 + e.debit, rest.1 + e.credit) else rest
  }

  lemma {:induction false} PostedByJournal(b: Books, entries: seq<Entry>, n: nat)
    requires n == |b.locked|
    requires forall e <- entries :: e.journal < n
    ensures Posted(b, entries) == (LockedDebits(b.(entries := entries), n), LockedCredits(b.(entries := entries), n))
  {
    if entries == [] {
      EmptyTotals(b, n);
    } else {
      var rest, e := entries[..|entries| - 1], entries[|entries| - 1];
      PostedByJournal(b, rest, n);
      TotalsAppend(b, rest, e, n);
      assert rest + [e] == entries;
      assert e in entries;
    }
  }

  lemma {:induction false} EmptyTotals(b: Books, n: nat)
    requires n <= |b.locked|
    ensures LockedDebits(b.(entries := []), n) == 0 == LockedCredits(b.(entries := []), n)
  {
    if n > 0 {
      EmptyTotals(b, n - 1);
    }
  }

  lemma {:induction false} TotalsAppend(b: Books, rest: seq<Entry>, e: Entry, n: nat)
    requires n <= |b.locked|
    ensures
      var counts := !e.deleted && e.journal < n && b.locked[e.journal];
      var without, with := b.(entries := rest), b.(entries := rest + [e]);
      && LockedDebits(with, n) == LockedDebits(without, n) + (if counts then e.debit else 0)
      && LockedCredits(with, n) == LockedCredits(without, n) + (if counts then e.credit else 0)
  {
    if n > 0 {
      TotalsAppend(b, rest, e, n - 1);
      assert (rest + [e])[..|rest|] == rest;
    }
  }

  /** The trial balance over all locked journals agrees, counted by entry. */
  lemma TrialBalance(b: Books)
    requires Valid(b) && Balanced(b)
    ensures Posted(b, b.entries).0 == Posted(b, b.entries).1
  {
    PostedByJournal(b, b.entries, |b.locked|);
    TotalsAgree(b, |b.locked|);
  }

  lemma {:induction false} TotalsAgree(b: Books, n: nat)
    requires Balanced(b) && n <= |b.locked|
    ensures LockedDebits(b, n) == LockedCredits(b, n)
  {
    if n > 0 {
      TotalsAgree(b, n - 1);
    }
  }

  class Accounting {
    var locked: seq<bool>
    var entries: seq<Entry>

    ghost function Contents(): Books
      reads this
    {
      Books(locked, entries)
    }

    constructor ()
      ensures Contents() == Books([], [])
    {
      locked, entries := [], [];
    }

    method AddJournal(lock: bool)
      modifies this
      ensures Contents() == Step(old(Contents()), InsertJournal(lock)).books
      ensures old(Valid(Contents()) && Balanced(Contents())) ==> Valid(Contents()) && Balanced(Contents())
      ensures old(Valid(Contents())) ==> Debits(entries, |locked| - 1) == 0 == Credits(entries, |locked| - 1)
    {
      if Valid(Contents()) {
        UnusedJournal(entries, |locked|);
        if Balanced(Contents()) {
          LockedJournalsBalance(Contents(), [InsertJournal(lock)]);
        }
      }
      locked := locked + [lock];
    }

    /** The trigger fires on updates that set is_locked, and checks only the step to locked. */
    method UpdateJournalLock(j: nat, lock: bool) returns (o: Outcome)
      modifies this
      ensures
        var n := Step(old(Contents()), SetLocked(j, lock));
        o == n.outcome && Contents() == n.books
      ensures o == Done && lock && !old(locked)[j] ==> Debits(entries, j) == Credits(entries, j)
      ensures old(Valid(Contents()) && Balanced(Contents())) ==> Valid(Contents()) && Balanced(Contents())
    {
      if Valid(Contents()) && Balanced(Contents()) {
        LockedJournalsBalance(Contents(), [SetLocked(j, lock)]);
      }
      if j >= |locked| {
        return NoRow;
      }
      if !locked[j] && lock {
        var debit := Debits(entries, j);
        var credit := Credits(entries, j);
        if debit >= SUM_LIMIT || credit >= SUM_LIMIT {
          return OutOfRange;
        }
        if debit != credit {
          return NotBalanced;
        }
      }
      locked := locked[j := lock];
      return Done;
    }

    /** The BEFORE trigger on the journal the new row names, then the row's own constraints. */
    method GuardEntry(e: Entry) returns (o: Outcome)
      ensures o == Step(Contents(), InsertEntry(e)).outcome
      ensures o == Done <==> WellFormed(e) && e.journal < |locked| && !locked[e.journal]
    {
      if e.journal < |locked| && locked[e.journal] {
        return JournalLocked;
      }
      if !WellFormed(e) {
        return CheckFailed;
      }
      o := if e.journal >= |locked| then NoJournal else Done;
    }

    method AddEntry(e: Entry) returns (o: Outcome)
      modifies this
      ensures
        var n := Step(old(Contents()), InsertEntry(e));
        o == n.outcome && Contents() == n.books
      ensures old(Valid(Contents()) && Balanced(Contents())) ==> Valid(Contents()) && Balanced(Contents())
      ensures o == Done ==> entries == old(entries) + [e]
      ensures o == Done ==> forall j: nat ::
        && Debits(entries, j) == old(Debits(entries, j)) + Amounts(e, j).0
        && Credits(entries, j) == old(Credits(entries, j)) + Amounts(e, j).1
    {
      if Valid(Contents()) && Balanced(Contents()) {
        LockedJournalsBalance(Contents(), [InsertEntry(e)]);
      }
      forall j: nat {
        StepBooks(Contents(), InsertEntry(e), j);
      }
      o := GuardEntry(e);
      if o == Done {
        entries := entries + [e];
      }
    }

    method ChangeEntry(id: nat, e: Entry) returns (o: Outcome)
      modifies this
      ensures
        var n := Step(old(Contents()), UpdateEntry(id, e));
        o == n.outcome && Contents() == n.books
      ensures old(Valid(Contents()) && Balanced(Contents())) ==>
        && Valid(Contents())
        && (Balanced(Contents()) <==> !(o == Done && old(TakesFromLocked(Contents(), UpdateEntry(id, e)))))
      ensures o == Done ==> id < |old(entries)| && forall j: nat ::
        && Debits(entries, j) == old(Debits(entries, j)) - Amounts(old(entries)[id], j).0 + Amounts(e, j).0
        && Credits(entries, j) == old(Credits(entries, j)) - Amounts(old(entries)[id], j).1 + Amounts(e, j).1
    {
      forall j: nat {
        StepBooks(Contents(), UpdateEntry(id, e), j);
      }
      if Valid(Contents()) && Balanced(Contents()) {
        StepValid(Contents(), UpdateEntry(id, e));
        if Step(Contents(), UpdateEntry(id, e)).outcome == Done {
          StepBalanced(Contents(), UpdateEntry(id, e));
        }
      }
      if id >= |entries| {
        return NoRow;
      }
      o := GuardEntry(e);
      if o == Done {
        entries := entries[id := e];
      }
    }

    /**
      The setting that allows physical deletes does not reach a locked journal: there the second
      trigger, falling back on the old row's journal, refuses. The soft delete is an update.
     */
    method RemoveEntry(id: nat, allowed: bool) returns (o: Outcome)
      modifies this
      ensures
        var n := Step(old(Contents()), DeleteEntry(id, allowed));
        o == n.outcome && Contents() == n.books
      ensures o != Done ==> Contents() == old(Contents())
      ensures forall j: nat :: JournalIsLocked(Contents(), j) ==>
        Debits(entries, j) == old(Debits(entries, j)) && Credits(entries, j) == old(Credits(entries, j))
      ensures old(Valid(Contents()) && Balanced(Contents())) ==> Valid(Contents()) && Balanced(Contents())
    {
      forall j: nat | JournalIsLocked(Contents(), j)
        ensures
          var n := Step(Contents(), DeleteEntry(id, allowed)).books;
          Debits(n.entries, j) == Debits(entries, j) && Credits(n.entries, j) == Credits(entries, j)
      {
        DeleteKeepsLocked(Contents(), id, allowed, j);
      }
      if Valid(Contents()) && Balanced(Contents()) {
        LockedJournalsBalance(Contents(), [DeleteEntry(id, allowed)]);
      }
      if id >= |entries| {
        return NoRow;
      }
      if !allowed {
        return DeleteForbidden;
      }
      var j := entries[id].journal;
      if j < |locked| && locked[j] {
        return JournalLocked;
      }
      entries := entries[..id] + entries[id + 1..];
      return Done;
    }
  }
}
