/** Contact points: at most one live primary per user and type, at every statement of every call. */
module Contacts {
  import opened Identity
  import opened Wrappers

  /** What a call sets besides the primary flag. */
  datatype Fields = Fields(caption: Option<string>, value: string, preferred: bool, allow: bool, note: Option<string>)

  /** Contacts are never physically deleted; a contact's place in its table stands for its UUID. */
  datatype Contact = Contact(user: UserId, kind: string, fields: Fields, primary: bool, deleted: bool)

  const KINDS: set<string> := {"email", "phone", "mobile", "fax", "website", "other"}

  /** The rows the partial unique index sees. */
  predicate Indexed(c: Contact) { c.primary && !c.deleted }

  predicate Clash(c: Contact, d: Contact) {
    Indexed(c) && Indexed(d) && c.user == d.user && c.kind == d.kind
  }

  /** The index holds. */
  ghost predicate Unique(rows: seq<Contact>) {
    forall i, j :: 0 <= i < j < |rows| ==> !Clash(rows[i], rows[j])
  }

  datatype Statement =
    | ClearPrimary(user: UserId, kind: string, exclude: Option<nat>)
    | InsertRow(row: Contact)
    | UpdateLive(id: nat, fields: Fields, primary: bool)
    | SoftDelete(id: nat)

  predicate Cleared(c: Contact, i: nat, s: Statement)
    requires s.ClearPrimary?
  {
    c.user == s.user && c.kind == s.kind && Indexed(c) && s.exclude != Some(i)
  }

  /** The statement's effect on the table, before the index is asked. */
  function Effect(rows: seq<Contact>, s: Statement): seq<Contact> {
    match s
    case ClearPrimary(_, _, _) =>
      seq(|rows|, i requires 0 <= i < |rows| => if Cleared(rows[i], i, s) then rows[i].(primary := false) else rows[i])
    case InsertRow(c) =>
      rows + [c]
    case UpdateLive(id, fields, primary) =>
      if id < |rows| && !rows[id].deleted then rows[id := rows[id].(fields := fields, primary := primary)] else rows
    case SoftDelete(id) =>
      if id < |rows| && !rows[id].deleted then rows[id := rows[id].(deleted := true)] else rows
  }

  datatype Call =
    | Create(user: UserId, kind: string, fields: Fields, primary: bool)
    | Update(user: UserId, id: nat, fields: Fields, primary: bool)
    | Delete(user: UserId, id: nat)

  datatype Outcome = Done | InvalidKind | NotFound | NoUser | IndexViolated

  /** GetContact, then the owner check. */
  predicate Owned(rows: seq<Contact>, user: UserId, id: nat) {
    id < |rows| && !rows[id].deleted && rows[id].user == user
  }

  /** The statements of the call's transaction. */
  function Statements(rows: seq<Contact>, c: Call): seq<Statement>
    requires !c.Create? ==> c.id < |rows|
  {
    match c
    case Create(user, kind, fields, primary) =>
      (if primary then [ClearPrimary(user, kind, None)] else [])
      + [InsertRow(Contact(user, kind, fields, primary, false))]
    case Update(user, id, fields, primary) =>
      (if primary then [ClearPrimary(rows[id].user, rows[id].kind, Some(id))] else [])
      + [UpdateLive(id, fields, primary)]
    case Delete(_, id) =>
      [SoftDelete(id)]
  }

  /** The table after each statement, as far as the index let them through. */
  ghost function States(rows: seq<Contact>, ss: seq<Statement>): seq<seq<Contact>>
    decreases ss
  {
    if ss == [] || !Unique(Effect(rows, ss[0])) then []
    else [Effect(rows, ss[0])] + States(Effect(rows, ss[0]), ss[1..])
  }

  datatype Next = Next(rows: seq<Contact>, outcome: Outcome)

  ghost function Step(users: set<UserId>, rows: seq<Contact>, c: Call): Next {
    if c.Create? && c.kind !in KINDS then Next(rows, InvalidKind)
    else if c.Create? && c.user !in users then Next(rows, NoUser)
    else if !c.Create? && !Owned(rows, c.user, c.id) then Next(rows, NotFound)
    else
      var states := States(rows, Statements(rows, c));
      if |states| < |Statements(rows, c)| then Next(rows, IndexViolated)
      else Next(states[|states| - 1], Done)
  }

  lemma ClearKeepsUnique(rows: seq<Contact>, s: Statement)
    requires Unique(rows) && s.ClearPrimary?
    ensures Unique(Effect(rows, s))
  {
    var n := Effect(rows, s);
    forall i, j | 0 <= i < j < |n|
      ensures !Clash(n[i], n[j])
    {
      assert !Clash(rows[i], rows[j]);
    }
  }

  /** Writing row i as c keeps the index exactly when no other indexed row has its user and type. */
  lemma WriteUnique(rows: seq<Contact>, i: nat, c: Contact)
    requires i <= |rows| && Unique(rows)
    ensures
      var n := if i == |rows| then rows + [c] else rows[i := c];
      Unique(n) <==> forall k :: 0 <= k < |rows| && k != i ==> !Clash(rows[k], c)
  {
    var n := if i == |rows| then rows + [c] else rows[i := c];
    assert n[i] == c;
    forall k | 0 <= k < |rows| && k != i
      ensures n[k] == rows[k]
    {
    }
    if forall k :: 0 <= k < |rows| && k != i ==> !Clash(rows[k], c) {
      forall a, b | 0 <= a < b < |n|
        ensures !Clash(n[a], n[b])
      {
        assert a != i && b != i ==> !Clash(rows[a], rows[b]);
      }
    }
  }

  /** The table when the call's last statement runs. */
  function AfterClear(rows: seq<Contact>, c: Call): seq<Contact>
    requires !c.Create? ==> c.id < |rows|
  {
    var ss := Statements(rows, c);
    if |ss| == 2 then Effect(rows, ss[0]) else rows
  }

  lemma AcceptsBoth(rows: seq<Contact>, c: Call)
    requires Unique(rows) && (!c.Create? ==> Owned(rows, c.user, c.id))
    ensures
      var ss := Statements(rows, c);
      Unique(AfterClear(rows, c)) && Unique(Effect(AfterClear(rows, c), ss[|ss| - 1]))
  {
    var ss := Statements(rows, c);
    var target := if c.Create? then |rows| else c.id;
    var cleared := AfterClear(rows, c);
    if |ss| == 2 {
      ClearKeepsUnique(rows, ss[0]);
    }
    var row := Effect(cleared, ss[|ss| - 1])[target];
    WriteUnique(cleared, target, row);
    forall k | 0 <= k < |rows| && k != target
      ensures !Clash(cleared[k], row)
    {
      if !c.Create? {
        assert k < target ==> !Clash(rows[k], rows[target]);
        assert target < k ==> !Clash(rows[target], rows[k]);
      }
    }
  }

  /**
    A call that passes its checks: the index accepts every statement and holds after each, the
    last state is the result, rows of other users and types are untouched, and a primary target
    ends as the only primary of its type.
   */
  lemma CallAccepted(users: set<UserId>, rows: seq<Contact>, c: Call)
    requires Unique(rows)
    requires c.Create? ==> c.kind in KINDS && c.user in users
    requires !c.Create? ==> Owned(rows, c.user, c.id)
    ensures
      var ss := Statements(rows, c);
      var states := States(rows, ss);
      var n := Step(users, rows, c);
      var target := if c.Create? then |rows| else c.id;
      var kind := if c.Create? then c.kind else rows[c.id].kind;
      && |states| == |ss| && (forall t <- states :: Unique(t))
      && (c.Update? && c.primary ==> |states[0]| == |rows| && states[0][c.id] == rows[c.id])
      && n.outcome == Done && Unique(n.rows) && |rows| <= |n.rows| && target < |n.rows|
      && n.rows[target].user == c.user && n.rows[target].kind == kind
      && n.rows[target].deleted == c.Delete?
      && (!c.Delete? ==> n.rows[target].fields == c.fields && n.rows[target].primary == c.primary)
      && (forall k :: 0 <= k < |rows| && k != target ==>
            n.rows[k]
            == if !c.Delete? && c.primary && rows[k].user == c.user && rows[k].kind == kind && Indexed(rows[k])
               then rows[k].(primary := false) else rows[k])
  {
    var ss := Statements(rows, c);
    var cleared := AfterClear(rows, c);
    var last := ss[|ss| - 1];
    AcceptsBoth(rows, c);
    assert States(cleared, [last]) == [Effect(cleared, last)];
    if |ss| == 2 {
      assert ss[1..] == [ss[1]];
    }
  }

  /**
    With the index holding, a call is refused exactly for its kind, an unknown user, or a contact that is
    missing, deleted or another user's. A refused call changes nothing.
   */
  lemma RefusedExact(users: set<UserId>, rows: seq<Contact>, c: Call)
    requires Unique(rows)
    ensures
      var n := Step(users, rows, c);
      var theirs := !c.Create? && c.id < |rows| && !rows[c.id].deleted && rows[c.id].user == c.user;
      var known := c.Create? && c.kind in {"email", "phone", "mobile", "fax", "website", "other"};
      && (n.outcome == InvalidKind <==> c.Create? && !known)
      && (n.outcome == NoUser <==> known && c.user !in users)
      && (n.outcome == NotFound <==> !c.Create? && !theirs)
      && (n.outcome == Done <==> theirs || (known && c.user in users))
      && (n.outcome != Done ==> n.rows == rows)
  {
    if (c.Create? && c.kind in KINDS && c.user in users) || (!c.Create? && Owned(rows, c.user, c.id)) {
      CallAccepted(users, rows, c);
    }
  }

  ghost function Run(users: set<UserId>, rows: seq<Contact>, cs: seq<Call>): seq<Contact>
    decreases cs
  {
    if cs == [] then rows else Run(users, Step(users, rows, cs[0]).rows, cs[1..])
  }

  ghost predicate NeverViolated(users: set<UserId>, rows: seq<Contact>, cs: seq<Call>)
    decreases cs
  {
    cs == [] ||
    var n := Step(users, rows, cs[0]);
    n.outcome != IndexViolated && NeverViolated(users, n.rows, cs[1..])
  }

  /** Over every serial run of calls, the index holds and never refuses one. */
  lemma {:induction false} PrimaryUnique(users: set<UserId>, rows: seq<Contact>, cs: seq<Call>)
    requires Unique(rows)
    ensures Unique(Run(users, rows, cs)) && NeverViolated(users, rows, cs)
    decreases cs
  {
    if cs != [] {
      var c := cs[0];
      if (c.Create? && c.kind in KINDS && c.user in users) || (!c.Create? && Owned(rows, c.user, c.id)) {
        CallAccepted(users, rows, c);
      }
      PrimaryUnique(users, Step(users, rows, c).rows, cs[1..]);
    }
  }

  class ContactService {
    var users: set<UserId>
    var rows: seq<Contact>

    constructor (users: set<UserId>)
      ensures this.users == users && rows == []
    {
      this.users := users;
      rows := [];
    }

    /** One statement; the index is checked at once, and a violation leaves the table as it was. */
    method Execute(s: Statement) returns (ok: bool)
      modifies this`rows
      ensures ok <==> Unique(Effect(old(rows), s))
      ensures rows == if ok then Effect(old(rows), s) else old(rows)
    {
      var after := Effect(rows, s);
      ok := forall i, j :: 0 <= i < |after| && i < j < |after| ==> !Clash(after[i], after[j]);
      if ok {
        rows := after;
      }
    }

    method CreateContact(user: UserId, kind: string, fields: Fields, primary: bool) returns (o: Outcome)
      requires Unique(rows)
      modifies this`rows
      ensures
        var n := Step(users, old(rows), Create(user, kind, fields, primary));
        o == n.outcome && rows == n.rows
    {
      if kind !in KINDS {
        return InvalidKind;
      }
      if user !in users {
        return NoUser;
      }
      CallAccepted(users, rows, Create(user, kind, fields, primary));
      var insert := InsertRow(Contact(user, kind, fields, primary, false));
      if primary {
        var clear := ClearPrimary(user, kind, None);
        assert Statements(rows, Create(user, kind, fields, primary)) == [clear, insert];
        Chain(rows, [clear, insert]);
        var ok := Execute(clear);
        ok := Execute(insert);
      } else {
        Chain(rows, [insert]);
        var ok := Execute(insert);
      }
      return Done;
    }

    method UpdateContact(user: UserId, id: nat, fields: Fields, primary: bool) returns (o: Outcome)
      requires Unique(rows)
      modifies this`rows
      ensures
        var n := Step(users, old(rows), Update(user, id, fields, primary));
        o == n.outcome && rows == n.rows
    {
      if id >= |rows| || rows[id].deleted {
        return NotFound;
      }
      var existing := rows[id];
      if existing.user != user {
        return NotFound;
      }
      CallAccepted(users, rows, Update(user, id, fields, primary));
      var update := UpdateLive(id, fields, primary);
      if primary {
        var clear := ClearPrimary(existing.user, existing.kind, Some(id));
        assert Statements(rows, Update(user, id, fields, primary)) == [clear, update];
        Chain(rows, [clear, update]);
        var ok := Execute(clear);
        ok := Execute(update);
      } else {
        Chain(rows, [update]);
        var ok := Execute(update);
      }
      return Done;
    }

    method DeleteContact(user: UserId, id: nat) returns (o: Outcome)
      requires Unique(rows)
      modifies this`rows
      ensures
        var n := Step(users, old(rows), Delete(user, id));
        o == n.outcome && rows == n.rows
    {
      if id >= |rows| || rows[id].deleted || rows[id].user != user {
        return NotFound;
      }
      CallAccepted(users, rows, Delete(user, id));
      Chain(rows, [SoftDelete(id)]);
      var ok := Execute(SoftDelete(id));
      return Done;
    }
  }

  /** The states of a transaction of one or two statements. */
  lemma Chain(rows: seq<Contact>, ss: seq<Statement>)
    requires 1 <= |ss| <= 2 && |States(rows, ss)| == |ss|
    ensures Unique(Effect(rows, ss[0])) && States(rows, ss)[0] == Effect(rows, ss[0])
    ensures |ss| == 2 ==>
      && Unique(Effect(Effect(rows, ss[0]), ss[1]))
      && States(rows, ss)[1] == Effect(Effect(rows, ss[0]), ss[1])
  {
    if |ss| == 2 {
      var one := Effect(rows, ss[0]);
      assert ss[1..] == [ss[1]];
      assert |States(one, ss[1..])| == 1;
      assert States(Effect(one, ss[1]), []) == [];
    }
  }
}
