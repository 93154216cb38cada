/** The users_meta store: one text value per user and key, and the secrets kept in it. */
module Meta {
  import opened Clock
  import opened Identity
  import opened Wrappers

  datatype Key =
    | EmailEnabled | EmailOtpHash | EmailExpires | EmailAttempts | EmailLocked
    | ResetTokenHash | ResetExpires | ResetUsed

  const EMAIL_KEYS: set<Key> := {EmailEnabled, EmailOtpHash, EmailExpires, EmailAttempts, EmailLocked}
  const RESET_KEYS: set<Key> := {ResetTokenHash, ResetExpires, ResetUsed}

  /** A stored text, tagged by the parser that accepts it. */
  datatype Value =
    | Text(s: string)
    | Digest(h: Hash)
    | Stamp(at: Time)
    | Count(n: int)

  type Entries = map<Key, Value>

  /** The entries under some of the keys. */
  function Part(m: Entries, keys: set<Key>): Entries {
    map k | k in m && k in keys :: m[k]
  }

  /** Only users with at least one entry have rows. */
  type Table = t: map<UserId, Entries> | forall u <- t :: t[u] != map[] witness map[]

  function Of(t: Table, u: UserId): Entries {
    if u in t then t[u] else map[]
  }

  function Put(t: Table, u: UserId, m: Entries): (r: Table)
    ensures Of(r, u) == m
    ensures forall v: UserId :: v != u ==> Of(r, v) == Of(t, v)
  {
    if m == map[] then t - {u} else t[u := m]
  }

  /** The text "true" switches a flag on; any other text or none leaves it off. */
  predicate FlagSet(m: Entries, k: Key) {
    k in m && m[k] == Text("true")
  }

  /** A table is fixed by what each user's entries are. */
  lemma PutUnique(t: Table, r: Table, u: UserId, m: Entries)
    requires Of(r, u) == m
    requires forall v: UserId :: v != u ==> Of(r, v) == Of(t, v)
    ensures r == Put(t, u, m)
  {
    var p := Put(t, u, m);
    forall v: UserId
      ensures v in r <==> v in p
      ensures v in r ==> r[v] == p[v]
    {
      assert Of(r, v) == Of(p, v);
    }
  }

  lemma PutSame(t: Table, u: UserId)
    ensures Put(t, u, Of(t, u)) == t
  {
    PutUnique(t, t, u, Of(t, u));
  }

  class Store {
    var table: Table

    constructor ()
      ensures table == map[]
    {
      table := map[];
    }

    method Get(u: UserId, k: Key) returns (v: Option<Value>)
      ensures v == if k in Of(table, u) then Some(Of(table, u)[k]) else None
    {
      if u in table && k in table[u] {
        v := Some(table[u][k]);
      } else {
        v := None;
      }
    }

    method Set(u: UserId, k: Key, v: Value)
      modifies this
      ensures table == Put(old(table), u, Of(old(table), u)[k := v])
    {
      var entries := Of(table, u)[k := v];
      assert k in entries;
      table := table[u := entries];
    }

    method Delete(u: UserId, k: Key)
      modifies this
      ensures table == Put(old(table), u, Of(old(table), u) - {k})
    {
      if u in table && k in table[u] {
        var rest := table[u] - {k};
        table := if rest == map[] then table - {u} else table[u := rest];
      } else {
        assert Of(table, u) - {k} == Of(table, u);
        PutSame(table, u);
      }
    }
  }
}
