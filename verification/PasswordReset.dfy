/** Password reset by mailed link: the store keeps one link per user, and the history decides. */
module PasswordReset {
  import opened Clock
  import opened Identity
  import opened Meta
  import opened Wrappers

  const TOKEN_EXPIRY: int := 60 * MINUTE
  const MAX_PASSWORD_BYTES: nat := 72

  datatype Event =
    | Forgot(found: bool, link: Hash, now: Time)
    | Reset(found: bool, token: string, now: Time, password: seq<Byte>, hashed: Hash)

  datatype Outcome =
    | NoAccount | LinkSent
    | UserMissing | AlreadyUsed | NoRequest | LinkExpired | InvalidLink | PasswordRejected | PasswordChanged

  /** What one user's calls depend on: the entries and the password hash. */
  datatype State = State(m: Entries, password: Hash)

  datatype Next = Next(state: State, outcome: Outcome)

  predicate Hashable(password: seq<Byte>) {
    0 < |password| <= MAX_PASSWORD_BYTES
  }

  function Step(s: State, e: Event, matches: Matcher): Next {
    match e
    case Forgot(found, link, now) =>
      if !found then Next(s, NoAccount)
      else
        var sent := s.m[ResetTokenHash := Digest(link)][ResetExpires := Stamp(ToSeconds(now + TOKEN_EXPIRY))];
        Next(s.(m := sent - {ResetUsed}), LinkSent)
    case Reset(found, token, now, password, hashed) =>
      if !found then Next(s, UserMissing)
      else if FlagSet(s.m, ResetUsed) then Next(s, AlreadyUsed)
      else if ResetExpires !in s.m then Next(s, NoRequest)
      else if !s.m[ResetExpires].Stamp? || s.m[ResetExpires].at < now then Next(s, LinkExpired)
      else if ResetTokenHash !in s.m then Next(s, NoRequest)
      else if !s.m[ResetTokenHash].Digest? || !matches(s.m[ResetTokenHash].h, token) then Next(s, InvalidLink)
      else if !Hashable(password) then Next(s, PasswordRejected)
      else Next(State(s.m[ResetUsed := Text("true")], hashed), PasswordChanged)
  }

  /** The machine looks at its own three keys only, and leaves those of the email factor alone. */
  lemma IgnoresEmail(s: State, e: Event, matches: Matcher)
    ensures
      var n, own := Step(s, e, matches), Step(State(Part(s.m, RESET_KEYS), s.password), e, matches);
      && n.outcome == own.outcome
      && n.state.password == own.state.password
      && Part(n.state.m, RESET_KEYS) == own.state.m
      && Part(n.state.m, EMAIL_KEYS) == Part(s.m, EMAIL_KEYS)
  {
  }

  /** The state before the i-th call of a run. */
  function Before(s: State, es: seq<Event>, i: nat, matches: Matcher): State
    requires i <= |es|
  {
    if i == 0 then s else Step(Before(s, es, i - 1, matches), es[i - 1], matches).state
  }

  function OutcomeAt(s: State, es: seq<Event>, i: nat, matches: Matcher): Outcome
    requires i < |es|
  {
    Step(Before(s, es, i, matches), es[i], matches).outcome
  }

  predicate Sends(e: Event) { e.Forgot? && e.found }

  predicate NoLink(m: Entries) {
    ResetTokenHash !in m && ResetExpires !in m && ResetUsed !in m
  }

  predicate KeepsOpen(s: State, es: seq<Event>, k: nat, matches: Matcher)
    requires k < |es|
  {
    !Sends(es[k]) && OutcomeAt(s, es, k, matches) != PasswordChanged
  }

  /** No link was sent and no password changed after j and before i. */
  ghost predicate StillOpen(s: State, es: seq<Event>, j: nat, i: nat, matches: Matcher)
    requires i <= |es|
  {
    forall k: nat :: j < k < i ==> KeepsOpen(s, es, k, matches)
  }

  lemma StillOpenStep(s: State, es: seq<Event>, j: nat, i: nat, matches: Matcher)
    requires j < i <= |es| && i - 1 > j
    ensures
      StillOpen(s, es, j, i, matches) <==>
        && StillOpen(s, es, j, i - 1, matches)
        && KeepsOpen(s, es, i - 1, matches)
  {
  }

  /** A call that sends no link changes the entries only by using up an open one. */
  lemma NoSendStep(s: State, e: Event, matches: Matcher)
    requires !Sends(e)
    ensures
      var n := Step(s, e, matches);
      if n.outcome == PasswordChanged
      then ResetTokenHash in s.m && !FlagSet(s.m, ResetUsed) && n.state.m == s.m[ResetUsed := Text("true")]
      else n.state.m == s.m
  {
  }

  /** The link and expiry of the call are stored. */
  predicate Remembers(m: Entries, e: Event) {
    && Sends(e)
    && ResetTokenHash in m && m[ResetTokenHash] == Digest(e.link)
    && ResetExpires in m && m[ResetExpires] == Stamp(ToSeconds(e.now + TOKEN_EXPIRY))
  }

  lemma SendStep(s: State, e: Event, matches: Matcher)
    requires Sends(e)
    ensures Remembers(Step(s, e, matches).state.m, e) && !FlagSet(Step(s, e, matches).state.m, ResetUsed)
  {
  }

  lemma StillRemembers(s: State, e: Event, was: Event, matches: Matcher)
    requires Remembers(s.m, was) && !Sends(e)
    ensures
      var n := Step(s, e, matches);
      && Remembers(n.state.m, was)
      && (FlagSet(n.state.m, ResetUsed) <==> FlagSet(s.m, ResetUsed) || n.outcome == PasswordChanged)
  {
    NoSendStep(s, e, matches);
  }

  /** The store remembers the latest link sent, and whether it was used. */
  lemma {:induction false} Latest(s: State, es: seq<Event>, i: nat, matches: Matcher) returns (j: int)
    requires NoLink(s.m) && i <= |es|
    ensures -1 <= j < i
    ensures forall k :: j < k < i ==> !Sends(es[k])
    ensures
      var m := Before(s, es, i, matches).m;
      if j == -1 then NoLink(m)
      else
        && Remembers(m, es[j])
        && (FlagSet(m, ResetUsed) <==> !StillOpen(s, es, j, i, matches))
  {
    if i == 0 {
      j := -1;
    } else if Sends(es[i - 1]) {
      j := i - 1;
      SendStep(Before(s, es, i - 1, matches), es[i - 1], matches);
    } else {
      j := Latest(s, es, i - 1, matches);
      if j >= 0 {
        StillRemembers(Before(s, es, i - 1, matches), es[i - 1], es[j], matches);
        StillOpenStep(s, es, j, i, matches);
      } else {
        NoSendStep(Before(s, es, i - 1, matches), es[i - 1], matches);
      }
    }
  }

  /** The j-th call sent the link that the i-th call may use. */
  ghost predicate Redeems(s: State, es: seq<Event>, j: nat, i: nat, matches: Matcher)
    requires i < |es| && es[i].Reset? && j < i
  {
    && Sends(es[j])
    && StillOpen(s, es, j, i, matches)
    && es[i].now <= ToSeconds(es[j].now + 60 * MINUTE)
    && matches(es[j].link, es[i].token)
  }

  /**
    A reset succeeds exactly when the user exists, the password can be hashed, and the token is for
    the latest link sent, in time, with no successful reset since.
   */
  lemma ResetExact(s: State, es: seq<Event>, i: nat, matches: Matcher)
    requires NoLink(s.m) && i < |es| && es[i].Reset?
    ensures
      OutcomeAt(s, es, i, matches) == PasswordChanged <==>
        && es[i].found && 0 < |es[i].password| <= 72
        && exists j: nat :: j < i && Redeems(s, es, j, i, matches)
    ensures
      Before(s, es, i + 1, matches).password ==
        if OutcomeAt(s, es, i, matches) == PasswordChanged then es[i].hashed
        else Before(s, es, i, matches).password
  {
    var j := Latest(s, es, i, matches);
    if j >= 0 {
      assert OutcomeAt(s, es, i, matches) == PasswordChanged <==>
        es[i].found && Hashable(es[i].password) && Redeems(s, es, j, i, matches);
    }
    forall k: nat | k < i && Redeems(s, es, k, i, matches)
      ensures k == j
    {
      assert k < j ==> KeepsOpen(s, es, j, matches);
    }
  }

  /** Why a reset is refused: it then changes nothing. */
  lemma RefusalExact(s: State, e: Event, matches: Matcher)
    requires e.Reset?
    ensures
      var n := Step(s, e, matches);
      var used := ResetUsed in s.m && s.m[ResetUsed] == Text("true");
      var late := ResetExpires in s.m && !(s.m[ResetExpires].Stamp? && e.now <= s.m[ResetExpires].at);
      var none := ResetExpires !in s.m || (!late && ResetTokenHash !in s.m);
      var right := ResetTokenHash in s.m && s.m[ResetTokenHash].Digest? && matches(s.m[ResetTokenHash].h, e.token);
      && (n.outcome == UserMissing <==> !e.found)
      && (n.outcome == AlreadyUsed <==> e.found && used)
      && (n.outcome == LinkExpired <==> e.found && !used && late)
      && (n.outcome == NoRequest <==> e.found && !used && none)
      && (n.outcome == InvalidLink <==> e.found && !used && !late && !none && !right)
      && (n.outcome == PasswordRejected <==>
            e.found && !used && !late && !none && right && !(0 < |e.password| <= 72))
      && (n.outcome != PasswordChanged ==> n.state == s)
  {
  }

  function Total(s: State, es: seq<Event>, i: nat, o: Outcome, matches: Matcher): nat
    requires i <= |es|
  {
    if i == 0 then 0
    else Total(s, es, i - 1, o, matches) + if OutcomeAt(s, es, i - 1, matches) == o then 1 else 0
  }

  /** Over any run, successful resets never exceed links sent. */
  lemma {:induction false} ResetsWithinLinks(s: State, es: seq<Event>, i: nat, matches: Matcher)
    requires NoLink(s.m) && i <= |es|
    ensures
      var m := Before(s, es, i, matches).m;
      var unused := if ResetTokenHash in m && !FlagSet(m, ResetUsed) then 1 else 0;
      Total(s, es, i, PasswordChanged, matches) + unused <= Total(s, es, i, LinkSent, matches)
  {
    if i > 0 {
      ResetsWithinLinks(s, es, i - 1, matches);
    }
  }

  /** A password that cannot be hashed costs nothing: the same link still works. */
  lemma RejectedPasswordKeepsLink(s: State, e: Event, later: Time, password: seq<Byte>, matches: Matcher)
    requires Step(s, e, matches).outcome == PasswordRejected
    requires Hashable(password)
    ensures
      var n := Step(s, e, matches).state;
      && n == s && ResetExpires in s.m && s.m[ResetExpires].Stamp?
      && (Step(n, e.(password := password, now := later), matches).outcome == PasswordChanged
          <==> later <= s.m[ResetExpires].at)
  {
  }

  class ResetService {
    const store: Store
    const matches: Matcher
    var passwords: map<UserId, Hash>

    constructor (store: Store, matches: Matcher)
      ensures this.store == store && this.matches == matches
    {
      this.store := store;
      this.matches := matches;
      passwords := map[];
    }

    ghost function StateOf(u: UserId): State
      requires u in passwords
      reads this, store
    {
      State(Of(store.table, u), passwords[u])
    }

    /** account is the live account with the address, if any; an unknown address is not reported. */
    method ForgotPassword(account: Option<UserId>, link: Hash, now: Time) returns (o: Outcome)
      requires account.Some? ==> account.value in passwords
      modifies store
      ensures account.None? ==> o == NoAccount && store.table == old(store.table)
      ensures account.Some? ==>
        var n := Step(old(StateOf(account.value)), Forgot(true, link, now), matches);
        o == n.outcome && store.table == Put(old(store.table), account.value, n.state.m)
    {
      if account.None? {
        return NoAccount;
      }
      var u := account.value;
      ghost var before := store.table;
      store.Set(u, ResetTokenHash, Digest(link));
      store.Set(u, ResetExpires, Stamp(ToSeconds(now + TOKEN_EXPIRY)));
      store.Delete(u, ResetUsed);
      PutUnique(before, store.table, u, Of(store.table, u));
      return LinkSent;
    }

    method ResetPassword(u: UserId, token: string, now: Time, password: seq<Byte>, hashed: Hash) returns (o: Outcome)
      modifies this`passwords, store
      ensures u !in old(passwords) ==>
        o == UserMissing && store.table == old(store.table) && passwords == old(passwords)
      ensures u in old(passwords) ==>
        var n := Step(old(StateOf(u)), Reset(true, token, now, password, hashed), matches);
        && o == n.outcome && store.table == Put(old(store.table), u, n.state.m)
        && passwords == old(passwords)[u := n.state.password]
    {
      if u !in passwords {
        return UserMissing;
      }
      PutSame(store.table, u);
      var used := store.Get(u, ResetUsed);
      if used == Some(Text("true")) {
        return AlreadyUsed;
      }
      var expires := store.Get(u, ResetExpires);
      if expires.None? {
        return NoRequest;
      }
      if !expires.value.Stamp? || expires.value.at < now {
        return LinkExpired;
      }
      var hash := store.Get(u, ResetTokenHash);
      if hash.None? {
        return NoRequest;
      }
      if !hash.value.Digest? || !matches(hash.value.h, token) {
        return InvalidLink;
      }
      if !Hashable(password) {
        return PasswordRejected;
      }
      passwords := passwords[u := hashed];
      store.Set(u, ResetUsed, Text("true"));
      return PasswordChanged;
    }
  }
}
