/** The login flow over both second factors, as one transition system over all users. */
module Login {
  import opened Clock
  import opened Identity
  import opened Wrappers
  import EmailOtp
  import Meta
  import PasswordReset
  import Tokens
  import Totp

  const PENDING_TTL: int := 5 * MINUTE

  datatype Account = Account(live: bool, active: bool, anonymized: bool, password: Hash)

  datatype State = State(
    accounts: map<UserId, Account>, totp: Totp.Table, meta: Meta.Table, issued: seq<Tokens.Token>)

  /** The signing key and the foreign checks. */
  datatype Env = Env(tm: Tokens.TokenManager, checks: Totp.Checks)

  /** now is the clock when a token is issued, seen when one is verified. */
  datatype Event =
    | Enter(account: Option<UserId>, password: string, now: Time, otp: Hash, otpNow: Time)
    | VerifyTotp(token: Tokens.Token, seen: Time, code: string, totpClock: Totp.Reads, now: Time)
    | Recover(token: Tokens.Token, seen: Time, code: string, now: Time)
    | VerifyEmail(token: Tokens.Token, seen: Time, code: string, emailClock: EmailOtp.Reads, now: Time)
    | Resend(token: Tokens.Token, seen: Time, otp: Hash, now: Time)
    | TotpCall(user: UserId, totpEvent: Totp.Event)
    | EmailCall(user: UserId, emailEvent: EmailOtp.Event)
    | Forgot(account: Option<UserId>, link: Hash, now: Time)
    | Reset(user: UserId, resetToken: string, now: Time, newPassword: seq<Byte>, hashed: Hash)
    | AccountChange(user: UserId, account': Account)

  datatype Response = AccessToken(token: Tokens.Token) | PendingToken(token: Tokens.Token) | Refused | Done

  datatype Next = Next(state: State, response: Response)

  predicate KnownAddress(s: State, u: UserId) {
    u in s.accounts && s.accounts[u].live && !s.accounts[u].anonymized
  }

  /** The account exists, is active, and the password is right. */
  predicate PasswordChecked(s: State, e: Event, env: Env) {
    && e.Enter? && e.account.Some? && KnownAddress(s, e.account.value)
    && s.accounts[e.account.value].active
    && env.checks.matches(s.accounts[e.account.value].password, e.password)
  }

  predicate TotpOn(s: State, u: UserId) { u in s.totp && s.totp[u].enabled }

  predicate EmailOn(s: State, u: UserId) { Meta.FlagSet(Meta.Of(s.meta, u), Meta.EmailEnabled) }

  predicate Exists(s: State, u: UserId) { u in s.accounts && s.accounts[u].live }

  /** Records a freshly signed access token, unless the user is gone. */
  function Grant(s: State, u: UserId, now: Time, env: Env): Next {
    if !Exists(s, u) then Next(s, Refused)
    else
      var t := Tokens.Issue(env.tm, u, Tokens.ACCESS, env.tm.accessTTL, now);
      Next(s.(issued := s.issued + [t]), AccessToken(t))
  }

  /** The user a presented token leaves waiting for a second factor. */
  function PendingUser(t: Tokens.Token, seen: Time, env: Env): Option<UserId> {
    var claims := Tokens.Verify(env.tm, t, seen);
    if claims.None? || claims.value.kind != Tokens.PENDING_2FA then None else Some(claims.value.subject)
  }

  function EnterStep(s: State, e: Event, env: Env): Next
    requires e.Enter?
  {
    if !PasswordChecked(s, e, env) then Next(s, Refused)
    else
      var u := e.account.value;
      if TotpOn(s, u) || EmailOn(s, u) then
        var t := Tokens.Issue(env.tm, u, Tokens.PENDING_2FA, PENDING_TTL, e.now);
        var sent := EmailOtp.Step(Meta.Of(s.meta, u), EmailOtp.SendLogin(true, e.otp, e.otpNow), env.checks.matches).m;
        Next(s.(issued := s.issued + [t], meta := if EmailOn(s, u) then Meta.Put(s.meta, u, sent) else s.meta),
             PendingToken(t))
      else Grant(s, u, e.now, env)
  }

  /** A call of the password reset for an account: it writes entries of the user and the password. */
  function ResetStep(s: State, u: UserId, call: PasswordReset.Event, env: Env): Next
    requires u in s.accounts
  {
    var a := s.accounts[u];
    var n := PasswordReset.Step(PasswordReset.State(Meta.Of(s.meta, u), a.password), call, env.checks.matches);
    Next(s.(meta := Meta.Put(s.meta, u, n.state.m), accounts := s.accounts[u := a.(password := n.state.password)]),
         if n.outcome == PasswordReset.LinkSent || n.outcome == PasswordReset.PasswordChanged then Done else Refused)
  }

  function Step(s: State, e: Event, env: Env): Next {
    match e
    case Enter(_, _, _, _, _) => EnterStep(s, e, env)
    case VerifyTotp(token, seen, code, clock, now) =>
      var p := PendingUser(token, seen, env);
      if p.None? then Next(s, Refused)
      else
        var n := Totp.Step(Totp.RowOf(s.totp, p.value), Totp.Verify(code, clock), env.checks);
        var s' := s.(totp := Totp.Put(s.totp, p.value, n.row));
        if n.outcome == Totp.Verified then Grant(s', p.value, now, env) else Next(s', Refused)
    case Recover(token, seen, code, now) =>
      var p := PendingUser(token, seen, env);
      if p.None? then Next(s, Refused)
      else
        var n := Totp.Step(Totp.RowOf(s.totp, p.value), Totp.Recover(code), env.checks);
        var s' := s.(totp := Totp.Put(s.totp, p.value, n.row));
        if n.outcome.Recovered? then Grant(s', p.value, now, env) else Next(s', Refused)
    case VerifyEmail(token, seen, code, clock, now) =>
      var p := PendingUser(token, seen, env);
      if p.None? then Next(s, Refused)
      else
        var n := EmailOtp.Step(Meta.Of(s.meta, p.value), EmailOtp.VerifyLogin(code, clock), env.checks.matches);
        var s' := s.(meta := Meta.Put(s.meta, p.value, n.m));
        if n.outcome == EmailOtp.Accepted then Grant(s', p.value, now, env) else Next(s', Refused)
    case Resend(token, seen, otp, now) =>
      var p := PendingUser(token, seen, env);
      if p.None? then Next(s, Refused)
      else
        var send := EmailOtp.SendLogin(Exists(s, p.value), otp, now);
        var n := EmailOtp.Step(Meta.Of(s.meta, p.value), send, env.checks.matches);
        Next(s.(meta := Meta.Put(s.meta, p.value, n.m)), if n.outcome == EmailOtp.UserMissing then Refused else Done)
    case TotpCall(u, call) =>
      Next(s.(totp := Totp.Put(s.totp, u, Totp.Step(Totp.RowOf(s.totp, u), call, env.checks).row)), Done)
    case EmailCall(u, call) =>
      Next(s.(meta := Meta.Put(s.meta, u, EmailOtp.Step(Meta.Of(s.meta, u), call, env.checks.matches).m)), Done)
    case Forgot(account, link, now) =>
      if account.None? || !KnownAddress(s, account.value) then Next(s, Done)
      else ResetStep(s, account.value, PasswordReset.Forgot(true, link, now), env)
    case Reset(u, token, now, password, hashed) =>
      if !Exists(s, u) then Next(s, Refused)
      else ResetStep(s, u, PasswordReset.Reset(true, token, now, password, hashed), env)
    case AccountChange(u, account) =>
      Next(s.(accounts := s.accounts[u := account]), Done)
  }

  // Runs

  function Before(s: State, es: seq<Event>, i: nat, env: Env): State
    requires i <= |es|
  {
    if i == 0 then s else Step(Before(s, es, i - 1, env), es[i - 1], env).state
  }

  function ResponseAt(s: State, es: seq<Event>, i: nat, env: Env): Response
    requires i < |es|
  {
    Step(Before(s, es, i, env), es[i], env).response
  }

  /** Nobody else has the key: a presented token signed with it is one that was issued. */
  predicate Unforged(s: State, e: Event, env: Env) {
    e.VerifyTotp? || e.Recover? || e.VerifyEmail? || e.Resend? ==>
      e.token.key == env.tm.key ==> e.token in s.issued
  }

  ghost predicate AllUnforged(s: State, es: seq<Event>, env: Env) {
    forall i :: 0 <= i < |es| ==> Unforged(Before(s, es, i, env), es[i], env)
  }

  /** A right authenticator code: for the user's secret at that moment, the factor on and not locked. */
  predicate RightTotp(s: State, u: UserId, code: string, clock: Totp.Reads, env: Env) {
    && u in s.totp && s.totp[u].enabled
    && (s.totp[u].lockedUntil.Some? ==> s.totp[u].lockedUntil.value <= clock.lock)
    && env.checks.valid(s.totp[u].secret, code, clock.check)
  }

  /** A recovery code that one of the user's unused hashes takes, the factor on. */
  predicate RightRecovery(s: State, u: UserId, code: string, env: Env) {
    u in s.totp && s.totp[u].enabled && exists h :: h in s.totp[u].recovery && env.checks.matches(h, code)
  }

  /** The code that the user's stored hash takes, in time, the factor on and not locked. */
  predicate RightEmail(s: State, u: UserId, code: string, clock: EmailOtp.Reads, env: Env) {
    var m := Meta.Of(s.meta, u);
    && Meta.EmailEnabled in m && m[Meta.EmailEnabled] == Meta.Text("true")
    && (Meta.EmailLocked in m && m[Meta.EmailLocked].Stamp? ==> m[Meta.EmailLocked].at <= clock.lock)
    && Meta.EmailExpires in m && m[Meta.EmailExpires].Stamp? && clock.expiry <= m[Meta.EmailExpires].at
    && Meta.EmailOtpHash in m && m[Meta.EmailOtpHash].Digest? && env.checks.matches(m[Meta.EmailOtpHash].h, code)
  }

  /** The call shows a right second factor of the user. */
  predicate FactorPassed(s: State, e: Event, u: UserId, env: Env) {
    || (e.VerifyTotp? && RightTotp(s, u, e.code, e.totpClock, env))
    || (e.Recover? && RightRecovery(s, u, e.code, env))
    || (e.VerifyEmail? && RightEmail(s, u, e.code, e.emailClock, env))
  }

  predicate PasswordOnly(s: State, e: Event, u: UserId, env: Env) {
    PasswordChecked(s, e, env) && e.account == Some(u) && !TotpOn(s, u) && !EmailOn(s, u)
  }

  /** The earlier call j checked the user's password and gave out the pending token used at i, in time. */
  ghost predicate StartedBy(s: State, es: seq<Event>, j: nat, i: nat, u: UserId, env: Env)
    requires j < i < |es|
    requires es[i].VerifyTotp? || es[i].Recover? || es[i].VerifyEmail?
  {
    && ResponseAt(s, es, j, env) == PendingToken(es[i].token)
    && PasswordChecked(Before(s, es, j, env), es[j], env) && es[j].account == Some(u)
    && (TotpOn(Before(s, es, j, env), u) || EmailOn(Before(s, es, j, env), u))
    && es[j].now - SECOND < es[i].seen < es[j].now + PENDING_TTL
  }

  /** Every issued token was some call's response. */
  lemma {:induction false} IssuedByCall(s: State, es: seq<Event>, i: nat, t: Tokens.Token, env: Env) returns (j: nat)
    requires s.issued == [] && i <= |es| && t in Before(s, es, i, env).issued
    ensures j < i && (ResponseAt(s, es, j, env) == PendingToken(t) || ResponseAt(s, es, j, env) == AccessToken(t))
  {
    if i > 0 {
      var before, e := Before(s, es, i - 1, env), es[i - 1];
      IssuesResponse(before, e, env);
      if t in before.issued {
        j := IssuedByCall(s, es, i - 1, t, env);
      } else {
        j := i - 1;
      }
    }
  }

  /** A step adds to the issued tokens exactly the one it returns, and of the kind it says. */
  lemma IssuesResponse(s: State, e: Event, env: Env)
    ensures
      var n := Step(s, e, env);
      n.state.issued
      == s.issued + if n.response.AccessToken? || n.response.PendingToken? then [n.response.token] else []
    ensures
      var n := Step(s, e, env);
      && (n.response.AccessToken? ==> n.response.token.claims.kind == Tokens.ACCESS)
      && (n.response.PendingToken? ==>
            && PasswordChecked(s, e, env)
            && (TotpOn(s, e.account.value) || EmailOn(s, e.account.value))
            && n.response.token == Tokens.Issue(env.tm, e.account.value, Tokens.PENDING_2FA, PENDING_TTL, e.now))
  {
  }

  /** The codes shown are what the factors accept. */
  lemma RightFactors(s: State, u: UserId, code: string, tc: Totp.Reads, ec: EmailOtp.Reads, env: Env)
    ensures
      RightTotp(s, u, code, tc, env) <==>
        Totp.Step(Totp.RowOf(s.totp, u), Totp.Verify(code, tc), env.checks).outcome == Totp.Verified
    ensures
      RightRecovery(s, u, code, env) <==>
        Totp.Step(Totp.RowOf(s.totp, u), Totp.Recover(code), env.checks).outcome.Recovered?
    ensures
      RightEmail(s, u, code, ec, env) <==>
        EmailOtp.Step(Meta.Of(s.meta, u), EmailOtp.VerifyLogin(code, ec), env.checks.matches).outcome
        == EmailOtp.Accepted
  {
    Totp.VerifyExact(Totp.RowOf(s.totp, u), code, tc, env.checks);
    if u in s.totp {
      var hashes := s.totp[u].recovery;
      var i := Totp.FirstMatch(hashes, code, env.checks.matches);
      assert i < |hashes| ==> hashes[i] in hashes;
    }
  }

  /** When a step gives out an access token, to whom, and which. */
  lemma AccessExact(s: State, e: Event, u: UserId, env: Env)
    ensures
      var r := Step(s, e, env).response;
      && (r.AccessToken? && r.token.claims.subject == u <==>
            || PasswordOnly(s, e, u, env)
            || (&& FactorPassed(s, e, u, env) && PendingUser(e.token, e.seen, env) == Some(u)
                && u in s.accounts && s.accounts[u].live))
      && (r.AccessToken? ==>
            && (e.Enter? || e.VerifyTotp? || e.Recover? || e.VerifyEmail?)
            && r.token == Tokens.Issue(env.tm, r.token.claims.subject, Tokens.ACCESS, env.tm.accessTTL, e.now))
  {
    if e.VerifyTotp? {
      RightFactors(s, u, e.code, e.totpClock, EmailOtp.Reads(0, 0, 0), env);
    } else if e.Recover? {
      RightFactors(s, u, e.code, Totp.Reads(0, 0, 0), EmailOtp.Reads(0, 0, 0), env);
    } else if e.VerifyEmail? {
      RightFactors(s, u, e.code, Totp.Reads(0, 0, 0), e.emailClock, env);
    }
  }

  /** The address and the password are those of an active account. */
  predicate RightPassword(s: State, e: Event, u: UserId, env: Env)
    requires e.Enter?
  {
    && e.account == Some(u) && u in s.accounts
    && s.accounts[u].live && !s.accounts[u].anonymized && s.accounts[u].active
    && env.checks.matches(s.accounts[u].password, e.password)
  }

  predicate AnyFactorOn(s: State, u: UserId) {
    || (u in s.totp && s.totp[u].enabled)
    || (Meta.EmailEnabled in Meta.Of(s.meta, u) && Meta.Of(s.meta, u)[Meta.EmailEnabled] == Meta.Text("true"))
  }

  /**
    A login answers with a five-minute pending token exactly on a right password with either factor on,
    with an access token on a right password with both off, and with a refusal otherwise.
   */
  lemma LoginExact(s: State, e: Event, u: UserId, env: Env)
    requires e.Enter? && e.account == Some(u)
    ensures
      var r := Step(s, e, env).response;
      && (r == Refused <==> !RightPassword(s, e, u, env))
      && (r.PendingToken? <==> RightPassword(s, e, u, env) && AnyFactorOn(s, u))
      && (r.AccessToken? <==> RightPassword(s, e, u, env) && !AnyFactorOn(s, u))
      && (r.PendingToken? ==>
            && r.token == Tokens.Issue(env.tm, u, Tokens.PENDING_2FA, 5 * MINUTE, e.now)
            && r.token in Step(s, e, env).state.issued)
      && (r.AccessToken? ==> r.token == Tokens.Issue(env.tm, u, Tokens.ACCESS, env.tm.accessTTL, e.now))
  {
  }

  /** A resend answers that it is done exactly on a valid pending token, unless the user of an email factor is gone. */
  lemma ResendExact(s: State, e: Event, env: Env)
    requires e.Resend?
    ensures
      var u := PendingUser(e.token, e.seen, env);
      Step(s, e, env).response == Done <==> u.Some? && (EmailOn(s, u.value) ==> Exists(s, u.value))
  {
  }

  /**
    In every run, an access token comes from a password login with neither factor on, or from an
    accepted second factor after a checked password for the same user, less than five minutes old.
   */
  lemma NoAccessWithoutFactor(s: State, es: seq<Event>, i: nat, env: Env)
    requires s.issued == [] && AllUnforged(s, es, env) && i < |es|
    requires ResponseAt(s, es, i, env).AccessToken?
    ensures
      var u := ResponseAt(s, es, i, env).token.claims.subject;
      || PasswordOnly(Before(s, es, i, env), es[i], u, env)
      || (&& FactorPassed(Before(s, es, i, env), es[i], u, env)
          && exists j: nat :: j < i && StartedBy(s, es, j, i, u, env))
  {
    var now := Before(s, es, i, env);
    var u := ResponseAt(s, es, i, env).token.claims.subject;
    AccessExact(now, es[i], u, env);
    if !PasswordOnly(now, es[i], u, env) {
      assert Unforged(now, es[i], env);
      var j := IssuedByCall(s, es, i, es[i].token, env);
      IssuesResponse(Before(s, es, j, env), es[j], env);
      Tokens.Lifetime(env.tm, u, Tokens.PENDING_2FA, PENDING_TTL, es[j].now, es[i].seen);
      assert StartedBy(s, es, j, i, u, env);
    }
  }

  // Deactivated accounts

  /** Of these steps, the last that changed the account, if any, left it active. */
  predicate LeftActive(es: seq<Event>, u: UserId) {
    es == [] ||
    var e := es[|es| - 1];
    if e.AccountChange? && e.user == u then e.account'.active else LeftActive(es[..|es| - 1], u)
  }

  lemma OnlyChangesChange(s: State, e: Event, u: UserId, env: Env)
    requires u in s.accounts
    ensures
      var n := Step(s, e, env).state;
      && u in n.accounts
      && n.accounts[u].active == if e.AccountChange? && e.user == u then e.account'.active else s.accounts[u].active
  {
  }

  lemma LeftActiveLast(es: seq<Event>, e: Event, u: UserId)
    ensures
      LeftActive(es + [e], u) <==>
        if e.AccountChange? && e.user == u then e.account'.active else LeftActive(es, u)
  {
    assert (es + [e])[..|es|] == es;
  }

  lemma {:induction false} ActiveLater(s: State, es: seq<Event>, j: nat, i: nat, u: UserId, env: Env)
    requires j <= i <= |es|
    requires u in Before(s, es, j, env).accounts && Before(s, es, j, env).accounts[u].active
    ensures u in Before(s, es, i, env).accounts
    ensures Before(s, es, i, env).accounts[u].active <==> LeftActive(es[j..i], u)
  {
    if j < i {
      ActiveLater(s, es, j, i - 1, u, env);
      OnlyChangesChange(Before(s, es, i - 1, env), es[i - 1], u, env);
      assert es[j..i] == es[j..i - 1] + [es[i - 1]];
      LeftActiveLast(es[j..i - 1], es[i - 1], u);
    }
  }

  /** The second step of a login that an earlier step started, with no deactivation left standing in between. */
  ghost predicate StartedAndActive(s: State, es: seq<Event>, j: nat, i: nat, u: UserId, env: Env) {
    && j < i < |es| && (es[i].VerifyTotp? || es[i].Recover? || es[i].VerifyEmail?)
    && StartedBy(s, es, j, i, u, env) && LeftActive(es[j..i], u)
  }

  /**
    An access token goes to an active account exactly when it comes from a password login, or when
    no change of the account since the password was checked left it inactive.
   */
  lemma ActiveExact(s: State, es: seq<Event>, i: nat, env: Env)
    requires s.issued == [] && AllUnforged(s, es, env) && i < |es|
    requires ResponseAt(s, es, i, env).AccessToken?
    ensures
      var u := ResponseAt(s, es, i, env).token.claims.subject;
      && u in Before(s, es, i, env).accounts
      && (Before(s, es, i, env).accounts[u].active <==>
            || PasswordOnly(Before(s, es, i, env), es[i], u, env)
            || exists j: nat :: StartedAndActive(s, es, j, i, u, env))
  {
    var now := Before(s, es, i, env);
    var u := ResponseAt(s, es, i, env).token.claims.subject;
    AccessExact(now, es[i], u, env);
    NoAccessWithoutFactor(s, es, i, env);
    if !PasswordOnly(now, es[i], u, env) {
      forall j: nat | j < i && StartedBy(s, es, j, i, u, env)
        ensures StartedAndActive(s, es, j, i, u, env) <==> now.accounts[u].active
      {
        ActiveLater(s, es, j, i, u, env);
      }
    }
  }

  /** A login, a deactivation, and a second step that still ends with an access token. */
  lemma DeactivatedFinishes(a: Account, row: Totp.Row, t: Time, env: Env)
    requires a.live && a.active && !a.anonymized && env.checks.matches(a.password, "password")
    requires row.enabled && row.lockedUntil.None? && env.checks.valid(row.secret, "123456", t)
    ensures
      var s := State(map[1 := a], map[1 := row], map[], []);
      var pending := Tokens.Issue(env.tm, 1, Tokens.PENDING_2FA, PENDING_TTL, t);
      var es := [Enter(Some(1), "password", t, a.password, t), AccountChange(1, a.(active := false)),
                 VerifyTotp(pending, t, "123456", Totp.Reads(t, t, t), t)];
      && AllUnforged(s, es, env)
      && ResponseAt(s, es, 2, env).AccessToken? && !Before(s, es, 2, env).accounts[1].active
  {
    var s := State(map[1 := a], map[1 := row], map[], []);
    var pending := Tokens.Issue(env.tm, 1, Tokens.PENDING_2FA, PENDING_TTL, t);
    var es := [Enter(Some(1), "password", t, a.password, t), AccountChange(1, a.(active := false)),
               VerifyTotp(pending, t, "123456", Totp.Reads(t, t, t), t)];
    assert Step(s, es[0], env) == Next(s.(issued := [pending]), PendingToken(pending));
    assert Before(s, es, 1, env) == s.(issued := [pending]);
    var off := State(map[1 := a.(active := false)], map[1 := row], map[], [pending]);
    assert Before(s, es, 2, env) == off;
    Tokens.Lifetime(env.tm, 1, Tokens.PENDING_2FA, PENDING_TTL, t, t);
    AccessExact(off, es[2], 1, env);
  }

  /** A request is let through only on a token that some call gave out as an access token. */
  lemma ActorsHaveAccess(s: State, es: seq<Event>, t: Tokens.Token, now: Time, env: Env)
    requires s.issued == [] && t in Before(s, es, |es|, env).issued
    requires Tokens.Actor(env.tm, t, now).Some?
    ensures exists i: nat :: i < |es| && ResponseAt(s, es, i, env) == AccessToken(t)
  {
    var i := IssuedByCall(s, es, |es|, t, env);
    IssuesResponse(Before(s, es, i, env), es[i], env);
  }

  class AuthHandlers {
    const tm: Tokens.TokenManager
    const email: EmailOtp.EmailFactor
    const totp: Totp.TotpFactor
    var accounts: map<UserId, Account>
    var issued: seq<Tokens.Token>

    constructor (tm: Tokens.TokenManager, email: EmailOtp.EmailFactor, totp: Totp.TotpFactor)
      requires email.matches == totp.checks.matches
      ensures this.tm == tm && this.email == email && this.totp == totp
      ensures accounts == map[] && issued == []
    {
      this.tm, this.email, this.totp := tm, email, totp;
      accounts, issued := map[], [];
    }

    ghost predicate Valid() { email.matches == totp.checks.matches }

    function TheEnv(): Env { Env(tm, totp.checks) }

    ghost function Contents(): State
      reads this, totp, email.store
    {
      State(accounts, totp.rows, email.store.table, issued)
    }

    method IssueAccessForUser(u: UserId, now: Time) returns (r: Response)
      modifies this`issued
      ensures
        var n := Grant(old(Contents()), u, now, TheEnv());
        r == n.response && Contents() == n.state
      ensures r.AccessToken? <==> Exists(Contents(), u)
      ensures r.AccessToken? ==>
        && issued == old(issued) + [r.token]
        && forall later :: now <= later <= now + tm.accessTTL - SECOND ==> Tokens.Actor(tm, r.token, later) == Some(u)
    {
      forall later
        ensures now <= later <= now + tm.accessTTL - SECOND ==>
          Tokens.Actor(tm, Tokens.Issue(tm, u, Tokens.ACCESS, tm.accessTTL, now), later) == Some(u)
      {
        Tokens.IssuedActor(tm, u, Tokens.ACCESS, tm.accessTTL, now, later);
      }

      if u !in accounts || !accounts[u].live {
        return Refused;
      }
      var t := Tokens.Issue(tm, u, Tokens.ACCESS, tm.accessTTL, now);
      issued := issued + [t];
      return AccessToken(t);
    }

    method Enter(account: Option<UserId>, password: string, now: Time, otp: Hash, otpNow: Time) returns (r: Response)
      requires Valid()
      modifies this`issued, email.store
      ensures
        var n := Step(old(Contents()), Event.Enter(account, password, now, otp, otpNow), TheEnv());
        r == n.response && Contents() == n.state
    {
      if account.None? || account.value !in accounts {
        return Refused;
      }
      var u := account.value;
      var a := accounts[u];
      if !a.live || a.anonymized || !a.active || !totp.checks.matches(a.password, password) {
        return Refused;
      }
      var totpEnabled := u in totp.rows && totp.rows[u].enabled;
      var emailEnabled := email.IsEnabled(u);
      if totpEnabled || emailEnabled {
        var t := Tokens.Issue(tm, u, Tokens.PENDING_2FA, PENDING_TTL, now);
        issued := issued + [t];
        if emailEnabled {
          var sent := email.SendEmail2FALoginOTP(u, true, otp, otpNow);
        }
        return PendingToken(t);
      }
      r := IssueAccessForUser(u, now);
    }

    method Verify2FA(token: Tokens.Token, seen: Time, code: string, clock: Totp.Reads, now: Time) returns (r: Response)
      modifies this`issued, totp`rows
      ensures
        var n := Step(old(Contents()), VerifyTotp(token, seen, code, clock, now), TheEnv());
        r == n.response && Contents() == n.state
    {
      var claims := Tokens.Verify(tm, token, seen);
      if claims.None? || claims.value.kind != Tokens.PENDING_2FA {
        return Refused;
      }
      var o := totp.Verify2FA(claims.value.subject, code, clock);
      if o != Totp.Verified {
        return Refused;
      }
      r := IssueAccessForUser(claims.value.subject, now);
    }

    method Recover2FA(token: Tokens.Token, seen: Time, code: string, now: Time) returns (r: Response)
      modifies this`issued, totp`rows
      ensures
        var n := Step(old(Contents()), Recover(token, seen, code, now), TheEnv());
        r == n.response && Contents() == n.state
    {
      var claims := Tokens.Verify(tm, token, seen);
      if claims.None? || claims.value.kind != Tokens.PENDING_2FA {
        return Refused;
      }
      var o := totp.ConsumeRecoveryCode(claims.value.subject, code);
      if !o.Recovered? {
        return Refused;
      }
      r := IssueAccessForUser(claims.value.subject, now);
    }

    method VerifyEmail2FA(token: Tokens.Token, seen: Time, code: string, clock: EmailOtp.Reads, now: Time)
      returns (r: Response)
      requires Valid()
      modifies this`issued, email.store
      ensures
        var n := Step(old(Contents()), VerifyEmail(token, seen, code, clock, now), TheEnv());
        r == n.response && Contents() == n.state
    {
      var p := PendingUser(token, seen, TheEnv());
      if p.None? {
        return Refused;
      }
      var o := email.VerifyEmail2FALogin(p.value, code, clock);
      if o != EmailOtp.Accepted {
        return Refused;
      }
      r := IssueAccessForUser(p.value, now);
    }

    method ResendEmail2FA(token: Tokens.Token, seen: Time, otp: Hash, now: Time) returns (r: Response)
      requires Valid()
      modifies email.store
      ensures
        var n := Step(old(Contents()), Resend(token, seen, otp, now), TheEnv());
        r == n.response && Contents() == n.state
    {
      var p := PendingUser(token, seen, TheEnv());
      if p.None? {
        return Refused;
      }
      var found := p.value in accounts && accounts[p.value].live;
      var o := email.SendEmail2FALoginOTP(p.value, found, otp, now);
      r := if o == EmailOtp.UserMissing then Refused else Done;
    }
  }
}
