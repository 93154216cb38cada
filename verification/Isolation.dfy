/** One user's factors in a run of the whole login system: only the calls for that user act on them. */
module Isolation {
  import opened Clock
  import opened Identity
  import opened Login
  import opened Wrappers
  import EmailOtp
  import Meta
  import PasswordReset
  import Tokens
  import Totp

  /** The authenticator call a system step makes on user u, if any. */
  function TotpEventOf(e: Event, u: UserId, env: Env): seq<Totp.Event> {
    match e
    case VerifyTotp(token, seen, code, clock, _) =>
      if PendingUser(token, seen, env) == Some(u) then [Totp.Verify(code, clock)] else []
    case Recover(token, seen, code, _) =>
      if PendingUser(token, seen, env) == Some(u) then [Totp.Recover(code)] else []
    case TotpCall(v, call) => if v == u then [call] else []
    case _ => []
  }

  /** The email-factor call a system step makes on user u, if any. */
  function EmailEventOf(s: State, e: Event, u: UserId, env: Env): seq<EmailOtp.Event> {
    match e
    case Enter(account, _, _, otp, otpNow) =>
      if account == Some(u) && PasswordChecked(s, e, env) && EmailOn(s, u)
      then [EmailOtp.SendLogin(true, otp, otpNow)] else []
    case VerifyEmail(token, seen, code, clock, _) =>
      if PendingUser(token, seen, env) == Some(u) then [EmailOtp.VerifyLogin(code, clock)] else []
    case Resend(token, seen, otp, now) =>
      if PendingUser(token, seen, env) == Some(u) then [EmailOtp.SendLogin(Exists(s, u), otp, now)] else []
    case EmailCall(v, call) => if v == u then [call] else []
    case _ => []
  }

  function Run(s: State, es: seq<Event>, env: Env): State
    decreases es
  {
    if es == [] then s else Run(Step(s, es[0], env).state, es[1..], env)
  }

  function TotpEvents(es: seq<Event>, u: UserId, env: Env): seq<Totp.Event> {
    if es == [] then [] else TotpEventOf(es[0], u, env) + TotpEvents(es[1..], u, env)
  }

  function EmailEvents(s: State, es: seq<Event>, u: UserId, env: Env): seq<EmailOtp.Event>
    decreases es
  {
    if es == [] then [] else EmailEventOf(s, es[0], u, env) + EmailEvents(Step(s, es[0], env).state, es[1..], u, env)
  }

  /** A user's entries of the email factor. */
  function EmailOf(s: State, u: UserId): Meta.Entries {
    Meta.Part(Meta.Of(s.meta, u), Meta.EMAIL_KEYS)
  }

  lemma StepActsOnRow(s: State, e: Event, u: UserId, env: Env)
    ensures
      var n := Step(s, e, env).state;
      var calls := TotpEventOf(e, u, env);
      Totp.RowOf(n.totp, u)
      == if calls == [] then Totp.RowOf(s.totp, u) else Totp.Step(Totp.RowOf(s.totp, u), calls[0], env.checks).row
  {
  }

  lemma ResetKeepsEmail(s: State, u: UserId, call: PasswordReset.Event, v: UserId, env: Env)
    requires u in s.accounts
    ensures EmailOf(ResetStep(s, u, call, env).state, v) == EmailOf(s, v)
  {
    PasswordReset.IgnoresEmail(
      PasswordReset.State(Meta.Of(s.meta, u), s.accounts[u].password), call, env.checks.matches);
  }

  /** Calls of the email factor change its entries, and calls of the password reset do not. */
  lemma StepActsOnEntries(s: State, e: Event, u: UserId, env: Env)
    ensures
      var n := Step(s, e, env).state;
      var calls := EmailEventOf(s, e, u, env);
      EmailOf(n, u)
      == if calls == [] then EmailOf(s, u) else EmailOtp.Step(EmailOf(s, u), calls[0], env.checks.matches).m
  {
    var calls := EmailEventOf(s, e, u, env);
    if calls != [] {
      EmailOtp.IgnoresReset(Meta.Of(s.meta, u), calls[0], env.checks.matches);
    }
    if e.Forgot? && e.account.Some? && KnownAddress(s, e.account.value) {
      ResetKeepsEmail(s, e.account.value, PasswordReset.Forgot(true, e.link, e.now), u, env);
    }
    if e.Reset? && Exists(s, e.user) {
      ResetKeepsEmail(s, e.user, PasswordReset.Reset(true, e.resetToken, e.now, e.newPassword, e.hashed), u, env);
    }
  }

  /** Over every run, each user's factors are where the user's own calls alone would take them. */
  lemma {:induction false} UsersAreIsolated(s: State, es: seq<Event>, u: UserId, env: Env)
    ensures Totp.RowOf(Run(s, es, env).totp, u) == Totp.Final(Totp.RowOf(s.totp, u), TotpEvents(es, u, env), env.checks)
    ensures
      EmailOf(Run(s, es, env), u) == EmailOtp.Final(EmailOf(s, u), EmailEvents(s, es, u, env), env.checks.matches)
    decreases es
  {
    if es != [] {
      var n := Step(s, es[0], env).state;
      StepActsOnRow(s, es[0], u, env);
      StepActsOnEntries(s, es[0], u, env);
      UsersAreIsolated(n, es[1..], u, env);
      var t, ts := TotpEventOf(es[0], u, env), TotpEvents(es[1..], u, env);
      var m, ms := EmailEventOf(s, es[0], u, env), EmailEvents(n, es[1..], u, env);
      assert t == [] ==> t + ts == ts;
      assert t != [] ==> (t + ts)[1..] == ts;
      assert m == [] ==> m + ms == ms;
      assert m != [] ==> (m + ms)[1..] == ms;
    }
  }

  // What the system's own steps do to a user's factors

  /** The outcome of the email-factor call inside a step, read off the state the step starts from. */
  function EmailOutcomeOf(s: State, e: Event, u: UserId, env: Env): seq<EmailOtp.Outcome> {
    var calls := EmailEventOf(s, e, u, env);
    if calls == [] then [] else [EmailOtp.Step(Meta.Of(s.meta, u), calls[0], env.checks.matches).outcome]
  }

  function EmailOutcomes(s: State, es: seq<Event>, u: UserId, env: Env): seq<EmailOtp.Outcome>
    decreases es
  {
    if es == [] then []
    else EmailOutcomeOf(s, es[0], u, env) + EmailOutcomes(Step(s, es[0], env).state, es[1..], u, env)
  }

  function TotpOutcomeOf(s: State, e: Event, u: UserId, env: Env): seq<Totp.Outcome> {
    var calls := TotpEventOf(e, u, env);
    if calls == [] then [] else [Totp.Step(Totp.RowOf(s.totp, u), calls[0], env.checks).outcome]
  }

  function TotpOutcomes(s: State, es: seq<Event>, u: UserId, env: Env): seq<Totp.Outcome>
    decreases es
  {
    if es == [] then [] else TotpOutcomeOf(s, es[0], u, env) + TotpOutcomes(Step(s, es[0], env).state, es[1..], u, env)
  }

  /** The readings of the steps in which a wrong authenticator code of the user was compared. */
  function WrongCodes(s: State, es: seq<Event>, u: UserId, env: Env): seq<Totp.Reads>
    decreases es
  {
    if es == [] then []
    else
      var calls, os := TotpEventOf(es[0], u, env), TotpOutcomeOf(s, es[0], u, env);
      var rest := WrongCodes(Step(s, es[0], env).state, es[1..], u, env);
      if calls != [] && Totp.ComparedWrong(os[0]) && (calls[0].Verify? || calls[0].Disable?)
      then [calls[0].clock] + rest else rest
  }

  lemma {:induction false} EmailOutcomesAreOwn(s: State, es: seq<Event>, u: UserId, env: Env)
    ensures
      EmailOutcomes(s, es, u, env) == EmailOtp.Outcomes(EmailOf(s, u), EmailEvents(s, es, u, env), env.checks.matches)
    decreases es
  {
    if es != [] {
      var n := Step(s, es[0], env).state;
      StepActsOnEntries(s, es[0], u, env);
      EmailOutcomesAreOwn(n, es[1..], u, env);
      if EmailEventOf(s, es[0], u, env) != [] {
        EmailOtp.IgnoresReset(Meta.Of(s.meta, u), EmailEventOf(s, es[0], u, env)[0], env.checks.matches);
      }
      var m, ms := EmailEventOf(s, es[0], u, env), EmailEvents(n, es[1..], u, env);
      assert m == [] ==> m + ms == ms;
      assert m != [] ==> (m + ms)[1..] == ms;
    }
  }

  lemma {:induction false} TotpOutcomesAreOwn(s: State, es: seq<Event>, u: UserId, env: Env)
    ensures TotpOutcomes(s, es, u, env) == Totp.Outcomes(Totp.RowOf(s.totp, u), TotpEvents(es, u, env), env.checks)
    ensures WrongCodes(s, es, u, env) == Totp.Comparisons(Totp.RowOf(s.totp, u), TotpEvents(es, u, env), env.checks)
    decreases es
  {
    if es != [] {
      var n := Step(s, es[0], env).state;
      StepActsOnRow(s, es[0], u, env);
      TotpOutcomesAreOwn(n, es[1..], u, env);
      var t, ts := TotpEventOf(es[0], u, env), TotpEvents(es[1..], u, env);
      assert t == [] ==> t + ts == ts;
      assert t != [] ==> (t + ts)[1..] == ts;
    }
  }

  // One clock for the whole system

  /** The readings of a step come in this order, from t on. */
  predicate ReadsFrom(e: Event, t: Time) {
    match e
    case Enter(_, _, now, _, otpNow) => t <= now <= otpNow
    case VerifyTotp(_, seen, _, clock, now) => t <= seen && clock.From(seen) && clock.record <= now
    case Recover(_, seen, _, now) => t <= seen <= now
    case VerifyEmail(_, seen, _, clock, now) => t <= seen && clock.From(seen) && clock.fail <= now
    case Resend(_, seen, _, now) => t <= seen <= now
    case TotpCall(_, call) => call.Setup? || call.Recover? || call.clock.From(t)
    case EmailCall(_, call) => EmailOtp.ReadsFrom(call, t)
    case Forgot(_, _, now) => t <= now
    case Reset(_, _, now, _, _) => t <= now
    case AccountChange(_, _) => true
  }

  function LastRead(e: Event, t: Time): Time {
    match e
    case Enter(_, _, _, _, otpNow) => otpNow
    case VerifyTotp(_, _, _, _, now) => now
    case Recover(_, _, _, now) => now
    case VerifyEmail(_, _, _, _, now) => now
    case Resend(_, _, _, now) => now
    case TotpCall(_, call) => Totp.After(call, t)
    case EmailCall(_, call) => EmailOtp.LastRead(call, t)
    case Forgot(_, _, now) => now
    case Reset(_, _, now, _, _) => now
    case AccountChange(_, _) => t
  }

  /** The system's clock never runs backwards from t on. */
  predicate Monotone(es: seq<Event>, t: Time) {
    es == [] || (ReadsFrom(es[0], t) && Monotone(es[1..], LastRead(es[0], t)))
  }

  lemma {:induction false} EarlierEmailStart(es: seq<EmailOtp.Event>, t: Time, later: Time)
    requires t <= later && EmailOtp.Monotone(es, later)
    ensures EmailOtp.Monotone(es, t)
  {
    if es != [] {
      EarlierEmailStart(es[1..], EmailOtp.LastRead(es[0], t), EmailOtp.LastRead(es[0], later));
    }
  }

  lemma {:induction false} EarlierTotpStart(es: seq<Totp.Event>, t: Time, later: Time)
    requires t <= later && Totp.Monotone(es, later)
    ensures Totp.Monotone(es, t)
  {
    if es != [] && (es[0].Setup? || es[0].Recover?) {
      EarlierTotpStart(es[1..], t, later);
    }
  }

  lemma OwnEmailReads(s: State, e: Event, u: UserId, t: Time, env: Env)
    requires ReadsFrom(e, t)
    ensures t <= LastRead(e, t)
    ensures
      var m := EmailEventOf(s, e, u, env);
      m != [] ==> EmailOtp.ReadsFrom(m[0], t) && EmailOtp.LastRead(m[0], t) <= LastRead(e, t)
  {
  }

  /** Each user's own calls then see a clock that never runs backwards either. */
  lemma {:induction false} OwnClocks(s: State, es: seq<Event>, u: UserId, t: Time, env: Env)
    requires Monotone(es, t)
    ensures EmailOtp.Monotone(EmailEvents(s, es, u, env), t)
    ensures Totp.Monotone(TotpEvents(es, u, env), t)
    decreases es
  {
    if es != [] {
      var n, t' := Step(s, es[0], env).state, LastRead(es[0], t);
      OwnClocks(n, es[1..], u, t', env);
      OwnEmailReads(s, es[0], u, t, env);
      var m, ms := EmailEventOf(s, es[0], u, env), EmailEvents(n, es[1..], u, env);
      assert m == [] ==> m + ms == ms;
      assert m != [] ==> (m + ms)[1..] == ms;
      EarlierEmailStart(ms, if m == [] then t else EmailOtp.LastRead(m[0], t), t');
      OwnTotpClock(es[0], TotpEvents(es[1..], u, env), u, t, env);
    }
  }

  lemma OwnTotpClock(e: Event, later: seq<Totp.Event>, u: UserId, t: Time, env: Env)
    requires ReadsFrom(e, t) && Totp.Monotone(later, LastRead(e, t)) && t <= LastRead(e, t)
    ensures Totp.Monotone(TotpEventOf(e, u, env) + later, t)
  {
    var c := TotpEventOf(e, u, env);
    assert c == [] ==> c + later == later;
    assert c != [] ==> (c + later)[1..] == later;
    EarlierTotpStart(later, if c == [] then t else Totp.After(c[0], t), LastRead(e, t));
  }

  // The bounds

  /** The logins that ended with an access token for the user after an emailed code. */
  function EmailLogins(s: State, es: seq<Event>, u: UserId, env: Env): nat
    decreases es
  {
    if es == [] then 0
    else
      var n := Step(s, es[0], env);
      (if es[0].VerifyEmail? && n.response.AccessToken? && n.response.token.claims.subject == u then 1 else 0)
      + EmailLogins(n.state, es[1..], u, env)
  }

  lemma {:induction false} LoginsAccepted(s: State, es: seq<Event>, u: UserId, env: Env)
    ensures EmailLogins(s, es, u, env) <= EmailOtp.Tally(EmailOutcomes(s, es, u, env), EmailOtp.Accepted)
    decreases es
  {
    if es != [] {
      LoginsAccepted(Step(s, es[0], env).state, es[1..], u, env);
      var o := EmailOutcomeOf(s, es[0], u, env);
      var os := EmailOutcomes(Step(s, es[0], env).state, es[1..], u, env);
      assert multiset(o + os) == multiset(o) + multiset(os);
    }
  }

  /**
    However many logins, tokens and users interleave: from a user with no code outstanding, or one
    with w wrong guesses, each code mailed to the user pays for five comparisons and one success, and
    so for one login.
   */
  lemma EmailBudgetInSystem(s: State, es: seq<Event>, u: UserId, w: nat, t: Time, env: Env)
    requires Monotone(es, t)
    requires EmailOtp.Open(EmailOf(s, u), w, t) || EmailOtp.Closed(EmailOf(s, u))
    ensures
      var os := EmailOutcomes(s, es, u, env);
      var issued := EmailOtp.Tally(os, EmailOtp.Issued);
      var closed := EmailOtp.Closed(EmailOf(s, u));
      && EmailOtp.Tally(os, EmailOtp.WrongCode) + EmailOtp.Tally(os, EmailOtp.Accepted)
         <= (if closed then 0 else 5 - w) + 5 * issued
      && EmailLogins(s, es, u, env) <= EmailOtp.Tally(os, EmailOtp.Accepted) <= (if closed then 0 else 1) + issued
  {
    OwnClocks(s, es, u, t, env);
    EmailOutcomesAreOwn(s, es, u, env);
    LoginsAccepted(s, es, u, env);
    EmailOtp.Budget(EmailOf(s, u), w, EmailEvents(s, es, u, env), t, env.checks.matches);
  }

  /**
    In the whole system too, a user's fifth wrong code in a row locks exactly when no call among the
    five issues a fresh code or switches the factor off. Then none of the user's codes is compared
    for fifteen minutes from the fifth, but for the cut, without such a call.
   */
  lemma FiveFailuresInSystem(s: State, es: seq<Event>, later: seq<Event>, u: UserId, env: Env)
    requires EmailOtp.LockTracksCount(EmailOf(s, u)) && EmailOtp.FiveInARow(EmailOutcomes(s, es, u, env))
    ensures
      var os := EmailOutcomes(s, es, u, env);
      Meta.EmailLocked in EmailOf(Run(s, es, env), u) <==> EmailOtp.Issued !in os && EmailOtp.Cleared !in os
    ensures
      var n := Run(s, es, env);
      var calls, next := EmailEvents(s, es, u, env), EmailEvents(n, later, u, env);
      && EmailOtp.LockedByLast(EmailOf(s, u), calls, next, env.checks.matches)
      && EmailOtp.Final(EmailOf(s, u), calls, env.checks.matches) == EmailOf(n, u)
      && EmailOtp.Outcomes(EmailOf(n, u), next, env.checks.matches) == EmailOutcomes(n, later, u, env)
  {
    var n := Run(s, es, env);
    EmailOutcomesAreOwn(s, es, u, env);
    EmailOutcomesAreOwn(n, later, u, env);
    UsersAreIsolated(s, es, u, env);
    EmailOtp.FiveFailuresLock(
      EmailOf(s, u), EmailEvents(s, es, u, env), EmailEvents(n, later, u, env), env.checks.matches);
  }

  /** The step mails the user this code. */
  predicate Mails(s: State, e: Event, u: UserId, otp: Hash, now: Time, env: Env) {
    var calls := EmailEventOf(s, e, u, env);
    && calls != [] && (calls[0].Setup? || calls[0].SendLogin?) && calls[0].otp == otp && calls[0].now == now
    && EmailOutcomeOf(s, e, u, env) == [EmailOtp.Issued]
  }

  lemma MailedEntries(s: State, e: Event, u: UserId, otp: Hash, now: Time, t: Time, env: Env)
    requires ReadsFrom(e, t) && Mails(s, e, u, otp, now, env)
    ensures EmailOf(Step(s, e, env).state, u) == EmailOtp.Issue(EmailOf(s, u), otp, now)
    ensures now <= LastRead(e, t)
  {
    var call := EmailEventOf(s, e, u, env)[0];
    StepActsOnEntries(s, e, u, env);
    EmailOtp.IgnoresReset(Meta.Of(s.meta, u), call, env.checks.matches);
    OwnEmailReads(s, e, u, t, env);
  }

  lemma {:induction false} EmailEventsLast(s: State, es: seq<Event>, e: Event, u: UserId, env: Env)
    ensures EmailEvents(s, es + [e], u, env) == EmailEvents(s, es, u, env) + EmailEventOf(Run(s, es, env), e, u, env)
    decreases es
  {
    if es == [] {
      assert es + [e] == [e] && [e][1..] == [];
      assert EmailEvents(Step(s, e, env).state, [], u, env) == [];
    } else {
      assert (es + [e])[1..] == es[1..] + [e];
      EmailEventsLast(Step(s, es[0], env).state, es[1..], e, u, env);
    }
  }

  /** A verification of an emailed code for the user, on a pending token that is valid when it is seen. */
  predicate PresentsEmailCode(e: Event, u: UserId, env: Env) {
    && e.VerifyEmail? && PendingUser(e.token, e.seen, env) == Some(u)
  }

  lemma RightEmailIsOwn(s: State, u: UserId, code: string, clock: EmailOtp.Reads, env: Env)
    ensures
      RightEmail(s, u, code, clock, env) <==>
        EmailOtp.Step(EmailOf(s, u), EmailOtp.VerifyLogin(code, clock), env.checks.matches).outcome == EmailOtp.Accepted
  {
    RightFactors(s, u, code, Totp.Reads(0, 0, 0), clock, env);
    EmailOtp.IgnoresReset(Meta.Of(s.meta, u), EmailOtp.VerifyLogin(code, clock), env.checks.matches);
  }

  lemma OwnClockAfterMail(s: State, es: seq<Event>, e: Event, u: UserId, now: Time, t: Time, env: Env)
    requires Monotone(es + [e], t) && PresentsEmailCode(e, u, env) && now <= t
    ensures
      var calls := EmailEvents(s, es, u, env);
      && EmailOtp.Monotone(calls, now)
      && EmailOtp.ReadsFrom(EmailOtp.VerifyLogin(e.code, e.emailClock), EmailOtp.LastOf(calls, now))
  {
    var calls, call := EmailEvents(s, es, u, env), EmailOtp.VerifyLogin(e.code, e.emailClock);
    OwnClocks(s, es + [e], u, t, env);
    EmailEventsLast(s, es, e, u, env);
    assert EmailEvents(s, es + [e], u, env) == calls + [call];
    EarlierEmailStart(calls + [call], now, t);
    EmailOtp.MonotoneLast(calls, call, now);
  }

  lemma RightEmailLater(
    n: State, before: Meta.Entries, es: seq<Event>, e: Event, u: UserId, otp: Hash, now: Time, t: Time, env: Env)
    requires Monotone(es + [e], t) && PresentsEmailCode(e, u, env) && now <= t
    requires EmailOf(n, u) == EmailOtp.Issue(before, otp, now)
    requires EmailOtp.NoRestartBefore(EmailOutcomes(n, es, u, env))
    ensures
      var os := EmailOutcomes(n, es, u, env);
      RightEmail(Run(n, es, env), u, e.code, e.emailClock, env) <==>
        && Meta.FlagSet(before, Meta.EmailEnabled) && env.checks.matches(otp, e.code)
        && e.emailClock.expiry <= ToSeconds(now + 10 * MINUTE)
        && EmailOtp.Accepted !in os && EmailOtp.Tally(os, EmailOtp.WrongCode) < 5
  {
    var call := EmailOtp.VerifyLogin(e.code, e.emailClock);
    OwnClockAfterMail(n, es, e, u, now, t, env);
    EmailOutcomesAreOwn(n, es, u, env);
    UsersAreIsolated(n, es, u, env);
    EmailOtp.AcceptedExact(before, otp, now, EmailEvents(n, es, u, env), call, env.checks.matches);
    RightEmailIsOwn(Run(n, es, env), u, e.code, e.emailClock, env);
  }

  /**
    From any state whatever: after a code is mailed and until the next one or a switch-off, showing a
    code on a valid pending token gives the user an access token exactly when the factor is on, the
    user exists, it is the mailed code, in time, not used before, and fewer than five wrong ones were
    compared.
   */
  lemma EmailLoginExact(s: State, es: seq<Event>, e: Event, u: UserId, otp: Hash, now: Time, t: Time, env: Env)
    requires es != [] && Monotone(es + [e], t) && Mails(s, es[0], u, otp, now, env) && PresentsEmailCode(e, u, env)
    requires EmailOtp.NoRestartBefore(EmailOutcomes(Step(s, es[0], env).state, es[1..], u, env))
    ensures
      var os := EmailOutcomes(Step(s, es[0], env).state, es[1..], u, env);
      var r := Step(Run(s, es, env), e, env).response;
      r.AccessToken? && r.token.claims.subject == u <==>
        && EmailOn(s, u) && Exists(Run(s, es, env), u) && env.checks.matches(otp, e.code)
        && e.emailClock.expiry <= ToSeconds(now + 10 * MINUTE)
        && EmailOtp.Accepted !in os && EmailOtp.Tally(os, EmailOtp.WrongCode) < 5
  {
    var n := Step(s, es[0], env).state;
    assert (es + [e])[0] == es[0] && (es + [e])[1..] == es[1..] + [e];
    MailedEntries(s, es[0], u, otp, now, t, env);
    RightEmailLater(n, EmailOf(s, u), es[1..], e, u, otp, now, LastRead(es[0], t), env);
    AccessExact(Run(n, es[1..], env), e, u, env);
  }

  /** The token and the moment a second step presents. */
  predicate Presents(e: Event, t: Tokens.Token, from: Time, to: Time) {
    (e.VerifyTotp? || e.Recover? || e.VerifyEmail?) && e.token == t && from <= e.seen <= to
  }

  /**
    After a login with a right password and a factor on, through any other calls: a second step in time
    on its token ends with an access token exactly when the user still exists and the code is right.
   */
  lemma SecondStepExact(s: State, login: Event, es: seq<Event>, e: Event, u: UserId, env: Env)
    requires login.Enter? && login.account == Some(u) && RightPassword(s, login, u, env) && AnyFactorOn(s, u)
    requires
      var n := Step(s, login, env);
      n.response.PendingToken? && Presents(e, n.response.token, login.now, login.now + 5 * MINUTE - SECOND)
    ensures
      var later := Run(Step(s, login, env).state, es, env);
      var r := Step(later, e, env).response;
      r.AccessToken? && r.token.claims.subject == u <==> FactorPassed(later, e, u, env) && Exists(later, u)
  {
    LoginExact(s, login, u, env);
    Tokens.Lifetime(env.tm, u, Tokens.PENDING_2FA, 5 * MINUTE, login.now, e.seen);
    AccessExact(Run(Step(s, login, env).state, es, env), e, u, env);
  }

  /** A login with the email factor on mails its code. */
  lemma LoginMails(s: State, login: Event, u: UserId, env: Env)
    requires login.Enter? && login.account == Some(u) && RightPassword(s, login, u, env) && EmailOn(s, u)
    ensures Mails(s, login, u, login.otp, login.otpNow, env)
  {
  }

  /**
    From any state whatever: once a code is mailed and until the next one is, at most five codes of
    the user are compared, all with this one and in time, and at most one login succeeds by email.
   */
  lemma CodeBudgetInSystem(s: State, es: seq<Event>, u: UserId, otp: Hash, now: Time, t: Time, env: Env)
    requires es != [] && Monotone(es, t) && Mails(s, es[0], u, otp, now, env)
    requires EmailOtp.Issued !in EmailOutcomes(Step(s, es[0], env).state, es[1..], u, env)
    ensures
      var n := Step(s, es[0], env).state;
      var os, calls := EmailOutcomes(n, es[1..], u, env), EmailEvents(n, es[1..], u, env);
      && |os| == |calls|
      && EmailOtp.Tally(os, EmailOtp.WrongCode) + EmailOtp.Tally(os, EmailOtp.Accepted) <= 5
      && EmailLogins(n, es[1..], u, env) <= EmailOtp.Tally(os, EmailOtp.Accepted) <= 1
      && (forall i :: 0 <= i < |os| && EmailOtp.Compared(os[i]) ==>
            EmailOtp.CheckedAgainst(calls[i], os[i], otp, ToSeconds(now + EmailOtp.OTP_EXPIRY), env.checks.matches))
  {
    var n, before := Step(s, es[0], env).state, EmailOf(s, u);
    MailedEntries(s, es[0], u, otp, now, t, env);
    var calls := EmailEvents(n, es[1..], u, env);
    OwnClocks(n, es[1..], u, LastRead(es[0], t), env);
    EarlierEmailStart(calls, now, LastRead(es[0], t));
    EmailOutcomesAreOwn(n, es[1..], u, env);
    LoginsAccepted(n, es[1..], u, env);
    EmailOtp.CodeBudget(before, otp, now, calls, env.checks.matches);
  }

  /** And wrong authenticator codes of a user wait out the locks, wherever in the system they are tried. */
  lemma ThrottleInSystem(s: State, es: seq<Event>, u: UserId, t: Time, env: Env)
    requires Monotone(es, t)
    requires u in s.totp && s.totp[u].enabled && s.totp[u].failed == 0 && s.totp[u].lockedUntil.None?
    requires forall o <- TotpOutcomes(s, es, u, env) :: Totp.Quiet(o)
    ensures
      var q := WrongCodes(s, es, u, env);
      forall i :: 5 <= i < |q| && i < 0x8000_0000 ==>
        && (i - 4) * LOCKOUT <= q[i].lock - q[4].record + (i - 4) * Totp.CUT
        && (Totp.Aligned(TotpEvents(es, u, env)) ==> (i - 4) * LOCKOUT <= q[i].lock - q[4].record)
  {
    OwnClocks(s, es, u, t, env);
    TotpOutcomesAreOwn(s, es, u, env);
    Totp.ThrottleBound(s.totp[u], TotpEvents(es, u, env), t, env.checks);
  }

  // Password resets among all other calls

  /** A user's entries of the password reset. */
  function ResetOf(s: State, u: UserId): Meta.Entries {
    Meta.Part(Meta.Of(s.meta, u), Meta.RESET_KEYS)
  }

  /** The step mails the user a link. */
  predicate MailsLink(s: State, e: Event, u: UserId) {
    e.Forgot? && e.account == Some(u) && KnownAddress(s, u)
  }

  /** The step is a reset of the user's password that succeeds. */
  predicate ResetDone(s: State, e: Event, u: UserId, env: Env) {
    e.Reset? && e.user == u && Step(s, e, env).response == Done
  }

  /** The link's hash and expiry are stored for the user. */
  predicate RemembersLink(s: State, u: UserId, e: Event) {
    e.Forgot? && PasswordReset.Remembers(ResetOf(s, u), PasswordReset.Forgot(true, e.link, e.now))
  }

  predicate LinkUsed(s: State, u: UserId) { Meta.FlagSet(ResetOf(s, u), Meta.ResetUsed) }

  lemma OthersKeepLink(s: State, e: Event, u: UserId, env: Env)
    requires !MailsLink(s, e, u) && !(e.Reset? && e.user == u)
    ensures ResetOf(Step(s, e, env).state, u) == ResetOf(s, u)
  {
    var calls := EmailEventOf(s, e, u, env);
    if calls != [] {
      EmailOtp.IgnoresReset(Meta.Of(s.meta, u), calls[0], env.checks.matches);
    }
  }

  lemma MailKeepsLink(s: State, e: Event, u: UserId, env: Env)
    requires MailsLink(s, e, u)
    ensures
      var n := Step(s, e, env).state;
      RemembersLink(n, u, e) && !LinkUsed(n, u)
  {
    PasswordReset.IgnoresEmail(
      PasswordReset.State(Meta.Of(s.meta, u), s.accounts[u].password),
      PasswordReset.Forgot(true, e.link, e.now), env.checks.matches);
  }

  /** A reset in the system is a reset on the user's own three entries. */
  lemma ResetIsOwn(s: State, e: Event, u: UserId, env: Env)
    requires e.Reset? && e.user == u && Exists(s, u)
    ensures
      var own := PasswordReset.Step(
                   PasswordReset.State(ResetOf(s, u), s.accounts[u].password),
                   PasswordReset.Reset(true, e.resetToken, e.now, e.newPassword, e.hashed), env.checks.matches);
      var n := Step(s, e, env).state;
      && (ResetDone(s, e, u, env) <==> own.outcome == PasswordReset.PasswordChanged)
      && ResetOf(n, u) == own.state.m && u in n.accounts && n.accounts[u].password == own.state.password
  {
    PasswordReset.IgnoresEmail(
      PasswordReset.State(Meta.Of(s.meta, u), s.accounts[u].password),
      PasswordReset.Reset(true, e.resetToken, e.now, e.newPassword, e.hashed), env.checks.matches);
  }

  lemma ResetKeepsLink(s: State, e: Event, u: UserId, was: Event, env: Env)
    requires e.Reset? && e.user == u && RemembersLink(s, u, was)
    ensures
      var n := Step(s, e, env).state;
      && RemembersLink(n, u, was)
      && (LinkUsed(n, u) <==> LinkUsed(s, u) || ResetDone(s, e, u, env))
  {
    if Exists(s, u) {
      ResetIsOwn(s, e, u, env);
      PasswordReset.StillRemembers(
        PasswordReset.State(ResetOf(s, u), s.accounts[u].password),
        PasswordReset.Reset(true, e.resetToken, e.now, e.newPassword, e.hashed),
        PasswordReset.Forgot(true, was.link, was.now), env.checks.matches);
    }
  }

  lemma NoLinkStays(s: State, e: Event, u: UserId, env: Env)
    requires PasswordReset.NoLink(ResetOf(s, u)) && !MailsLink(s, e, u)
    ensures PasswordReset.NoLink(ResetOf(Step(s, e, env).state, u)) && !ResetDone(s, e, u, env)
  {
    if e.Reset? && e.user == u && Exists(s, u) {
      ResetIsOwn(s, e, u, env);
    } else if !e.Reset? || e.user != u {
      OthersKeepLink(s, e, u, env);
    }
  }

  predicate MailsAt(s: State, es: seq<Event>, k: nat, u: UserId, env: Env)
    requires k < |es|
  {
    MailsLink(Before(s, es, k, env), es[k], u)
  }

  predicate KeepsOpen(s: State, es: seq<Event>, k: nat, u: UserId, env: Env)
    requires k < |es|
  {
    !MailsAt(s, es, k, u, env) && !ResetDone(Before(s, es, k, env), es[k], u, env)
  }

  /** No link was mailed to the user and no reset of the user succeeded after j and before i. */
  ghost predicate StillOpen(s: State, es: seq<Event>, j: nat, i: nat, u: UserId, env: Env)
    requires i <= |es|
  {
    forall k: nat :: j < k < i ==> KeepsOpen(s, es, k, u, env)
  }

  ghost predicate NoneMailed(s: State, es: seq<Event>, from: nat, i: nat, u: UserId, env: Env)
    requires i <= |es|
  {
    forall k: nat :: from <= k < i ==> !MailsAt(s, es, k, u, env)
  }

  lemma StillOpenStep(s: State, es: seq<Event>, j: nat, i: nat, u: UserId, env: Env)
    requires j < i - 1 && i <= |es|
    ensures StillOpen(s, es, j, i, u, env) <==> StillOpen(s, es, j, i - 1, u, env) && KeepsOpen(s, es, i - 1, u, env)
  {
  }

  /** The store remembers the link mailed at j, the latest so far, and whether it was used. */
  ghost predicate LatestAt(s: State, es: seq<Event>, j: nat, i: nat, u: UserId, env: Env)
    requires j < i <= |es|
  {
    && MailsAt(s, es, j, u, env) && NoneMailed(s, es, j + 1, i, u, env)
    && RemembersLink(Before(s, es, i, env), u, es[j])
    && (LinkUsed(Before(s, es, i, env), u) <==> !StillOpen(s, es, j, i, u, env))
  }

  /** No link was mailed so far, and the store has none. */
  ghost predicate NoneYet(s: State, es: seq<Event>, i: nat, u: UserId, env: Env)
    requires i <= |es|
  {
    NoneMailed(s, es, 0, i, u, env) && PasswordReset.NoLink(ResetOf(Before(s, es, i, env), u))
  }

  lemma LatestMailed(s: State, es: seq<Event>, j: nat, u: UserId, env: Env)
    requires j < |es| && MailsAt(s, es, j, u, env)
    ensures LatestAt(s, es, j, j + 1, u, env)
  {
    MailKeepsLink(Before(s, es, j, env), es[j], u, env);
    assert StillOpen(s, es, j, j + 1, u, env);
  }

  lemma LatestLater(s: State, es: seq<Event>, j: nat, i: nat, u: UserId, env: Env)
    requires j < i < |es| && LatestAt(s, es, j, i, u, env) && !MailsAt(s, es, i, u, env)
    ensures LatestAt(s, es, j, i + 1, u, env)
  {
    var now, e := Before(s, es, i, env), es[i];
    StillOpenStep(s, es, j, i + 1, u, env);
    if e.Reset? && e.user == u {
      ResetKeepsLink(now, e, u, es[j], env);
    } else {
      OthersKeepLink(now, e, u, env);
    }
  }

  lemma NoneLater(s: State, es: seq<Event>, i: nat, u: UserId, env: Env)
    requires i < |es| && NoneYet(s, es, i, u, env) && !MailsAt(s, es, i, u, env)
    ensures NoneYet(s, es, i + 1, u, env)
  {
    NoLinkStays(Before(s, es, i, env), es[i], u, env);
  }

  /** Through all other calls, the store remembers the latest link mailed to a user, and whether it was used. */
  lemma {:induction false} LatestLink(s: State, es: seq<Event>, i: nat, u: UserId, env: Env)
    requires PasswordReset.NoLink(ResetOf(s, u)) && i <= |es|
    ensures NoneYet(s, es, i, u, env) || exists j: nat :: j < i && LatestAt(s, es, j, i, u, env)
    decreases i
  {
    if i > 0 {
      if MailsAt(s, es, i - 1, u, env) {
        LatestMailed(s, es, i - 1, u, env);
      } else {
        LatestLink(s, es, i - 1, u, env);
        if NoneYet(s, es, i - 1, u, env) {
          NoneLater(s, es, i - 1, u, env);
        } else {
          var j: nat :| j < i - 1 && LatestAt(s, es, j, i - 1, u, env);
          LatestLater(s, es, j, i - 1, u, env);
        }
      }
    }
  }

  /** The step j mailed the link that the reset at i may use. */
  ghost predicate Redeems(s: State, es: seq<Event>, j: nat, i: nat, u: UserId, env: Env)
    requires j < i < |es| && es[i].Reset?
  {
    && MailsAt(s, es, j, u, env) && StillOpen(s, es, j, i, u, env)
    && es[i].now <= ToSeconds(es[j].now + 60 * MINUTE)
    && env.checks.matches(es[j].link, es[i].resetToken)
  }

  lemma ResetOfLatest(s: State, e: Event, u: UserId, was: Event, env: Env)
    requires e.Reset? && e.user == u && RemembersLink(s, u, was)
    ensures
      ResetDone(s, e, u, env) <==>
        && Exists(s, u) && PasswordReset.Hashable(e.newPassword) && !LinkUsed(s, u)
        && e.now <= ToSeconds(was.now + PasswordReset.TOKEN_EXPIRY) && env.checks.matches(was.link, e.resetToken)
  {
    if Exists(s, u) {
      ResetIsOwn(s, e, u, env);
    }
  }

  /**
    However logins, second factors and other users interleave: a reset succeeds exactly when the user
    exists, the password can be hashed, and the token is for the latest link mailed to the user, in
    time, with no successful reset since. Only then it changes the password.
   */
  lemma ResetExactInSystem(s: State, es: seq<Event>, i: nat, u: UserId, env: Env)
    requires PasswordReset.NoLink(ResetOf(s, u))
    requires i < |es| && es[i].Reset? && es[i].user == u
    ensures
      ResetDone(Before(s, es, i, env), es[i], u, env) <==>
        && Exists(Before(s, es, i, env), u) && 0 < |es[i].newPassword| <= 72
        && exists j: nat :: j < i && Redeems(s, es, j, i, u, env)
    ensures
      var now, n := Before(s, es, i, env), Before(s, es, i + 1, env);
      Exists(now, u) ==>
        && Exists(n, u)
        && n.accounts[u].password
           == if ResetDone(now, es[i], u, env) then es[i].hashed else now.accounts[u].password
  {
    var now := Before(s, es, i, env);
    LatestLink(s, es, i, u, env);
    if NoneYet(s, es, i, u, env) {
      NoLinkStays(now, es[i], u, env);
    } else {
      var j: nat :| j < i && LatestAt(s, es, j, i, u, env);
      ResetOfLatest(now, es[i], u, es[j], env);
      assert ResetDone(now, es[i], u, env) ==> Redeems(s, es, j, i, u, env);
      forall k: nat | k < i && Redeems(s, es, k, i, u, env)
        ensures k == j
      {
        assert k < j ==> KeepsOpen(s, es, j, u, env);
      }
    }
    ResetSetsPassword(now, es[i], u, env);
  }

  lemma ResetSetsPassword(s: State, e: Event, u: UserId, env: Env)
    requires e.Reset? && e.user == u
    ensures
      var n := Step(s, e, env).state;
      Exists(s, u) ==>
        && Exists(n, u)
        && n.accounts[u].password == if ResetDone(s, e, u, env) then e.hashed else s.accounts[u].password
  {
    if Exists(s, u) {
      ResetIsOwn(s, e, u, env);
    }
  }
}
