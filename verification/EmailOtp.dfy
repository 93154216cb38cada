/** Second factor by emailed one-time code: the rules as a state machine over one user's entries. */
module EmailOtp {
  import opened Clock
  import opened Identity
  import opened Meta
  import opened Wrappers

  const OTP_EXPIRY: int := 10 * MINUTE

  /** The clock readings one verification may take, in the order it takes them. */
  datatype Reads = Reads(lock: Time, expiry: Time, fail: Time) {
    predicate From(t: Time) { t <= lock <= expiry <= fail }
  }

  datatype Event =
    | Setup(userFound: bool, otp: Hash, now: Time)
    | Confirm(code: string, clock: Reads)
    | SendLogin(userFound: bool, otp: Hash, now: Time)
    | VerifyLogin(code: string, clock: Reads)
    | Disable

  datatype Outcome =
    | Issued | NothingToSend | AlreadyActive | NotActive | UserMissing
    | LockedOut | NoActiveCode | Expired | WrongCode | Accepted
    | Cleared

  datatype Next = Next(m: Entries, outcome: Outcome)

  function Issue(m: Entries, otp: Hash, now: Time): Entries {
    m[EmailOtpHash := Digest(otp)][EmailExpires := Stamp(ToSeconds(now + OTP_EXPIRY))]
    - {EmailAttempts, EmailLocked}
  }

  predicate Locked(m: Entries, now: Time) {
    EmailLocked in m && m[EmailLocked].Stamp? && now < m[EmailLocked].at
  }

  predicate HashAccepts(v: Value, code: string, matches: Matcher) {
    v.Digest? && matches(v.h, code)
  }

  /** An unreadable counter counts as zero. */
  function FailedSoFar(m: Entries): int {
    if EmailAttempts in m && m[EmailAttempts].Count? then m[EmailAttempts].n else 0
  }

  function RecordFailure(m: Entries, now: Time): Entries {
    var attempts := FailedSoFar(m) + 1;
    var counted := m[EmailAttempts := Count(attempts)];
    if attempts >= MAX_FAILED_ATTEMPTS
    then counted[EmailLocked := Stamp(ToSeconds(now + LOCKOUT))]
    else counted
  }

  function Verify(m: Entries, code: string, r: Reads, matches: Matcher): Next {
    if Locked(m, r.lock) then Next(m, LockedOut)
    else if EmailExpires !in m then Next(m, NoActiveCode)
    else if !m[EmailExpires].Stamp? || m[EmailExpires].at < r.expiry then Next(m, Expired)
    else if EmailOtpHash !in m then Next(m, NoActiveCode)
    else if !HashAccepts(m[EmailOtpHash], code, matches) then Next(RecordFailure(m, r.fail), WrongCode)
    else Next(m - {EmailOtpHash, EmailExpires, EmailAttempts, EmailLocked}, Accepted)
  }

  function Step(m: Entries, e: Event, matches: Matcher): Next {
    var enabled := FlagSet(m, EmailEnabled);
    match e
    case Setup(userFound, otp, now) =>
      if enabled then Next(m, AlreadyActive)
      else if !userFound then Next(m, UserMissing)
      else Next(Issue(m, otp, now), Issued)
    case Confirm(code, clock) =>
      if enabled then Next(m, AlreadyActive)
      else
        var n := Verify(m, code, clock, matches);
        if n.outcome == Accepted then n.(m := n.m[EmailEnabled := Text("true")]) else n
    case SendLogin(userFound, otp, now) =>
      if !enabled then Next(m, NothingToSend)
      else if !userFound then Next(m, UserMissing)
      else Next(Issue(m, otp, now), Issued)
    case VerifyLogin(code, clock) =>
      if !enabled then Next(m, NotActive) else Verify(m, code, clock, matches)
    case Disable =>
      Next(m - {EmailEnabled, EmailOtpHash, EmailExpires, EmailAttempts, EmailLocked}, Cleared)
  }

  /** A change of the entries that keeps to the five keys. */
  predicate OwnChange(m: Entries, n: Entries, own: Entries) {
    Part(n, EMAIL_KEYS) == own && Part(n, RESET_KEYS) == Part(m, RESET_KEYS)
  }

  lemma IssueIsOwn(m: Entries, otp: Hash, now: Time)
    ensures OwnChange(m, Issue(m, otp, now), Issue(Part(m, EMAIL_KEYS), otp, now))
  {
  }

  lemma SetIsOwn(m: Entries, k: Key, v: Value)
    requires k in EMAIL_KEYS
    ensures OwnChange(m, m[k := v], Part(m, EMAIL_KEYS)[k := v])
  {
  }

  lemma DropIsOwn(m: Entries, ks: set<Key>)
    requires ks <= EMAIL_KEYS
    ensures OwnChange(m, m - ks, Part(m, EMAIL_KEYS) - ks)
  {
  }

  lemma FailureIsOwn(m: Entries, now: Time)
    ensures OwnChange(m, RecordFailure(m, now), RecordFailure(Part(m, EMAIL_KEYS), now))
  {
    var counted := Count(FailedSoFar(m) + 1);
    SetIsOwn(m, EmailAttempts, counted);
    SetIsOwn(m[EmailAttempts := counted], EmailLocked, Stamp(ToSeconds(now + LOCKOUT)));
  }

  lemma VerifyIsOwn(m: Entries, code: string, r: Reads, matches: Matcher)
    ensures
      var n, own := Verify(m, code, r, matches), Verify(Part(m, EMAIL_KEYS), code, r, matches);
      n.outcome == own.outcome && OwnChange(m, n.m, own.m)
  {
    FailureIsOwn(m, r.fail);
    DropIsOwn(m, {EmailOtpHash, EmailExpires, EmailAttempts, EmailLocked});
  }

  /** The machine looks at its own five keys only, and leaves those of the password reset alone. */
  lemma IgnoresReset(m: Entries, e: Event, matches: Matcher)
    ensures
      var n, own := Step(m, e, matches), Step(Part(m, EMAIL_KEYS), e, matches);
      n.outcome == own.outcome && OwnChange(m, n.m, own.m)
  {
    match e
    case Setup(_, otp, now) =>
      IssueIsOwn(m, otp, now);
    case SendLogin(_, otp, now) =>
      IssueIsOwn(m, otp, now);
    case Confirm(code, clock) =>
      VerifyIsOwn(m, code, clock, matches);
      SetIsOwn(Verify(m, code, clock, matches).m, EmailEnabled, Text("true"));
    case VerifyLogin(code, clock) =>
      VerifyIsOwn(m, code, clock, matches);
    case Disable =>
      DropIsOwn(m, EMAIL_KEYS);
  }

  // Runs

  function Outcomes(m: Entries, es: seq<Event>, matches: Matcher): (os: seq<Outcome>)
    ensures |os| == |es|
    decreases es
  {
    if es == [] then []
    else
      var n := Step(m, es[0], matches);
      [n.outcome] + Outcomes(n.m, es[1..], matches)
  }

  function Final(m: Entries, es: seq<Event>, matches: Matcher): Entries
    decreases es
  {
    if es == [] then m else Final(Step(m, es[0], matches).m, es[1..], matches)
  }

  predicate ReadsFrom(e: Event, t: Time) {
    match e
    case Setup(_, _, now) => t <= now
    case SendLogin(_, _, now) => t <= now
    case Confirm(_, clock) => clock.From(t)
    case VerifyLogin(_, clock) => clock.From(t)
    case Disable => true
  }

  function LastRead(e: Event, t: Time): Time {
    match e
    case Setup(_, _, now) => now
    case SendLogin(_, _, now) => now
    case Confirm(_, clock) => clock.fail
    case VerifyLogin(_, clock) => clock.fail
    case Disable => t
  }

  /** The clock never runs backwards from t on. */
  predicate Monotone(es: seq<Event>, t: Time) {
    es == [] || (ReadsFrom(es[0], t) && Monotone(es[1..], LastRead(es[0], t)))
  }

  predicate Compared(o: Outcome) { o == WrongCode || o == Accepted }

  function Tally(os: seq<Outcome>, o: Outcome): nat {
    multiset(os)[o]
  }

  // The bound per issued code

  /** A code is outstanding, issued at or before t, and w < 5 wrong codes were compared with it. */
  ghost predicate Open(m: Entries, w: nat, t: Time) {
    && EmailOtpHash in m && EmailExpires in m && EmailLocked !in m
    && m[EmailExpires].Stamp? && m[EmailExpires].at <= ToSeconds(t + OTP_EXPIRY)
    && w == FailedSoFar(m) < MAX_FAILED_ATTEMPTS
  }

  /** No comparison can happen before the next issue: no code, or a lock that outlasts the expiry. */
  ghost predicate Closed(m: Entries) {
    || EmailExpires !in m
    || (&& m[EmailExpires].Stamp? && EmailLocked in m && m[EmailLocked].Stamp?
        && m[EmailExpires].at < m[EmailLocked].at)
  }

  lemma LockOutlastsExpiry(issued: Time, failed: Time)
    requires issued <= failed
    ensures ToSeconds(issued + OTP_EXPIRY) + 5 * MINUTE <= ToSeconds(failed + LOCKOUT)
  {
    assert (issued + OTP_EXPIRY) % SECOND == issued % SECOND;
    assert (failed + LOCKOUT) % SECOND == failed % SECOND;
  }

  lemma FailureBudget(m: Entries, w: nat, now: Time, t: Time)
    requires Open(m, w, t) && t <= now
    ensures if w < 4 then Open(RecordFailure(m, now), w + 1, now) else Closed(RecordFailure(m, now))
  {
    LockOutlastsExpiry(t, now);
  }

  lemma LaterIsOpen(m: Entries, w: nat, t: Time, later: Time)
    requires Open(m, w, t) && t <= later
    ensures Open(m, w, later)
  {
  }

  lemma VerifyBudget(m: Entries, w: nat, code: string, clock: Reads, t: Time, matches: Matcher)
    requires clock.From(t) && (Open(m, w, t) || Closed(m))
    ensures
      var n := Verify(m, code, clock, matches);
      && (Compared(n.outcome) ==> Open(m, w, t))
      && (n.outcome == WrongCode ==> if w < 4 then Open(n.m, w + 1, clock.fail) else Closed(n.m))
      && (n.outcome == Accepted ==> Closed(n.m))
      && (!Compared(n.outcome) ==> n.m == m && n.outcome != Issued)
  {
    if Open(m, w, t) {
      FailureBudget(m, w, clock.fail, t);
    }
  }

  /** What one step does to the number of comparisons still allowed. */
  lemma StepBudget(m: Entries, w: nat, e: Event, t: Time, matches: Matcher)
    requires ReadsFrom(e, t)
    requires Open(m, w, t) || Closed(m)
    ensures
      var n := Step(m, e, matches);
      var t' := LastRead(e, t);
      && (n.outcome == Issued ==> Open(n.m, 0, t'))
      && (n.outcome == WrongCode ==> Open(m, w, t) && (Open(n.m, w + 1, t') || (w == 4 && Closed(n.m))))
      && (n.outcome == Accepted ==> Open(m, w, t) && Closed(n.m))
      && (!Compared(n.outcome) && n.outcome != Issued ==> Closed(n.m) || Open(n.m, w, t'))
      && (Closed(m) && n.outcome != Issued ==> Closed(n.m))
  {
    if e.Confirm? || e.VerifyLogin? {
      VerifyBudget(m, w, e.code, e.clock, t, matches);
    }
    if Open(m, w, t) {
      LaterIsOpen(m, w, t, LastRead(e, t));
    }
  }

  /** Every issue buys five comparisons and one success; nothing else buys any. */
  lemma {:induction false} Budget(m: Entries, w: nat, es: seq<Event>, t: Time, matches: Matcher)
    requires Monotone(es, t)
    requires Open(m, w, t) || Closed(m)
    ensures
      var os := Outcomes(m, es, matches);
      && Tally(os, WrongCode) + Tally(os, Accepted) <= (if Closed(m) then 0 else 5 - w) + 5 * Tally(os, Issued)
      && Tally(os, Accepted) <= (if Closed(m) then 0 else 1) + Tally(os, Issued)
    decreases es
  {
    if es != [] {
      var n := Step(m, es[0], matches);
      var t' := LastRead(es[0], t);
      StepBudget(m, w, es[0], t, matches);
      var w' := if n.outcome == Issued then 0 else if n.outcome == WrongCode then w + 1 else w;
      Budget(n.m, w', es[1..], t', matches);
      assert Outcomes(m, es, matches) == [n.outcome] + Outcomes(n.m, es[1..], matches);
    }
  }

  /** Over any run from an empty store, comparisons and successes are paid for by issued codes. */
  lemma RunBudget(es: seq<Event>, t: Time, matches: Matcher)
    requires Monotone(es, t)
    ensures
      var os := Outcomes(map[], es, matches);
      && Tally(os, WrongCode) + Tally(os, Accepted) <= 5 * Tally(os, Issued)
      && Tally(os, Accepted) <= Tally(os, Issued)
  {
    Budget(map[], 0, es, t, matches);
  }

  /** The entries still belong to this code, or to none. */
  ghost predicate OfCode(m: Entries, otp: Hash, expires: Time) {
    && (EmailOtpHash in m ==> m[EmailOtpHash] == Digest(otp))
    && (EmailExpires in m ==> m[EmailExpires] == Stamp(expires))
  }

  /** A comparison was made in time, with this code, and succeeded exactly on a match. */
  predicate CheckedAgainst(e: Event, o: Outcome, otp: Hash, expires: Time, matches: Matcher) {
    && (e.Confirm? || e.VerifyLogin?)
    && e.clock.expiry <= expires
    && (o == Accepted <==> matches(otp, e.code))
  }

  lemma NoIssueSplit(m: Entries, es: seq<Event>, matches: Matcher)
    requires es != [] && Issued !in Outcomes(m, es, matches)
    ensures
      var n := Step(m, es[0], matches);
      && n.outcome != Issued && Issued !in Outcomes(n.m, es[1..], matches)
      && Outcomes(m, es, matches) == [n.outcome] + Outcomes(n.m, es[1..], matches)
  {
    var os := Outcomes(m, es, matches);
    assert os[0] in os;
    assert forall o :: o in os[1..] ==> o in os;
  }

  /** Between issues, every comparison is in time and against the issued code. */
  lemma {:induction false} CodeHistory(
    m: Entries, otp: Hash, expires: Time, es: seq<Event>, i: nat, matches: Matcher)
    requires OfCode(m, otp, expires)
    requires Issued !in Outcomes(m, es, matches)
    requires i < |es| && Compared(Outcomes(m, es, matches)[i])
    ensures CheckedAgainst(es[i], Outcomes(m, es, matches)[i], otp, expires, matches)
    decreases es
  {
    NoIssueSplit(m, es, matches);
    if i > 0 {
      CodeHistory(Step(m, es[0], matches).m, otp, expires, es[1..], i - 1, matches);
    }
  }

  /** Nothing is compared after a success. */
  lemma {:induction false} SuccessIsLast(
    m: Entries, w: nat, es: seq<Event>, t: Time, i: nat, j: nat, matches: Matcher)
    requires Monotone(es, t) && (Open(m, w, t) || Closed(m))
    requires Issued !in Outcomes(m, es, matches)
    requires i < j < |es| && Outcomes(m, es, matches)[i] == Accepted
    ensures !Compared(Outcomes(m, es, matches)[j])
    decreases es
  {
    var n := Step(m, es[0], matches);
    var t' := LastRead(es[0], t);
    NoIssueSplit(m, es, matches);
    StepBudget(m, w, es[0], t, matches);
    if i > 0 {
      SuccessIsLast(n.m, if n.outcome == WrongCode then w + 1 else w, es[1..], t', i - 1, j - 1, matches);
    } else {
      Budget(n.m, w, es[1..], t', matches);
      assert Outcomes(n.m, es[1..], matches)[j - 1] == Outcomes(m, es, matches)[j];
    }
  }

  /**
    From one issue to the next, whatever was stored before: at most five comparisons, at most one
    success, none after a success, and each one in time and against that code.
   */
  lemma CodeBudget(before: Entries, otp: Hash, now: Time, es: seq<Event>, matches: Matcher)
    requires Monotone(es, now)
    requires Issued !in Outcomes(Issue(before, otp, now), es, matches)
    ensures
      var os := Outcomes(Issue(before, otp, now), es, matches);
      && Tally(os, WrongCode) + Tally(os, Accepted) <= 5
      && Tally(os, Accepted) <= 1
      && (forall i :: 0 <= i < |os| && Compared(os[i]) ==>
            CheckedAgainst(es[i], os[i], otp, ToSeconds(now + OTP_EXPIRY), matches))
      && (forall i, j :: 0 <= i < j < |os| && os[i] == Accepted ==> !Compared(os[j]))
  {
    var m := Issue(before, otp, now);
    Budget(m, 0, es, now, matches);
    var os := Outcomes(m, es, matches);
    forall i | 0 <= i < |os| && Compared(os[i])
      ensures CheckedAgainst(es[i], os[i], otp, ToSeconds(now + OTP_EXPIRY), matches)
    {
      CodeHistory(m, otp, ToSeconds(now + OTP_EXPIRY), es, i, matches);
    }
    forall i, j | 0 <= i < j < |os| && os[i] == Accepted
      ensures !Compared(os[j])
    {
      SuccessIsLast(m, 0, es, now, i, j, matches);
    }
  }

  // What is accepted

  const TRANSIENT: set<Key> := {EmailOtpHash, EmailExpires, EmailAttempts, EmailLocked}

  /** A code is mailed exactly to a known user, at setup while the factor is off, at login while it is on. */
  lemma IssueExact(m: Entries, e: Event, matches: Matcher)
    requires e.Setup? || e.SendLogin?
    ensures
      var n := Step(m, e, matches);
      var on := EmailEnabled in m && m[EmailEnabled] == Text("true");
      && (n.outcome == Issued <==> e.userFound && (if e.Setup? then !on else on))
      && (n.outcome != Issued ==> n.m == m)
      && (n.outcome == Issued ==>
            && EmailOtpHash in n.m && n.m[EmailOtpHash] == Digest(e.otp)
            && EmailExpires in n.m && n.m[EmailExpires] == Stamp(ToSeconds(e.now + 10 * MINUTE))
            && EmailAttempts !in n.m && EmailLocked !in n.m && n.m - TRANSIENT == m - TRANSIENT)
  {
  }

  /** The call verifies a code, and on the path that is open: confirming while off, a login while on. */
  predicate OnPath(before: Entries, e: Event) {
    && (e.Confirm? || e.VerifyLogin?)
    && (e.VerifyLogin? <==> EmailEnabled in before && before[EmailEnabled] == Text("true"))
  }

  /** What a verification that is accepted leaves of the entries: no code, and the factor on. */
  predicate LeftOn(before: Entries, n: Entries) {
    && n - TRANSIENT == (before - TRANSIENT)[EmailEnabled := Text("true")]
    && forall k <- TRANSIENT :: k !in n
  }

  /** The code is in force with w wrong codes counted; from five on it is locked beyond its expiry. */
  ghost predicate InForce(m: Entries, before: Entries, otp: Hash, expires: Time, w: nat) {
    && EmailOtpHash in m && m[EmailOtpHash] == Digest(otp)
    && EmailExpires in m && m[EmailExpires] == Stamp(expires)
    && FailedSoFar(m) == w
    && (if w < 5 then EmailLocked !in m
        else EmailLocked in m && m[EmailLocked].Stamp? && expires < m[EmailLocked].at)
    && m - TRANSIENT == before - TRANSIENT
  }

  lemma LockedOnFifth(m: Entries, before: Entries, otp: Hash, issued: Time, w: nat, now: Time)
    requires InForce(m, before, otp, ToSeconds(issued + OTP_EXPIRY), w) && issued <= now && w < 5
    ensures InForce(RecordFailure(m, now), before, otp, ToSeconds(issued + OTP_EXPIRY), w + 1)
  {
    LockOutlastsExpiry(issued, now);
    assert RecordFailure(m, now) - TRANSIENT == m - TRANSIENT;
  }

  /** One verification of a code in force. */
  lemma VerifyInForce(
    m: Entries, before: Entries, otp: Hash, issued: Time, w: nat, code: string, r: Reads, matches: Matcher)
    requires InForce(m, before, otp, ToSeconds(issued + OTP_EXPIRY), w) && r.From(issued)
    ensures
      var n := Verify(m, code, r, matches);
      && (Compared(n.outcome) <==> r.expiry <= ToSeconds(issued + OTP_EXPIRY) && w < 5)
      && (Compared(n.outcome) ==> (n.outcome == Accepted <==> matches(otp, code)))
      && (n.outcome == WrongCode ==> InForce(n.m, before, otp, ToSeconds(issued + OTP_EXPIRY), w + 1))
      && (n.outcome == Accepted ==> n.m == m - TRANSIENT)
      && (!Compared(n.outcome) ==> n.m == m && n.outcome != Issued && n.outcome != Cleared)
  {
    if w < 5 {
      LockedOnFifth(m, before, otp, issued, w, r.fail);
    }
  }

  /** Any call on a code in force, short of a fresh code or a switch-off. */
  lemma StepInForce(
    m: Entries, before: Entries, otp: Hash, issued: Time, w: nat, e: Event, t: Time, matches: Matcher)
    requires InForce(m, before, otp, ToSeconds(issued + OTP_EXPIRY), w)
    requires issued <= t && ReadsFrom(e, t)
    ensures
      var n := Step(m, e, matches);
      var right := OnPath(before, e) && e.clock.expiry <= ToSeconds(issued + OTP_EXPIRY) && w < 5;
      && (n.outcome == Accepted <==> right && matches(otp, e.code))
      && (n.outcome == WrongCode <==> right && !matches(otp, e.code))
      && (n.outcome == Accepted ==> LeftOn(before, n.m))
      && (n.outcome == WrongCode ==> InForce(n.m, before, otp, ToSeconds(issued + OTP_EXPIRY), w + 1))
      && (!Compared(n.outcome) && !Restarts(n.outcome) ==> n.m == m)
  {
    assert EmailEnabled in m <==> EmailEnabled in m - TRANSIENT;
    assert EmailEnabled in before <==> EmailEnabled in before - TRANSIENT;
    assert EmailEnabled in m ==> m[EmailEnabled] == (m - TRANSIENT)[EmailEnabled];
    assert EmailEnabled in before ==> before[EmailEnabled] == (before - TRANSIENT)[EmailEnabled];
    if e.Confirm? || e.VerifyLogin? {
      VerifyInForce(m, before, otp, issued, w, e.code, e.clock, matches);
    }
  }

  /** With no code stored, nothing is compared until one is issued. */
  lemma {:induction false} NothingStored(m: Entries, es: seq<Event>, e: Event, matches: Matcher)
    requires EmailExpires !in m && Issued !in Outcomes(m, es, matches)
    ensures !Compared(Step(Final(m, es, matches), e, matches).outcome)
    decreases es
  {
    if es != [] {
      NoIssueSplit(m, es, matches);
      NothingStored(Step(m, es[0], matches).m, es[1..], e, matches);
    }
  }

  predicate NoRestartBefore(os: seq<Outcome>) { Issued !in os && Cleared !in os }

  /** Where a run from t on ends. */
  function LastOf(es: seq<Event>, t: Time): Time
    decreases es
  {
    if es == [] then t else LastOf(es[1..], LastRead(es[0], t))
  }

  lemma {:induction false} MonotoneLast(es: seq<Event>, e: Event, t: Time)
    ensures Monotone(es + [e], t) <==> Monotone(es, t) && ReadsFrom(e, LastOf(es, t))
    decreases es
  {
    if es == [] {
      assert [e][1..] == [];
      assert es + [e] == [e];
    } else {
      assert (es + [e])[1..] == es[1..] + [e];
      MonotoneLast(es[1..], e, LastRead(es[0], t));
    }
  }

  lemma {:induction false} InForceLater(
    m: Entries, before: Entries, otp: Hash, issued: Time, w: nat, es: seq<Event>, e: Event, t: Time,
    matches: Matcher)
    requires InForce(m, before, otp, ToSeconds(issued + OTP_EXPIRY), w)
    requires issued <= t && Monotone(es, t) && ReadsFrom(e, LastOf(es, t))
    requires NoRestartBefore(Outcomes(m, es, matches))
    ensures
      var os, n := Outcomes(m, es, matches), Step(Final(m, es, matches), e, matches);
      var right := && OnPath(before, e) && e.clock.expiry <= ToSeconds(issued + OTP_EXPIRY)
                   && Accepted !in os && w + Tally(os, WrongCode) < 5;
      && (n.outcome == Accepted <==> right && matches(otp, e.code))
      && (n.outcome == WrongCode <==> right && !matches(otp, e.code))
      && (n.outcome == Accepted ==> LeftOn(before, n.m))
    decreases es
  {
    if es == [] {
      StepInForce(m, before, otp, issued, w, e, t, matches);
    } else {
      var n := Step(m, es[0], matches);
      var rest := Outcomes(n.m, es[1..], matches);
      StepInForce(m, before, otp, issued, w, es[0], t, matches);
      assert Outcomes(m, es, matches) == [n.outcome] + rest;
      assert forall o :: o in [n.outcome] + rest <==> o == n.outcome || o in rest;
      assert Tally([n.outcome] + rest, WrongCode) == (if n.outcome == WrongCode then 1 else 0) + Tally(rest, WrongCode);
      assert n.outcome == Outcomes(m, es, matches)[0];
      if n.outcome == Accepted {
        NothingStored(n.m, es[1..], e, matches);
      } else {
        InForceLater(
          n.m, before, otp, issued, if n.outcome == WrongCode then w + 1 else w, es[1..], e,
          LastRead(es[0], t), matches);
      }
    }
  }

  /**
    After an issue, over every run without a further issue or a switch-off: a verification on the open
    path compares exactly while the code is in time, unused, and has fewer than five wrong guesses,
    and it accepts exactly the codes that the mailed hash takes. Then the code is gone and the factor on.
   */
  lemma AcceptedExact(before: Entries, otp: Hash, now: Time, es: seq<Event>, e: Event, matches: Matcher)
    requires Monotone(es, now) && ReadsFrom(e, LastOf(es, now))
    requires NoRestartBefore(Outcomes(Issue(before, otp, now), es, matches))
    ensures
      var os := Outcomes(Issue(before, otp, now), es, matches);
      var n := Step(Final(Issue(before, otp, now), es, matches), e, matches);
      var right := && OnPath(before, e) && e.clock.expiry <= ToSeconds(now + 10 * MINUTE)
                   && Accepted !in os && Tally(os, WrongCode) < 5;
      && (n.outcome == Accepted <==> right && matches(otp, e.code))
      && (n.outcome == WrongCode <==> right && !matches(otp, e.code))
      && (n.outcome == Accepted ==> LeftOn(before, n.m))
  {
    var m := Issue(before, otp, now);
    assert m - TRANSIENT == before - TRANSIENT;
    InForceLater(m, before, otp, now, 0, es, e, now, matches);
  }

  /** Why a verification is refused before any comparison: it then changes nothing. */
  lemma RefusalExact(m: Entries, e: Event, matches: Matcher)
    requires e.Confirm? || e.VerifyLogin?
    ensures
      var n := Step(m, e, matches);
      var locked := EmailLocked in m && m[EmailLocked].Stamp? && e.clock.lock < m[EmailLocked].at;
      var late := EmailExpires in m && !(m[EmailExpires].Stamp? && e.clock.expiry <= m[EmailExpires].at);
      && (n.outcome == (if e.Confirm? then AlreadyActive else NotActive) <==> !OnPath(m, e))
      && (n.outcome == LockedOut <==> OnPath(m, e) && locked)
      && (n.outcome == Expired <==> OnPath(m, e) && !locked && late)
      && (n.outcome == NoActiveCode <==>
            OnPath(m, e) && !locked && !late && (EmailExpires !in m || EmailOtpHash !in m))
      && (!Compared(n.outcome) ==> n.m == m)
  {
  }

  /** The factor is on, given how it was before, after an accepted code and until it is switched off. */
  predicate StaysOn(on: bool, os: seq<Outcome>)
    decreases os
  {
    if os == [] then on
    else StaysOn(if os[0] == Accepted then true else if os[0] == Cleared then false else on, os[1..])
  }

  /** Switching off drops all keys, and nothing else does. */
  lemma SwitchOffExact(m: Entries, e: Event, matches: Matcher)
    ensures Step(m, e, matches).outcome == Cleared <==> e.Disable?
    ensures e.Disable? ==> Step(m, e, matches).m == m - EMAIL_KEYS
  {
  }

  /** Over every run: accepted codes switch the factor on, and only switching it off turns it off. */
  lemma {:induction false} OnExact(m: Entries, es: seq<Event>, matches: Matcher)
    ensures FlagSet(Final(m, es, matches), EmailEnabled) <==>
      StaysOn(FlagSet(m, EmailEnabled), Outcomes(m, es, matches))
    decreases es
  {
    if es != [] {
      var n := Step(m, es[0], matches);
      OnExact(n.m, es[1..], matches);
      assert Outcomes(m, es, matches)[1..] == Outcomes(n.m, es[1..], matches);
      assert FlagSet(n.m, EmailEnabled) <==> StaysOn(FlagSet(m, EmailEnabled), [n.outcome]);
    }
  }

  // The lockout

  /** The calls that lift a lockout: a reissued code for a known user, or switching the factor off. */
  predicate Lifts(m: Entries, e: Event) {
    match e
    case Setup(userFound, _, _) => userFound && !FlagSet(m, EmailEnabled)
    case SendLogin(userFound, _, _) => userFound && FlagSet(m, EmailEnabled)
    case Disable => true
    case _ => false
  }

  predicate LockReadBefore(e: Event, until: Time) {
    (e.Confirm? || e.VerifyLogin?) ==> e.clock.lock < until
  }

  /** Before its end, a lockout survives a call exactly when the call is not one of those. */
  lemma LockSurvives(m: Entries, e: Event, until: Time, matches: Matcher)
    requires EmailLocked in m && m[EmailLocked] == Stamp(until)
    requires LockReadBefore(e, until)
    ensures
      var n := Step(m, e, matches);
      && (!Lifts(m, e) <==> n.m == m)
      && (!Lifts(m, e) <==> EmailLocked in n.m)
      && !Compared(n.outcome)
  {
    var n := Step(m, e, matches);
    assert Lifts(m, e) ==> EmailLocked !in n.m;
  }

  /** So no comparison happens until its end, over any run without such a call. */
  lemma {:induction false} LockoutHolds(m: Entries, es: seq<Event>, until: Time, matches: Matcher)
    requires EmailLocked in m && m[EmailLocked] == Stamp(until)
    requires forall e <- es :: LockReadBefore(e, until) && !Lifts(m, e)
    ensures forall o <- Outcomes(m, es, matches) :: !Compared(o)
    decreases es
  {
    if es != [] {
      LockSurvives(m, es[0], until, matches);
      LockoutHolds(m, es[1..], until, matches);
    }
  }

  /** How much shorter than fifteen minutes a stored lock can be: its fraction of a second is cut. */
  const CUT: int := 999_999_999

  /** The fifth failure locks; for the full fifteen minutes exactly when it was read on a whole second. */
  lemma LockLength(m: Entries, now: Time)
    requires FailedSoFar(m) >= MAX_FAILED_ATTEMPTS - 1
    ensures
      var n := RecordFailure(m, now);
      && EmailLocked in n && n[EmailLocked].Stamp?
      && now + LOCKOUT - CUT <= n[EmailLocked].at <= now + LOCKOUT
      && (n[EmailLocked].at == now + LOCKOUT <==> now % SECOND == 0)
      && ((forall later :: now <= later < now + LOCKOUT ==> Locked(n, later)) <==> now % SECOND == 0)
  {
    var n := RecordFailure(m, now);
    var until := ToSeconds(now + LOCKOUT);
    assert n[EmailLocked] == Stamp(until);
    assert (now + LOCKOUT) % SECOND == now % SECOND;
    if now % SECOND != 0 {
      assert now <= until < now + LOCKOUT && !Locked(n, until);
    }
  }

  /** Calls that do not lift the lockout and read it in the fifteen minutes after a failure, less the cut. */
  ghost predicate AllWithinLock(m: Entries, es: seq<Event>, now: Time) {
    forall e <- es :: LockReadBefore(e, now + LOCKOUT - if now % SECOND == 0 then 0 else CUT) && !Lifts(m, e)
  }

  /** After a failure that locks no comparison happens for that long, over any run without such a call. */
  lemma FifthFailureLocks(m: Entries, now: Time, es: seq<Event>, matches: Matcher)
    requires FailedSoFar(m) >= MAX_FAILED_ATTEMPTS - 1
    requires AllWithinLock(RecordFailure(m, now), es, now)
    ensures forall o <- Outcomes(RecordFailure(m, now), es, matches) :: !Compared(o)
  {
    var n := RecordFailure(m, now);
    LockLength(m, now);
    LockoutHolds(n, es, n[EmailLocked].at, matches);
  }

  /** Off the whole second, the lockout answer is gone before fifteen minutes are over. */
  lemma UnalignedLockIsShort(m: Entries, t: Time, now: Time, matches: Matcher)
    requires FlagSet(m, EmailEnabled) && Open(m, 4, t) && t <= now <= m[EmailExpires].at
    requires now % SECOND != 0 && !HashAccepts(m[EmailOtpHash], "000000", matches)
    ensures
      var until := ToSeconds(now + LOCKOUT);
      var es := [VerifyLogin("000000", Reads(now, now, now)), VerifyLogin("000000", Reads(until, until, until))];
      until < now + LOCKOUT && Monotone(es, now) && Outcomes(m, es, matches) == [WrongCode, Expired]
  {
    LockLength(m, now);
    LockOutlastsExpiry(t, now);
    var until := ToSeconds(now + LOCKOUT);
    var second := VerifyLogin("000000", Reads(until, until, until));
    var es := [VerifyLogin("000000", Reads(now, now, now)), second];
    var n := RecordFailure(m, now);
    assert (now + LOCKOUT) % SECOND == now % SECOND;
    assert es[1..] == [second] && [second][1..] == [];
    assert Step(m, es[0], matches) == Next(n, WrongCode);
    assert Step(n, second, matches).outcome == Expired;
    assert Outcomes(n, es[1..], matches) == [Expired];
  }

  /** But a resend ends it early: here a comparison follows while the lockout was still to run. */
  lemma ResendEndsLockout(m: Entries, otp: Hash, now: Time, until: Time, matches: Matcher)
    requires FlagSet(m, EmailEnabled)
    requires EmailLocked in m && m[EmailLocked] == Stamp(until)
    requires now < until && !matches(otp, "000000")
    ensures
      var es := [SendLogin(true, otp, now), VerifyLogin("000000", Reads(now, now, now))];
      && Monotone(es, now)
      && Outcomes(m, es, matches) == [Issued, WrongCode]
  {
    var verify := VerifyLogin("000000", Reads(now, now, now));
    var es := [SendLogin(true, otp, now), verify];
    var reissued := Issue(m, otp, now);
    assert es[1..] == [verify] && [verify][1..] == [];
    assert Step(reissued, verify, matches).outcome == WrongCode;
    assert Outcomes(reissued, es[1..], matches) == [WrongCode];
  }

  // Five failures in a row

  /** A fresh code, a success or switching the factor off. */
  predicate Restarts(o: Outcome) { o == Issued || o == Accepted || o == Cleared }

  /** The wrong codes since the last restart, starting from c. */
  function Streak(c: int, os: seq<Outcome>): int
    decreases os
  {
    if os == [] then c
    else if os[0] == WrongCode then Streak(c + 1, os[1..])
    else if Restarts(os[0]) then Streak(0, os[1..])
    else Streak(c, os[1..])
  }

  /** A lock is stored exactly when the counter has reached the limit. */
  predicate LockTracksCount(m: Entries) {
    && FailedSoFar(m) >= 0
    && (EmailLocked in m <==> FailedSoFar(m) >= MAX_FAILED_ATTEMPTS)
  }

  lemma StepCounts(m: Entries, e: Event, matches: Matcher)
    requires LockTracksCount(m)
    ensures
      var n := Step(m, e, matches);
      && LockTracksCount(n.m)
      && FailedSoFar(n.m) == Streak(FailedSoFar(m), [n.outcome])
  {
  }

  lemma StreakFirst(c: int, o: Outcome, os: seq<Outcome>)
    ensures Streak(c, [o] + os) == Streak(Streak(c, [o]), os)
  {
    assert ([o] + os)[1..] == os;
  }

  /** Over every run, the stored counter is the streak, and a lock is stored exactly from five on. */
  lemma {:induction false} StreakExact(m: Entries, es: seq<Event>, matches: Matcher)
    requires LockTracksCount(m)
    ensures
      var n, streak := Final(m, es, matches), Streak(FailedSoFar(m), Outcomes(m, es, matches));
      && LockTracksCount(n)
      && FailedSoFar(n) == streak
      && (EmailLocked in n <==> streak >= MAX_FAILED_ATTEMPTS)
    decreases es
  {
    if es != [] {
      var n := Step(m, es[0], matches);
      StepCounts(m, es[0], matches);
      StreakExact(n.m, es[1..], matches);
      StreakFirst(FailedSoFar(m), n.outcome, Outcomes(n.m, es[1..], matches));
    }
  }

  /** Without a restart every wrong code counts; with one, at most the wrong codes that come after. */
  lemma {:induction false} StreakTally(c: int, os: seq<Outcome>)
    ensures (forall o <- os :: !Restarts(o)) ==> Streak(c, os) == c + Tally(os, WrongCode)
    ensures (exists o :: o in os && Restarts(o)) ==> Streak(c, os) <= Tally(os, WrongCode)
    decreases os
  {
    if os != [] {
      var o, rest := os[0], os[1..];
      assert os == [o] + rest;
      StreakTally(if o == WrongCode then c + 1 else if Restarts(o) then 0 else c, rest);
      assert Tally(os, WrongCode) == Tally(rest, WrongCode) + if o == WrongCode then 1 else 0;
    }
  }

  /** Five wrong codes with no success in between, from the first of them to the last. */
  ghost predicate FiveInARow(os: seq<Outcome>) {
    && os != [] && os[0] == WrongCode == os[|os| - 1]
    && Tally(os, WrongCode) == MAX_FAILED_ATTEMPTS && Accepted !in os
  }

  lemma FiveInARowStreak(c: nat, os: seq<Outcome>)
    requires FiveInARow(os)
    ensures Streak(c, os) >= MAX_FAILED_ATTEMPTS <==> Issued !in os && Cleared !in os
  {
    var rest := os[1..];
    assert os == [WrongCode] + rest;
    assert Tally(os, WrongCode) == 1 + Tally(rest, WrongCode);
    StreakTally(c + 1, rest);
    assert forall o :: o in os <==> o == WrongCode || o in rest;
    if Issued in os {
      assert Issued in rest && Restarts(Issued);
    }
    if Cleared in os {
      assert Cleared in rest && Restarts(Cleared);
    }
  }

  /** The lock n was set by a failure at this moment, and so nothing is compared for as long as it lasts. */
  ghost predicate LockedAt(n: Entries, now: Time, later: seq<Event>, matches: Matcher) {
    && EmailLocked in n && n[EmailLocked].Stamp?
    && now + LOCKOUT - CUT <= n[EmailLocked].at <= now + LOCKOUT
    && (n[EmailLocked].at == now + LOCKOUT <==> now % SECOND == 0)
    && (AllWithinLock(n, later, now) ==> forall o <- Outcomes(n, later, matches) :: !Compared(o))
  }

  lemma FailureLocksAt(m: Entries, now: Time, later: seq<Event>, matches: Matcher)
    requires FailedSoFar(m) >= MAX_FAILED_ATTEMPTS - 1
    ensures LockedAt(RecordFailure(m, now), now, later, matches)
  {
    LockLength(m, now);
    if AllWithinLock(RecordFailure(m, now), later, now) {
      FifthFailureLocks(m, now, later, matches);
    }
  }

  lemma {:induction false} LastFailureLocks(m: Entries, es: seq<Event>, later: seq<Event>, matches: Matcher)
    requires LockTracksCount(m)
    requires es != [] && Outcomes(m, es, matches)[|es| - 1] == WrongCode
    requires EmailLocked in Final(m, es, matches)
    ensures es[|es| - 1].Confirm? || es[|es| - 1].VerifyLogin?
    ensures LockedAt(Final(m, es, matches), es[|es| - 1].clock.fail, later, matches)
    decreases es
  {
    var n := Step(m, es[0], matches);
    StepCounts(m, es[0], matches);
    if |es| > 1 {
      assert Outcomes(m, es, matches)[|es| - 1] == Outcomes(n.m, es[1..], matches)[|es| - 2];
      LastFailureLocks(n.m, es[1..], later, matches);
    } else {
      assert es[1..] == [] && Final(m, es, matches) == n.m;
      WrongCodeRecords(m, es[0], matches);
      FailureLocksAt(m, es[0].clock.fail, later, matches);
    }
  }

  lemma WrongCodeRecords(m: Entries, e: Event, matches: Matcher)
    requires LockTracksCount(m) && Step(m, e, matches).outcome == WrongCode
    ensures e.Confirm? || e.VerifyLogin?
    ensures Step(m, e, matches).m == RecordFailure(m, e.clock.fail)
    ensures EmailLocked in Step(m, e, matches).m ==> FailedSoFar(m) >= MAX_FAILED_ATTEMPTS - 1
  {
  }

  lemma FiveFailuresStreak(m: Entries, es: seq<Event>, matches: Matcher)
    requires LockTracksCount(m) && FiveInARow(Outcomes(m, es, matches))
    ensures
      var os := Outcomes(m, es, matches);
      EmailLocked in Final(m, es, matches) <==> Issued !in os && Cleared !in os
  {
    StreakExact(m, es, matches);
    FiveInARowStreak(FailedSoFar(m), Outcomes(m, es, matches));
  }

  /** If the last call of a run left a lock behind it, the call was a failed verification, and the lock is its. */
  ghost predicate LockedByLast(m: Entries, es: seq<Event>, later: seq<Event>, matches: Matcher) {
    var n := Final(m, es, matches);
    es != [] && EmailLocked in n ==>
      var last := es[|es| - 1];
      (last.Confirm? || last.VerifyLogin?) && LockedAt(n, last.clock.fail, later, matches)
  }

  lemma LockedByFifth(m: Entries, es: seq<Event>, later: seq<Event>, matches: Matcher)
    requires LockTracksCount(m) && FiveInARow(Outcomes(m, es, matches))
    ensures LockedByLast(m, es, later, matches)
  {
    if EmailLocked in Final(m, es, matches) {
      LastFailureLocks(m, es, later, matches);
    }
  }

  /**
    In every state a run reaches: five wrong codes in a row lock exactly when no call among them
    issues a code or switches the factor off. Then nothing is compared for fifteen minutes from the
    last of them, but for the cut, over any run without such a call.
   */
  lemma FiveFailuresLock(m: Entries, es: seq<Event>, later: seq<Event>, matches: Matcher)
    requires LockTracksCount(m) && FiveInARow(Outcomes(m, es, matches))
    ensures
      var os := Outcomes(m, es, matches);
      EmailLocked in Final(m, es, matches) <==> Issued !in os && Cleared !in os
    ensures LockedByLast(m, es, later, matches)
  {
    FiveFailuresStreak(m, es, matches);
    LockedByFifth(m, es, later, matches);
  }

  /** The factor is on, no lock is stored, w failures are counted, and the code in force is not this one. */
  predicate Guessing(m: Entries, w: int, code: string, t: Time, matches: Matcher) {
    && FlagSet(m, EmailEnabled) && EmailLocked !in m && FailedSoFar(m) == w
    && EmailExpires in m && m[EmailExpires].Stamp? && t <= m[EmailExpires].at
    && EmailOtpHash in m && !HashAccepts(m[EmailOtpHash], code, matches)
  }

  lemma WrongGuess(m: Entries, w: int, code: string, t: Time, matches: Matcher)
    requires Guessing(m, w, code, t, matches) && w < MAX_FAILED_ATTEMPTS - 1
    ensures
      var n := Step(m, VerifyLogin(code, Reads(t, t, t)), matches);
      n.outcome == WrongCode && Guessing(n.m, w + 1, code, t, matches)
  {
  }

  lemma ResentGuess(m: Entries, w: int, code: string, otp: Hash, t: Time, matches: Matcher)
    requires Guessing(m, w, code, t, matches) && !matches(otp, code)
    ensures
      var n := Step(m, SendLogin(true, otp, t), matches);
      n.outcome == Issued && Guessing(n.m, 0, code, t, matches)
  {
  }

  /** Four wrong codes, a resend and a fifth wrong code set no lock. */
  lemma ResendAmongFailures(m: Entries, code: string, otp: Hash, t: Time, matches: Matcher)
    requires Guessing(m, 0, code, t, matches) && !matches(otp, code)
    ensures
      var v := VerifyLogin(code, Reads(t, t, t));
      var es := [v, v, v, v, SendLogin(true, otp, t), v];
      && Monotone(es, t)
      && Outcomes(m, es, matches) == [WrongCode, WrongCode, WrongCode, WrongCode, Issued, WrongCode]
      && EmailLocked !in Final(m, es, matches)
  {
    var v, send := VerifyLogin(code, Reads(t, t, t)), SendLogin(true, otp, t);
    var m1 := Step(m, v, matches).m;
    WrongGuess(m, 0, code, t, matches);
    Unrolled(m, v, [v, v, v, send, v], matches);
    var m2 := Step(m1, v, matches).m;
    WrongGuess(m1, 1, code, t, matches);
    Unrolled(m1, v, [v, v, send, v], matches);
    var m3 := Step(m2, v, matches).m;
    WrongGuess(m2, 2, code, t, matches);
    Unrolled(m2, v, [v, send, v], matches);
    var m4 := Step(m3, v, matches).m;
    WrongGuess(m3, 3, code, t, matches);
    Unrolled(m3, v, [send, v], matches);
    var m5 := Step(m4, send, matches).m;
    ResentGuess(m4, 4, code, otp, t, matches);
    Unrolled(m4, send, [v], matches);
    WrongGuess(m5, 0, code, t, matches);
    Unrolled(m5, v, [], matches);
    AddedUp(v, send);
  }

  lemma AddedUp(v: Event, send: Event)
    ensures
      && [v, v, v, v, send, v] == [v] + [v, v, v, send, v] && [v, v, v, send, v] == [v] + [v, v, send, v]
      && [v, v, send, v] == [v] + [v, send, v] && [v, send, v] == [v] + [send, v]
      && [send, v] == [send] + [v] && [v] == [v] + []
  {
  }

  lemma Unrolled(m: Entries, e: Event, es: seq<Event>, matches: Matcher)
    ensures
      var n := Step(m, e, matches);
      && Outcomes(m, [e] + es, matches) == [n.outcome] + Outcomes(n.m, es, matches)
      && Final(m, [e] + es, matches) == Final(n.m, es, matches)
      && forall t :: Monotone([e] + es, t) <==> ReadsFrom(e, t) && Monotone(es, LastRead(e, t))
  {
    assert ([e] + es)[1..] == es;
  }

  // The service

  const KEYS: seq<Key> := [EmailEnabled, EmailOtpHash, EmailExpires, EmailAttempts, EmailLocked]

  function DropKeys(m: Entries, n: nat): Entries
    requires n <= |KEYS|
  {
    if n == 0 then m else DropKeys(m, n - 1) - {KEYS[n - 1]}
  }

  lemma DropsAllKeys(m: Entries)
    ensures DropKeys(m, |KEYS|) == m - {EmailEnabled, EmailOtpHash, EmailExpires, EmailAttempts, EmailLocked}
  {
    assert DropKeys(m, 1) == m - {EmailEnabled};
    assert DropKeys(m, 2) == m - {EmailEnabled, EmailOtpHash};
    assert DropKeys(m, 3) == m - {EmailEnabled, EmailOtpHash, EmailExpires};
    assert DropKeys(m, 4) == m - {EmailEnabled, EmailOtpHash, EmailExpires, EmailAttempts};
  }

  class EmailFactor {
    const store: Store
    const matches: Matcher

    constructor (store: Store, matches: Matcher)
      ensures this.store == store && this.matches == matches
    {
      this.store := store;
      this.matches := matches;
    }

    ghost function EntriesOf(u: UserId): Entries
      reads store
    {
      Of(store.table, u)
    }

    method IsEnabled(u: UserId) returns (enabled: bool)
      ensures enabled == FlagSet(EntriesOf(u), EmailEnabled)
    {
      var v := store.Get(u, EmailEnabled);
      enabled := v == Some(Text("true"));
    }

    method SetupEmail2FA(u: UserId, userFound: bool, otp: Hash, now: Time) returns (o: Outcome)
      modifies store
      ensures
        var n := Step(old(EntriesOf(u)), Setup(userFound, otp, now), matches);
        o == n.outcome && store.table == Put(old(store.table), u, n.m)
    {
      PutSame(store.table, u);
      var enabled := IsEnabled(u);
      if enabled {
        return AlreadyActive;
      }
      if !userFound {
        return UserMissing;
      }
      IssueOtp(u, otp, now);
      return Issued;
    }

    method ConfirmEmail2FA(u: UserId, code: string, clock: Reads) returns (o: Outcome)
      modifies store
      ensures
        var n := Step(old(EntriesOf(u)), Confirm(code, clock), matches);
        o == n.outcome && store.table == Put(old(store.table), u, n.m)
    {
      ghost var before := store.table;
      PutSame(before, u);
      var enabled := IsEnabled(u);
      if enabled {
        return AlreadyActive;
      }
      o := VerifyOtp(u, code, clock);
      if o == Accepted {
        store.Set(u, EmailEnabled, Text("true"));
        PutUnique(before, store.table, u, Of(store.table, u));
      }
    }

    method SendEmail2FALoginOTP(u: UserId, userFound: bool, otp: Hash, now: Time) returns (o: Outcome)
      modifies store
      ensures
        var n := Step(old(EntriesOf(u)), SendLogin(userFound, otp, now), matches);
        o == n.outcome && store.table == Put(old(store.table), u, n.m)
    {
      PutSame(store.table, u);
      var enabled := IsEnabled(u);
      if !enabled {
        return NothingToSend;
      }
      if !userFound {
        return UserMissing;
      }
      IssueOtp(u, otp, now);
      return Issued;
    }

    method VerifyEmail2FALogin(u: UserId, code: string, clock: Reads) returns (o: Outcome)
      modifies store
      ensures
        var n := Step(old(EntriesOf(u)), VerifyLogin(code, clock), matches);
        o == n.outcome && store.table == Put(old(store.table), u, n.m)
    {
      PutSame(store.table, u);
      var enabled := IsEnabled(u);
      if !enabled {
        return NotActive;
      }
      o := VerifyOtp(u, code, clock);
    }

    method DisableEmail2FA(u: UserId)
      modifies store
      ensures store.table == Put(old(store.table), u, Step(old(EntriesOf(u)), Disable, matches).m)
    {
      ghost var before := store.table;
      for i := 0 to |KEYS|
        invariant Of(store.table, u) == DropKeys(Of(before, u), i)
        invariant forall v: UserId :: v != u ==> Of(store.table, v) == Of(before, v)
      {
        store.Delete(u, KEYS[i]);
      }
      DropsAllKeys(Of(before, u));
      PutUnique(before, store.table, u, Of(store.table, u));
    }

    method IssueOtp(u: UserId, otp: Hash, now: Time)
      modifies store
      ensures store.table == Put(old(store.table), u, Issue(old(EntriesOf(u)), otp, now))
    {
      ghost var before := store.table;
      store.Set(u, EmailOtpHash, Digest(otp));
      store.Set(u, EmailExpires, Stamp(ToSeconds(now + OTP_EXPIRY)));
      store.Delete(u, EmailAttempts);
      store.Delete(u, EmailLocked);
      PutUnique(before, store.table, u, Issue(Of(before, u), otp, now));
    }

    method CountFailure(u: UserId, now: Time)
      modifies store
      ensures store.table == Put(old(store.table), u, RecordFailure(old(EntriesOf(u)), now))
    {
      ghost var before := store.table;
      var attempts := 0;
      var a := store.Get(u, EmailAttempts);
      if a.Some? && a.value.Count? {
        attempts := a.value.n;
      }
      attempts := attempts + 1;
      store.Set(u, EmailAttempts, Count(attempts));
      if attempts >= MAX_FAILED_ATTEMPTS {
        store.Set(u, EmailLocked, Stamp(ToSeconds(now + LOCKOUT)));
      }
      PutUnique(before, store.table, u, RecordFailure(Of(before, u), now));
    }

    method VerifyOtp(u: UserId, code: string, clock: Reads) returns (o: Outcome)
      modifies store
      ensures
        var n := Verify(old(EntriesOf(u)), code, clock, matches);
        o == n.outcome && store.table == Put(old(store.table), u, n.m)
    {
      PutSame(store.table, u);
      var locked := store.Get(u, EmailLocked);
      if locked.Some? && locked.value.Stamp? && clock.lock < locked.value.at {
        return LockedOut;
      }
      var expires := store.Get(u, EmailExpires);
      if expires.None? {
        return NoActiveCode;
      }
      if !expires.value.Stamp? || expires.value.at < clock.expiry {
        return Expired;
      }
      var hash := store.Get(u, EmailOtpHash);
      if hash.None? {
        return NoActiveCode;
      }
      if !HashAccepts(hash.value, code, matches) {
        CountFailure(u, clock.fail);
        return WrongCode;
      }
      ForgetOtp(u);
      return Accepted;
    }

    method ForgetOtp(u: UserId)
      modifies store
      ensures store.table
        == Put(old(store.table), u, old(EntriesOf(u)) - {EmailOtpHash, EmailExpires, EmailAttempts, EmailLocked})
    {
      ghost var before := store.table;
      store.Delete(u, EmailOtpHash);
      store.Delete(u, EmailExpires);
      store.Delete(u, EmailAttempts);
      store.Delete(u, EmailLocked);
      PutUnique(before, store.table, u, Of(before, u) - {EmailOtpHash, EmailExpires, EmailAttempts, EmailLocked});
    }
  }
}
