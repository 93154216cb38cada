/** Second factor by authenticator app: one row per user, a failure throttle and recovery codes. */
module Totp {
  import opened Clock
  import opened Identity
  import opened Wrappers

  const RECOVERY_CODES: nat := 10

  datatype Secret = Secret(bits: int)

  /** Whether a code is right for a secret at a moment. */
  type Validator = (Secret, string, Time) -> bool

  /** The two foreign checks: authenticator codes and bcrypt hashes. */
  datatype Checks = Checks(valid: Validator, matches: Matcher)

  datatype Row = Row(
    secret: Secret,
    enabled: bool,
    verifiedAt: Option<Time>,
    recovery: seq<Hash>,
    lastUsed: Option<Time>,
    failed: int,
    lockedUntil: Option<Time>)

  /** Clock readings of one verification: at the lock, while validating, when recording the result. */
  datatype Reads = Reads(lock: Time, check: Time, record: Time) {
    predicate From(t: Time) { t <= lock <= check <= record }
  }

  datatype Event =
    | Setup(userFound: bool, secret: Secret, hashes: seq<Hash>)
    | Confirm(code: string, clock: Reads)
    | Verify(code: string, clock: Reads)
    | Disable(code: string, clock: Reads)
    | Recover(code: string)

  datatype Outcome =
    | SetupDone | SetupConflict | UserMissing
    | NotSetUp | AlreadyActive | ConfirmInvalid | Confirmed
    | NotActive | LockedOut | WrongCode | Verified
    | StillActive(cause: Outcome) | Disabled
    | RecoveryUnavailable | RecoveryInvalid | Recovered(hash: Hash)

  datatype Next = Next(row: Option<Row>, outcome: Outcome)

  /** failed_attempts is a 32-bit integer. */
  function WrapInt32(n: int): int {
    (n + 0x8000_0000) % 0x1_0000_0000 - 0x8000_0000
  }

  function Failed(r: Row, now: Time): Row {
    var failed := WrapInt32(r.failed + 1);
    r.(lastUsed := None,
       failed := failed,
       lockedUntil := if failed >= MAX_FAILED_ATTEMPTS then Some(ToMicros(now + LOCKOUT)) else None)
  }

  function VerifyCode(row: Option<Row>, code: string, clock: Reads, c: Checks): Next {
    if row.None? || !row.value.enabled then Next(row, NotActive)
    else
      var r := row.value;
      if r.lockedUntil.Some? && clock.lock < r.lockedUntil.value then Next(row, LockedOut)
      else if c.valid(r.secret, code, clock.check) then
        Next(Some(r.(lastUsed := Some(ToMicros(clock.record)), failed := 0, lockedUntil := None)), Verified)
      else Next(Some(Failed(r, clock.record)), WrongCode)
  }

  /** The first hash that accepts the code, or the number of hashes. */
  function FirstMatch(hashes: seq<Hash>, code: string, matches: Matcher): (i: nat)
    ensures i <= |hashes|
    ensures i < |hashes| ==> matches(hashes[i], code)
    ensures forall k :: 0 <= k < i ==> !matches(hashes[k], code)
  {
    if hashes == [] || matches(hashes[0], code) then 0 else 1 + FirstMatch(hashes[1..], code, matches)
  }

  /** The sequence closed up over one place. */
  function WithoutAt<T>(s: seq<T>, i: nat): seq<T>
    requires i < |s|
  {
    s[..i] + s[i + 1..]
  }

  /** A new setup: off until confirmed, nothing counted, all recovery codes unused. */
  function AtSetup(secret: Secret, hashes: seq<Hash>): Row {
    Row(secret, false, None, hashes, None, 0, None)
  }

  function Step(row: Option<Row>, e: Event, c: Checks): Next {
    match e
    case Setup(userFound, secret, hashes) =>
      if row.Some? && row.value.enabled then Next(row, SetupConflict)
      else if !userFound then Next(row, UserMissing)
      else Next(Some(AtSetup(secret, hashes)), SetupDone)
    case Confirm(code, clock) =>
      if row.None? then Next(row, NotSetUp)
      else if row.value.enabled then Next(row, AlreadyActive)
      else if !c.valid(row.value.secret, code, clock.check) then Next(row, ConfirmInvalid)
      else
        var verified := Some(ToMicros(clock.record));
        Next(Some(Row(row.value.secret, true, verified, row.value.recovery, None, 0, None)), Confirmed)
    case Verify(code, clock) =>
      VerifyCode(row, code, clock, c)
    case Disable(code, clock) =>
      var n := VerifyCode(row, code, clock, c);
      if n.outcome == Verified then Next(None, Disabled) else Next(n.row, StillActive(n.outcome))
    case Recover(code) =>
      if row.None? || !row.value.enabled then Next(row, RecoveryUnavailable)
      else
        var r := row.value;
        var i := FirstMatch(r.recovery, code, c.matches);
        if i == |r.recovery| then Next(row, RecoveryInvalid)
        else
          var left := WithoutAt(r.recovery, i);
          Next(Some(Row(r.secret, true, r.verifiedAt, left, None, 0, None)), Recovered(r.recovery[i]))
  }

  // Runs

  function Outcomes(row: Option<Row>, es: seq<Event>, c: Checks): (os: seq<Outcome>)
    ensures |os| == |es|
    decreases es
  {
    if es == [] then []
    else
      var n := Step(row, es[0], c);
      [n.outcome] + Outcomes(n.row, es[1..], c)
  }

  function Final(row: Option<Row>, es: seq<Event>, c: Checks): Option<Row>
    decreases es
  {
    if es == [] then row else Final(Step(row, es[0], c).row, es[1..], c)
  }

  predicate Monotone(es: seq<Event>, t: Time) {
    es == [] ||
    if es[0].Setup? || es[0].Recover? then Monotone(es[1..], t)
    else es[0].clock.From(t) && Monotone(es[1..], es[0].clock.record)
  }

  // What each call accepts

  predicate IsOn(row: Option<Row>) { row.Some? && row.value.enabled }

  /** The factor is on and no lock reaches beyond the reading. */
  predicate Unlocked(row: Option<Row>, clock: Reads) {
    && row.Some? && row.value.enabled
    && (row.value.lockedUntil.Some? ==> row.value.lockedUntil.value <= clock.lock)
  }

  /** A code is accepted exactly when the factor is on, no lock lasts, and the code is right at that moment. */
  lemma VerifyExact(row: Option<Row>, code: string, clock: Reads, c: Checks)
    ensures
      var n := Step(row, Verify(code, clock), c);
      && (n.outcome == Verified <==> Unlocked(row, clock) && c.valid(row.value.secret, code, clock.check))
      && (n.outcome == WrongCode <==> Unlocked(row, clock) && !c.valid(row.value.secret, code, clock.check))
      && (n.outcome == LockedOut <==> IsOn(row) && !Unlocked(row, clock))
      && (n.outcome == NotActive <==> !IsOn(row))
      && (n.outcome != Verified && n.outcome != WrongCode ==> n.row == row)
      && (n.outcome == Verified || n.outcome == WrongCode ==>
            && IsOn(n.row) && n.row.value.secret == row.value.secret
            && n.row.value.recovery == row.value.recovery && n.row.value.verifiedAt == row.value.verifiedAt)
      && (n.outcome == Verified ==>
            && n.row.value.failed == 0 && n.row.value.lockedUntil.None?
            && n.row.value.lastUsed == Some(ToMicros(clock.record)))
  {
  }

  /** Disabling succeeds exactly where verifying does, and then the row is gone; else it does what verifying does. */
  lemma DisableExact(row: Option<Row>, code: string, clock: Reads, c: Checks)
    ensures
      var n := Step(row, Disable(code, clock), c);
      && (n.outcome == Disabled <==> Unlocked(row, clock) && c.valid(row.value.secret, code, clock.check))
      && (n.outcome == Disabled ==> n.row == None)
      && (n.outcome != Disabled ==>
            && n.outcome == StillActive(Step(row, Verify(code, clock), c).outcome)
            && n.row == Step(row, Verify(code, clock), c).row)
  {
  }

  /** A setup of a known user while the factor is off stores secret and codes; the factor is still off. */
  lemma SetupExact(row: Option<Row>, userFound: bool, secret: Secret, hashes: seq<Hash>, c: Checks)
    ensures
      var n := Step(row, Setup(userFound, secret, hashes), c);
      && (n.outcome == SetupDone <==> userFound && !IsOn(row))
      && (n.outcome == SetupConflict <==> IsOn(row))
      && (n.outcome != SetupDone ==> n.row == row)
      && (n.outcome == SetupDone ==>
            && n.row.Some? && !n.row.value.enabled && n.row.value.secret == secret && n.row.value.recovery == hashes
            && n.row.value.failed == 0 && n.row.value.lockedUntil.None? && n.row.value.verifiedAt.None?)
  {
  }

  /** The factor goes on exactly by a right code for a setup that is still off; secret and codes stay. */
  lemma ConfirmExact(row: Option<Row>, code: string, clock: Reads, c: Checks)
    ensures
      var n := Step(row, Confirm(code, clock), c);
      && (n.outcome == Confirmed <==> row.Some? && !row.value.enabled && c.valid(row.value.secret, code, clock.check))
      && (n.outcome == NotSetUp <==> row.None?)
      && (n.outcome == AlreadyActive <==> IsOn(row))
      && (n.outcome != Confirmed ==> n.row == row)
      && (n.outcome == Confirmed ==>
            && IsOn(n.row) && n.row.value.secret == row.value.secret && n.row.value.recovery == row.value.recovery
            && n.row.value.verifiedAt == Some(ToMicros(clock.record)) && n.row.value.lockedUntil.None?)
  {
  }

  /** On after a confirmation and until disabled, given how it was before. */
  predicate StaysOn(on: bool, os: seq<Outcome>)
    decreases os
  {
    if os == [] then on
    else StaysOn(if os[0] == Confirmed then true else if os[0] == Disabled then false else on, os[1..])
  }

  /** Over every run: the factor is on from a confirmation until it is disabled, and at no other time. */
  lemma {:induction false} OnExact(row: Option<Row>, es: seq<Event>, c: Checks)
    ensures IsOn(Final(row, es, c)) <==> StaysOn(IsOn(row), Outcomes(row, es, c))
    decreases es
  {
    if es != [] {
      var n := Step(row, es[0], c);
      OnExact(n.row, es[1..], c);
      assert Outcomes(row, es, c)[1..] == Outcomes(n.row, es[1..], c);
    }
  }

  // The throttle

  /** A login or disable call got as far as validating its code, and the code was wrong. */
  predicate ComparedWrong(o: Outcome) { o == WrongCode || o == StillActive(WrongCode) }

  /** No success, recovery or new setup. */
  predicate Quiet(o: Outcome) {
    o != Verified && o != Disabled && !o.Recovered? && o != SetupDone
  }

  /** The readings of the calls whose code was compared, in order. */
  function Comparisons(row: Option<Row>, es: seq<Event>, c: Checks): seq<Reads>
    decreases es
  {
    if es == [] then []
    else
      var n := Step(row, es[0], c);
      var rest := Comparisons(n.row, es[1..], c);
      if ComparedWrong(n.outcome) && (es[0].Verify? || es[0].Disable?) then [es[0].clock] + rest else rest
  }

  /** How much shorter than fifteen minutes a stored lock can be: its sub-microsecond part is cut. */
  const CUT: int := 999

  predicate Aligned(es: seq<Event>) {
    forall e <- es :: e.Verify? || e.Disable? ==> e.clock.record % MICROSECOND == 0
  }

  /** A lock lasts the full fifteen minutes exactly when the failure was read on a whole microsecond. */
  lemma LockLength(now: Time)
    ensures ToMicros(now + LOCKOUT) - now >= LOCKOUT - CUT
    ensures ToMicros(now + LOCKOUT) - now == LOCKOUT <==> now % MICROSECOND == 0
  {
    assert (now + LOCKOUT) % MICROSECOND == now % MICROSECOND;
  }

  /** The row after the failure that makes it five or more: locked for one more lock. */
  lemma FailedLocks(r: Row, now: Time)
    requires 4 <= r.failed < 0x7fff_ffff
    ensures Failed(r, now).failed == r.failed + 1
    ensures Failed(r, now).lockedUntil.Some?
    ensures Failed(r, now).lockedUntil.value >= now + LOCKOUT - if now % MICROSECOND == 0 then 0 else CUT
  {
    LockLength(now);
  }

  lemma FailedCounts(r: Row, now: Time)
    requires 0 <= r.failed < 4
    ensures
      var n := Failed(r, now);
      n.failed == r.failed + 1 && n.lockedUntil.None? && n.enabled == r.enabled
  {
  }

  /** The least total length of some locks in a row. */
  function LockTimes(n: nat, aligned: bool): int {
    if n == 0 then 0 else LockTimes(n - 1, aligned) + LOCKOUT - if aligned then 0 else CUT
  }

  lemma {:induction false} LockTimesAddUp(n: nat)
    ensures LockTimes(n, true) == n * LOCKOUT && LockTimes(n, false) == n * LOCKOUT - n * CUT
  {
    if n > 0 {
      LockTimesAddUp(n - 1);
    }
  }

  /** While the factor is on, a quiet call either changes nothing or counts one wrong code. */
  lemma QuietStep(r: Row, e: Event, c: Checks)
    requires r.enabled && Quiet(Step(Some(r), e, c).outcome)
    ensures
      var n := Step(Some(r), e, c);
      if ComparedWrong(n.outcome)
      then
        && (e.Verify? || e.Disable?)
        && n.row == Some(Failed(r, e.clock.record))
        && (r.lockedUntil.Some? ==> r.lockedUntil.value <= e.clock.lock)
      else n.row == Some(r)
  {
  }

  lemma OutcomesSplit(row: Option<Row>, es: seq<Event>, c: Checks)
    requires es != []
    requires forall o <- Outcomes(row, es, c) :: Quiet(o)
    ensures var n := Step(row, es[0], c);
      Quiet(n.outcome) && forall o <- Outcomes(n.row, es[1..], c) :: Quiet(o)
  {
    var os := Outcomes(row, es, c);
    assert os[0] in os;
    assert forall o <- os[1..] :: o in os;
  }

  lemma ComparisonsSplit(r: Row, es: seq<Event>, c: Checks)
    requires es != [] && r.enabled && Quiet(Step(Some(r), es[0], c).outcome)
    ensures
      var n := Step(Some(r), es[0], c);
      var rest := Comparisons(n.row, es[1..], c);
      Comparisons(Some(r), es, c) == if ComparedWrong(n.outcome) then [es[0].clock] + rest else rest
  {
  }

  function After(e: Event, t: Time): Time {
    if e.Setup? || e.Recover? then t else e.clock.record
  }

  /** From a locked row with f failures, each further comparison costs another lock. */
  lemma {:induction false} LockedThrottle(r: Row, es: seq<Event>, t: Time, c: Checks, aligned: bool, i: nat)
    requires Monotone(es, t)
    requires aligned ==> Aligned(es)
    requires r.enabled && 5 <= r.failed < 0x8000_0000 && r.lockedUntil.Some?
    requires forall o <- Outcomes(Some(r), es, c) :: Quiet(o)
    requires i < |Comparisons(Some(r), es, c)| && r.failed + i < 0x8000_0000
    ensures Comparisons(Some(r), es, c)[i].lock >= r.lockedUntil.value + LockTimes(i, aligned)
    decreases es
  {
    var n := Step(Some(r), es[0], c);
    OutcomesSplit(Some(r), es, c);
    QuietStep(r, es[0], c);
    ComparisonsSplit(r, es, c);
    if !ComparedWrong(n.outcome) {
      LockedThrottle(r, es[1..], After(es[0], t), c, aligned, i);
    } else if i > 0 {
      FailedLocks(r, es[0].clock.record);
      assert es[0] in es;
      LockedThrottle(n.row.value, es[1..], After(es[0], t), c, aligned, i - 1);
    }
  }

  /** The same from any smaller count, measured from the comparison that makes it five. */
  lemma {:induction false} Throttle(r: Row, es: seq<Event>, t: Time, c: Checks, aligned: bool, i: nat)
    requires Monotone(es, t)
    requires aligned ==> Aligned(es)
    requires r.enabled && 0 <= r.failed < 5 && r.lockedUntil.None?
    requires forall o <- Outcomes(Some(r), es, c) :: Quiet(o)
    requires 5 - r.failed <= i < |Comparisons(Some(r), es, c)| && r.failed + i < 0x8000_0000
    ensures
      var q := Comparisons(Some(r), es, c);
      var fifth := 4 - r.failed;
      q[i].lock - q[fifth].record >= LockTimes(i - fifth, aligned)
    decreases es
  {
    var n := Step(Some(r), es[0], c);
    OutcomesSplit(Some(r), es, c);
    QuietStep(r, es[0], c);
    ComparisonsSplit(r, es, c);
    if !ComparedWrong(n.outcome) {
      Throttle(r, es[1..], After(es[0], t), c, aligned, i);
    } else if r.failed < 4 {
      FailedCounts(r, es[0].clock.record);
      Throttle(n.row.value, es[1..], After(es[0], t), c, aligned, i - 1);
    } else {
      FailedLocks(r, es[0].clock.record);
      assert es[0] in es;
      LockedThrottle(n.row.value, es[1..], After(es[0], t), c, aligned, i - 1);
    }
  }

  /**
    From a zero counter, with no success, recovery or new setup: once n codes were compared, the
    n-th came at least n - 5 locks after the fifth. The 32-bit counter keeps this up to 2^31 codes.
   */
  lemma ThrottleBound(r: Row, es: seq<Event>, t: Time, c: Checks)
    requires Monotone(es, t)
    requires r.enabled && r.failed == 0 && r.lockedUntil.None?
    requires forall o <- Outcomes(Some(r), es, c) :: Quiet(o)
    ensures
      var q := Comparisons(Some(r), es, c);
      forall i :: 5 <= i < |q| && i < 0x8000_0000 ==>
        && (i - 4) * LOCKOUT <= q[i].lock - q[4].record + (i - 4) * CUT
        && (Aligned(es) ==> (i - 4) * LOCKOUT <= q[i].lock - q[4].record)
  {
    var q := Comparisons(Some(r), es, c);
    forall i | 5 <= i < |q| && i < 0x8000_0000
      ensures (i - 4) * LOCKOUT <= q[i].lock - q[4].record + (i - 4) * CUT
      ensures Aligned(es) ==> (i - 4) * LOCKOUT <= q[i].lock - q[4].record
    {
      LockTimesAddUp(i - 4);
      Throttle(r, es, t, c, false, i);
      if Aligned(es) {
        Throttle(r, es, t, c, true, i);
      }
    }
  }

  // Five failures in a row

  /** A success or a new setup. */
  predicate Restarts(o: Outcome) {
    o == Verified || o == Disabled || o.Recovered? || o == SetupDone || o == Confirmed
  }

  /** The wrong codes since the last restart, starting from c. */
  function Streak(c: int, os: seq<Outcome>): int
    decreases os
  {
    if os == [] then c
    else Streak(if ComparedWrong(os[0]) then c + 1 else if Restarts(os[0]) then 0 else c, os[1..])
  }

  function FailedSoFar(row: Option<Row>): int {
    if row.Some? then row.value.failed else 0
  }

  predicate HasLock(row: Option<Row>) { row.Some? && row.value.lockedUntil.Some? }

  /** A lock is stored exactly when the counter has reached the limit, and only an enabled factor counts. */
  predicate LockTracksCount(row: Option<Row>) {
    && FailedSoFar(row) >= 0
    && (HasLock(row) <==> FailedSoFar(row) >= MAX_FAILED_ATTEMPTS)
    && (row.Some? && !row.value.enabled ==> row.value.failed == 0)
  }

  lemma StepCounts(row: Option<Row>, e: Event, c: Checks)
    requires LockTracksCount(row) && FailedSoFar(row) < 0x7fff_ffff
    ensures
      var n := Step(row, e, c);
      && LockTracksCount(n.row)
      && FailedSoFar(n.row) == Streak(FailedSoFar(row), [n.outcome])
      && FailedSoFar(n.row) <= FailedSoFar(row) + 1
  {
  }

  lemma StreakFirst(c: int, o: Outcome, os: seq<Outcome>)
    ensures Streak(c, [o] + os) == Streak(Streak(c, [o]), os)
  {
    assert ([o] + os)[1..] == os;
  }

  /** The streak stays within the 32-bit counter before each call. */
  predicate Fits(streak: int, os: seq<Outcome>)
    decreases os
  {
    os == [] || (streak < 0x7fff_ffff && Fits(Streak(streak, [os[0]]), os[1..]))
  }

  /**
    Over every run, as far as the 32-bit counter reaches: the stored counter is the wrong codes since
    the last success or setup, and a lock is stored exactly from five on.
   */
  lemma {:induction false} StreakExact(row: Option<Row>, es: seq<Event>, c: Checks)
    requires LockTracksCount(row) && Fits(FailedSoFar(row), Outcomes(row, es, c))
    ensures
      var n, streak := Final(row, es, c), Streak(FailedSoFar(row), Outcomes(row, es, c));
      && LockTracksCount(n)
      && FailedSoFar(n) == streak
      && (HasLock(n) <==> streak >= MAX_FAILED_ATTEMPTS)
    decreases es
  {
    if es != [] {
      var n := Step(row, es[0], c);
      StepCounts(row, es[0], c);
      StreakExact(n.row, es[1..], c);
      StreakFirst(FailedSoFar(row), n.outcome, Outcomes(n.row, es[1..], c));
    }
  }

  /** Past 2^31 the counter has wrapped below five, and a wrong code no longer locks. */
  lemma CounterWraps(r: Row, now: Time)
    requires r.failed == 0x7fff_ffff
    ensures Failed(r, now).lockedUntil.None?
  {
  }

  /** On a reading off the whole microsecond, the next comparison can come early by that much. */
  lemma UnalignedLockIsShort(r: Row, now: Time, c: Checks)
    requires r.enabled && r.failed == 4 && r.lockedUntil.None?
    requires now % MICROSECOND != 0
    requires !c.valid(r.secret, "0", now) && !c.valid(r.secret, "0", ToMicros(now + LOCKOUT))
    ensures
      var until := ToMicros(now + LOCKOUT);
      var es := [Verify("0", Reads(now, now, now)), Verify("0", Reads(until, until, until))];
      && Monotone(es, now)
      && Outcomes(Some(r), es, c) == [WrongCode, WrongCode]
      && until - now < LOCKOUT
  {
    LockLength(now);
    FailedLocks(r, now);
    var until := ToMicros(now + LOCKOUT);
    var second := Verify("0", Reads(until, until, until));
    var es := [Verify("0", Reads(now, now, now)), second];
    var n := Step(Some(r), es[0], c);
    assert es[1..] == [second] && [second][1..] == [];
    assert Step(n.row, second, c).outcome == WrongCode;
    assert Outcomes(n.row, es[1..], c) == [WrongCode];
  }

  // Recovery codes

  function Consumed(os: seq<Outcome>): seq<Hash> {
    if os == [] then []
    else (if os[0].Recovered? then [os[0].hash] else []) + Consumed(os[1..])
  }

  /** How many stored hashes accept a code. */
  function Accepting(hashes: seq<Hash>, code: string, matches: Matcher): nat {
    if hashes == [] then 0
    else (if matches(hashes[0], code) then 1 else 0) + Accepting(hashes[1..], code, matches)
  }

  /** How often this code was presented and accepted. */
  function Uses(es: seq<Event>, os: seq<Outcome>, code: string): nat
    requires |es| == |os|
  {
    if es == [] then 0
    else (if es[0] == Recover(code) && os[0].Recovered? then 1 else 0) + Uses(es[1..], os[1..], code)
  }

  ghost predicate Picks(pos: seq<nat>, a: seq<Hash>, b: seq<Hash>) {
    && |pos| == |a|
    && (forall k :: 0 <= k < |pos| ==> pos[k] < |b| && a[k] == b[pos[k]])
    && (forall k, l :: 0 <= k < l < |pos| ==> pos[k] < pos[l])
  }

  ghost predicate Subsequence(a: seq<Hash>, b: seq<Hash>) {
    exists pos: seq<nat> :: Picks(pos, a, b)
  }

  lemma SubsequenceSelf(a: seq<Hash>)
    ensures Subsequence(a, a)
  {
    assert Picks(seq(|a|, k => k), a, a);
  }

  lemma SubsequenceBeforeRemoval(a: seq<Hash>, b: seq<Hash>, i: nat)
    requires i < |b| && Subsequence(a, WithoutAt(b, i))
    ensures Subsequence(a, b)
  {
    var pos: seq<nat> :| Picks(pos, a, WithoutAt(b, i));
    assert Picks(seq(|a|, k requires 0 <= k < |a| => if pos[k] < i then pos[k] else pos[k] + 1), a, b);
  }

  lemma WithoutMultiset(b: seq<Hash>, i: nat)
    requires i < |b|
    ensures multiset(WithoutAt(b, i)) + multiset{b[i]} == multiset(b)
  {
    assert b == b[..i] + [b[i]] + b[i + 1..];
  }

  lemma {:induction false} AcceptingWithout(b: seq<Hash>, i: nat, code: string, matches: Matcher)
    requires i < |b|
    ensures
      Accepting(WithoutAt(b, i), code, matches)
      == Accepting(b, code, matches) - if matches(b[i], code) then 1 else 0
  {
    if i > 0 {
      assert WithoutAt(b, i)[1..] == WithoutAt(b[1..], i - 1);
      AcceptingWithout(b[1..], i - 1, code, matches);
    } else {
      assert WithoutAt(b, i) == b[1..];
    }
  }

  lemma {:induction false} AcceptingFirst(b: seq<Hash>, code: string, matches: Matcher)
    ensures Accepting(b, code, matches) > 0 <==> FirstMatch(b, code, matches) < |b|
  {
    if b != [] {
      AcceptingFirst(b[1..], code, matches);
    }
  }

  /** Recovery asks only for an enabled factor and an unused code: neither lock nor count matters. */
  lemma RecoverExact(row: Option<Row>, code: string, c: Checks)
    ensures
      var n := Step(row, Recover(code), c);
      && (n.outcome.Recovered? <==>
            row.Some? && row.value.enabled && Accepting(row.value.recovery, code, c.matches) > 0)
      && (n.outcome.Recovered? ==>
            && n.row.Some? && n.row.value.failed == 0 && n.row.value.lockedUntil.None?
            && n.row.value.enabled && n.row.value.secret == row.value.secret
            && n.row.value.verifiedAt == row.value.verifiedAt
            && Accepting(n.row.value.recovery, code, c.matches) == Accepting(row.value.recovery, code, c.matches) - 1
            && multiset(n.row.value.recovery) + multiset{n.outcome.hash} == multiset(row.value.recovery))
      && (!n.outcome.Recovered? ==> n.row == row)
  {
    if row.Some? {
      var b := row.value.recovery;
      var i := FirstMatch(b, code, c.matches);
      AcceptingFirst(b, code, c.matches);
      if i < |b| {
        AcceptingWithout(b, i, code, c.matches);
        WithoutMultiset(b, i);
      }
    }
  }

  /** While a code is refused because of the lock, a recovery code gets through. */
  lemma RecoveryDuringLock(r: Row, code: string, now: Time, c: Checks)
    requires r.enabled && r.lockedUntil.Some? && now < r.lockedUntil.value
    requires r.recovery != [] && c.matches(r.recovery[0], code)
    ensures
      var es := [Verify(code, Reads(now, now, now)), Recover(code)];
      Outcomes(Some(r), es, c) == [LockedOut, Recovered(r.recovery[0])]
  {
    var es := [Verify(code, Reads(now, now, now)), Recover(code)];
    assert es[1..] == [Recover(code)] && [Recover(code)][1..] == [];
    assert Step(Some(r), es[0], c) == Next(Some(r), LockedOut);
    assert Outcomes(Some(r), es[1..], c) == [Recovered(r.recovery[0])];
  }

  /** Before its end, a lock survives a call exactly when that is no successful recovery; no code is compared. */
  lemma LockSurvives(r: Row, e: Event, c: Checks)
    requires r.enabled && r.lockedUntil.Some?
    requires (e.Confirm? || e.Verify? || e.Disable?) ==> e.clock.lock < r.lockedUntil.value
    ensures
      var n := Step(Some(r), e, c);
      && (n.row == Some(r) <==> !n.outcome.Recovered?)
      && (HasLock(n.row) <==> !n.outcome.Recovered?)
      && !ComparedWrong(n.outcome) && n.outcome != Verified && n.outcome != Disabled
  {
  }

  function IssuedHashes(row: Option<Row>): seq<Hash> {
    if row.Some? then row.value.recovery else []
  }

  /** Without a new setup, a call leaves the stored hashes alone, drops them all, or uses one up. */
  lemma HashesStep(row: Option<Row>, e: Event, c: Checks)
    requires Step(row, e, c).outcome != SetupDone
    ensures
      var n := Step(row, e, c);
      if n.outcome.Recovered?
      then
        && e.Recover? && row.Some? && n.row.Some?
        && var i := FirstMatch(row.value.recovery, e.code, c.matches);
          i < |row.value.recovery| && n.row.value.recovery == WithoutAt(row.value.recovery, i)
          && n.outcome.hash == row.value.recovery[i]
      else
        n.row.None? || (row.Some? && n.row.value.recovery == row.value.recovery)
  {
  }

  lemma NoSetupSplit(row: Option<Row>, es: seq<Event>, c: Checks)
    requires es != [] && SetupDone !in Outcomes(row, es, c)
    ensures
      var n := Step(row, es[0], c);
      n.outcome != SetupDone && SetupDone !in Outcomes(n.row, es[1..], c)
  {
    var os := Outcomes(row, es, c);
    assert os[0] in os;
    assert forall o <- os[1..] :: o in os;
  }

  lemma ConsumedSplit(row: Option<Row>, es: seq<Event>, c: Checks)
    requires es != []
    ensures
      var n := Step(row, es[0], c);
      multiset(Consumed(Outcomes(row, es, c))) ==
        (if n.outcome.Recovered? then multiset{n.outcome.hash} else multiset{})
        + multiset(Consumed(Outcomes(n.row, es[1..], c)))
  {
    assert Outcomes(row, es, c)[1..] == Outcomes(Step(row, es[0], c).row, es[1..], c);
  }

  /** Without a setup, no row stays no row, and nothing is recovered. */
  lemma {:induction false} NoRowStays(es: seq<Event>, c: Checks)
    requires SetupDone !in Outcomes(None, es, c)
    ensures Final(None, es, c).None? && Consumed(Outcomes(None, es, c)) == []
    decreases es
  {
    if es != [] {
      NoSetupSplit(None, es, c);
      NoRowStays(es[1..], c);
      assert Outcomes(None, es, c)[1..] == Outcomes(None, es[1..], c);
    }
  }

  lemma UsedUp(b: seq<Hash>, i: nat, left: multiset<Hash>, used: multiset<Hash>)
    requires i < |b| && left + used == multiset(WithoutAt(b, i))
    ensures left + (multiset{b[i]} + used) == multiset(b)
  {
    WithoutMultiset(b, i);
  }

  /** Until the next setup, each issued hash is either still stored or consumed. */
  lemma {:induction false} RecoveryConserved(r: Row, es: seq<Event>, c: Checks)
    requires SetupDone !in Outcomes(Some(r), es, c)
    ensures
      var used := multiset(Consumed(Outcomes(Some(r), es, c)));
      var f := Final(Some(r), es, c);
      && (f.Some? ==> multiset(f.value.recovery) + used == multiset(r.recovery))
      && used <= multiset(r.recovery)
    decreases es
  {
    if es != [] {
      var n := Step(Some(r), es[0], c);
      NoSetupSplit(Some(r), es, c);
      HashesStep(Some(r), es[0], c);
      ConsumedSplit(Some(r), es, c);
      if n.row.None? {
        NoRowStays(es[1..], c);
      } else {
        RecoveryConserved(n.row.value, es[1..], c);
        if n.outcome.Recovered? {
          var i := FirstMatch(r.recovery, es[0].code, c.matches);
          var f := Final(n.row, es[1..], c);
          var used := multiset(Consumed(Outcomes(n.row, es[1..], c)));
          WithoutMultiset(r.recovery, i);
          if f.Some? {
            UsedUp(r.recovery, i, multiset(f.value.recovery), used);
          }
        }
      }
    }
  }

  /** What is left keeps the issued order. */
  lemma {:induction false} RecoveryOrder(row: Option<Row>, es: seq<Event>, c: Checks)
    requires SetupDone !in Outcomes(row, es, c)
    requires Final(row, es, c).Some?
    ensures Subsequence(Final(row, es, c).value.recovery, IssuedHashes(row))
    decreases es
  {
    if es == [] {
      SubsequenceSelf(row.value.recovery);
    } else {
      var n := Step(row, es[0], c);
      NoSetupSplit(row, es, c);
      HashesStep(row, es[0], c);
      if n.row.None? {
        NoRowStays(es[1..], c);
      } else {
        RecoveryOrder(n.row, es[1..], c);
        if n.outcome.Recovered? {
          var i := FirstMatch(row.value.recovery, es[0].code, c.matches);
          SubsequenceBeforeRemoval(Final(row, es, c).value.recovery, row.value.recovery, i);
        }
      }
    }
  }

  /** A code succeeds at most once for each stored hash that accepts it. */
  lemma {:induction false} UsesBounded(row: Option<Row>, es: seq<Event>, c: Checks, code: string)
    requires SetupDone !in Outcomes(row, es, c)
    ensures Uses(es, Outcomes(row, es, c), code) <= Accepting(IssuedHashes(row), code, c.matches)
    decreases es
  {
    if es != [] {
      var n := Step(row, es[0], c);
      NoSetupSplit(row, es, c);
      HashesStep(row, es[0], c);
      UsesBounded(n.row, es[1..], c, code);
      assert Outcomes(row, es, c)[1..] == Outcomes(n.row, es[1..], c);
      if n.outcome.Recovered? {
        AcceptingWithout(row.value.recovery, FirstMatch(row.value.recovery, es[0].code, c.matches), code, c.matches);
      }
    }
  }

  lemma SubmultisetSize(a: multiset<Hash>, b: multiset<Hash>)
    requires a <= b
    ensures |a| <= |b|
  {
    assert b == a + (b - a);
  }

  /** From a setup on: at most ten recoveries, and a code accepted by one hash only works once. */
  lemma RecoveryLaw(secret: Secret, hashes: seq<Hash>, es: seq<Event>, c: Checks, code: string)
    requires |hashes| == RECOVERY_CODES
    requires SetupDone !in Outcomes(Some(AtSetup(secret, hashes)), es, c)
    ensures
      var os := Outcomes(Some(AtSetup(secret, hashes)), es, c);
      var f := Final(Some(AtSetup(secret, hashes)), es, c);
      && |Consumed(os)| <= 10
      && (f.Some? ==>
            && Subsequence(f.value.recovery, hashes)
            && multiset(f.value.recovery) + multiset(Consumed(os)) == multiset(hashes))
      && Uses(es, os, code) <= Accepting(hashes, code, c.matches)
  {
    var start := AtSetup(secret, hashes);
    RecoveryConserved(start, es, c);
    UsesBounded(Some(start), es, c, code);
    if Final(Some(start), es, c).Some? {
      RecoveryOrder(Some(start), es, c);
    }
    var used := Consumed(Outcomes(Some(start), es, c));
    SubmultisetSize(multiset(used), multiset(hashes));
    assert |multiset(used)| == |used| && |multiset(hashes)| == |hashes|;
  }

  // The service

  type Table = map<UserId, Row>

  function RowOf(t: Table, u: UserId): Option<Row> {
    if u in t then Some(t[u]) else None
  }

  function Put(t: Table, u: UserId, row: Option<Row>): Table {
    if row.Some? then t[u := row.value] else t - {u}
  }

  /** A recovery code as shown to the user and as stored. */
  datatype RecoveryCode = RecoveryCode(plain: string, hash: Hash)

  function Hashes(codes: seq<RecoveryCode>): seq<Hash> {
    seq(|codes|, i requires 0 <= i < |codes| => codes[i].hash)
  }

  /** Closes the gap at found, as appending the tail onto the head in place does. */
  method Splice(a: array<Hash>, found: nat) returns (kept: seq<Hash>)
    requires found < a.Length
    modifies a
    ensures kept == WithoutAt(old(a[..]), found)
  {
    for i := found to a.Length - 1
      invariant forall k :: 0 <= k < found || i < k < a.Length ==> a[k] == old(a[k])
      invariant forall k :: found <= k < i ==> a[k] == old(a[k + 1])
      invariant i < a.Length ==> a[i] == old(a[i]) || i > found
    {
      a[i] := a[i + 1];
    }
    kept := a[..a.Length - 1];
    ghost var was := old(a[..]);
    assert kept[..found] == was[..found] && kept[found..] == was[found + 1..];
  }

  class TotpFactor {
    var rows: Table
    const checks: Checks

    constructor (checks: Checks)
      ensures rows == map[] && this.checks == checks
    {
      rows := map[];
      this.checks := checks;
    }

    /** Writes every column: what the caller leaves out becomes zero or NULL. */
    method Upsert(u: UserId, secret: Secret, nameonly recovery: seq<Hash>, nameonly enabled: bool := false,
                  nameonly verifiedAt: Option<Time> := None, nameonly lastUsed: Option<Time> := None,
                  nameonly failed: int := 0, nameonly lockedUntil: Option<Time> := None)
      modifies this`rows
      ensures rows == old(rows)[u := Row(secret, enabled, verifiedAt, recovery, lastUsed, failed, lockedUntil)]
    {
      rows := rows[u := Row(secret, enabled, verifiedAt, recovery, lastUsed, failed, lockedUntil)];
    }

    method Setup2FA(u: UserId, userFound: bool, secret: Secret, generated: seq<RecoveryCode>)
      returns (o: Outcome, shown: seq<string>)
      requires |generated| == RECOVERY_CODES
      modifies this`rows
      ensures
        var n := Step(RowOf(old(rows), u), Setup(userFound, secret, Hashes(generated)), checks);
        o == n.outcome && rows == Put(old(rows), u, n.row)
      ensures o == SetupDone ==>
        && |shown| == RECOVERY_CODES
        && forall i :: 0 <= i < RECOVERY_CODES ==> shown[i] == generated[i].plain
    {
      shown := [];
      var existing := RowOf(rows, u);
      if existing.Some? && existing.value.enabled {
        return SetupConflict, [];
      }
      if !userFound {
        return UserMissing, [];
      }
      var codes := new string[RECOVERY_CODES];
      var hashes := new Hash[RECOVERY_CODES](_ => Hash(0));
      for i := 0 to RECOVERY_CODES
        invariant rows == old(rows)
        invariant forall k :: 0 <= k < i ==> codes[k] == generated[k].plain && hashes[k] == generated[k].hash
      {
        codes[i] := generated[i].plain;
        hashes[i] := generated[i].hash;
      }
      var stored := hashes[..];
      assert stored == Hashes(generated);
      Upsert(u, secret, recovery := stored);
      return SetupDone, codes[..];
    }

    method Confirm2FA(u: UserId, code: string, clock: Reads) returns (o: Outcome)
      modifies this`rows
      ensures
        var n := Step(RowOf(old(rows), u), Confirm(code, clock), checks);
        o == n.outcome && rows == Put(old(rows), u, n.row)
    {
      if u !in rows {
        return NotSetUp;
      }
      var row := rows[u];
      if row.enabled {
        return AlreadyActive;
      }
      if !checks.valid(row.secret, code, clock.check) {
        return ConfirmInvalid;
      }
      Upsert(u, row.secret, enabled := true, verifiedAt := Some(ToMicros(clock.record)), recovery := row.recovery);
      return Confirmed;
    }

    method Verify2FA(u: UserId, code: string, clock: Reads) returns (o: Outcome)
      modifies this`rows
      ensures
        var n := Step(RowOf(old(rows), u), Verify(code, clock), checks);
        o == n.outcome && rows == Put(old(rows), u, n.row)
    {
      if u !in rows || !rows[u].enabled {
        return NotActive;
      }
      var row := rows[u];
      if row.lockedUntil.Some? && clock.lock < row.lockedUntil.value {
        return LockedOut;
      }
      if checks.valid(row.secret, code, clock.check) {
        Upsert(u, row.secret, enabled := true, verifiedAt := row.verifiedAt, recovery := row.recovery,
               lastUsed := Some(ToMicros(clock.record)), failed := 0);
        return Verified;
      }
      var failed := WrapInt32(row.failed + 1);
      var lock := None;
      if failed >= MAX_FAILED_ATTEMPTS {
        lock := Some(ToMicros(clock.record + LOCKOUT));
      }
      Upsert(u, row.secret, enabled := true, verifiedAt := row.verifiedAt, recovery := row.recovery,
             failed := failed, lockedUntil := lock);
      return WrongCode;
    }

    method ConsumeRecoveryCode(u: UserId, code: string) returns (o: Outcome)
      modifies this`rows
      ensures
        var n := Step(RowOf(old(rows), u), Recover(code), checks);
        o == n.outcome && rows == Put(old(rows), u, n.row)
    {
      if u !in rows || !rows[u].enabled {
        return RecoveryUnavailable;
      }
      var row := rows[u];
      var found := -1;
      for i := 0 to |row.recovery|
        invariant found == -1
        invariant forall k :: 0 <= k < i ==> !checks.matches(row.recovery[k], code)
      {
        if checks.matches(row.recovery[i], code) {
          found := i;
          break;
        }
      }
      if found < 0 {
        return RecoveryInvalid;
      }
      assert found == FirstMatch(row.recovery, code, checks.matches);
      var stored := new Hash[|row.recovery|](i requires 0 <= i < |row.recovery| => row.recovery[i]);
      assert stored[..] == row.recovery;
      var kept := Splice(stored, found);
      Upsert(u, row.secret, enabled := true, verifiedAt := row.verifiedAt, failed := 0, recovery := kept);
      return Recovered(row.recovery[found]);
    }

    method Disable2FA(u: UserId, code: string, clock: Reads) returns (o: Outcome)
      modifies this`rows
      ensures
        var n := Step(RowOf(old(rows), u), Disable(code, clock), checks);
        o == n.outcome && rows == Put(old(rows), u, n.row)
    {
      var verified := Verify2FA(u, code, clock);
      if verified != Verified {
        return StillActive(verified);
      }
      rows := rows - {u};
      return Disabled;
    }
  }
}
