# Skolva: proofs about its rules

This project models the rules of Skolva, an association-management backend, that carry state or
arithmetic, and proves what they keep over whole runs. It has two halves.

**Sign-in** (`internal/auth`). The two second factors, the password reset and the login flow over
them are timed state machines. Each is a step function on values; a class does the same work step by
step and is proved to compute that function; lemmas then speak about every run of steps.
Laws named `…Exact` say when a call is accepted or refused and what it leaves, in inputs and stored
values rather than through the step function.

- `EmailOtp`, `Totp`, `PasswordReset`: the three machines. `Meta` is the per-user key store they
  share, `Clock` says what each storage format keeps of a clock reading.
- `Tokens`, `Login`: signed claims, and the login flow of all users, with both factors and password
  resets, as one transition system. `Isolation` carries the per-user results over to its runs.
- `Codes`, `Numerals`: the text of recovery codes and six-digit codes, and decimal numbers as text.
- `Rbac`: permission joins, and the claims cached in tokens. `Search`, `Paging`,
  `Ordering`: result order and pages.

**Database rules** (`schema.sql` and the queries).

- `JsonDiff`, `AuditLog`, `Lifecycle`: the audit trigger, replay of its log, the reported changes,
  and the shape of record histories under the repository's queries.
- `Ledger`: journals, entries and the lock triggers. `Occupancy`: the exclusion constraint on leases
  and ownerships. `WorkHours`: the work-hours view. `Contacts`: the primary-contact index.

## What the code does not do

Where a promise does not hold for all inputs, the code is modelled as it is, a case where it fails is
proved, and so is the exact condition under which the promise holds.

- `docs/api/auth.md` says five consecutive wrong email codes lock the account for fifteen minutes.
  They set a lock exactly when no call among them issues a code or switches the factor off, because
  the counter restarts with each code (`EmailOtp.FiveFailuresLock`, `EmailOtp.ResendAmongFailures`).
  Before its end, a lock lasts exactly until such a call (`EmailOtp.LockSurvives`,
  `EmailOtp.ResendEndsLockout`). It is stored in whole seconds, so it can end up to 999,999,999
  nanoseconds early (`EmailOtp.LockLength`, `EmailOtp.UnalignedLockIsShort`). Per issued code, five
  comparisons is still the limit (`EmailOtp.CodeBudget`).
- A TOTP lock is stored in whole microseconds, so it can be up to 999 nanoseconds short
  (`Totp.LockLength`, `Totp.UnalignedLockIsShort`). The throttle bound carries that slack and holds
  without it when failures are read on whole microseconds. The 32-bit counter would wrap after 2^31
  failures (`Totp.CounterWraps`).
- Recovery codes ignore the TOTP lock and are not counted, and an accepted one ends the lock early:
  before its end a lock lasts exactly until such a recovery (`Totp.RecoverExact`,
  `Totp.LockSurvives`, `Totp.RecoveryDuringLock`).
- The second step of a login asks whether the user still exists, not whether the account is still
  active (`Login.ActiveExact`, `Login.DeactivatedFinishes`).
- `CheckPermission` looks for an admin assignment without asking whether the admin role is live;
  tokens list live roles only (`Rbac.ClaimsAgree`, `Rbac.DeadAdminDisagrees`).
- Moving an entry to another journal asks only whether the new journal is locked
  (`Ledger.StepBalanced`, `Ledger.MovingAwayUnbalances`).
- The change report writes JSON null both for a missing key and for a null one, so the changes of a
  history do not compose to its overall change when a column was filled and emptied again
  (`AuditLog.NetIsOverall`, `AuditLog.EmptiedDropsOut`; for two changes `JsonDiff.ComposeExact`,
  `JsonDiff.ComposeLoses`).
- A page offset beyond 32 bits falls back to the first page, whose rows then appear twice
  (`Paging.PagesPartition`, `Paging.HugeTable`).

## Assumptions

Calls for one user run one after the other, store operations succeed, and a transaction takes effect
as a whole. bcrypt and authenticator codes are relations between hash or secret, text and time.
Nobody signs tokens without the key. Clock readings within a run never go back, where a lemma says so;
each call takes as many readings as the source. Slugs are compared by any total order, names in listings
by any collation. Columns of an audited table do not change, nor do the rows of a listing between pages.

## Model

| member | source | states |
|---|---|---|
| `Clock.ToSeconds` | internal/auth/email2fa.go:157 | RFC 3339 text keeps the whole second at or before a reading |
| `Clock.ToMicros` | internal/auth/totp.go:139-146 | a stored TIMESTAMPTZ keeps the whole microsecond at or before a reading |
| `Meta.Put` | internal/auth/email2fa.go:154-162 | writing one user's entries leaves every other user's entries alone |
| `Meta.Store.Set` | internal/auth/email2fa.go:154-160 | one entry of one user is replaced, nothing else |
| `Meta.Store.Delete` | internal/auth/email2fa.go:161-162 | one entry of one user is gone, nothing else; deleting a missing one changes nothing |
| `EmailOtp.LockOutlastsExpiry` | internal/auth/email2fa.go:157-216 | after truncation to seconds, a lock set after an issue still ends at least five minutes after that code expires |
| `EmailOtp.StepBudget` | internal/auth/email2fa.go:175-226 | what each call does to the number of comparisons an issued code has left |
| `EmailOtp.Budget` | internal/auth/email2fa.go:139-226 | from any state, comparisons never exceed what is left plus five per issue, successes never exceed one per issue |
| `EmailOtp.RunBudget` | internal/auth/email2fa.go:139-226 | over any run from an empty store: at most five comparisons and one success per issued code |
| `EmailOtp.VerifyBudget` | internal/auth/email2fa.go:175-226 | what one verification does to the comparisons a code has left |
| `EmailOtp.IgnoresReset` | internal/auth/email2fa.go:24-31 | the email factor reads and writes its five keys only; those of the password reset stay |
| `EmailOtp.CodeHistory` | internal/auth/email2fa.go:188-207 | between issues, each comparison is in time and against the issued hash, and succeeds exactly on a match |
| `EmailOtp.SuccessIsLast` | internal/auth/email2fa.go:221-224 | between issues, nothing is compared after a success |
| `EmailOtp.CodeBudget` | internal/auth/email2fa.go:139-226 | per issued code, whatever was stored before: at most five comparisons, one success, none after it, all before the truncated expiry, and a comparison succeeds exactly on a match |
| `EmailOtp.AcceptedExact` | internal/auth/email2fa.go:139-226 | after an issue, over every run without a further issue or switch-off: a verification on the open path is compared exactly while the code is in time, unused and has fewer than five wrong guesses, and accepted exactly on a code the mailed hash takes; then the four transient keys are gone and the factor is on |
| `EmailOtp.IssueExact` | internal/auth/email2fa.go:52-171 | a code is issued exactly to a known user, at setup while the factor is off and at login while it is on; hash and truncated expiry are stored, counter and lock gone, the rest kept |
| `EmailOtp.RefusalExact` | internal/auth/email2fa.go:70-205 | each refusal of a verification has its own exact condition and changes nothing |
| `EmailOtp.OnExact` | internal/auth/email2fa.go:70-135 | over every run the factor is on exactly after an accepted code and until it is switched off |
| `EmailOtp.SwitchOffExact` | internal/auth/email2fa.go:121-135 | only switching the factor off drops its five keys, and it drops all of them |
| `EmailOtp.LockSurvives` | internal/auth/email2fa.go:161-186 | before its end, a lockout survives a call exactly when the call issues no fresh code and does not switch the factor off |
| `EmailOtp.LockoutHolds` | internal/auth/email2fa.go:182-186 | over any run without such a call, nothing is compared until the stored lock ends |
| `EmailOtp.LockLength` | internal/auth/email2fa.go:207-218 | the fifth failure locks, for the full fifteen minutes exactly when it was read on a whole second, and never a whole second less |
| `EmailOtp.FifthFailureLocks` | internal/auth/email2fa.go:182-218 | from a stored count of four or more, a failure is followed by no comparison for that long, over any run without such a call |
| `EmailOtp.StreakExact` | internal/auth/email2fa.go:161-218 | over every run, the stored counter is the number of wrong codes since the last fresh code, success or switch-off, and a lock is stored exactly from five on |
| `EmailOtp.FiveFailuresLock` | internal/auth/email2fa.go:161-218 | in every state a run reaches, five wrong codes in a row lock exactly when no call among them issues a code or switches the factor off; then nothing is compared for fifteen minutes, less the cut, without such a call |
| `EmailOtp.ResendAmongFailures` | internal/auth/email2fa.go:92-105 | a run of four wrong codes, a resend and a fifth wrong code that stores no lock |
| `EmailOtp.UnalignedLockIsShort` | internal/auth/email2fa.go:182-218 | a run in which the lockout answer is gone before fifteen minutes are over |
| `EmailOtp.ResendEndsLockout` | internal/auth/email2fa.go:90-105 | a resend during a lockout is followed by a comparison before the lockout was to end |
| `EmailOtp.EmailFactor.IsEnabled` | internal/auth/email2fa.go:38-48 | on exactly when the stored text is "true" |
| `EmailOtp.EmailFactor.SetupEmail2FA` | internal/auth/email2fa.go:52-67 | outcome and stored entries are those of the state machine's setup step; other users keep theirs |
| `EmailOtp.EmailFactor.ConfirmEmail2FA` | internal/auth/email2fa.go:70-86 | outcome and stored entries are those of the confirm step; only an accepted code switches the factor on |
| `EmailOtp.EmailFactor.SendEmail2FALoginOTP` | internal/auth/email2fa.go:90-105 | outcome and stored entries are those of the send step |
| `EmailOtp.EmailFactor.VerifyEmail2FALogin` | internal/auth/email2fa.go:109-118 | outcome and stored entries are those of the login step |
| `EmailOtp.EmailFactor.DisableEmail2FA` | internal/auth/email2fa.go:121-135 | the loop deletes all five keys of the user and nothing else |
| `EmailOtp.EmailFactor.IssueOtp` | internal/auth/email2fa.go:139-171 | a new hash and truncated expiry are stored, counter and lock are gone |
| `EmailOtp.EmailFactor.VerifyOtp` | internal/auth/email2fa.go:175-226 | lock, expiry and hash are checked in this order and the entries become those of the verification step, which `AcceptedExact` and `RefusalExact` fix |
| `EmailOtp.EmailFactor.ForgetOtp` | internal/auth/email2fa.go:221-224 | hash, expiry, counter and lock of the user are gone, nothing else |
| `EmailOtp.EmailFactor.CountFailure` | internal/auth/email2fa.go:207-218 | the counter is read, incremented and written back, and at five a lock is set |
| `Totp.LockLength` | internal/auth/totp.go:138-146 | a stored lock lasts the full fifteen minutes exactly when the failure was read on a whole microsecond |
| `Totp.VerifyExact` | internal/auth/totp.go:110-151 | a code is accepted exactly when the factor is on, no lock lasts beyond the reading, and the code is valid for the secret at that moment; wrong, locked and inactive answers each on their own condition; secret, codes and confirmation time stay |
| `Totp.DisableExact` | internal/auth/totp.go:186-191 | disabling succeeds exactly where verifying would, and then the row is gone; otherwise it does what verifying does |
| `Totp.SetupExact` | internal/auth/totp.go:30-71 | a setup goes through exactly for a known user whose factor is off; it stores secret and codes with the factor off |
| `Totp.ConfirmExact` | internal/auth/totp.go:74-105 | the factor goes on exactly by a valid code for a setup that is off; secret and codes stay |
| `Totp.OnExact` | internal/auth/totp.go:74-191 | over every run the factor is on exactly from a confirmation until it is disabled |
| `Totp.FailedLocks` | internal/auth/totp.go:138-146 | the fifth and every later failure in a row sets a lock |
| `Totp.StreakExact` | internal/auth/totp.go:110-151 | over every run, while the wrong codes in a row fit the 32-bit counter, the stored counter is the number of wrong codes since the last success or setup, and a lock is stored exactly from five on |
| `Totp.QuietStep` | internal/auth/totp.go:110-151 | while the factor is on, a call without success either changes nothing or counts one wrong code after any lock |
| `Totp.LockedThrottle` | internal/auth/totp.go:110-151 | from a locked row, the n-th further comparison waits for n locks |
| `Totp.Throttle` | internal/auth/totp.go:110-151 | the same from any count below five, measured from the fifth comparison |
| `Totp.ThrottleBound` | internal/auth/totp.go:110-191 | from a zero counter without success, recovery or setup, N compared codes span at least N - 5 locks after the fifth, over login and disable calls, up to 2^31 codes |
| `Totp.UnalignedLockIsShort` | internal/auth/totp.go:138-146 | a run in which the next comparison comes less than fifteen minutes after the fifth |
| `Totp.CounterWraps` | schema.sql:145 | at the end of the 32-bit range a further failure wraps the counter and sets no lock |
| `Totp.RecoverExact` | internal/auth/totp.go:155-183 | a recovery succeeds exactly when the factor is on and an unused hash accepts the code, whatever the lock; it uses up one such hash and clears counter and lock |
| `Totp.LockSurvives` | internal/auth/totp.go:110-191 | before its end, a lock survives a call exactly when that is no successful recovery, and no code is compared |
| `Totp.RecoveryDuringLock` | internal/auth/totp.go:115-183 | a run in which a code is refused because of the lock and a recovery code is then accepted |
| `Totp.HashesStep` | internal/auth/totp.go:30-191 | apart from a setup, a call keeps the stored hashes, drops them with the row, or removes the one it consumed |
| `Totp.RecoveryConserved` | internal/auth/totp.go:155-183 | until the next setup, stored plus consumed hashes are the issued ones as multisets |
| `Totp.RecoveryOrder` | internal/auth/totp.go:172-179 | what is stored stays a subsequence of what was issued |
| `Totp.UsesBounded` | internal/auth/totp.go:161-170 | a code succeeds at most once per issued hash that accepts it |
| `Totp.RecoveryLaw` | internal/auth/totp.go:51-183 | from a setup on: at most ten recoveries, conservation, order, and a code accepted by one hash works once |
| `Totp.Splice` | internal/auth/totp.go:178 | the slice is closed up in place and loses exactly the found hash |
| `Totp.TotpFactor.Setup2FA` | internal/auth/totp.go:30-71 | the row is that of the setup step, and the ten codes shown are those whose hashes are stored |
| `Totp.TotpFactor.Confirm2FA` | internal/auth/totp.go:74-105 | outcome and row are those of the confirm step |
| `Totp.TotpFactor.Verify2FA` | internal/auth/totp.go:110-151 | outcome and row are those of the verify step, which `VerifyExact` fixes; other users keep their rows |
| `Totp.TotpFactor.ConsumeRecoveryCode` | internal/auth/totp.go:155-183 | the scan finds the first accepting hash and the row is that of the recover step |
| `Totp.TotpFactor.Disable2FA` | internal/auth/totp.go:186-191 | the row goes away exactly after a successful verification |
| `PasswordReset.Latest` | internal/auth/password_reset.go:44-52 | the store always remembers the latest link sent and whether it was used since |
| `PasswordReset.ResetExact` | internal/auth/password_reset.go:66-120 | a reset succeeds exactly when the user exists, the password can be hashed and the token is for the latest link, in time, with no success since; only then the password changes |
| `PasswordReset.RefusalExact` | internal/auth/password_reset.go:66-108 | each refusal of a reset has its own exact condition and changes nothing |
| `PasswordReset.ResetsWithinLinks` | internal/auth/password_reset.go:22-120 | over any run, successful resets never exceed links sent |
| `PasswordReset.RejectedPasswordKeepsLink` | internal/auth/password_reset.go:105-108 | a password that cannot be hashed changes nothing, and the same link works until it expires |
| `PasswordReset.IgnoresEmail` | internal/auth/password_reset.go:45-116 | the reset reads and writes its three keys only; those of the email factor stay |
| `PasswordReset.ResetService.ForgotPassword` | internal/auth/password_reset.go:22-63 | a known address gets a fresh unused link with a truncated expiry; an unknown one changes nothing |
| `PasswordReset.ResetService.ResetPassword` | internal/auth/password_reset.go:66-120 | outcome, entries and password are those of the reset step; a missing user changes nothing |
| `Tokens.Lifetime` | internal/auth/jwt.go:58-100 | a token verifies only within its lifetime of its issue, and throughout it but for the second that is cut off |
| `Tokens.VerifiesExactly` | internal/auth/jwt.go:80-101 | a token verifies exactly with this key, this issuer and in its window |
| `Tokens.IssuedActor` | internal/auth/verifier.go:13-29 | from its issue for its lifetime an access token stands for its subject in requests, and a pending token never stands for anyone |
| `Login.IssuesResponse` | internal/auth/service.go:91-135 | a call signs exactly the token it returns; a pending one only after a checked password with a factor on |
| `Login.IssuedByCall` | internal/auth/jwt.go:50-78 | every signed token was the response of some earlier call |
| `Login.AccessExact` | internal/auth/handler.go:219-329 | a call returns an access token for a user exactly on a password login with both factors off, or on a right code of a second factor for the user of a valid pending token who still exists; the token is the user's for the access lifetime |
| `Login.RightFactors` | internal/auth/totp.go:110-183 | the factors accept exactly the codes that are right by secret, hash, time and lock |
| `Login.LoginExact` | internal/auth/service.go:91-135 | a login answers with a five-minute pending token exactly on a right password of an active account with either factor on, with an access token with both off, and with a refusal otherwise |
| `Login.ResendExact` | internal/auth/handler.go:331-346 | a resend is done exactly on a valid pending token, unless the user of an email factor is gone |
| `Login.NoAccessWithoutFactor` | internal/auth/service.go:91-135 | in every run, an access token has behind it a checked password with no factor on, or a right code of a second factor and a password checked less than five minutes before for the same user |
| `Login.ActiveExact` | internal/auth/handler.go:219-329 | an access token goes to an active account exactly when it comes from a password login or no change of the account since the password check left it inactive |
| `Login.DeactivatedFinishes` | internal/auth/totp.go:195-213 | a run in which an account is deactivated between the two steps and still gets an access token |
| `Login.ActorsHaveAccess` | internal/auth/verifier.go:13-29 | a request is accepted only on a token that some call returned as an access token, so never on one returned as pending |
| `Login.AuthHandlers.IssueAccessForUser` | internal/auth/totp.go:195-213 | an access token is signed exactly for an existing user, and requests take it for that user for its lifetime |
| `Login.AuthHandlers.Enter` | internal/auth/service.go:91-135 | tokens, mailed code and response are those of the login step, which `LoginExact` fixes |
| `Login.AuthHandlers.Verify2FA` | internal/auth/handler.go:219-245 | tokens, TOTP rows and response are those of the verify step |
| `Login.AuthHandlers.Recover2FA` | internal/auth/handler.go:247-273 | tokens, TOTP rows and response are those of the recover step |
| `Login.AuthHandlers.VerifyEmail2FA` | internal/auth/handler.go:309-329 | tokens, entries and response are those of the email step |
| `Login.AuthHandlers.ResendEmail2FA` | internal/auth/handler.go:331-346 | entries and response are those of the resend step |
| `Isolation.StepActsOnRow` | internal/auth/handler.go:219-273 | a step of the whole system changes a user's TOTP row by exactly its call on that user |
| `Isolation.StepActsOnEntries` | internal/auth/handler.go:309-370 | a user's entries of the email factor likewise; calls of the password reset leave them alone |
| `Isolation.UsersAreIsolated` | internal/auth/handler.go:219-370 | over every run of the system, password resets included, a user's row and email entries are where the user's own calls alone take them |
| `Isolation.EmailOutcomesAreOwn` | internal/auth/handler.go:309-370 | the email outcomes of a run, read off the states it goes through, are those of the user's own calls alone |
| `Isolation.TotpOutcomesAreOwn` | internal/auth/handler.go:219-273 | and so are the authenticator outcomes and the wrong codes compared |
| `Isolation.OwnClocks` | internal/auth/handler.go:219-370 | when the system's clock never runs back, neither do the readings of one user's calls |
| `Isolation.EmailBudgetInSystem` | internal/auth/handler.go:219-370 | in runs of the whole system, five comparisons, one success and one login by email at most for each code mailed to a user, from any user with no code or one code outstanding |
| `Isolation.FiveFailuresInSystem` | internal/auth/handler.go:219-370 | in runs of the whole system, a user's five wrong codes in a row lock exactly when no call among them issues a code or switches the factor off; then none of the user's codes is compared for fifteen minutes, less the cut, without such a call |
| `Isolation.CodeBudgetInSystem` | internal/auth/handler.go:219-370 | from any state of the system, between one mailed code and the next: at most five comparisons, in time and with that code, and one login by email |
| `Isolation.EmailLoginExact` | internal/auth/handler.go:309-329 | from any state of the system: after a code is mailed, over every run without a further one or a switch-off, showing a code on a valid pending token gives an access token exactly when the factor is on, the user exists, and it is the mailed code, in time, unused, with fewer than five wrong ones compared |
| `Isolation.SecondStepExact` | internal/auth/handler.go:219-329 | after a right password with a factor on, over every run of the system, a second step in time on the login's token ends with an access token exactly when the user exists and the code of either factor or the recovery code is right |
| `Isolation.LoginMails` | internal/auth/service.go:114-116 | a login with the email factor on mails the user its code |
| `Isolation.ThrottleInSystem` | internal/auth/handler.go:219-370 | in runs of the whole system without success, recovery or setup for a user, the user's wrong authenticator codes wait out the locks |
| `Isolation.ResetIsOwn` | internal/auth/password_reset.go:66-120 | a reset inside the system is a reset on the user's own three entries |
| `Isolation.LatestLink` | internal/auth/password_reset.go:44-52 | through all other calls the store remembers the latest link mailed to a user and whether it was used |
| `Isolation.ResetExactInSystem` | internal/auth/password_reset.go:66-120 | in runs of the whole system, a reset succeeds exactly when the user exists, the password can be hashed and the token is for the latest link mailed to the user, in time, with no success since; only then the password changes |
| `Codes.PrefixDecodes` | internal/auth/totp.go:220 | the first 8k characters of a base32 text decode to the first 5k bytes |
| `Codes.PrefixDetermined` | internal/auth/totp.go:220 | and are fixed by those bytes |
| `Codes.TailBits` | internal/auth/totp.go:220 | the end of a base32 text spells the last bytes followed by fewer than five zero bits |
| `Codes.AlphabetExact` | internal/auth/totp.go:220 | the characters are those of the standard alphabet |
| `Codes.Foobar` | internal/auth/totp.go:220 | a test vector of section 10 of RFC 4648 |
| `Codes.RecoveryText` | internal/auth/totp.go:215-220 | a recovery code has sixteen characters |
| `Codes.RecoveryTextExact` | internal/auth/totp.go:215-220 | the code decodes to the first ten of the sixteen bytes, and two codes are equal exactly when those are |
| `Codes.NumericOtpExact` | internal/auth/email2fa.go:228-234 | a six-digit text is the code of exactly the number it reads as, which is below a million |
| `JsonDiff.NoChange` | schema.sql:32-48 | the difference is empty exactly when nothing changed |
| `JsonDiff.ApplyDiff` | schema.sql:32-48 | applying a difference yields the new object exactly when no key was dropped |
| `JsonDiff.ComposeExact` | schema.sql:32-48 | composed differences are the overall one exactly when no key goes between absent and JSON null by way of another value |
| `JsonDiff.ComposeLoses` | schema.sql:42-44 | two changes whose composition differs from the overall change |
| `AuditLog.UpdateRowInSync` | schema.sql:1782-1798 | an update keeps the log replayable exactly when it keeps the id; the chain of images then continues |
| `AuditLog.DeleteInSync` | schema.sql:21-30 | a delete keeps the log replayable exactly when it is refused or finds no row |
| `AuditLog.ReplayRebuilds` | schema.sql:1767-1803 | over every run of inserts, multi-row updates and refused deletes, replaying the log gives exactly the tables, and each old image is what replay gave before |
| `AuditLog.ReplayIsLastEntry` | schema.sql:1726-1739 | replay finds, for each record, the new image of its last entry |
| `AuditLog.OldIsPreviousNew` | schema.sql:1796-1797 | each entry's old image is the new image of the record's previous entry, and missing on the first |
| `AuditLog.SameColumns` | schema.sql:1796-1797 | no entry drops a column of its table |
| `AuditLog.ActionsExact` | schema.sql:1776-1798 | over every run from the empty database each entry's action is the one its table and images call for, stated for all five, and the entries of a statement carry its table and actor after all earlier ones |
| `AuditLog.StepExtends` | schema.sql:1776-1798 | an accepted statement logs one entry for each row written, others log none |
| `AuditLog.InsertExact` | schema.sql:1776-1781 | an insert goes through exactly under a free key and adds the row as given, with one entry that shows it |
| `AuditLog.UpdateExact` | schema.sql:1782-1798 | an update of distinct rows that keeps ids goes through exactly when all are there; each becomes its new image with one entry showing old and new, in order, and other rows stay |
| `AuditLog.FoldEntry` | schema.sql:1756 | one reported change set takes the old image to the new one |
| `AuditLog.RunShaped` | schema.sql:1767-1803 | every run of whole-row statements keeps the log a full account in which each image has its table's columns |
| `AuditLog.FoldRebuilds` | schema.sql:1745-1803 | after every run of whole-row statements, folding the reported changes of a record from the empty object gives its current row |
| `AuditLog.NetIsOverall` | schema.sql:1745-1803 | after every run of whole-row statements, composing the reported changes of a record gives its overall change from nothing to the current row exactly when no column that is null now was filled before |
| `AuditLog.NetSince` | schema.sql:1745-1761 | from any later entry of a history on, the composition always gives the overall change |
| `AuditLog.EmptiedDropsOut` | schema.sql:1745-1803 | a run of an insert and two updates where a column filled and emptied again is missing from the composition |
| `AuditLog.Database.InsertOne` | schema.sql:1776-1781 | a row and its log entry are added together, or the key is taken and nothing happens; the log stays a full account |
| `AuditLog.Database.UpdateMany` | schema.sql:1782-1798 | rows are written and logged one after the other as `UpdateExact` and `ActionsExact` say, and one failing row undoes the statement; while ids are kept the log stays a full account |
| `AuditLog.Database.DeleteOne` | schema.sql:21-30 | an existing row is deleted only when the setting allows it, nothing is logged, and exactly then replay no longer gives the table |
| `Lifecycle.UpdateRowOrderly` | schema.sql:1784-1795 | an update keeps histories orderly exactly when it meets a live row |
| `Lifecycle.InsertRowOrderly` | schema.sql:1776-1781 | an insert starts a new history |
| `Lifecycle.MatchedMeetsLive` | sqlc/queries/contacts.sql:26-52 | the guarded WHERE clauses match live rows only and keep ids |
| `Lifecycle.SoftDeleteExact` | sqlc/queries/users.sql:39-42 | a soft delete of a live row marks just that row deleted, logged as one DELETE; of any other row it does nothing |
| `Lifecycle.SetLiveExact` | sqlc/queries/contacts.sql:26-52 | any other update sets its columns on exactly the live rows asked for and logs no INSERT or DELETE |
| `Lifecycle.QueryGood` | sqlc/queries/users.sql:29-56 | each guarded write query keeps log, tables and histories in order |
| `Lifecycle.HistoriesAreOrderly` | sqlc/queries/users.sql:29-56 | so does every run of them |
| `Lifecycle.HistoryShape` | sqlc/queries/groups.sql:25-38 | a history starts with its only INSERT; a DELETE is its last entry and marks the row deleted |
| `Ledger.StepValid` | schema.sql:665-687 | no statement stores an entry that breaks its constraints or names a missing journal |
| `Ledger.DeleteKeepsLocked` | schema.sql:726-756 | whatever the delete setting, a physical delete leaves the debits and credits of every locked journal as they are |
| `Ledger.StepBalanced` | schema.sql:700-756 | an accepted statement keeps every locked journal balanced exactly when it does not move a live entry out of one |
| `Ledger.InsertExact` | schema.sql:665-752 | an insert goes through exactly into an existing open journal with a positive amount on one side; the row reads back as given after all earlier ones |
| `Ledger.UpdateExact` | schema.sql:665-752 | an update goes through exactly for an existing row into such a journal, and replaces that row only |
| `Ledger.LockExact` | schema.sql:700-723 | a lock changes exactly as asked, but for a step to locked with unequal sums; entries stay |
| `Ledger.StepBooks` | schema.sql:665-756 | each statement changes a journal's debits and credits by just what it puts in and takes out on that side |
| `Ledger.RunBooks` | schema.sql:665-756 | over every run a journal's debits and credits are what accepted statements put in less what they took out |
| `Ledger.LockedJournalsBalance` | schema.sql:700-756 | over every run without such a move, live debits equal live credits in every locked journal |
| `Ledger.KeptJournalsBalance` | schema.sql:700-756 | in particular over every run from empty books whose updates keep journal_id |
| `Ledger.LockedPairIsReached` | schema.sql:700-756 | such a run reaches a locked journal holding a debit and a credit |
| `Ledger.MovingAwayUnbalances` | schema.sql:732 | from there, moving one entry to another journal is accepted and unbalances the locked one |
| `Ledger.BothSides` | schema.sql:683-686 | a locked journal with a live entry has a debit and a credit |
| `Ledger.PostedByJournal` | schema.sql:709-710 | sums entry by entry over locked journals equal sums journal by journal |
| `Ledger.TrialBalance` | schema.sql:706-715 | over all locked journals, posted debits equal posted credits |
| `Ledger.Accounting.UpdateJournalLock` | schema.sql:700-723 | only the step from unlocked to locked is checked, and a journal so locked has equal debits and credits; locked journals stay balanced |
| `Ledger.Accounting.AddJournal` | schema.sql:647 | a new journal, locked or not, has no debits and credits, and locked journals stay balanced |
| `Ledger.Accounting.AddEntry` | schema.sql:726-748 | outcome and books are those of the insert step; an accepted row is stored as given and raises its journal's debits and credits by its own, and locked journals stay balanced |
| `Ledger.Accounting.ChangeEntry` | schema.sql:726-752 | outcome and books are those of the update step; the old row's amounts go out and the new one's come in on each side, and locked journals stay balanced exactly when no live entry was taken out of one |
| `Ledger.Accounting.RemoveEntry` | schema.sql:696-756 | a physical delete is refused without the setting, and with it in a locked journal; it never changes a locked journal's sums, and locked journals stay balanced |
| `Occupancy.OverlapIsSharedDay` | schema.sql:428 | the range test on bounds holds exactly when the two ranges share a day |
| `Occupancy.DisjointIsOnePerDay` | schema.sql:424-430 | the constraint holds exactly when no unit has two live records on one day |
| `Occupancy.AcceptedExactly` | schema.sql:470-476 | an insert or update goes through exactly when its row exists, is well-formed and takes no day another record occupies; it then changes that place only |
| `Occupancy.StepDisjoint` | schema.sql:470-476 | no accepted or refused write breaks the constraint |
| `Occupancy.OccupancyUnique` | schema.sql:424-476 | after every run of inserts, updates and soft deletes, each unit and day has at most one live record |
| `Occupancy.Timeline` | schema.sql:433-458 | the timeline holds exactly the unit's live records |
| `Occupancy.TimelineInOrder` | schema.sql:470-476 | in it each record ends before every later one starts, so only the last can be open-ended |
| `Occupancy.DaysAddUp` | schema.sql:470-476 | in any window, the number of occupied days is the sum of the durations inside it |
| `Occupancy.Register.InsertRecord` | schema.sql:470-476 | outcome and table are those of the insert step; an accepted live record's days were free, and the table stays disjoint |
| `Occupancy.Register.UpdateRecord` | schema.sql:470-476 | outcome and table are those of the update step; an accepted live record's days were free but for its own, and the table stays disjoint |
| `Occupancy.Register.SoftDeleteRecord` | schema.sql:451-476 | a soft delete always goes through |
| `WorkHours.WorkedIsSum` | schema.sql:2189-2194 | grouping has one group per user and year, with the sum of verified live hours |
| `WorkHours.OneObligation` | schema.sql:1296 | the join with obligations adds at most one row, holding the unit's hours |
| `WorkHours.OneAdjustment` | schema.sql:1322 | the join with adjustments adds at most one row, holding the user's hours |
| `WorkHours.JoinOne` | schema.sql:2185-2194 | for one user, year and lease the last three joins give exactly one row, with the expected figures |
| `WorkHours.ViewIsExpected` | schema.sql:2159-2195 | the view equals the plain nested listing computed from sums and lookups |
| `WorkHours.LinesPerUserAndYear` | schema.sql:2159-2195 | each live active user and year has max(1, n) lines, n being the number of live active leases in the user's name; a hidden user has none |
| `WorkHours.LinesExact` | schema.sql:2159-2195 | a line is in the view exactly when it shows the figures of a live active user, a year, and an active lease of the user or none: base plus live unit and user hours required, verified hours worked, the difference missing and its fee |
| `WorkHours.LogCounts` | schema.sql:2189-2194 | a log counts for its user and year exactly if it is verified and live |
| `WorkHours.LinesAreTruthful` | schema.sql:2168-2173 | every line states the user's verified hours and max(required - worked, 0) missing |
| `Contacts.WriteUnique` | schema.sql:220-222 | the index accepts a written row exactly when no other live primary has its user and type |
| `Contacts.CallAccepted` | internal/crm/repository.go:54-94 | after every statement of a call the index holds; clearing leaves an updated target alone; a primary target ends as the only primary of its type, all else is untouched |
| `Contacts.RefusedExact` | internal/crm/service.go:143-205 | a call is refused exactly for its kind, an unknown user, or a contact that is missing, deleted or another user's, and then changes nothing |
| `Contacts.PrimaryUnique` | internal/crm/service.go:143-205 | over every serial run of calls the index holds and refuses none |
| `Contacts.ContactService.Execute` | schema.sql:220-222 | a statement takes effect exactly when the index holds afterwards |
| `Contacts.ContactService.CreateContact` | internal/crm/service.go:143-163 | outcome and table are those of the create call |
| `Contacts.ContactService.UpdateContact` | internal/crm/service.go:165-191 | outcome and table are those of the update call |
| `Contacts.ContactService.DeleteContact` | internal/crm/service.go:193-205 | outcome and table are those of the delete call |
| `Rbac.PermissionsAgree` | sqlc/queries/permissions.sql:6-38 | the list query is ascending and duplicate-free, and a slug is in it exactly when the yes-no query holds, that is when some live role assigned to the user carries it |
| `Rbac.PermissionsIgnoreRowOrder` | sqlc/queries/permissions.sql:6-13 | it does not depend on the order of rows |
| `Rbac.RolesExact` | sqlc/queries/roles.sql:21-25 | the listed roles are the user's assignments to roles that are not soft-deleted, ascending |
| `Rbac.ClaimsAgree` | internal/auth/service.go:77-86 | fresh claims decide a permission as the database does exactly when the user is no admin, the admin role is live, or a live role grants it |
| `Rbac.DeadAdminDisagrees` | internal/auth/service.go:77-86 | a run after which the database allows what fresh claims deny: an administrator's role is soft-deleted |
| `Rbac.StepValid` | schema.sql:115-132 | every change keeps the primary keys and the foreign keys to users, roles and permissions |
| `Rbac.AssignedExactly` | internal/auth/service.go:39-62 | an assignment goes through exactly for a user and a role that are not soft-deleted, a removal for any such user; it changes that assignment only, and a refusal nothing |
| `Rbac.GrantsExactly` | sqlc/queries/permissions.sql:22-29 | a role's permissions change exactly as asked, for roles and permissions that are there |
| `Rbac.SoftDeletedExactly` | schema.sql:86-97 | a soft delete changes just the mark of one role or user |
| `Rbac.AssignAndRemoveExact` | sqlc/queries/roles.sql:12-19 | an assignment adds just the role's grants, a removal leaves just the other roles' grants |
| `Rbac.RemoveUndoesAssign` | sqlc/queries/roles.sql:12-19 | removing a role just assigned restores the tables |
| `Rbac.AlwaysAgree` | internal/auth/service.go:38-86 | list, yes-no query and claims agree in every reachable state with a live admin role |
| `Rbac.RbacService.AssignRoleTo` | internal/auth/service.go:39-54 | outcome and tables are those of the assignment: afterwards the user has the live role, all other assignments stand, and the updated roles are returned |
| `Rbac.RbacService.RemoveRoleFrom` | internal/auth/service.go:57-62 | outcome and tables are those of the removal: afterwards the user lacks the role and all other assignments stand |
| `Rbac.RbacService.MayDo` | internal/auth/service.go:77-86 | allowed exactly to holders of the admin role or of the permission; fresh claims give the same answer exactly under the condition of `ClaimsAgree` |
| `Search.SearchUsers` | internal/auth/repository.go:150-168 | the map-based join equals the nested-loop join in ranking order |
| `Search.RankedExact` | internal/auth/repository.go:150-168 | the answer has exactly the ranked ids with a row, in ranking order, each with its own row |
| `Search.RowOrderIgnored` | internal/auth/repository.go:154-161 | and does not depend on the order of the fetched rows |
| `Paging.Pagination` | internal/auth/handler.go:403-416 | limit and offset are always legal, and what was asked for when that is legal |
| `Paging.OffsetReadBack` | internal/auth/handler.go:410-414 | a written number, with or without sign, is read back exactly when it fits 32 bits |
| `Paging.OffsetFallsBack` | internal/auth/handler.go:410-414 | the first offset beyond 32 bits asks for the first page again |
| `Paging.ListOrderTotal` | sqlc/queries/users.sql:23 | ordering by the names under any collation and then by id is total on rows with unique ids |
| `Paging.InOrderExact` | sqlc/queries/users.sql:23 | a row comes first exactly at the first name that differs, strictly, or with all names alike by the smaller id |
| `Paging.ListingExact` | sqlc/queries/groups.sql:11-16 | an answer holds exactly the live rows, strictly in that order |
| `Paging.ListingUnique` | sqlc/queries/users.sql:18-24 | all answers over one table are the same |
| `Paging.ListingExists` | sqlc/queries/users.sql:18-24 | and there always is one |
| `Paging.PagesPartition` | sqlc/queries/users.sql:18-24 | one query per page, each with its own ordering of the live rows: the pages together are the listing, each live row once and in order, exactly when no row is live or the last offset fits 32 bits |
| `Paging.HugeTable` | internal/auth/handler.go:410-414 | over more than 2^31 rows, one to a page, the first row comes twice |
| `Ordering.AscendingUnique` | sqlc/queries/users.sql:23 | a listing in a total order is fixed by its rows |

## Left out

- HTTP binding, JSON, routing, wiring, mail delivery, random sources, ciphers: plumbing or foreign code.
- Requests for one user that interleave, and partial store failures: the read-then-write code is not atomic.
- An undecryptable TOTP secret: decryption is taken to succeed.
- Claims other than subject, issuer, kind and validity in `Tokens`; roles and permissions in claims are in `Rbac`.
- The pieces of skolva-core (metadata, dbexec, search, middleware) are not part of this model beyond the behaviour the callers rely on; the permission check on claims follows `docs/rbac.md`.
- The group-type filter of one group listing: the same listing over fewer rows.
- Full-text ranking: the ranked id list is an input of `Search`.
- Infinite dates, and ranges on columns other than the exclusion constraints'.
- Updates of primary keys of journals; in `AuditLog` an update that changes the id is modelled and shown to break replay.
- Garages and parcels in the audit trigger, which lack the id column it reads; audited tables without a delete block.
- The order in which the database returns rows without ORDER BY: `WorkHours` uses nested-loop order.
- UUIDs: a row's place in its table stands for them in `Ledger`, `Occupancy` and `Contacts`.
- Physical deletes of journals, leases, ownerships and contacts, which only the delete setting allows.
- Request defaults and columns that no rule reads, such as notes, labels and timestamps of creation.
- Lending, billing, dunning and banking tables, seed data, addresses and preferences: no rules beyond column checks.
- Totp.ThrottleBound: states the bound with a slack of 999 nanoseconds per lock and up to 2^31 codes, because the code's storage allows no more; without slack for aligned readings.
