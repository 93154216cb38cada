/** The work-hours view: five joins over users, years, leases, obligations, adjustments and logs. */
module WorkHours {
  import opened Wrappers

  /** Hours are in hundredths, fees in cents. */
  datatype User = User(id: int, live: bool, active: bool)
  datatype Requirement = Requirement(year: int, base: int, fee: int)
  datatype Lease = Lease(tenant: int, unit: int, live: bool, active: bool)
  datatype Obligation = Obligation(unit: int, year: int, additional: int, live: bool)
  datatype Adjustment = Adjustment(user: int, year: int, adjusted: int, live: bool)
  datatype Log = Log(user: int, year: int, hours: int, verified: bool, live: bool)

  datatype Db = Db(
    users: seq<User>, requirements: seq<Requirement>, leases: seq<Lease>,
    obligations: seq<Obligation>, adjustments: seq<Adjustment>, logs: seq<Log>)

  datatype Group = Group(user: int, year: int, total: int)

  datatype Line = Line(user: int, year: int, required: int, worked: int, missing: int, fee: int)

  /** A row of the joined tables before the select list is computed. */
  datatype Joined = Joined(
    u: User, r: Requirement, l: Option<Lease>, o: Option<Obligation>, a: Option<Adjustment>, w: Option<Group>)

  function Filter<T>(s: seq<T>, keep: T -> bool): seq<T> {
    if s == [] then [] else (if keep(s[0]) then [s[0]] else []) + Filter(s[1..], keep)
  }

  /** The rows a LEFT JOIN pairs with one row on its left: the matches, or one NULL. */
  function OrNull<T>(matches: seq<T>): (os: seq<Option<T>>)
    ensures |os| == if matches == [] then 1 else |matches|
  {
    if matches == [] then [None] else seq(|matches|, i requires 0 <= i < |matches| => Some(matches[i]))
  }

  /** GROUP BY user and year, over verified live logs. */
  function AddToGroup(groups: seq<Group>, g: Log): seq<Group> {
    if groups == [] then [Group(g.user, g.year, g.hours)]
    else if groups[0].user == g.user && groups[0].year == g.year
    then [groups[0].(total := groups[0].total + g.hours)] + groups[1..]
    else [groups[0]] + AddToGroup(groups[1..], g)
  }

  function Worked(logs: seq<Log>): seq<Group> {
    if logs == [] then []
    else
      var rest := Worked(logs[..|logs| - 1]);
      var g := logs[|logs| - 1];
      if g.verified && g.live then AddToGroup(rest, g) else rest
  }

  // The join conditions

  function ActiveFor(u: User): Lease -> bool {
    (l: Lease) => l.tenant == u.id && l.live && l.active
  }

  /** Nothing equals the unit of a missing lease. */
  function ForUnit(l: Option<Lease>, year: int): Obligation -> bool {
    (o: Obligation) => l.Some? && o.unit == l.value.unit && o.year == year && o.live
  }

  function ForUser(user: int, year: int): Adjustment -> bool {
    (a: Adjustment) => a.user == user && a.year == year && a.live
  }

  function GroupOf(user: int, year: int): Group -> bool {
    (g: Group) => g.user == user && g.year == year
  }

  function Shown(): Joined -> bool {
    (j: Joined) => j.u.live && j.u.active
  }

  // The joins, each extending every row of the one before

  function JoinUsers(db: Db, users: seq<User>): seq<Joined> {
    if users == [] then []
    else JoinYears(db, users[0], db.requirements) + JoinUsers(db, users[1..])
  }

  function JoinYears(db: Db, u: User, years: seq<Requirement>): seq<Joined> {
    if years == [] then []
    else
      JoinLeases(db, u, years[0], OrNull(Filter(db.leases, ActiveFor(u)))) + JoinYears(db, u, years[1..])
  }

  function JoinLeases(db: Db, u: User, r: Requirement, leases: seq<Option<Lease>>): seq<Joined> {
    if leases == [] then []
    else
      JoinObligations(db, u, r, leases[0], OrNull(Filter(db.obligations, ForUnit(leases[0], r.year))))
      + JoinLeases(db, u, r, leases[1..])
  }

  function JoinObligations(
    db: Db, u: User, r: Requirement, l: Option<Lease>, obligations: seq<Option<Obligation>>): seq<Joined>
  {
    if obligations == [] then []
    else
      JoinAdjustments(db, u, r, l, obligations[0], OrNull(Filter(db.adjustments, ForUser(u.id, r.year))))
      + JoinObligations(db, u, r, l, obligations[1..])
  }

  function JoinAdjustments(
    db: Db, u: User, r: Requirement, l: Option<Lease>, o: Option<Obligation>,
    adjustments: seq<Option<Adjustment>>): seq<Joined>
  {
    if adjustments == [] then []
    else
      JoinWorked(u, r, l, o, adjustments[0], OrNull(Filter(Worked(db.logs), GroupOf(u.id, r.year))))
      + JoinAdjustments(db, u, r, l, o, adjustments[1..])
  }

  function JoinWorked(
    u: User, r: Requirement, l: Option<Lease>, o: Option<Obligation>, a: Option<Adjustment>,
    groups: seq<Option<Group>>): seq<Joined>
  {
    seq(|groups|, i requires 0 <= i < |groups| => Joined(u, r, l, o, a, groups[i]))
  }

  function Select(j: Joined): Line {
    var additional := if j.o.Some? then j.o.value.additional else 0;
    var adjusted := if j.a.Some? then j.a.value.adjusted else 0;
    var required := j.r.base + additional + adjusted;
    var worked := if j.w.Some? then j.w.value.total else 0;
    var missing := if required - worked > 0 then required - worked else 0;
    Line(j.u.id, j.r.year, required, worked, missing, missing * j.r.fee)
  }

  function Map<T, U>(f: T -> U, s: seq<T>): seq<U> {
    seq(|s|, i requires 0 <= i < |s| => f(s[i]))
  }

  /** The view itself. */
  function View(db: Db): seq<Line> {
    var joined := JoinUsers(db, db.users);
    Map(Select, Filter(joined, Shown()))
  }

  // What the view means

  ghost predicate UniqueObligations(os: seq<Obligation>) {
    forall i, j :: 0 <= i < j < |os| ==> !(os[i].unit == os[j].unit && os[i].year == os[j].year)
  }

  ghost predicate UniqueAdjustments(ads: seq<Adjustment>) {
    forall i, j :: 0 <= i < j < |ads| ==> !(ads[i].user == ads[j].user && ads[i].year == ads[j].year)
  }

  predicate HasGroup(gs: seq<Group>, user: int, year: int) {
    gs != [] && ((gs[0].user == user && gs[0].year == year) || HasGroup(gs[1..], user, year))
  }

  predicate UniqueGroups(gs: seq<Group>) {
    gs == [] || (!HasGroup(gs[1..], gs[0].user, gs[0].year) && UniqueGroups(gs[1..]))
  }

  /** The UNIQUE constraints, which deleted rows also occupy. */
  ghost predicate Constraints(db: Db) {
    UniqueObligations(db.obligations) && UniqueAdjustments(db.adjustments)
  }

  function VerifiedHours(logs: seq<Log>, user: int, year: int): int {
    if logs == [] then 0
    else
      var g := logs[|logs| - 1];
      VerifiedHours(logs[..|logs| - 1], user, year)
      + if g.verified && g.live && g.user == user && g.year == year then g.hours else 0
  }

  function UnitHours(os: seq<Obligation>, l: Option<Lease>, year: int): int {
    if os == [] || l.None? then 0
    else if os[0].unit == l.value.unit && os[0].year == year && os[0].live then os[0].additional
    else UnitHours(os[1..], l, year)
  }

  function AdjustedHours(ads: seq<Adjustment>, user: int, year: int): int {
    if ads == [] then 0
    else if ads[0].user == user && ads[0].year == year && ads[0].live then ads[0].adjusted
    else AdjustedHours(ads[1..], user, year)
  }

  function GroupTotal(gs: seq<Group>, user: int, year: int): int {
    if gs == [] then 0
    else if gs[0].user == user && gs[0].year == year then gs[0].total
    else GroupTotal(gs[1..], user, year)
  }

  function Max0(n: int): int { if n > 0 then n else 0 }

  /** The line a lease, or no lease, should give, computed from sums and lookups alone. */
  function Expected(db: Db, u: User, r: Requirement, l: Option<Lease>): Line {
    var required := r.base + UnitHours(db.obligations, l, r.year) + AdjustedHours(db.adjustments, u.id, r.year);
    var worked := VerifiedHours(db.logs, u.id, r.year);
    Line(u.id, r.year, required, worked, Max0(required - worked), Max0(required - worked) * r.fee)
  }

  function ExpectedForLeases(db: Db, u: User, r: Requirement, leases: seq<Option<Lease>>): seq<Line> {
    if leases == [] then []
    else [Expected(db, u, r, leases[0])] + ExpectedForLeases(db, u, r, leases[1..])
  }

  function ExpectedForYears(db: Db, u: User, years: seq<Requirement>): seq<Line> {
    if years == [] then []
    else
      ExpectedForLeases(db, u, years[0], OrNull(Filter(db.leases, ActiveFor(u))))
      + ExpectedForYears(db, u, years[1..])
  }

  function ExpectedView(db: Db, users: seq<User>): seq<Line> {
    if users == [] then []
    else (if users[0].live && users[0].active then ExpectedForYears(db, users[0], db.requirements) else [])
         + ExpectedView(db, users[1..])
  }

  lemma {:induction false} FilterNone<T>(s: seq<T>, keep: T -> bool)
    requires forall x <- s :: !keep(x)
    ensures Filter(s, keep) == []
  {
    if s != [] {
      FilterNone(s[1..], keep);
    }
  }

  lemma {:induction false} OneObligation(os: seq<Obligation>, l: Option<Lease>, year: int)
    requires UniqueObligations(os)
    ensures
      var f := Filter(os, ForUnit(l, year));
      |f| <= 1 && UnitHours(os, l, year) == if f == [] then 0 else f[0].additional
  {
    if os != [] {
      var rest := os[1..];
      assert UniqueObligations(rest) by {
        assert forall i, j :: 0 <= i < j < |rest| ==> rest[i] == os[i + 1] && rest[j] == os[j + 1];
      }
      if ForUnit(l, year)(os[0]) {
        forall o | o in rest
          ensures !ForUnit(l, year)(o)
        {
          var k :| 0 <= k < |rest| && rest[k] == o;
          assert os[k + 1] == o;
        }
        FilterNone(rest, ForUnit(l, year));
      } else {
        OneObligation(rest, l, year);
      }
    }
  }

  lemma {:induction false} OneAdjustment(ads: seq<Adjustment>, user: int, year: int)
    requires UniqueAdjustments(ads)
    ensures
      var f := Filter(ads, ForUser(user, year));
      |f| <= 1 && AdjustedHours(ads, user, year) == if f == [] then 0 else f[0].adjusted
  {
    if ads != [] {
      var rest := ads[1..];
      assert UniqueAdjustments(rest) by {
        assert forall i, j :: 0 <= i < j < |rest| ==> rest[i] == ads[i + 1] && rest[j] == ads[j + 1];
      }
      if ForUser(user, year)(ads[0]) {
        forall a | a in rest
          ensures !ForUser(user, year)(a)
        {
          var k :| 0 <= k < |rest| && rest[k] == a;
          assert ads[k + 1] == a;
        }
        FilterNone(rest, ForUser(user, year));
      } else {
        OneAdjustment(rest, user, year);
      }
    }
  }

  lemma {:induction false} NoGroup(gs: seq<Group>, user: int, year: int)
    requires !HasGroup(gs, user, year)
    ensures Filter(gs, GroupOf(user, year)) == [] && GroupTotal(gs, user, year) == 0
  {
    if gs != [] {
      NoGroup(gs[1..], user, year);
    }
  }

  lemma {:induction false} OneGroup(gs: seq<Group>, user: int, year: int)
    requires UniqueGroups(gs)
    ensures
      var f := Filter(gs, GroupOf(user, year));
      |f| <= 1 && GroupTotal(gs, user, year) == if f == [] then 0 else f[0].total
  {
    if gs != [] {
      if GroupOf(user, year)(gs[0]) {
        NoGroup(gs[1..], user, year);
      } else {
        OneGroup(gs[1..], user, year);
      }
    }
  }

  lemma {:induction false} AddToGroupHas(gs: seq<Group>, g: Log, user: int, year: int)
    ensures HasGroup(AddToGroup(gs, g), user, year) <==> HasGroup(gs, user, year) || (user == g.user && year == g.year)
  {
    if gs != [] {
      AddToGroupHas(gs[1..], g, user, year);
    }
  }

  lemma {:induction false} AddToGroupAdds(gs: seq<Group>, g: Log, user: int, year: int)
    requires UniqueGroups(gs)
    ensures UniqueGroups(AddToGroup(gs, g))
    ensures
      GroupTotal(AddToGroup(gs, g), user, year)
      == GroupTotal(gs, user, year) + if g.user == user && g.year == year then g.hours else 0
  {
    if gs != [] {
      AddToGroupAdds(gs[1..], g, user, year);
      AddToGroupHas(gs[1..], g, gs[0].user, gs[0].year);
    }
  }

  /** Grouping has one group per user and year, holding exactly the verified live hours. */
  lemma {:induction false} WorkedIsSum(logs: seq<Log>, user: int, year: int)
    ensures UniqueGroups(Worked(logs))
    ensures GroupTotal(Worked(logs), user, year) == VerifiedHours(logs, user, year)
  {
    if logs != [] {
      WorkedIsSum(logs[..|logs| - 1], user, year);
      AddToGroupAdds(Worked(logs[..|logs| - 1]), logs[|logs| - 1], user, year);
    }
  }

  /** For one user, year and lease, the last three joins give exactly one row, the expected one. */
  lemma JoinOne(db: Db, u: User, r: Requirement, l: Option<Lease>)
    requires Constraints(db)
    ensures
      var js := JoinObligations(db, u, r, l, OrNull(Filter(db.obligations, ForUnit(l, r.year))));
      |js| == 1 && js[0].u == u && Select(js[0]) == Expected(db, u, r, l)
  {
    OneObligation(db.obligations, l, r.year);
    OneAdjustment(db.adjustments, u.id, r.year);
    WorkedIsSum(db.logs, u.id, r.year);
    OneGroup(Worked(db.logs), u.id, r.year);
    var os := OrNull(Filter(db.obligations, ForUnit(l, r.year)));
    var ads := OrNull(Filter(db.adjustments, ForUser(u.id, r.year)));
    var gs := OrNull(Filter(Worked(db.logs), GroupOf(u.id, r.year)));
    assert os[1..] == [] && ads[1..] == [];
    assert JoinAdjustments(db, u, r, l, os[0], ads) == JoinWorked(u, r, l, os[0], ads[0], gs);
  }

  ghost predicate AllOf(js: seq<Joined>, u: User) {
    forall i :: 0 <= i < |js| ==> js[i].u == u
  }

  lemma MapAppend<T, U>(f: T -> U, s: seq<T>, t: seq<T>)
    ensures Map(f, s + t) == Map(f, s) + Map(f, t)
  {
  }

  lemma {:induction false} LeasesExpected(db: Db, u: User, r: Requirement, leases: seq<Option<Lease>>)
    requires Constraints(db)
    ensures AllOf(JoinLeases(db, u, r, leases), u)
    ensures Map(Select, JoinLeases(db, u, r, leases)) == ExpectedForLeases(db, u, r, leases)
  {
    if leases != [] {
      JoinOne(db, u, r, leases[0]);
      LeasesExpected(db, u, r, leases[1..]);
      var js := JoinObligations(db, u, r, leases[0], OrNull(Filter(db.obligations, ForUnit(leases[0], r.year))));
      MapAppend(Select, js, JoinLeases(db, u, r, leases[1..]));
      assert Map(Select, js) == [Expected(db, u, r, leases[0])];
    }
  }

  lemma {:induction false} YearsExpected(db: Db, u: User, years: seq<Requirement>)
    requires Constraints(db)
    ensures AllOf(JoinYears(db, u, years), u)
    ensures Map(Select, JoinYears(db, u, years)) == ExpectedForYears(db, u, years)
  {
    if years != [] {
      var leases := OrNull(Filter(db.leases, ActiveFor(u)));
      LeasesExpected(db, u, years[0], leases);
      YearsExpected(db, u, years[1..]);
      MapAppend(Select, JoinLeases(db, u, years[0], leases), JoinYears(db, u, years[1..]));
    }
  }

  lemma {:induction false} FilterAll<T>(s: seq<T>, keep: T -> bool)
    requires forall x <- s :: keep(x)
    ensures Filter(s, keep) == s
  {
    if s != [] {
      FilterAll(s[1..], keep);
    }
  }

  lemma {:induction false} FilterAppend<T>(s: seq<T>, t: seq<T>, keep: T -> bool)
    ensures Filter(s + t, keep) == Filter(s, keep) + Filter(t, keep)
  {
    if s == [] {
      assert s + t == t;
    } else {
      assert (s + t)[0] == s[0] && (s + t)[1..] == s[1..] + t;
      FilterAppend(s[1..], t, keep);
      var head := if keep(s[0]) then [s[0]] else [];
      assert Filter(s + t, keep) == head + Filter(s[1..] + t, keep);
    }
  }

  lemma {:induction false} UsersExpected(db: Db, users: seq<User>)
    requires Constraints(db)
    ensures Map(Select, Filter(JoinUsers(db, users), Shown())) == ExpectedView(db, users)
  {
    if users != [] {
      var u := users[0];
      var own, others := JoinYears(db, u, db.requirements), JoinUsers(db, users[1..]);
      YearsExpected(db, u, db.requirements);
      UsersExpected(db, users[1..]);
      FilterAppend(own, others, Shown());
      if u.live && u.active {
        FilterAll(own, Shown());
      } else {
        FilterNone(own, Shown());
      }
      MapAppend(Select, Filter(own, Shown()), Filter(others, Shown()));
    }
  }

  /** Five joins and a grouping compute just the nested listing: users, years, leases or one blank. */
  lemma ViewIsExpected(db: Db)
    requires Constraints(db)
    ensures View(db) == ExpectedView(db, db.users)
  {
    UsersExpected(db, db.users);
  }

  // How many lines, and what they say

  function CountLines(lines: seq<Line>, user: int, year: int): nat {
    if lines == [] then 0
    else (if lines[0].user == user && lines[0].year == year then 1 else 0) + CountLines(lines[1..], user, year)
  }

  lemma {:induction false} CountAppend(s: seq<Line>, t: seq<Line>, user: int, year: int)
    ensures CountLines(s + t, user, year) == CountLines(s, user, year) + CountLines(t, user, year)
  {
    if s == [] {
      assert s + t == t;
    } else {
      assert (s + t)[1..] == s[1..] + t;
      CountAppend(s[1..], t, user, year);
    }
  }

  lemma {:induction false} CountLeases(
    db: Db, u: User, r: Requirement, leases: seq<Option<Lease>>, user: int, year: int)
    ensures CountLines(ExpectedForLeases(db, u, r, leases), user, year)
            == if u.id == user && r.year == year then |leases| else 0
  {
    if leases != [] {
      CountLeases(db, u, r, leases[1..], user, year);
      var lines := ExpectedForLeases(db, u, r, leases);
      assert lines[1..] == ExpectedForLeases(db, u, r, leases[1..]);
    }
  }

  function CountYears(years: seq<Requirement>, year: int): nat {
    if years == [] then 0 else (if years[0].year == year then 1 else 0) + CountYears(years[1..], year)
  }

  /** Lines for one user: one for each active lease, and one when there is none. */
  function LeaseLines(db: Db, u: User): nat {
    var n := |Filter(db.leases, ActiveFor(u))|;
    if n == 0 then 1 else n
  }

  lemma Distributes(a: int, b: int, c: int)
    ensures (a + b) * c == a * c + b * c
  {
  }

  lemma {:induction false} CountForYears(db: Db, u: User, years: seq<Requirement>, user: int, year: int)
    ensures CountLines(ExpectedForYears(db, u, years), user, year)
            == if u.id == user then CountYears(years, year) * LeaseLines(db, u) else 0
  {
    if years != [] {
      var leases := OrNull(Filter(db.leases, ActiveFor(u)));
      CountLeases(db, u, years[0], leases, user, year);
      CountForYears(db, u, years[1..], user, year);
      CountAppend(ExpectedForLeases(db, u, years[0], leases), ExpectedForYears(db, u, years[1..]), user, year);
      Distributes(if years[0].year == year then 1 else 0, CountYears(years[1..], year), LeaseLines(db, u));
    }
  }

  lemma {:induction false} CountNobody(db: Db, users: seq<User>, user: int, year: int)
    requires forall u <- users :: u.id != user
    ensures CountLines(ExpectedView(db, users), user, year) == 0
  {
    if users != [] {
      CountNobody(db, users[1..], user, year);
      CountForYears(db, users[0], db.requirements, user, year);
      var own := if users[0].live && users[0].active then ExpectedForYears(db, users[0], db.requirements) else [];
      CountAppend(own, ExpectedView(db, users[1..]), user, year);
    }
  }

  lemma {:induction false} CountUser(db: Db, users: seq<User>, i: nat, year: int)
    requires i < |users| && forall j, k :: 0 <= j < k < |users| ==> users[j].id != users[k].id
    ensures
      var u := users[i];
      CountLines(ExpectedView(db, users), u.id, year)
      == if u.live && u.active then CountYears(db.requirements, year) * LeaseLines(db, u) else 0
  {
    var u := users[i];
    var own := if users[0].live && users[0].active then ExpectedForYears(db, users[0], db.requirements) else [];
    CountForYears(db, users[0], db.requirements, u.id, year);
    CountAppend(own, ExpectedView(db, users[1..]), u.id, year);
    if i == 0 {
      CountNobody(db, users[1..], u.id, year);
    } else {
      CountUser(db, users[1..], i - 1, year);
    }
  }

  lemma {:induction false} OneYear(years: seq<Requirement>, i: nat)
    requires i < |years| && forall j, k :: 0 <= j < k < |years| ==> years[j].year != years[k].year
    ensures CountYears(years, years[i].year) == 1
  {
    if i == 0 {
      NoYear(years[1..], years[0].year);
    } else {
      OneYear(years[1..], i - 1);
    }
  }

  lemma {:induction false} NoYear(years: seq<Requirement>, year: int)
    requires forall r <- years :: r.year != year
    ensures CountYears(years, year) == 0
  {
    if years != [] {
      NoYear(years[1..], year);
    }
  }

  /** The user's active leases: live ones with the status active, in the user's name. */
  function ActiveLeases(db: Db, u: User): set<nat> {
    set i: nat | i < |db.leases| && db.leases[i].tenant == u.id && db.leases[i].live && db.leases[i].active
  }

  lemma {:induction false} CountActive(leases: seq<Lease>, u: User, n: nat)
    requires n <= |leases|
    ensures
      |Filter(leases[n..], ActiveFor(u))|
      == |set i: nat | n <= i < |leases| && leases[i].tenant == u.id && leases[i].live && leases[i].active|
    decreases |leases| - n
  {
    var places := set i: nat | n <= i < |leases| && leases[i].tenant == u.id && leases[i].live && leases[i].active;
    if n < |leases| {
      CountActive(leases, u, n + 1);
      var later :=
        set i: nat | n + 1 <= i < |leases| && leases[i].tenant == u.id && leases[i].live && leases[i].active;
      assert leases[n..][1..] == leases[n + 1..];
      assert places == later + if ActiveFor(u)(leases[n]) then {n} else {};
    } else {
      assert places == {};
    }
  }

  lemma LeaseLinesExact(db: Db, u: User)
    ensures LeaseLines(db, u) == if ActiveLeases(db, u) == {} then 1 else |ActiveLeases(db, u)|
  {
    CountActive(db.leases, u, 0);
    assert db.leases[0..] == db.leases;
    assert ActiveLeases(db, u)
        == set i: nat | 0 <= i < |db.leases| && db.leases[i].tenant == u.id && db.leases[i].live && db.leases[i].active;
  }

  /** Each user and requirement year has one line per active lease, at least one, and none if hidden. */
  lemma LinesPerUserAndYear(db: Db, i: nat, j: nat)
    requires Constraints(db) && i < |db.users| && j < |db.requirements|
    requires forall a, b :: 0 <= a < b < |db.users| ==> db.users[a].id != db.users[b].id
    requires forall a, b :: 0 <= a < b < |db.requirements| ==> db.requirements[a].year != db.requirements[b].year
    ensures
      var u := db.users[i];
      CountLines(View(db), u.id, db.requirements[j].year)
      == if !(u.live && u.active) then 0 else if ActiveLeases(db, u) == {} then 1 else |ActiveLeases(db, u)|
  {
    LeaseLinesExact(db, db.users[i]);
    var year := db.requirements[j].year;
    ViewIsExpected(db);
    OneYear(db.requirements, j);
    assert CountYears(db.requirements, year) * LeaseLines(db, db.users[i]) == LeaseLines(db, db.users[i]);
    CountUser(db, db.users, i, year);
  }

  /** A line states the user's verified hours for the year and what is missing from the requirement. */
  predicate Truthful(db: Db, line: Line) {
    && line.worked == VerifiedHours(db.logs, line.user, line.year)
    && line.missing == Max0(line.required - line.worked)
  }

  lemma {:induction false} LeasesTruthful(db: Db, u: User, r: Requirement, leases: seq<Option<Lease>>)
    ensures forall line <- ExpectedForLeases(db, u, r, leases) :: Truthful(db, line)
  {
    if leases != [] {
      LeasesTruthful(db, u, r, leases[1..]);
    }
  }

  lemma {:induction false} YearsTruthful(db: Db, u: User, years: seq<Requirement>)
    ensures forall line <- ExpectedForYears(db, u, years) :: Truthful(db, line)
  {
    if years != [] {
      LeasesTruthful(db, u, years[0], OrNull(Filter(db.leases, ActiveFor(u))));
      YearsTruthful(db, u, years[1..]);
    }
  }

  lemma {:induction false} UsersTruthful(db: Db, users: seq<User>)
    ensures forall line <- ExpectedView(db, users) :: Truthful(db, line)
  {
    if users != [] {
      YearsTruthful(db, users[0], db.requirements);
      UsersTruthful(db, users[1..]);
    }
  }

  /** Every line of the view, on every row a user has, states the same hours worked. */
  lemma LinesAreTruthful(db: Db)
    requires Constraints(db)
    ensures forall line <- View(db) :: Truthful(db, line)
  {
    ViewIsExpected(db);
    UsersTruthful(db, db.users);
  }

  // Which lines there are

  lemma {:induction false} FilterMembers<T(!new)>(s: seq<T>, keep: T -> bool, x: T)
    ensures x in Filter(s, keep) <==> x in s && keep(x)
  {
    if s != [] {
      FilterMembers(s[1..], keep, x);
    }
  }

  /** An active lease of the user, or none where there is none. */
  ghost predicate LeaseOrNone(db: Db, u: User, l: Option<Lease>) {
    match l
    case Some(x) => x in db.leases && x.tenant == u.id && x.live && x.active
    case None => forall x <- db.leases :: !(x.tenant == u.id && x.live && x.active)
  }

  lemma JoinedLeases(db: Db, u: User, l: Option<Lease>)
    ensures l in OrNull(Filter(db.leases, ActiveFor(u))) <==> LeaseOrNone(db, u, l)
  {
    var kept := Filter(db.leases, ActiveFor(u));
    forall x
      ensures x in kept <==> x in db.leases && ActiveFor(u)(x)
    {
      FilterMembers(db.leases, ActiveFor(u), x);
    }
    if kept != [] {
      assert kept[0] in kept;
      if l.Some? && l.value in kept {
        var i :| 0 <= i < |kept| && kept[i] == l.value;
        assert OrNull(kept)[i] == l;
      }
    }
  }

  lemma {:induction false} InLeases(db: Db, u: User, r: Requirement, leases: seq<Option<Lease>>, line: Line)
    ensures line in ExpectedForLeases(db, u, r, leases) <==> exists l :: l in leases && line == Expected(db, u, r, l)
  {
    if leases != [] {
      InLeases(db, u, r, leases[1..], line);
      assert forall l :: l in leases <==> l == leases[0] || l in leases[1..];
    }
  }

  ghost predicate LineOf(db: Db, u: User, r: Requirement, line: Line) {
    exists l :: LeaseOrNone(db, u, l) && line == Expected(db, u, r, l)
  }

  lemma InYear(db: Db, u: User, r: Requirement, line: Line)
    ensures
      line in ExpectedForLeases(db, u, r, OrNull(Filter(db.leases, ActiveFor(u)))) <==> LineOf(db, u, r, line)
  {
    var leases := OrNull(Filter(db.leases, ActiveFor(u)));
    InLeases(db, u, r, leases, line);
    forall l
      ensures l in leases <==> LeaseOrNone(db, u, l)
    {
      JoinedLeases(db, u, l);
    }
  }

  lemma {:induction false} InYears(db: Db, u: User, years: seq<Requirement>, line: Line)
    ensures line in ExpectedForYears(db, u, years) <==> exists r :: r in years && LineOf(db, u, r, line)
  {
    if years != [] {
      InYear(db, u, years[0], line);
      InYears(db, u, years[1..], line);
      if LineOf(db, u, years[0], line) {
        assert years[0] in years;
      }
      if r :| r in years[1..] && LineOf(db, u, r, line) {
        assert r in years;
      }
    }
  }

  ghost predicate LineOfUser(db: Db, u: User, line: Line) {
    u.live && u.active && exists r :: r in db.requirements && LineOf(db, u, r, line)
  }

  lemma {:induction false} InView(db: Db, users: seq<User>, line: Line)
    ensures line in ExpectedView(db, users) <==> exists u :: u in users && LineOfUser(db, u, line)
  {
    if users != [] {
      InYears(db, users[0], db.requirements, line);
      InView(db, users[1..], line);
      if LineOfUser(db, users[0], line) {
        assert users[0] in users;
      }
      if u :| u in users[1..] && LineOfUser(db, u, line) {
        assert u in users;
      }
    }
  }

  /** The hours a live obligation of the lease's unit adds in the year, or zero without one. */
  ghost predicate UnitAdds(db: Db, l: Option<Lease>, year: int, hours: int) {
    || (exists o ::
          && o in db.obligations && l.Some? && o.unit == l.value.unit && o.year == year && o.live
          && o.additional == hours)
    || (hours == 0 && forall o <- db.obligations :: !(l.Some? && o.unit == l.value.unit && o.year == year && o.live))
  }

  ghost predicate UserAdjusts(db: Db, user: int, year: int, hours: int) {
    || (exists a :: a in db.adjustments && a.user == user && a.year == year && a.live && a.adjusted == hours)
    || (hours == 0 && forall a <- db.adjustments :: !(a.user == user && a.year == year && a.live))
  }

  lemma {:induction false} UnitHoursFound(os: seq<Obligation>, l: Option<Lease>, year: int)
    ensures
      || (exists o :: o in os && l.Some? && o.unit == l.value.unit && o.year == year && o.live
                      && o.additional == UnitHours(os, l, year))
      || (&& UnitHours(os, l, year) == 0
          && forall o <- os :: !(l.Some? && o.unit == l.value.unit && o.year == year && o.live))
  {
    if os != [] {
      UnitHoursFound(os[1..], l, year);
      assert forall o :: o in os <==> o == os[0] || o in os[1..];
    }
  }

  lemma {:induction false} AdjustedHoursFound(ads: seq<Adjustment>, user: int, year: int)
    ensures
      || (exists a :: a in ads && a.user == user && a.year == year && a.live
                      && a.adjusted == AdjustedHours(ads, user, year))
      || (AdjustedHours(ads, user, year) == 0 && forall a <- ads :: !(a.user == user && a.year == year && a.live))
  {
    if ads != [] {
      AdjustedHoursFound(ads[1..], user, year);
      assert forall a :: a in ads <==> a == ads[0] || a in ads[1..];
    }
  }

  /** The figures a line must show for a user, a year and a lease or none. */
  ghost predicate Shows(db: Db, u: User, r: Requirement, l: Option<Lease>, line: Line) {
    exists unit, adjusted ::
      && UnitAdds(db, l, r.year, unit) && UserAdjusts(db, u.id, r.year, adjusted)
      && line.user == u.id && line.year == r.year
      && line.required == r.base + unit + adjusted
      && line.worked == VerifiedHours(db.logs, u.id, r.year)
      && line.missing == (if line.required > line.worked then line.required - line.worked else 0)
      && line.fee == line.missing * r.fee
  }

  lemma UnitAddsOnce(db: Db, l: Option<Lease>, year: int, hours: int)
    requires Constraints(db)
    ensures UnitAdds(db, l, year, hours) <==> hours == UnitHours(db.obligations, l, year)
  {
    UnitHoursFound(db.obligations, l, year);
    forall o, p | o in db.obligations && p in db.obligations && o.unit == p.unit && o.year == p.year
      ensures o == p
    {
      var i :| 0 <= i < |db.obligations| && db.obligations[i] == o;
      var j :| 0 <= j < |db.obligations| && db.obligations[j] == p;
    }
  }

  lemma UserAdjustsOnce(db: Db, user: int, year: int, hours: int)
    requires Constraints(db)
    ensures UserAdjusts(db, user, year, hours) <==> hours == AdjustedHours(db.adjustments, user, year)
  {
    AdjustedHoursFound(db.adjustments, user, year);
    forall a, b | a in db.adjustments && b in db.adjustments && a.user == b.user && a.year == b.year
      ensures a == b
    {
      var i :| 0 <= i < |db.adjustments| && db.adjustments[i] == a;
      var j :| 0 <= j < |db.adjustments| && db.adjustments[j] == b;
    }
  }

  lemma ShowsExpected(db: Db, u: User, r: Requirement, l: Option<Lease>, line: Line)
    requires Constraints(db)
    ensures Shows(db, u, r, l, line) <==> line == Expected(db, u, r, l)
  {
    var unit, adjusted := UnitHours(db.obligations, l, r.year), AdjustedHours(db.adjustments, u.id, r.year);
    forall h
      ensures UnitAdds(db, l, r.year, h) <==> h == unit
      ensures UserAdjusts(db, u.id, r.year, h) <==> h == adjusted
    {
      UnitAddsOnce(db, l, r.year, h);
      UserAdjustsOnce(db, u.id, r.year, h);
    }
    if line == Expected(db, u, r, l) {
      assert UnitAdds(db, l, r.year, unit) && UserAdjusts(db, u.id, r.year, adjusted);
    }
  }

  /**
    A line is in the view exactly when it shows the figures of a live active user, a requirement year,
    and an active lease of the user, or no lease where there is none.
   */
  lemma LinesExact(db: Db, line: Line)
    requires Constraints(db)
    ensures
      line in View(db) <==>
        exists u, r, l ::
          && u in db.users && u.live && u.active && r in db.requirements && LeaseOrNone(db, u, l)
          && Shows(db, u, r, l, line)
  {
    ViewIsExpected(db);
    InView(db, db.users, line);
    forall u, r, l
      ensures Shows(db, u, r, l, line) <==> line == Expected(db, u, r, l)
    {
      ShowsExpected(db, u, r, l, line);
    }
    if line in View(db) {
      var u :| u in db.users && LineOfUser(db, u, line);
      var r :| r in db.requirements && LineOf(db, u, r, line);
      var l :| LeaseOrNone(db, u, l) && line == Expected(db, u, r, l);
      assert Shows(db, u, r, l, line);
    }
  }

  /** One more log counts for its user and year exactly if it is verified and live. */
  lemma LogCounts(logs: seq<Log>, g: Log, user: int, year: int)
    ensures
      VerifiedHours(logs + [g], user, year) - VerifiedHours(logs, user, year)
      == if g.verified && g.live && user == g.user && year == g.year then g.hours else 0
  {
    assert (logs + [g])[..|logs|] == logs;
  }
}
