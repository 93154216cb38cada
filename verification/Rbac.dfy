/** Roles and permissions: the joins that answer in the database, and the claims cached in a token. */
module Rbac {
  import opened Identity
  import opened Ordering

  datatype UserRole = UserRole(user: UserId, role: string)
  datatype RolePermission = RolePermission(role: string, permission: string)

  /** Users and roles map to whether they are live; soft-deleted ones stay as rows. */
  datatype Db = Db(
    users: map<UserId, bool>, roles: map<string, bool>, permissions: set<string>,
    userRoles: seq<UserRole>, rolePermissions: seq<RolePermission>)

  const ADMIN: string := "admin"

  ghost predicate Distinct<T>(s: seq<T>) {
    forall i, j :: 0 <= i < j < |s| ==> s[i] != s[j]
  }

  /** Primary keys and foreign keys. */
  ghost predicate Valid(db: Db) {
    && Distinct(db.userRoles) && Distinct(db.rolePermissions)
    && (forall x <- db.userRoles :: x.user in db.users && x.role in db.roles)
    && (forall x <- db.rolePermissions :: x.role in db.roles && x.permission in db.permissions)
  }

  predicate LiveUser(db: Db, u: UserId) { u in db.users && db.users[u] }

  predicate LiveRole(db: Db, role: string) { role in db.roles && db.roles[role] }

  // Queries

  /** One held role joined with its grants and the permission catalogue. */
  function Grants(db: Db, role: string, grants: seq<RolePermission>): seq<string> {
    if grants == [] then []
    else (if grants[0].role == role && grants[0].permission in db.permissions then [grants[0].permission] else [])
         + Grants(db, role, grants[1..])
  }

  function JoinPermissions(db: Db, u: UserId, held: seq<UserRole>): seq<string> {
    if held == [] then []
    else (if held[0].user == u && LiveRole(db, held[0].role) then Grants(db, held[0].role, db.rolePermissions) else [])
         + JoinPermissions(db, u, held[1..])
  }

  function GetPermissionsForUser(db: Db, u: UserId, leq: (string, string) -> bool): seq<string> {
    SortDistinct(JoinPermissions(db, u, db.userRoles), leq)
  }

  /** Live roles of a user; the key makes the join free of duplicates. */
  function JoinRoles(db: Db, u: UserId, held: seq<UserRole>): seq<string> {
    if held == [] then []
    else (if held[0].user == u && LiveRole(db, held[0].role) then [held[0].role] else [])
         + JoinRoles(db, u, held[1..])
  }

  function ListUserRoles(db: Db, u: UserId, leq: (string, string) -> bool): seq<string> {
    SortDistinct(JoinRoles(db, u, db.userRoles), leq)
  }

  /** This query asks neither for a live role nor for the role table at all. */
  predicate UserHasRole(db: Db, u: UserId, role: string) {
    UserRole(u, role) in db.userRoles
  }

  predicate Holds(db: Db, u: UserId, role: string, permission: string) {
    UserRole(u, role) in db.userRoles && LiveRole(db, role) && RolePermission(role, permission) in db.rolePermissions
  }

  predicate UserHasPermission(db: Db, u: UserId, permission: string) {
    exists x :: x in db.userRoles && x.user == u && Holds(db, u, x.role, permission)
  }

  predicate CheckPermission(db: Db, u: UserId, permission: string) {
    UserHasRole(db, u, ADMIN) || UserHasPermission(db, u, permission)
  }

  /** What a token carries, and what the request middleware concludes from it. */
  datatype Claims = Claims(roles: seq<string>, permissions: seq<string>)

  function IssueClaims(db: Db, u: UserId, leq: (string, string) -> bool): Claims {
    Claims(ListUserRoles(db, u, leq), GetPermissionsForUser(db, u, leq))
  }

  predicate HasPermission(c: Claims, permission: string) {
    ADMIN in c.roles || permission in c.permissions
  }

  // The queries agree

  lemma {:induction false} GrantsExact(db: Db, role: string, grants: seq<RolePermission>, p: string)
    ensures p in Grants(db, role, grants) <==> RolePermission(role, p) in grants && p in db.permissions
  {
    if grants != [] {
      GrantsExact(db, role, grants[1..], p);
    }
  }

  lemma {:induction false} JoinPermissionsExact(db: Db, u: UserId, held: seq<UserRole>, p: string)
    requires Valid(db) && forall x <- held :: x in db.userRoles
    ensures p in JoinPermissions(db, u, held) <==> exists x :: x in held && x.user == u && Holds(db, u, x.role, p)
  {
    if held != [] {
      var x := held[0];
      assert forall y :: y in held <==> y == x || y in held[1..];
      JoinPermissionsExact(db, u, held[1..], p);
      GrantsExact(db, x.role, db.rolePermissions, p);
      assert x.user == u ==> x == UserRole(u, x.role);
    }
  }

  lemma {:induction false} JoinRolesExact(db: Db, u: UserId, held: seq<UserRole>, role: string)
    ensures role in JoinRoles(db, u, held) <==> UserRole(u, role) in held && LiveRole(db, role)
  {
    if held != [] {
      JoinRolesExact(db, u, held[1..], role);
    }
  }

  /** The user is assigned the role, which is not soft-deleted, and it carries the permission. */
  predicate GrantedBy(db: Db, u: UserId, role: string, p: string) {
    && UserRole(u, role) in db.userRoles && role in db.roles && db.roles[role]
    && RolePermission(role, p) in db.rolePermissions
  }

  /** The listed roles are the user's assignments to roles that are not soft-deleted. */
  lemma RolesExact(db: Db, u: UserId, leq: (string, string) -> bool)
    requires TotalOrder(leq)
    ensures Ascending(ListUserRoles(db, u, leq), leq)
    ensures forall role ::
        role in ListUserRoles(db, u, leq) <==> UserRole(u, role) in db.userRoles && role in db.roles && db.roles[role]
  {
    SortDistinctAscending(JoinRoles(db, u, db.userRoles), leq, JoinRoles(db, u, db.userRoles));
    forall role
      ensures role in JoinRoles(db, u, db.userRoles) <==> UserRole(u, role) in db.userRoles && LiveRole(db, role)
    {
      JoinRolesExact(db, u, db.userRoles, role);
    }
  }

  /** The list query is the ascending, duplicate-free union, and agrees with the yes-no query. */
  lemma PermissionsAgree(db: Db, u: UserId, leq: (string, string) -> bool)
    requires Valid(db) && TotalOrder(leq)
    ensures Ascending(GetPermissionsForUser(db, u, leq), leq)
    ensures forall p :: p in GetPermissionsForUser(db, u, leq) <==> UserHasPermission(db, u, p)
    ensures forall p :: UserHasPermission(db, u, p) <==> exists role :: GrantedBy(db, u, role, p)
  {
    forall p
      ensures UserHasPermission(db, u, p) <==> exists role :: GrantedBy(db, u, role, p)
    {
      if role :| GrantedBy(db, u, role, p) {
        assert UserRole(u, role) in db.userRoles && Holds(db, u, role, p);
      }
      if UserHasPermission(db, u, p) {
        var x :| x in db.userRoles && x.user == u && Holds(db, u, x.role, p);
        assert GrantedBy(db, u, x.role, p);
      }
    }
    SortDistinctAscending(JoinPermissions(db, u, db.userRoles), leq, JoinPermissions(db, u, db.userRoles));
    forall p
      ensures p in GetPermissionsForUser(db, u, leq) <==> UserHasPermission(db, u, p)
    {
      JoinPermissionsExact(db, u, db.userRoles, p);
    }
  }

  /** It does not depend on the order of any table's rows. */
  lemma PermissionsIgnoreRowOrder(db: Db, other: Db, u: UserId, leq: (string, string) -> bool)
    requires Valid(db) && Valid(other) && TotalOrder(leq)
    requires other.roles == db.roles && other.permissions == db.permissions
    requires forall x :: x in other.userRoles <==> x in db.userRoles
    requires forall x :: x in other.rolePermissions <==> x in db.rolePermissions
    ensures GetPermissionsForUser(other, u, leq) == GetPermissionsForUser(db, u, leq)
  {
    PermissionsAgree(db, u, leq);
    PermissionsAgree(other, u, leq);
    forall p
      ensures UserHasPermission(db, u, p) <==> UserHasPermission(other, u, p)
    {
      assert forall role :: Holds(db, u, role, p) <==> Holds(other, u, role, p);
    }
    var list := GetPermissionsForUser(db, u, leq);
    AscendingUnique(GetPermissionsForUser(other, u, leq), list, leq, list);
  }

  /**
    Fresh claims decide a permission as the database does exactly when the user is no admin, or the
    admin role is live, or another live role grants it anyway.
   */
  lemma ClaimsAgree(db: Db, u: UserId, p: string, leq: (string, string) -> bool)
    requires Valid(db) && TotalOrder(leq)
    ensures
      HasPermission(IssueClaims(db, u, leq), p) == CheckPermission(db, u, p) <==>
        !UserHasRole(db, u, ADMIN) || LiveRole(db, ADMIN) || UserHasPermission(db, u, p)
  {
    PermissionsAgree(db, u, leq);
    SortDistinctAscending(JoinRoles(db, u, db.userRoles), leq, JoinRoles(db, u, db.userRoles));
    JoinRolesExact(db, u, db.userRoles, ADMIN);
  }

  // Changes

  datatype Event =
    | AssignRole(user: UserId, role: string)
    | RemoveRole(user: UserId, role: string)
    | AddRolePermission(role: string, permission: string)
    | RemoveRolePermission(role: string, permission: string)
    | SoftDeleteRole(role: string)
    | SoftDeleteUser(user: UserId)

  datatype Outcome = Done | UserMissing | RoleMissing | ForeignKey

  datatype Next = Next(db: Db, outcome: Outcome)

  /** The sequence with every occurrence of a value removed. */
  function Except<T(==, !new)>(s: seq<T>, x: T): (r: seq<T>)
    ensures forall y :: y in r <==> y in s && y != x
  {
    if s == [] then [] else (if s[0] == x then [] else [s[0]]) + Except(s[1..], x)
  }

  function Step(db: Db, e: Event): Next {
    match e
    case AssignRole(u, role) =>
      if !LiveUser(db, u) then Next(db, UserMissing)
      else if !LiveRole(db, role) then Next(db, RoleMissing)
      else if UserRole(u, role) in db.userRoles then Next(db, Done)
      else Next(db.(userRoles := db.userRoles + [UserRole(u, role)]), Done)
    case RemoveRole(u, role) =>
      if !LiveUser(db, u) then Next(db, UserMissing)
      else Next(db.(userRoles := Except(db.userRoles, UserRole(u, role))), Done)
    case AddRolePermission(role, p) =>
      if RolePermission(role, p) in db.rolePermissions then Next(db, Done)
      else if role !in db.roles || p !in db.permissions then Next(db, ForeignKey)
      else Next(db.(rolePermissions := db.rolePermissions + [RolePermission(role, p)]), Done)
    case RemoveRolePermission(role, p) =>
      Next(db.(rolePermissions := Except(db.rolePermissions, RolePermission(role, p))), Done)
    case SoftDeleteRole(role) =>
      if role in db.roles then Next(db.(roles := db.roles[role := false]), Done) else Next(db, RoleMissing)
    case SoftDeleteUser(u) =>
      if u in db.users then Next(db.(users := db.users[u := false]), Done) else Next(db, UserMissing)
  }

  lemma {:induction false} ExceptDistinct<T(!new)>(s: seq<T>, x: T)
    requires Distinct(s)
    ensures Distinct(Except(s, x))
    ensures x !in s ==> Except(s, x) == s
  {
    if s != [] {
      var rest := s[1..];
      assert Distinct(rest) by {
        assert forall i :: 0 <= i < |rest| ==> rest[i] == s[i + 1];
      }
      ExceptDistinct(rest, x);
      assert s[0] !in rest;
      var r := Except(s, x);
      if s[0] != x {
        assert r[1..] == Except(rest, x);
        assert s[0] !in r[1..];
        forall i, j | 0 <= i < j < |r|
          ensures r[i] != r[j]
        {
          assert r[j] == r[1..][j - 1];
          assert i > 0 ==> r[i] == r[1..][i - 1];
        }
      }
    }
  }

  lemma StepValid(db: Db, e: Event)
    requires Valid(db)
    ensures Valid(Step(db, e).db)
  {
    if e.RemoveRole? {
      ExceptDistinct(db.userRoles, UserRole(e.user, e.role));
    } else if e.RemoveRolePermission? {
      ExceptDistinct(db.rolePermissions, RolePermission(e.role, e.permission));
    }
  }

  /** The tables agree but for whether this user holds this role. */
  ghost predicate SameButFor(db: Db, n: Db, u: UserId, role: string) {
    && n.users == db.users && n.roles == db.roles && n.permissions == db.permissions
    && n.rolePermissions == db.rolePermissions
    && forall x :: x != UserRole(u, role) ==> (x in n.userRoles <==> x in db.userRoles)
  }

  /**
    An assignment goes through exactly for a user and a role that are there and not soft-deleted, a
    removal for any such user; a refused one changes nothing.
   */
  lemma AssignedExactly(db: Db, e: Event)
    requires e.AssignRole? || e.RemoveRole?
    ensures
      var n := Step(db, e);
      var userThere := e.user in db.users && db.users[e.user];
      var roleThere := e.role in db.roles && db.roles[e.role];
      && (n.outcome == Done <==> userThere && (e.AssignRole? ==> roleThere))
      && (n.outcome == UserMissing <==> !userThere)
      && (n.outcome != Done ==> n.db == db)
      && (n.outcome == Done ==>
            && SameButFor(db, n.db, e.user, e.role)
            && (UserRole(e.user, e.role) in n.db.userRoles <==> e.AssignRole?))
  {
  }

  /**
    A role's permissions change exactly as asked, for roles, live or not, and permissions that are there;
    a soft delete changes just the mark of a role or a user.
   */
  lemma GrantsExactly(db: Db, e: Event)
    requires e.AddRolePermission? || e.RemoveRolePermission?
    requires Valid(db)
    ensures
      var n, pair := Step(db, e), RolePermission(e.role, e.permission);
      && (n.outcome == Done <==> e.RemoveRolePermission? || (e.role in db.roles && e.permission in db.permissions))
      && n.db.(rolePermissions := []) == db.(rolePermissions := [])
      && (pair in n.db.rolePermissions <==> e.AddRolePermission? && n.outcome == Done)
      && forall x :: x != pair ==> (x in n.db.rolePermissions <==> x in db.rolePermissions)
  {
  }

  lemma SoftDeletedExactly(db: Db, e: Event)
    requires e.SoftDeleteRole? || e.SoftDeleteUser?
    ensures
      var n := Step(db, e).db;
      && n.userRoles == db.userRoles && n.rolePermissions == db.rolePermissions && n.permissions == db.permissions
      && n.roles.Keys == db.roles.Keys && n.users.Keys == db.users.Keys
      && (forall r <- db.roles :: n.roles[r] == (db.roles[r] && !(e.SoftDeleteRole? && e.role == r)))
      && (forall u <- db.users :: n.users[u] == (db.users[u] && !(e.SoftDeleteUser? && e.user == u)))
  {
  }

  /** An assignment gives the user just what the role grants; a removal leaves what other roles grant. */
  lemma AssignAndRemoveExact(db: Db, e: Event, v: UserId, p: string)
    requires Valid(db) && (e.AssignRole? || e.RemoveRole?) && Step(db, e).outcome == Done
    ensures
      UserHasPermission(Step(db, e).db, v, p) <==>
        if e.AssignRole?
        then UserHasPermission(db, v, p) || (v == e.user && RolePermission(e.role, p) in db.rolePermissions)
        else
          exists x ::
            x in db.userRoles && x.user == v && !(v == e.user && x.role == e.role) && Holds(db, v, x.role, p)
  {
    var n := Step(db, e).db;
    var changed := UserRole(e.user, e.role);
    assert forall x ::
        x in n.userRoles <==>
          if e.AssignRole? then x in db.userRoles || x == changed else x in db.userRoles && x != changed;
    forall x: UserRole
      ensures x in n.userRoles && x.user == v && Holds(n, v, x.role, p) <==>
        x in n.userRoles && x.user == v && LiveRole(db, x.role) && RolePermission(x.role, p) in db.rolePermissions
    {
      assert x.user == v ==> x == UserRole(v, x.role);
    }
    if e.AssignRole? && v == e.user && RolePermission(e.role, p) in db.rolePermissions {
      assert changed in n.userRoles && Holds(n, v, changed.role, p);
    }
    if UserHasPermission(db, v, p) && e.AssignRole? {
      var x :| x in db.userRoles && x.user == v && Holds(db, v, x.role, p);
      assert x in n.userRoles && Holds(n, v, x.role, p);
    }
  }

  /** Removing a role just held restores the tables. */
  lemma RemoveUndoesAssign(db: Db, u: UserId, role: string)
    requires Valid(db) && UserRole(u, role) !in db.userRoles
    ensures Step(Step(db, AssignRole(u, role)).db, RemoveRole(u, role)).db == db
  {
    ExceptDistinct(db.userRoles, UserRole(u, role));
    ExceptLast(db.userRoles, UserRole(u, role));
  }

  lemma {:induction false} ExceptLast<T(!new)>(s: seq<T>, x: T)
    ensures Except(s + [x], x) == Except(s, x)
  {
    if s != [] {
      assert (s + [x])[1..] == s[1..] + [x];
      ExceptLast(s[1..], x);
    }
  }

  function Run(db: Db, es: seq<Event>): Db
    decreases es
  {
    if es == [] then db else Run(Step(db, es[0]).db, es[1..])
  }

  /** In every reachable state, list, yes-no query and claims agree as above. */
  lemma {:induction false} AlwaysAgree(db: Db, es: seq<Event>, u: UserId, p: string, leq: (string, string) -> bool)
    requires Valid(db) && TotalOrder(leq)
    ensures
      var now := Run(db, es);
      && Valid(now)
      && (p in GetPermissionsForUser(now, u, leq) <==> UserHasPermission(now, u, p))
      && (LiveRole(now, ADMIN) ==> (HasPermission(IssueClaims(now, u, leq), p) <==> CheckPermission(now, u, p)))
    decreases es
  {
    if es == [] {
      PermissionsAgree(db, u, leq);
      ClaimsAgree(db, u, p, leq);
    } else {
      StepValid(db, es[0]);
      AlwaysAgree(Step(db, es[0]).db, es[1..], u, p, leq);
    }
  }

  const SEEDED: Db := Db(map[1 := true], map[ADMIN := true], {"users.read"}, [], [])

  /** A run to a state where claims and database disagree: the role of an administrator is soft-deleted. */
  lemma DeadAdminDisagrees(leq: (string, string) -> bool)
    requires TotalOrder(leq)
    ensures
      var db := Run(SEEDED, [AssignRole(1, ADMIN), SoftDeleteRole(ADMIN)]);
      && Valid(SEEDED)
      && CheckPermission(db, 1, "users.read") && !HasPermission(IssueClaims(db, 1, leq), "users.read")
  {
    var es := [AssignRole(1, ADMIN), SoftDeleteRole(ADMIN)];
    var held := SEEDED.(userRoles := [UserRole(1, ADMIN)]);
    var dead := held.(roles := map[ADMIN := false]);
    assert Step(SEEDED, es[0]).db == held && Step(held, es[1]).db == dead;
    assert es[1..] == [SoftDeleteRole(ADMIN)] && es[1..][1..] == [];
    assert Run(held, es[1..]) == Run(dead, es[1..][1..]) == dead;
    StepValid(SEEDED, es[0]);
    StepValid(held, es[1]);
    assert UserRole(1, ADMIN) in dead.userRoles;
    ClaimsAgree(dead, 1, "users.read", leq);
  }

  class RbacService {
    var db: Db

    constructor (db: Db)
      ensures this.db == db
    {
      this.db := db;
    }

    /** Returns the user's updated roles. */
    method AssignRoleTo(u: UserId, role: string, leq: (string, string) -> bool) returns (o: Outcome, roles: seq<string>)
      modifies this
      ensures o == Step(old(db), AssignRole(u, role)).outcome && db == Step(old(db), AssignRole(u, role)).db
      ensures o == Done ==> roles == ListUserRoles(db, u, leq)
      ensures Valid(old(db)) ==> Valid(db)
      ensures o == Done ==>
        && UserHasRole(db, u, role) && LiveRole(db, role)
        && forall v, r :: (v, r) != (u, role) ==> UserHasRole(db, v, r) == old(UserHasRole(db, v, r))
    {
      if Valid(db) {
        StepValid(db, AssignRole(u, role));
      }
      roles := [];
      if u !in db.users || !db.users[u] {
        return UserMissing, [];
      }
      if role !in db.roles || !db.roles[role] {
        return RoleMissing, [];
      }
      if UserRole(u, role) !in db.userRoles {
        db := db.(userRoles := db.userRoles + [UserRole(u, role)]);
      }
      return Done, ListUserRoles(db, u, leq);
    }

    method RemoveRoleFrom(u: UserId, role: string) returns (o: Outcome)
      modifies this
      ensures o == Step(old(db), RemoveRole(u, role)).outcome && db == Step(old(db), RemoveRole(u, role)).db
      ensures Valid(old(db)) ==> Valid(db)
      ensures o == Done ==>
        && !UserHasRole(db, u, role)
        && forall v, r :: (v, r) != (u, role) ==> UserHasRole(db, v, r) == old(UserHasRole(db, v, r))
    {
      if Valid(db) {
        StepValid(db, RemoveRole(u, role));
      }
      if u !in db.users || !db.users[u] {
        return UserMissing;
      }
      db := db.(userRoles := Except(db.userRoles, UserRole(u, role)));
      return Done;
    }

    /** Answers as fresh claims would, exactly under the condition above. */
    method MayDo(u: UserId, p: string, ghost leq: (string, string) -> bool) returns (allowed: bool)
      ensures allowed == CheckPermission(db, u, p)
      ensures Valid(db) && TotalOrder(leq) ==>
        (allowed == HasPermission(IssueClaims(db, u, leq), p) <==>
          !UserHasRole(db, u, ADMIN) || LiveRole(db, ADMIN) || UserHasPermission(db, u, p))
    {
      if Valid(db) && TotalOrder(leq) {
        ClaimsAgree(db, u, p, leq);
      }
      var isAdmin := UserHasRole(db, u, ADMIN);
      if isAdmin {
        return true;
      }
      allowed := UserHasPermission(db, u, p);
    }
  }
}
