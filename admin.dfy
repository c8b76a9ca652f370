/** routers/admin.py: the administrator gate and the permission writes. */
module Admin {
  import opened Wrappers
  import opened Query
  import opened Store
  import opened Access

  /** `require_admin`: 403 unless a current user exists and is an administrator. */
  function RequireAdmin(current: Viewer): (r: Result<User, HttpError>)
    ensures r.Ok? <==> IsAdmin(current)
    ensures r.Ok? ==> r.value == current.value
    ensures r.Err? ==> r.error == HttpError(403, "Admin only")
  {
    if current.None? || !current.value.isAdmin then Err(HttpError(403, "Admin only"))
    else Ok(current.value)
  }

  /**
   * `approve_user`: 403 for a non-administrator, 404 for an unknown id, and
   * otherwise the user's row with status approved, nothing else changed.
   */
  method ApproveUser(db: Database, current: Viewer, userId: UserId) returns (r: Result<User, HttpError>)
    requires db.Valid()
    modifies db`users
    ensures db.Valid()
    ensures !IsAdmin(current) ==> r == Err(HttpError(403, "Admin only")) && db.users == old(db.users)
    ensures IsAdmin(current) && UserById(old(db.users), userId).None? ==>
      r == Err(HttpError(404, "User not found")) && db.users == old(db.users)
    ensures IsAdmin(current) && UserById(old(db.users), userId).Some? ==>
      && r == Ok(UserById(old(db.users), userId).value.(status := Approved))
      && db.users == SetStatus(old(db.users), userId, Approved)
  {
    var gate := RequireAdmin(current);
    if gate.Err? {
      return Err(gate.error);
    }
    var u := UserById(db.users, userId);
    if u.None? {
      return Err(HttpError(404, "User not found"));
    }
    db.SetUserStatus(userId, Approved);
    r := Ok(u.value.(status := Approved));
  }

  /** A pair table's insert guarded by `filter_by(...).first()`: add `x` only when absent. */
  function InsertIfAbsent<T(==,!new)>(s: seq<T>, x: T): (r: seq<T>)
    ensures forall y :: y in r <==> y in s || y == x
    ensures x in s ==> r == s
    ensures x !in s ==> r == s + [x]
  {
    if x in s then s else s + [x]
  }

  /** The guarded insert never duplicates a pair. */
  lemma InsertIfAbsentNoDup<T(!new)>(s: seq<T>, x: T)
    requires NoDup(s)
    ensures NoDup(InsertIfAbsent(s, x))
  {
    if x !in s {
      var r := s + [x];
      forall i, j | 0 <= i < j < |r| ensures r[i] != r[j] {
        if j == |s| { assert r[i] in s; }
      }
    }
  }

  /** Inserting the same pair again changes nothing. */
  lemma InsertIfAbsentIdempotent<T(!new)>(s: seq<T>, x: T)
    ensures InsertIfAbsent(InsertIfAbsent(s, x), x) == InsertIfAbsent(s, x)
  {
  }

  /**
   * `add_member`, decided: 403 for a non-administrator, then 404 for an
   * unknown user group, then 404 for an unknown user, and otherwise the pair
   * to insert.
   */
  function AddMemberDecision(db: Snapshot, current: Viewer, groupId: UserGroupId, userId: UserId)
    : (r: Result<Member, HttpError>)
    ensures !IsAdmin(current) ==> r == Err(HttpError(403, "Admin only"))
    ensures IsAdmin(current) && UserGroupById(db.userGroups, groupId).None? ==>
      r == Err(HttpError(404, "Group not found"))
    ensures (&& IsAdmin(current) && UserGroupById(db.userGroups, groupId).Some?
             && UserById(db.users, userId).None?)
      ==> r == Err(HttpError(404, "User not found"))
    ensures r.Ok? <==> (&& IsAdmin(current) && (exists g :: g in db.userGroups && g.id == groupId)
                        && (exists u :: u in db.users && u.id == userId))
    ensures r.Ok? ==> r.value == Member(userId, groupId)
  {
    match RequireAdmin(current)
    case Err(e) => Err(e)
    case Ok(_) =>
      if UserGroupById(db.userGroups, groupId).None? then Err(HttpError(404, "Group not found"))
      else if UserById(db.users, userId).None? then Err(HttpError(404, "User not found"))
      else Ok(Member(userId, groupId))
  }

  /** The endpoint `add_member`: `{"ok": True}` whether the pair was new or not. */
  method AddMember(db: Database, current: Viewer, groupId: UserGroupId, userId: UserId)
    returns (r: Result<bool, HttpError>)
    requires db.Valid()
    modifies db`members
    ensures db.Valid()
    ensures match AddMemberDecision(old(db.Snap()), current, groupId, userId)
      case Err(e) => r == Err(e) && db.members == old(db.members)
      case Ok(m) => r == Ok(true) && db.members == InsertIfAbsent(old(db.members), m)
  {
    match AddMemberDecision(db.Snap(), current, groupId, userId)
    case Err(e) => r := Err(e);
    case Ok(m) =>
      var exists_ := m in db.members;
      if exists_ {
        return Ok(true);
      }
      db.InsertMember(m);
      r := Ok(true);
  }

  /**
   * `grant_report`, decided: 403 for a non-administrator, 404 for an unknown
   * user group; an existing pair is accepted as it is; a new pair naming a
   * report that does not exist breaks the foreign key on `report_id` at
   * commit, which nothing handles, so it surfaces as a server error;
   * otherwise the pair to insert.
   */
  function GrantReportDecision(db: Snapshot, current: Viewer, groupId: UserGroupId, reportId: ReportId)
    : (r: Result<Grant, HttpError>)
    ensures !IsAdmin(current) ==> r == Err(HttpError(403, "Admin only"))
    ensures IsAdmin(current) && UserGroupById(db.userGroups, groupId).None? ==>
      r == Err(HttpError(404, "Group not found"))
    ensures && IsAdmin(current) && UserGroupById(db.userGroups, groupId).Some?
            && Grant(groupId, reportId) !in db.grants && (forall rep :: rep in db.reports ==> rep.id != reportId)
            ==> r == Err(HttpError(500, "Internal Server Error"))
    ensures r.Ok? <==> && IsAdmin(current) && (exists g :: g in db.userGroups && g.id == groupId)
                       && (Grant(groupId, reportId) in db.grants || exists rep :: rep in db.reports && rep.id == reportId)
    ensures r.Ok? ==> r.value == Grant(groupId, reportId)
  {
    match RequireAdmin(current)
    case Err(e) => Err(e)
    case Ok(_) =>
      if UserGroupById(db.userGroups, groupId).None? then Err(HttpError(404, "Group not found"))
      else if Grant(groupId, reportId) !in db.grants
              && First(db.reports, (rep: Report) => rep.id == reportId).None? then
        Err(HttpError(500, "Internal Server Error"))
      else Ok(Grant(groupId, reportId))
  }

  /** The endpoint `grant_report`: `{"ok": True}` whether the pair was new or not. */
  method GrantReport(db: Database, current: Viewer, groupId: UserGroupId, reportId: ReportId)
    returns (r: Result<bool, HttpError>)
    requires db.Valid()
    modifies db`grants
    ensures db.Valid()
    ensures match GrantReportDecision(old(db.Snap()), current, groupId, reportId)
      case Err(e) => r == Err(e) && db.grants == old(db.grants)
      case Ok(p) => r == Ok(true) && db.grants == InsertIfAbsent(old(db.grants), p)
  {
    match GrantReportDecision(db.Snap(), current, groupId, reportId)
    case Err(e) => r := Err(e);
    case Ok(p) =>
      if p in db.grants {
        return Ok(true);
      }
      db.InsertGrant(p);
      r := Ok(true);
  }

  /**
   * `create_group`: 403 for a non-administrator; otherwise a new user group
   * with the next autoincrement id, unless the UNIQUE constraint on the name
   * makes the commit fail, which surfaces as a server error.
   */
  method CreateGroup(db: Database, current: Viewer, name: string, description: Option<string>)
    returns (r: Result<UserGroup, HttpError>)
    requires db.Valid()
    modifies db`userGroups, db`nextUserGroupId
    ensures db.Valid()
    ensures !IsAdmin(current) ==> r == Err(HttpError(403, "Admin only"))
    ensures IsAdmin(current) && (exists g :: g in old(db.userGroups) && g.name == name) ==>
      r == Err(HttpError(500, "Internal Server Error"))
    ensures r.Err? ==> db.userGroups == old(db.userGroups) && db.nextUserGroupId == old(db.nextUserGroupId)
    ensures r.Ok? <==> IsAdmin(current) && forall g :: g in old(db.userGroups) ==> g.name != name
    ensures r.Ok? ==> && r.value == UserGroup(old(db.nextUserGroupId), name, description)
                      && db.userGroups == old(db.userGroups) + [r.value]
                      && db.nextUserGroupId == old(db.nextUserGroupId) + 1
  {
    var gate := RequireAdmin(current);
    if gate.Err? {
      return Err(gate.error);
    }
    if First(db.userGroups, (g: UserGroup) => g.name == name).Some? {
      return Err(HttpError(500, "Internal Server Error"));
    }
    var g := UserGroup(db.nextUserGroupId, name, description);
    db.AddUserGroup(g);
    r := Ok(g);
  }
}
