/**
 * The database the portal works on: one row datatype per table of
 * models/models.py and models/models_rbac.py, a `Snapshot` value that the
 * read-only handlers query, and the `Database` object whose tables the
 * write handlers change.
 */
module Store {
  import opened Wrappers
  import opened Query

  type GroupId = string
  type ReportId = string
  type UserId = nat
  type UserGroupId = nat
  /** A calendar date (`datetime.date`), as a day number. */
  type Day = int
  /** A point in time (`datetime`), in seconds. */
  type Instant = int

  /** A navigation group (table `groups`); `parentId` None marks a root. */
  datatype Group = Group(id: GroupId, name: string, parentId: Option<GroupId>, isActive: bool)

  /** A report (table `reports`); `sortOrder` and `isPublic` may be NULL. */
  datatype Report = Report(
    id: ReportId, groupId: GroupId, name: string, sortOrder: Option<int>,
    isActive: bool, isPublic: Option<bool>,
    titleDescription: Option<string>, description: Option<string>, imageUrl: Option<string>)

  datatype UserStatus = Pending | Approved | Blocked

  /** A portal user (table `users`). */
  datatype User = User(
    id: UserId, name: string, cpf: string, email: string, phone: Option<string>,
    validFrom: Option<Day>, validTo: Option<Day>,
    status: UserStatus, isAdmin: bool, passwordHash: string)

  /** A permission bundle (table `user_groups`), distinct from a navigation `Group`. */
  datatype UserGroup = UserGroup(id: UserGroupId, name: string, description: Option<string>)

  /** A row of `user_group_members`. */
  datatype Member = Member(userId: UserId, userGroupId: UserGroupId)

  /** A row of `group_report_permissions`. */
  datatype Grant = Grant(userGroupId: UserGroupId, reportId: ReportId)

  /** A password-reset link record (table `password_resets`). */
  datatype PasswordReset = PasswordReset(
    resetId: string, userId: UserId, tokenHash: string, expiresAt: Instant, usedAt: Option<Instant>)

  /** A six-digit reset-code record, the shape services/reset_password.py writes. */
  datatype ResetCode = ResetCode(userId: UserId, code: string, expiresAt: Instant, used: bool)

  /** The tables the read-only handlers query. */
  datatype Snapshot = Snapshot(
    groups: seq<Group>, reports: seq<Report>, users: seq<User>,
    userGroups: seq<UserGroup>, members: seq<Member>, grants: seq<Grant>)

  /** An HTTP error raised by a handler (`HTTPException(status, detail)`). */
  datatype HttpError = HttpError(status: int, detail: string)

  predicate UniqueGroupIds(groups: seq<Group>) {
    KeyUnique(groups, (g: Group) => g.id)
  }

  lemma UniqueGroupIdsNoDup(groups: seq<Group>)
    requires UniqueGroupIds(groups)
    ensures NoDup(groups)
  {
  }

  /** Appending a row whose id is new keeps the ids unique. */
  lemma UniqueGroupIdsSnoc(groups: seq<Group>, g: Group)
    requires UniqueGroupIds(groups)
    requires forall h :: h in groups ==> h.id != g.id
    ensures UniqueGroupIds(groups + [g])
  {
    var s := groups + [g];
    forall i, j | 0 <= i < j < |s| ensures s[i].id != s[j].id {
      if j == |groups| { assert s[i] in groups; }
    }
  }

  predicate UniqueReportIds(reports: seq<Report>) {
    KeyUnique(reports, (r: Report) => r.id)
  }

  predicate UniqueUserIds(users: seq<User>) {
    KeyUnique(users, (u: User) => u.id)
  }

  predicate UniqueEmails(users: seq<User>) {
    KeyUnique(users, (u: User) => u.email)
  }

  predicate UniqueCpfs(users: seq<User>) {
    KeyUnique(users, (u: User) => u.cpf)
  }

  predicate UniqueUserGroupIds(userGroups: seq<UserGroup>) {
    KeyUnique(userGroups, (g: UserGroup) => g.id)
  }

  predicate UniqueUserGroupNames(userGroups: seq<UserGroup>) {
    KeyUnique(userGroups, (g: UserGroup) => g.name)
  }

  predicate UniqueResetIds(resets: seq<PasswordReset>) {
    KeyUnique(resets, (p: PasswordReset) => p.resetId)
  }

  /** `db.query(Group).filter(Group.id == id).first()`. */
  function GroupById(groups: seq<Group>, id: GroupId): (r: Option<Group>)
    ensures r.Some? ==> r.value in groups && r.value.id == id
    ensures r.None? <==> forall g :: g in groups ==> g.id != id
  {
    First(groups, (g: Group) => g.id == id)
  }

  /** `u.status = ...` on the row(s) with id `id`; every other row and column unchanged. */
  function SetStatus(users: seq<User>, id: UserId, status: UserStatus): (r: seq<User>)
    ensures |r| == |users|
    ensures forall i :: 0 <= i < |users| ==> r[i] == if users[i].id == id then users[i].(status := status) else users[i]
  {
    seq(|users|, i requires 0 <= i < |users| => if users[i].id == id then users[i].(status := status) else users[i])
  }

  /** A row with a fresh id, email and CPF keeps every key of the table unique. */
  lemma AppendFreshUser(users: seq<User>, row: User, nextUserId: nat)
    requires UniqueUserIds(users) && UniqueEmails(users) && UniqueCpfs(users)
    requires forall x :: x in users ==> x.id < row.id && x.email != row.email && x.cpf != row.cpf
    requires row.id < nextUserId
    ensures var s := users + [row];
      UniqueUserIds(s) && UniqueEmails(s) && UniqueCpfs(s) && forall x :: x in s ==> x.id < nextUserId
  {
    var s := users + [row];
    forall i, j | 0 <= i < j < |s|
      ensures s[i].id != s[j].id && s[i].email != s[j].email && s[i].cpf != s[j].cpf
    {
      if j == |users| { assert s[i] in users; }
    }
  }

  /** A user group with a fresh id and name keeps both keys of the table unique. */
  lemma AppendFreshUserGroup(userGroups: seq<UserGroup>, g: UserGroup, nextUserGroupId: nat)
    requires UniqueUserGroupIds(userGroups) && UniqueUserGroupNames(userGroups)
    requires forall x :: x in userGroups ==> x.id < g.id && x.name != g.name
    requires g.id < nextUserGroupId
    ensures var s := userGroups + [g];
      UniqueUserGroupIds(s) && UniqueUserGroupNames(s) && forall x :: x in s ==> x.id < nextUserGroupId
  {
    var s := userGroups + [g];
    forall i, j | 0 <= i < j < |s| ensures s[i].id != s[j].id && s[i].name != s[j].name {
      if j == |userGroups| { assert s[i] in userGroups; }
    }
  }

  /** Changing a status keeps every key and the id sequence ahead of them. */
  lemma SetStatusKeepsKeys(users: seq<User>, id: UserId, status: UserStatus, nextUserId: nat)
    requires UniqueUserIds(users) && UniqueEmails(users) && UniqueCpfs(users)
    requires forall u :: u in users ==> u.id < nextUserId
    ensures var r := SetStatus(users, id, status);
      UniqueUserIds(r) && UniqueEmails(r) && UniqueCpfs(r) && forall u :: u in r ==> u.id < nextUserId
  {
    var r := SetStatus(users, id, status);
    forall u | u in r ensures u.id < nextUserId {
      var i :| 0 <= i < |r| && r[i] == u;
      assert users[i] in users;
    }
  }

  /** Approving twice is approving once. */
  lemma SetStatusIdempotent(users: seq<User>, id: UserId, status: UserStatus)
    ensures SetStatus(SetStatus(users, id, status), id, status) == SetStatus(users, id, status)
  {
  }

  /** `db.query(User).get(id)`. */
  function UserById(users: seq<User>, id: UserId): (r: Option<User>)
    ensures r.Some? ==> r.value in users && r.value.id == id
    ensures r.None? <==> forall u :: u in users ==> u.id != id
  {
    First(users, (u: User) => u.id == id)
  }

  /** `db.query(User).filter(User.email == email).first()`. */
  function UserByEmail(users: seq<User>, email: string): (r: Option<User>)
    ensures r.Some? ==> r.value in users && r.value.email == email
    ensures r.None? <==> forall u :: u in users ==> u.email != email
  {
    First(users, (u: User) => u.email == email)
  }

  /** `db.query(UserGroup).get(id)`. */
  function UserGroupById(userGroups: seq<UserGroup>, id: UserGroupId): (r: Option<UserGroup>)
    ensures r.Some? ==> r.value in userGroups && r.value.id == id
    ensures r.None? <==> forall g :: g in userGroups ==> g.id != id
  {
    First(userGroups, (g: UserGroup) => g.id == id)
  }

  /**
   * The database session: its tables, and the id sequences the database
   * draws autoincrement keys from.
   */
  class Database {
    var groups: seq<Group>
    var reports: seq<Report>
    var users: seq<User>
    var userGroups: seq<UserGroup>
    var members: seq<Member>
    var grants: seq<Grant>
    var passwordResets: seq<PasswordReset>
    var resetCodes: seq<ResetCode>
    var nextUserId: nat
    var nextUserGroupId: nat

    /** The table constraints the schema declares, and the id sequences being ahead of every key. */
    ghost predicate Valid()
      reads this`groups, this`reports, this`users, this`userGroups, this`members, this`grants
      reads this`passwordResets, this`nextUserId, this`nextUserGroupId
    {
      && UniqueGroupIds(groups)
      && UniqueReportIds(reports)
      && UsersValid()
      && UserGroupsValid()
      && NoDup(members)
      && NoDup(grants)
      && UniqueResetIds(passwordResets)
    }

    /** The keys of `users` are unique, and the id sequence is ahead of every id. */
    ghost predicate UsersValid()
      reads this`users, this`nextUserId
    {
      && UniqueUserIds(users)
      && UniqueEmails(users)
      && UniqueCpfs(users)
      && (forall u :: u in users ==> u.id < nextUserId)
    }

    /** The keys of `user_groups` are unique, and the id sequence is ahead of every id. */
    ghost predicate UserGroupsValid()
      reads this`userGroups, this`nextUserGroupId
    {
      && UniqueUserGroupIds(userGroups)
      && UniqueUserGroupNames(userGroups)
      && (forall g :: g in userGroups ==> g.id < nextUserGroupId)
    }

    /** `db.add(g)` and `commit()` for a group whose id is not in use. */
    method AddGroup(g: Group)
      requires Valid()
      requires forall h :: h in groups ==> h.id != g.id
      modifies this`groups
      ensures Valid()
      ensures groups == old(groups) + [g]
    {
      UniqueGroupIdsSnoc(groups, g);
      groups := groups + [g];
    }

    /** `db.add(m)` and `commit()` for a membership pair not yet present. */
    method InsertMember(m: Member)
      requires Valid() && m !in members
      modifies this`members
      ensures Valid()
      ensures members == old(members) + [m]
    {
      NoDupSnoc(members, m);
      members := members + [m];
    }

    /** `db.add(p)` and `commit()` for a report grant not yet present. */
    method InsertGrant(p: Grant)
      requires Valid() && p !in grants
      modifies this`grants
      ensures Valid()
      ensures grants == old(grants) + [p]
    {
      NoDupSnoc(grants, p);
      grants := grants + [p];
    }

    /** An `UPDATE users SET status = ...` on one id; the keys are untouched. */
    method SetUserStatus(id: UserId, status: UserStatus)
      requires Valid()
      modifies this`users
      ensures Valid()
      ensures users == SetStatus(old(users), id, status)
    {
      SetStatusKeepsKeys(users, id, status, nextUserId);
      users := SetStatus(users, id, status);
    }

    /** `db.add(row)` and `commit()` for a user with the next id and a fresh e-mail and CPF. */
    method AddUser(row: User)
      requires Valid() && row.id == nextUserId
      requires forall x :: x in users ==> x.email != row.email && x.cpf != row.cpf
      modifies this`users, this`nextUserId
      ensures Valid()
      ensures users == old(users) + [row] && nextUserId == old(nextUserId) + 1
    {
      AppendFreshUser(users, row, nextUserId + 1);
      users := users + [row];
      nextUserId := nextUserId + 1;
    }

    /** `db.add(g)` and `commit()` for a user group with the next id and a name not in use. */
    method AddUserGroup(g: UserGroup)
      requires Valid() && g.id == nextUserGroupId
      requires forall h :: h in userGroups ==> h.name != g.name
      modifies this`userGroups, this`nextUserGroupId
      ensures Valid()
      ensures userGroups == old(userGroups) + [g] && nextUserGroupId == old(nextUserGroupId) + 1
    {
      AppendFreshUserGroup(userGroups, g, nextUserGroupId + 1);
      userGroups := userGroups + [g];
      nextUserGroupId := nextUserGroupId + 1;
    }

    /** The codes table carries no key constraint, so replacing it keeps the store valid. */
    method ReplaceResetCodes(codes: seq<ResetCode>)
      requires Valid()
      modifies this`resetCodes
      ensures Valid()
      ensures resetCodes == codes
    {
      resetCodes := codes;
    }

    function Snap(): Snapshot
      reads this
    {
      Snapshot(groups, reports, users, userGroups, members, grants)
    }

    constructor ()
      ensures Valid()
      ensures groups == [] && reports == [] && users == [] && userGroups == []
      ensures members == [] && grants == [] && passwordResets == [] && resetCodes == []
    {
      groups, reports, users, userGroups := [], [], [], [];
      members, grants, passwordResets, resetCodes := [], [], [], [];
      nextUserId, nextUserGroupId := 1, 1;
    }
  }
}
