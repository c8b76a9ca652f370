/** routers/userRegistrationGroup.py: the administrator's user-group registration page. */
module UserRegistrationGroup {
  import opened Wrappers
  import opened Text
  import opened Query
  import opened Store
  import opened Access
  import Admin
  import Index

  datatype RegistrationPage = RegistrationPage(user: User, groups: seq<UserGroup>, reportsPrivate: seq<Report>)

  /** `ORDER BY UserGroup.name ASC`. */
  predicate UserGroupNameLe(a: UserGroup, b: UserGroup) {
    LexLe(a.name, b.name)
  }

  lemma UserGroupNameLeIsTotalPreorder()
    ensures TotalPreorder(UserGroupNameLe)
  {
    forall a: UserGroup, b: UserGroup ensures UserGroupNameLe(a, b) || UserGroupNameLe(b, a) {
      LexLeTotal(a.name, b.name);
    }
    forall a: UserGroup, b: UserGroup, c: UserGroup | UserGroupNameLe(a, b) && UserGroupNameLe(b, c)
      ensures UserGroupNameLe(a, c)
    {
      LexLeTransitive(a.name, b.name, c.name);
    }
  }

  function SortUserGroupsByName(rows: seq<UserGroup>): (r: seq<UserGroup>)
    ensures Sorted(UserGroupNameLe, r) && multiset(r) == multiset(rows)
  {
    UserGroupNameLeIsTotalPreorder();
    SortBy(UserGroupNameLe, rows)
  }

  /** The private reports: active, with `is_public` false or NULL. */
  predicate IsPrivateRow(r: Report) {
    r.isActive && (r.isPublic == Some(false) || r.isPublic.None?)
  }

  lemma PrivateIsNotPublic()
    ensures forall r: Report :: IsPrivateRow(r) <==> r.isActive && !IsPublic(r)
  {
    forall r: Report ensures IsPrivateRow(r) <==> r.isActive && !IsPublic(r) {
      match r.isPublic
      case None =>
      case Some(b) =>
    }
  }

  /**
   * `user_registration_group`: behind the administrator gate, every user
   * group ordered by name (no active filter), and the private reports in
   * report order.
   */
  function UserRegistrationGroup(db: Snapshot, current: Viewer): (res: Result<RegistrationPage, HttpError>)
    ensures res.Err? <==> !IsAdmin(current)
    ensures res.Err? ==> res.error.status == 403
    ensures res.Ok? ==> res.value.user == current.value
    ensures res.Ok? ==> Sorted(UserGroupNameLe, res.value.groups)
    ensures res.Ok? ==> multiset(res.value.groups) == multiset(db.userGroups)
    ensures res.Ok? ==> Sorted(ReportLe, res.value.reportsPrivate)
    ensures res.Ok? ==> forall r :: r in res.value.reportsPrivate <==>
      r in db.reports && r.isActive && !IsPublic(r)
  {
    match Admin.RequireAdmin(current)
    case Err(e) => Err(e)
    case Ok(user) =>
      var groups := SortUserGroupsByName(db.userGroups);
      var privateRows := SortReports(Filter(db.reports, IsPrivateRow));
      PrivateIsNotPublic();
      Ok(RegistrationPage(user, groups, privateRows))
  }

  /**
   * The private list and the anonymous home list split the active reports:
   * each active report is in exactly one of them.
   */
  lemma PrivateAndPublicPartitionActive(db: Snapshot, admin: User, r: Report)
    requires admin.isAdmin
    requires r in db.reports && r.isActive
    ensures var page := UserRegistrationGroup(db, Some(admin)).value;
      (r in page.reportsPrivate) != (r in Index.Home(db, None))
  {
  }
}
