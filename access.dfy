/**
 * The report access rule that the home page, the report page, the group
 * page, the reports-by-group endpoint and the subtree visibility query all
 * apply, and the ordering they all share.
 */
module Access {
  import opened Wrappers
  import opened Text
  import opened Query
  import opened Store

  /** The requester as `get_current_user_optional` resolves it: None for anonymous. */
  type Viewer = Option<User>

  /** `user and getattr(user, "is_admin", False)`. */
  predicate IsAdmin(v: Viewer) {
    v.Some? && v.value.isAdmin
  }

  /** `Report.is_public == True`; a NULL column is not public. */
  predicate IsPublic(r: Report) {
    r.isPublic == Some(true)
  }

  /**
   * The `allowed_subq` join: report ids granted to some user group that the
   * user belongs to.
   */
  function GrantedReportIds(db: Snapshot, uid: UserId): (ids: set<ReportId>)
    ensures forall rid :: rid in ids <==>
      exists ug :: Member(uid, ug) in db.members && Grant(ug, rid) in db.grants
  {
    set g, m | g in db.grants && m in db.members && m.userId == uid && m.userGroupId == g.userGroupId
      :: g.reportId
  }

  /**
   * The rule itself: an inactive report is never shown; an administrator
   * sees every active report; a signed-in user sees the public ones and those
   * granted through a membership; an anonymous visitor sees the public ones.
   */
  predicate Admits(db: Snapshot, v: Viewer, r: Report) {
    r.isActive && (IsAdmin(v) || IsPublic(r) || (v.Some? && r.id in GrantedReportIds(db, v.value.id)))
  }

  /** The reports of the table the rule admits, in table order. */
  function AdmittedReports(db: Snapshot, v: Viewer): (rows: seq<Report>)
    ensures forall r :: r in rows <==> r in db.reports && Admits(db, v, r)
  {
    Filter(db.reports, (r: Report) => Admits(db, v, r))
  }

  /** Each role sees at least what the role below it sees. */
  lemma AdmitsGrowsWithRole(db: Snapshot, u: User, a: User, r: Report)
    requires a.isAdmin
    ensures Admits(db, None, r) ==> Admits(db, Some(u), r)
    ensures Admits(db, Some(u), r) ==> Admits(db, Some(a), r)
  {
  }

  /**
   * `ORDER BY sort_order IS NULL, sort_order ASC, name ASC`: reports with a
   * sort order first, by ascending sort order, then by name.
   */
  predicate ReportLe(a: Report, b: Report) {
    if a.sortOrder.Some? && b.sortOrder.Some? then
      a.sortOrder.value < b.sortOrder.value
      || (a.sortOrder.value == b.sortOrder.value && LexLe(a.name, b.name))
    else if a.sortOrder.Some? then true
    else if b.sortOrder.Some? then false
    else LexLe(a.name, b.name)
  }

  lemma ReportLeIsTotalPreorder()
    ensures TotalPreorder(ReportLe)
  {
    forall a: Report, b: Report ensures ReportLe(a, b) || ReportLe(b, a) {
      LexLeTotal(a.name, b.name);
    }
    forall a: Report, b: Report, c: Report | ReportLe(a, b) && ReportLe(b, c)
      ensures ReportLe(a, c)
    {
      if LexLe(a.name, b.name) && LexLe(b.name, c.name) {
        LexLeTransitive(a.name, b.name, c.name);
      }
    }
  }

  /** What `Sorted(ReportLe, rows)` promises, spelled out pairwise. */
  lemma {:induction false} ReportOrderSpelledOut(rows: seq<Report>, i: nat, j: nat)
    requires Sorted(ReportLe, rows) && i < j < |rows|
    ensures rows[j].sortOrder.Some? ==> rows[i].sortOrder.Some?
    ensures rows[i].sortOrder.Some? && rows[j].sortOrder.Some? ==>
      rows[i].sortOrder.value <= rows[j].sortOrder.value
    ensures rows[i].sortOrder == rows[j].sortOrder ==> LexLe(rows[i].name, rows[j].name)
  {
    assert ReportLe(rows[i], rows[j]);
  }

  function SortReports(rows: seq<Report>): (r: seq<Report>)
    ensures Sorted(ReportLe, r) && multiset(r) == multiset(rows)
    ensures forall x :: x in r <==> x in rows
  {
    ReportLeIsTotalPreorder();
    SortBy(ReportLe, rows)
  }

  /** `ORDER BY name ASC` on groups. */
  predicate GroupNameLe(a: Group, b: Group) {
    LexLe(a.name, b.name)
  }

  function SortGroupsByName(rows: seq<Group>): (r: seq<Group>)
    ensures Sorted(GroupNameLe, r) && multiset(r) == multiset(rows)
    ensures forall x :: x in r <==> x in rows
    ensures NoDup(rows) ==> NoDup(r)
  {
    assert TotalPreorder(GroupNameLe) by {
      forall a: Group, b: Group ensures GroupNameLe(a, b) || GroupNameLe(b, a) {
        LexLeTotal(a.name, b.name);
      }
      forall a: Group, b: Group, c: Group | GroupNameLe(a, b) && GroupNameLe(b, c)
        ensures GroupNameLe(a, c)
      {
        LexLeTransitive(a.name, b.name, c.name);
      }
    }
    SortBy(GroupNameLe, rows)
  }

  /** The rule-admitted, ordered listing over `rows`, as the five handlers filter it. */
  function ListReportsFor(db: Snapshot, v: Viewer, q: seq<Report>): (rows: seq<Report>)
    requires forall r :: r in q ==> r.isActive
    ensures Sorted(ReportLe, rows)
    ensures multiset(rows) == multiset(Filter(q, (r: Report) => Admits(db, v, r)))
  {
    if IsAdmin(v) then
      FilterExt(q, (r: Report) => true, (r: Report) => Admits(db, v, r));
      FilterAll(q);
      SortReports(q)
    else if v.Some? then
      var allowed := GrantedReportIds(db, v.value.id);
      FilterExt(q, (r: Report) => IsPublic(r) || r.id in allowed, (r: Report) => Admits(db, v, r));
      SortReports(Filter(q, (r: Report) => IsPublic(r) || r.id in allowed))
    else
      FilterExt(q, IsPublic, (r: Report) => Admits(db, v, r));
      SortReports(Filter(q, IsPublic))
  }

  /** A report is listed exactly when it is one of the rows and the rule admits it. */
  lemma ListedIffAdmitted(db: Snapshot, v: Viewer, q: seq<Report>)
    requires forall r :: r in q ==> r.isActive
    ensures forall x :: x in ListReportsFor(db, v, q) <==> x in q && Admits(db, v, x)
  {
    var rows := ListReportsFor(db, v, q);
    var admitted := Filter(q, (r: Report) => Admits(db, v, r));
    forall x ensures x in rows <==> x in q && Admits(db, v, x) {
      calc {
        x in rows;
        x in multiset(rows);
        x in multiset(admitted);
        x in admitted;
      }
    }
  }
}
