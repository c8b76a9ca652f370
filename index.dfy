/** routers/index.py: the home page's list of reports. */
module Index {
  import opened Wrappers
  import opened Query
  import opened Store
  import opened Access

  /**
   * `home`: the active reports the requester may see, ordered by sort order
   * (present first, ascending) and then by name.
   */
  function Home(db: Snapshot, user: Viewer): (rows: seq<Report>)
    ensures Sorted(ReportLe, rows)
    ensures multiset(rows) == multiset(AdmittedReports(db, user))
    ensures forall r :: r in rows <==> r in db.reports && Admits(db, user, r)
  {
    var q := Filter(db.reports, (r: Report) => r.isActive);
    var rows := ListReportsFor(db, user, q);
    FilterFilter(db.reports, (r: Report) => r.isActive, (r: Report) => Admits(db, user, r),
      (r: Report) => Admits(db, user, r));
    ListedIffAdmitted(db, user, q);
    rows
  }

  /** The anonymous list is within any user's list, which is within an administrator's. */
  lemma HomeNestsByRole(db: Snapshot, u: User, a: User)
    requires a.isAdmin
    ensures multiset(Home(db, None)) <= multiset(Home(db, Some(u)))
    ensures multiset(Home(db, Some(u))) <= multiset(Home(db, Some(a)))
  {
    FilterMono(db.reports, (r: Report) => Admits(db, None, r), (r: Report) => Admits(db, Some(u), r));
    FilterMono(db.reports, (r: Report) => Admits(db, Some(u), r), (r: Report) => Admits(db, Some(a), r));
  }
}
