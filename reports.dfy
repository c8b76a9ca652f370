/** routers/reports.py: the single-report page's access decision. */
module Reports {
  import opened Wrappers
  import opened Query
  import opened Store
  import opened Access

  /**
   * `report_view`: the active report with the requested id, if the
   * requester may see it. An administrator gets 404 when there is no such
   * active report; anyone else gets 403, whether the report is missing,
   * inactive or withheld.
   */
  function ReportView(db: Snapshot, reportId: ReportId, user: Viewer): (res: Result<Report, HttpError>)
    ensures res.Ok? ==> res.value in db.reports && res.value.id == reportId && Admits(db, user, res.value)
    ensures res.Ok? <==> exists r :: r in db.reports && r.id == reportId && Admits(db, user, r)
    ensures res.Err? && IsAdmin(user) ==> res.error == HttpError(404, "Report not found")
    ensures res.Err? && !IsAdmin(user) ==>
      res.error == HttpError(403, "You don't have permission to view this report")
  {
    var q := Filter(db.reports, (r: Report) => r.id == reportId && r.isActive);
    if IsAdmin(user) then
      match First(q, (r: Report) => true)
      case None => Err(HttpError(404, "Report not found"))
      case Some(rep) => Ok(rep)
    else if user.Some? then
      var allowed := GrantedReportIds(db, user.value.id);
      match First(q, (r: Report) => IsPublic(r) || r.id in allowed)
      case None => Err(HttpError(403, "You don't have permission to view this report"))
      case Some(rep) => Ok(rep)
    else
      match First(q, IsPublic)
      case None => Err(HttpError(403, "You don't have permission to view this report"))
      case Some(rep) => Ok(rep)
  }

  /** With report ids unique, a granted page shows exactly the report with that id. */
  lemma ReportViewIsTheReport(db: Snapshot, reportId: ReportId, user: Viewer, r: Report)
    requires UniqueReportIds(db.reports)
    requires r in db.reports && r.id == reportId
    ensures ReportView(db, reportId, user).Ok? ==> ReportView(db, reportId, user).value == r
  {
  }
}
