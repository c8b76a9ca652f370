/**
 * core/visibility.py: which direct children of a group a requester is
 * shown, namely those whose active subtree holds a report the requester may
 * see.
 */
module Visibility {
  import opened Wrappers
  import opened Query
  import opened Store
  import opened Access
  import opened Forest

  /**
   * `allowed_reports_q`: the ids of the active reports that are public or,
   * for a signed-in user, granted through a membership.
   */
  function AllowedReportIds(db: Snapshot, v: Viewer): (ids: set<ReportId>)
    ensures v.None? ==> forall rid :: rid in ids <==>
      exists r :: r in db.reports && r.id == rid && r.isActive && IsPublic(r)
    ensures !IsAdmin(v) ==> forall rid :: rid in ids <==>
      exists r :: r in db.reports && r.id == rid && Admits(db, v, r)
  {
    if v.None? then
      set r | r in db.reports && r.isActive && IsPublic(r) :: r.id
    else
      var granted := GrantedReportIds(db, v.value.id);
      set r | r in db.reports && r.isActive && (IsPublic(r) || r.id in granted) :: r.id
  }

  /** `groups_with_allowed_reports`: the groups owning an active report with an allowed id. */
  function GroupsWithAllowedReports(db: Snapshot, allowed: set<ReportId>): (ids: set<GroupId>)
    ensures forall gid :: gid in ids <==>
      exists r :: r in db.reports && r.isActive && r.id in allowed && r.groupId == gid
  {
    set r | r in db.reports && r.isActive && r.id in allowed :: r.groupId
  }

  /**
   * `root_child_ids`: the active direct children of `parentId` whose subtree
   * (the recursive `subtree` CTE, the child included) meets `holders`.
   */
  ghost function RootChildIds(db: Snapshot, parentId: GroupId, holders: set<GroupId>): (ids: set<GroupId>)
    ensures forall id :: id in ids <==>
      exists c :: c in db.groups && c.isActive && c.parentId == Some(parentId) && c.id == id
        && Descendants(db.groups, c.id) * holders != {}
  {
    set c | c in db.groups && c.isActive && c.parentId == Some(parentId)
      && Descendants(db.groups, c.id) * holders != {} :: c.id
  }

  /**
   * `get_visible_children_groups`: every active direct child for an
   * administrator; otherwise only the children whose subtree holds an
   * allowed report, or nothing when none does; ordered by name.
   */
  ghost function VisibleChildrenGroups(db: Snapshot, parentId: GroupId, user: Viewer): (rows: seq<Group>)
    ensures Sorted(GroupNameLe, rows)
    ensures IsAdmin(user) ==> forall g :: g in rows <==>
      g in db.groups && g.isActive && g.parentId == Some(parentId)
    ensures !IsAdmin(user) ==> forall g :: g in rows <==>
      g in db.groups && g.id in RootChildIds(db, parentId, GroupsWithAllowedReports(db, AllowedReportIds(db, user)))
    ensures !IsAdmin(user) && RootChildIds(db, parentId, GroupsWithAllowedReports(db, AllowedReportIds(db, user))) == {}
      ==> rows == []
  {
    if IsAdmin(user) then
      SortGroupsByName(ActiveChildren(db.groups, parentId))
    else
      GroupsNamedBy(db.groups, RootChildIds(db, parentId, GroupsWithAllowedReports(db, AllowedReportIds(db, user))))
  }

  /**
   * The final query for a non-administrator: nothing for an empty id set,
   * else the groups with those ids, by name.
   */
  function GroupsNamedBy(groups: seq<Group>, ids: set<GroupId>): (rows: seq<Group>)
    ensures Sorted(GroupNameLe, rows)
    ensures forall g :: g in rows <==> g in groups && g.id in ids
    ensures ids == {} ==> rows == []
  {
    if ids == {} then []
    else SortGroupsByName(Filter(groups, (g: Group) => g.id in ids))
  }

  /**
   * With unique ids, a non-administrator is shown a direct child exactly when
   * the child is active and some report the rule admits belongs to a group of
   * the child's active subtree.
   */
  lemma VisibleIffSubtreeHoldsAdmitted(db: Snapshot, parentId: GroupId, user: Viewer, c: Group)
    requires !IsAdmin(user)
    requires UniqueGroupIds(db.groups) && UniqueReportIds(db.reports)
    ensures c in VisibleChildrenGroups(db, parentId, user) <==>
      && c in db.groups && c.isActive && c.parentId == Some(parentId)
      && exists r :: r in db.reports && Admits(db, user, r) && r.groupId in Descendants(db.groups, c.id)
  {
    if c in VisibleChildrenGroups(db, parentId, user) {
      VisibleHasAdmitted(db, parentId, user, c);
    }
    AdmittedIsVisible(db, parentId, user, c);
  }

  /** A child shown to a non-administrator has a report the rule admits in its subtree. */
  lemma VisibleHasAdmitted(db: Snapshot, parentId: GroupId, user: Viewer, c: Group)
    requires !IsAdmin(user)
    requires UniqueGroupIds(db.groups) && UniqueReportIds(db.reports)
    requires c in VisibleChildrenGroups(db, parentId, user)
    ensures c in db.groups && c.isActive && c.parentId == Some(parentId)
    ensures exists r :: r in db.reports && Admits(db, user, r) && r.groupId in Descendants(db.groups, c.id)
  {
    var allowed := AllowedReportIds(db, user);
    var holders := GroupsWithAllowedReports(db, allowed);
    assert c in db.groups && c.id in RootChildIds(db, parentId, holders);
    var c' :| c' in db.groups && c'.isActive && c'.parentId == Some(parentId) && c'.id == c.id
      && Descendants(db.groups, c'.id) * holders != {};
    SameIdSameGroup(db.groups, c, c');
    var x :| x in Descendants(db.groups, c.id) * holders;
    assert x in holders;
    var r :| r in db.reports && r.isActive && r.id in allowed && r.groupId == x;
    var r' :| r' in db.reports && r'.id == r.id && Admits(db, user, r');
    SameIdSameReport(db.reports, r, r');
    assert r'.groupId in Descendants(db.groups, c.id);
  }

  /** An active direct child with a report the rule admits in its subtree is shown. */
  lemma AdmittedIsVisible(db: Snapshot, parentId: GroupId, user: Viewer, c: Group)
    requires !IsAdmin(user)
    ensures (&& c in db.groups && c.isActive && c.parentId == Some(parentId)
             && exists r :: r in db.reports && Admits(db, user, r) && r.groupId in Descendants(db.groups, c.id))
      ==> c in VisibleChildrenGroups(db, parentId, user)
  {
    var allowed := AllowedReportIds(db, user);
    var holders := GroupsWithAllowedReports(db, allowed);
    if c in db.groups && c.isActive && c.parentId == Some(parentId)
      && exists r :: r in db.reports && Admits(db, user, r) && r.groupId in Descendants(db.groups, c.id)
    {
      var r :| r in db.reports && Admits(db, user, r) && r.groupId in Descendants(db.groups, c.id);
      assert r.id in allowed;
      assert r.groupId in holders;
      assert r.groupId in Descendants(db.groups, c.id) * holders;
      assert c.id in RootChildIds(db, parentId, holders);
    }
  }

  /** With unique ids, every group shown is an active direct child, and none is shown twice. */
  lemma VisibleAreActiveChildren(db: Snapshot, parentId: GroupId, user: Viewer)
    requires UniqueGroupIds(db.groups)
    ensures forall g :: g in VisibleChildrenGroups(db, parentId, user) ==>
      g in db.groups && g.isActive && g.parentId == Some(parentId)
    ensures NoDup(VisibleChildrenGroups(db, parentId, user))
  {
    var rows := VisibleChildrenGroups(db, parentId, user);
    UniqueGroupIdsNoDup(db.groups);
    ChildrenOfNoDup(ActiveGroups(db.groups), Some(parentId));
    if !IsAdmin(user) {
      var holders := GroupsWithAllowedReports(db, AllowedReportIds(db, user));
      forall g | g in rows ensures g.isActive && g.parentId == Some(parentId) {
        var c :| c in db.groups && c.isActive && c.parentId == Some(parentId) && c.id == g.id
          && Descendants(db.groups, c.id) * holders != {};
        SameIdSameGroup(db.groups, g, c);
      }
    }
  }

  lemma SameIdSameGroup(groups: seq<Group>, a: Group, b: Group)
    requires UniqueGroupIds(groups) && a in groups && b in groups && a.id == b.id
    ensures a == b
  {
    var i, j :| 0 <= i < |groups| && 0 <= j < |groups| && groups[i] == a && groups[j] == b;
  }

  lemma SameIdSameReport(reports: seq<Report>, a: Report, b: Report)
    requires UniqueReportIds(reports) && a in reports && b in reports && a.id == b.id
    ensures a == b
  {
    var i, j :| 0 <= i < |reports| && 0 <= j < |reports| && reports[i] == a && reports[j] == b;
  }
}
