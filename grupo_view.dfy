/**
 * routers/grupoView.py: the group page, with its breadcrumb trail from the
 * root down to the current group, its active subgroups and the reports of
 * the group itself that the requester may see.
 */
module GrupoView {
  import opened Wrappers
  import opened Query
  import opened Store
  import opened Access
  import opened Forest

  /** A breadcrumb step, the `{"id": ..., "name": ...}` of a group. */
  datatype Crumb = Crumb(id: GroupId, name: string)

  function CrumbOf(g: Group): Crumb {
    Crumb(g.id, g.name)
  }

  /**
   * `{g.id: g for g in db.query(Group).all()}`: every group, active or not,
   * by id; of two rows sharing an id, the later one wins.
   */
  function GroupMap(rows: seq<Group>): (gmap: map<GroupId, Group>)
    ensures forall g :: g in rows ==> g.id in gmap
    ensures forall id :: id in gmap ==> gmap[id] in rows && gmap[id].id == id
    ensures |gmap.Keys| <= |rows|
  {
    if |rows| == 0 then map[]
    else
      var init, last := rows[..|rows| - 1], rows[|rows| - 1];
      var prev := GroupMap(init);
      InitAndLast(rows);
      UpdateKeys(prev, last.id, last);
      prev[last.id := last]
  }

  /** Each element of a non-empty sequence is its last one or one of those before. */
  lemma InitAndLast<T>(s: seq<T>)
    requires |s| > 0
    ensures forall x :: x in s <==> x == s[|s| - 1] || x in s[..|s| - 1]
  {
    assert s == s[..|s| - 1] + [s[|s| - 1]];
  }

  /** Setting one key adds at most that key. */
  lemma UpdateKeys<K, V>(m: map<K, V>, k: K, v: V)
    ensures m[k := v].Keys == m.Keys + {k}
    ensures |m[k := v].Keys| <= |m.Keys| + 1
  {
    assert m[k := v].Keys == m.Keys + {k};
  }

  /** Python truthiness of `gid`: present and not the empty string. */
  predicate Truthy(gid: Option<GroupId>) {
    gid.Some? && gid.value != ""
  }

  /** The loop guard `gid and gid in gmap and gid not in seen`. */
  predicate Continues(gmap: map<GroupId, Group>, gid: Option<GroupId>, seen: set<GroupId>) {
    Truthy(gid) && gid.value in gmap && gid.value !in seen
  }

  /** The ids of a trail, in order. */
  function Ids(trail: seq<Crumb>): (ids: seq<GroupId>)
    ensures |ids| == |trail| && forall i :: 0 <= i < |trail| ==> ids[i] == trail[i].id
  {
    seq(|trail|, i requires 0 <= i < |trail| => trail[i].id)
  }

  /**
   * The trail the loop collects from `gid` upwards, before it is reversed:
   * the current group first, then its parent, and so on, stopping at a
   * missing or empty parent, an id not in the map, or an id already seen.
   */
  function Climb(gmap: map<GroupId, Group>, gid: Option<GroupId>, seen: set<GroupId>): seq<Crumb>
    decreases |gmap.Keys - seen|
  {
    if Continues(gmap, gid, seen) then
      var gg := gmap[gid.value];
      assert gmap.Keys - (seen + {gid.value}) == (gmap.Keys - seen) - {gid.value};
      [CrumbOf(gg)] + Climb(gmap, gg.parentId, seen + {gid.value})
    else []
  }

  function Reverse<T>(s: seq<T>): (r: seq<T>)
    ensures |r| == |s| && forall i :: 0 <= i < |s| ==> r[i] == s[|s| - 1 - i]
  {
    if |s| == 0 then [] else Reverse(s[1..]) + [s[0]]
  }

  /** The breadcrumb of `group`: the climb from it, root first. */
  function Breadcrumb(groups: seq<Group>, group: Group): seq<Crumb> {
    Reverse(Climb(GroupMap(groups), Some(group.id), {}))
  }

  /** `build_breadcrumb`. */
  method BuildBreadcrumb(groups: seq<Group>, group: Group) returns (trail: seq<Crumb>)
    ensures trail == Breadcrumb(groups, group)
  {
    var gmap := GroupMap(groups);
    ghost var whole := Climb(gmap, Some(group.id), {});
    trail := [];
    var seen: set<GroupId> := {};
    var gid := Some(group.id);
    while Truthy(gid) && gid.value in gmap && gid.value !in seen
      invariant trail + Climb(gmap, gid, seen) == whole
      decreases |gmap.Keys - seen|
    {
      var gg := gmap[gid.value];
      ClimbStep(gmap, gid, seen);
      AppendAssoc(trail, CrumbOf(gg), Climb(gmap, gg.parentId, seen + {gid.value}));
      trail := trail + [CrumbOf(gg)];
      seen := seen + {gid.value};
      gid := gg.parentId;
    }
    assert Climb(gmap, gid, seen) == [];
    assert trail + [] == trail;
    trail := Reverse(trail);
  }

  lemma AppendAssoc<T>(a: seq<T>, x: T, b: seq<T>)
    ensures a + ([x] + b) == (a + [x]) + b
  {
  }

  /** One turn of the loop: the climb is the current crumb, then the climb from the parent. */
  lemma ClimbStep(gmap: map<GroupId, Group>, gid: Option<GroupId>, seen: set<GroupId>)
    requires Continues(gmap, gid, seen)
    ensures |gmap.Keys - (seen + {gid.value})| < |gmap.Keys - seen|
    ensures Climb(gmap, gid, seen) ==
      [CrumbOf(gmap[gid.value])] + Climb(gmap, gmap[gid.value].parentId, seen + {gid.value})
  {
    assert gmap.Keys - (seen + {gid.value}) == (gmap.Keys - seen) - {gid.value};
  }

  /** The loop guard fails for `p` given what was seen before and on the trail `ids`. */
  predicate StopsAt(gmap: map<GroupId, Group>, p: Option<GroupId>, seen: set<GroupId>, ids: seq<GroupId>) {
    !Truthy(p) || p.value !in gmap || p.value in seen || p.value in ids
  }

  /** Every step of a climb is a group of the map that was not seen before. */
  lemma {:induction false} ClimbUnseen(gmap: map<GroupId, Group>, gid: Option<GroupId>, seen: set<GroupId>)
    requires forall id :: id in gmap ==> gmap[id].id == id
    ensures forall c :: c in Climb(gmap, gid, seen) ==> c.id in gmap && c.id !in seen
    decreases |gmap.Keys - seen|
  {
    if Continues(gmap, gid, seen) {
      var gg := gmap[gid.value];
      ClimbStep(gmap, gid, seen);
      ClimbUnseen(gmap, gg.parentId, seen + {gid.value});
    }
  }

  /** A climb is no longer than the unseen part of the map. */
  lemma {:induction false} ClimbLength(gmap: map<GroupId, Group>, gid: Option<GroupId>, seen: set<GroupId>)
    ensures |Climb(gmap, gid, seen)| <= |gmap.Keys - seen|
    decreases |gmap.Keys - seen|
  {
    if Continues(gmap, gid, seen) {
      ClimbStep(gmap, gid, seen);
      ClimbLength(gmap, gmap[gid.value].parentId, seen + {gid.value});
    }
  }

  /** The ids of a crumb followed by a trail. */
  lemma IdsPrepend(c: Crumb, rest: seq<Crumb>)
    ensures Ids([c] + rest) == [c.id] + Ids(rest)
  {
    assert Ids([c] + rest) == [c.id] + Ids(rest);
  }

  /** The ids of a crumb followed by a trail; the id is new when no crumb of the trail has it. */
  lemma IdsCons(c: Crumb, rest: seq<Crumb>)
    requires forall d :: d in rest ==> d.id != c.id
    ensures Ids([c] + rest) == [c.id] + Ids(rest)
    ensures c.id !in Ids(rest)
  {
    IdsPrepend(c, rest);
    forall k | 0 <= k < |rest| ensures Ids(rest)[k] != c.id {
      assert rest[k] in rest;
    }
  }

  /**
   * Every step of a climb is a group of the map that was not seen before,
   * no id repeats, and the length is bounded by the unseen part of the map.
   */
  lemma {:induction false} ClimbFresh(gmap: map<GroupId, Group>, gid: Option<GroupId>, seen: set<GroupId>)
    requires forall id :: id in gmap ==> gmap[id].id == id
    ensures forall c :: c in Climb(gmap, gid, seen) ==> c.id in gmap && c.id !in seen
    ensures NoDup(Ids(Climb(gmap, gid, seen)))
    ensures |Climb(gmap, gid, seen)| <= |gmap.Keys - seen|
    decreases |gmap.Keys - seen|
  {
    ClimbUnseen(gmap, gid, seen);
    ClimbLength(gmap, gid, seen);
    if Continues(gmap, gid, seen) {
      var gg := gmap[gid.value];
      var seen' := seen + {gid.value};
      ClimbStep(gmap, gid, seen);
      ClimbFresh(gmap, gg.parentId, seen');
      var rest := Climb(gmap, gg.parentId, seen');
      IdsCons(CrumbOf(gg), rest);
      NoDupCons(gid.value, Ids(rest));
    }
  }

  /**
   * Each step of a climb after the first is the parent of the step before
   * it, in the map.
   */
  lemma {:induction false} ClimbLinks(gmap: map<GroupId, Group>, gid: Option<GroupId>, seen: set<GroupId>)
    requires forall id :: id in gmap ==> gmap[id].id == id
    ensures var c := Climb(gmap, gid, seen);
      forall k :: 0 <= k < |c| - 1 ==> c[k].id in gmap && gmap[c[k].id].parentId == Some(c[k + 1].id)
    ensures Continues(gmap, gid, seen) ==> Climb(gmap, gid, seen)[0] == CrumbOf(gmap[gid.value])
    decreases |gmap.Keys - seen|
  {
    if Continues(gmap, gid, seen) {
      var gg := gmap[gid.value];
      var seen' := seen + {gid.value};
      ClimbStep(gmap, gid, seen);
      ClimbLinks(gmap, gg.parentId, seen');
      var rest := Climb(gmap, gg.parentId, seen');
      var c := Climb(gmap, gid, seen);
      forall k | 0 <= k < |c| - 1 ensures c[k].id in gmap && gmap[c[k].id].parentId == Some(c[k + 1].id) {
        if k == 0 {
          ClimbStops(gmap, gg.parentId, seen');
          assert rest[0] == CrumbOf(gmap[gg.parentId.value]);
        } else {
          assert c[k] == rest[k - 1] && c[k + 1] == rest[k];
        }
      }
    }
  }

  /** A guard that fails after `x` was seen fails with `x` on the trail instead. */
  lemma StopsAtCons(gmap: map<GroupId, Group>, p: Option<GroupId>, seen: set<GroupId>, x: GroupId, ids: seq<GroupId>)
    requires StopsAt(gmap, p, seen + {x}, ids)
    ensures StopsAt(gmap, p, seen, [x] + ids)
  {
  }

  /**
   * A climb stops exactly when the loop guard fails: the top step's parent
   * is missing or empty, is not in the map, or was already seen (before the
   * climb or on it).
   */
  lemma {:induction false} ClimbStops(gmap: map<GroupId, Group>, gid: Option<GroupId>, seen: set<GroupId>)
    requires forall id :: id in gmap ==> gmap[id].id == id
    ensures var c := Climb(gmap, gid, seen);
      |c| > 0 ==> (c[|c| - 1].id in gmap && StopsAt(gmap, gmap[c[|c| - 1].id].parentId, seen, Ids(c)))
    ensures |Climb(gmap, gid, seen)| == 0 <==> !Continues(gmap, gid, seen)
    decreases |gmap.Keys - seen|
  {
    if Continues(gmap, gid, seen) {
      var gg := gmap[gid.value];
      var seen' := seen + {gid.value};
      ClimbStep(gmap, gid, seen);
      ClimbStops(gmap, gg.parentId, seen');
      var rest := Climb(gmap, gg.parentId, seen');
      var c := Climb(gmap, gid, seen);
      IdsPrepend(CrumbOf(gg), rest);
      if |rest| > 0 {
        var last := rest[|rest| - 1];
        assert c[|c| - 1] == last;
        StopsAtCons(gmap, gmap[last.id].parentId, seen, gid.value, Ids(rest));
      } else {
        assert c == [CrumbOf(gg)] && gmap[gg.id] == gg;
      }
    }
  }

  /** The breadcrumb is empty exactly when the current id fails the guard; else it ends with the current group. */
  lemma BreadcrumbEndsAtCurrent(groups: seq<Group>, group: Group)
    ensures var b := Breadcrumb(groups, group); var gmap := GroupMap(groups);
      && (group.id != "" && group.id in gmap <==> |b| > 0)
      && (|b| > 0 ==> b[|b| - 1] == CrumbOf(gmap[group.id]) && b[|b| - 1].id == group.id)
  {
    var gmap := GroupMap(groups);
    ClimbStops(gmap, Some(group.id), {});
    ClimbLinks(gmap, Some(group.id), {});
  }

  /** Every step of the breadcrumb after the first is a child of the step before it. */
  lemma BreadcrumbLinks(groups: seq<Group>, group: Group)
    ensures var b := Breadcrumb(groups, group); var gmap := GroupMap(groups);
      forall k :: 0 < k < |b| ==> b[k].id in gmap && gmap[b[k].id].parentId == Some(b[k - 1].id)
  {
    var gmap := GroupMap(groups);
    var c := Climb(gmap, Some(group.id), {});
    ClimbLinks(gmap, Some(group.id), {});
    ReversedLinks(gmap, c);
  }

  /** Read backwards, a trail where each step's parent is the next is one where each step is the parent of the next. */
  lemma ReversedLinks(gmap: map<GroupId, Group>, c: seq<Crumb>)
    requires forall k :: 0 <= k < |c| - 1 ==> c[k].id in gmap && gmap[c[k].id].parentId == Some(c[k + 1].id)
    ensures var b := Reverse(c);
      forall k :: 0 < k < |b| ==> b[k].id in gmap && gmap[b[k].id].parentId == Some(b[k - 1].id)
  {
    var b := Reverse(c);
    forall k | 0 < k < |b| ensures b[k].id in gmap && gmap[b[k].id].parentId == Some(b[k - 1].id) {
      assert b[k] == c[|c| - 1 - k] && b[k - 1] == c[|c| - 1 - k + 1];
    }
  }

  /** No id appears twice in the breadcrumb, so it is no longer than the table, even on a cycle. */
  lemma BreadcrumbNoRepeat(groups: seq<Group>, group: Group)
    ensures NoDup(Ids(Breadcrumb(groups, group)))
    ensures |Breadcrumb(groups, group)| <= |groups|
  {
    var gmap := GroupMap(groups);
    var c := Climb(gmap, Some(group.id), {});
    ClimbFresh(gmap, Some(group.id), {});
    assert gmap.Keys - {} == gmap.Keys;
    var b := Reverse(c);
    forall i, j | 0 <= i < j < |b| ensures Ids(b)[i] != Ids(b)[j] {
      assert Ids(c)[|c| - 1 - i] != Ids(c)[|c| - 1 - j];
    }
  }

  /**
   * The walk stops at the first step only where the loop guard fails: no
   * truthy parent, a parent missing from the map, or a parent already on the
   * trail. Activity plays no part.
   */
  lemma BreadcrumbStops(groups: seq<Group>, group: Group)
    ensures var b := Breadcrumb(groups, group); var gmap := GroupMap(groups);
      |b| > 0 ==> (b[0].id in gmap && StopsAt(gmap, gmap[b[0].id].parentId, {}, Ids(b)))
  {
    var gmap := GroupMap(groups);
    var c := Climb(gmap, Some(group.id), {});
    ClimbStops(gmap, Some(group.id), {});
    ReversedStops(gmap, c);
  }

  /** Read backwards, the trail starts with the step where the walk stopped. */
  lemma ReversedStops(gmap: map<GroupId, Group>, c: seq<Crumb>)
    requires |c| > 0 ==> c[|c| - 1].id in gmap && StopsAt(gmap, gmap[c[|c| - 1].id].parentId, {}, Ids(c))
    ensures var b := Reverse(c);
      |b| > 0 ==> (b[0].id in gmap && StopsAt(gmap, gmap[b[0].id].parentId, {}, Ids(b)))
  {
    var b := Reverse(c);
    if |b| > 0 {
      assert b[0] == c[|c| - 1];
      var p := gmap[b[0].id].parentId;
      if Truthy(p) && p.value in Ids(c) {
        var k :| 0 <= k < |c| && Ids(c)[k] == p.value;
        assert Ids(b)[|c| - 1 - k] == p.value;
      }
    }
  }

  /** What the group page shows. */
  datatype GroupPage = GroupPage(
    grupo: Group, subgroups: seq<Group>, reports: seq<Report>, breadcrumb: seq<Crumb>)

  /** The reports of exactly this group, active ones only, before the role filter. */
  function GroupReports(db: Snapshot, grupoId: GroupId): (q: seq<Report>)
    ensures forall r :: r in q <==> r in db.reports && r.isActive && r.groupId == grupoId
  {
    Filter(db.reports, (r: Report) => r.isActive && r.groupId == grupoId)
  }

  /** `db.query(Group).filter(Group.id == id, Group.is_active.is_(True)).first()`. */
  function ActiveGroupById(groups: seq<Group>, id: GroupId): (r: Option<Group>)
    ensures r.None? <==> forall g :: g in groups ==> !(g.id == id && g.isActive)
    ensures r.Some? ==> r.value in groups && r.value.id == id && r.value.isActive
  {
    First(groups, (g: Group) => g.id == id && g.isActive)
  }

  /**
   * `group_view`: 404 for a missing or inactive group; otherwise every active
   * direct child by name, no permission filter, the role-admitted active
   * reports of this very group in sort order, and the breadcrumb.
   */
  function GroupView(db: Snapshot, grupoId: GroupId, user: Viewer): (r: Result<GroupPage, HttpError>)
    ensures r.Err? <==> forall g :: g in db.groups ==> !(g.id == grupoId && g.isActive)
    ensures r.Err? ==> r.error == HttpError(404, "Grupo não encontrado")
    ensures r.Ok? ==> var p := r.value;
      && p.grupo in db.groups && p.grupo.id == grupoId && p.grupo.isActive
      && Sorted(GroupNameLe, p.subgroups)
      && (forall g :: g in p.subgroups <==> g in db.groups && g.isActive && g.parentId == Some(grupoId))
      && Sorted(ReportLe, p.reports)
      && (forall x :: x in p.reports <==>
            x in db.reports && x.groupId == grupoId && Admits(db, user, x))
      && p.breadcrumb == Breadcrumb(db.groups, p.grupo)
  {
    match ActiveGroupById(db.groups, grupoId)
    case None => Err(HttpError(404, "Grupo não encontrado"))
    case Some(grupo) =>
      var subgroups := SortGroupsByName(ActiveChildren(db.groups, grupoId));
      var q := GroupReports(db, grupoId);
      ListedIffAdmitted(db, user, q);
      var reports := ListReportsFor(db, user, q);
      Ok(GroupPage(grupo, subgroups, reports, Breadcrumb(db.groups, grupo)))
  }
}
