/**
 * The group forest: parent pointers, the active child links the traversals
 * follow, reachability along them and the descendant closure of a group.
 */
module Forest {
  import opened Wrappers
  import opened Query
  import opened Store

  /** The rows of `rows` whose `parent_id` is `key`, in row order. */
  function ChildrenOf(rows: seq<Group>, key: Option<GroupId>): (kids: seq<Group>)
    ensures forall g :: g in kids <==> g in rows && g.parentId == key
    ensures |kids| <= |rows|
  {
    if |rows| == 0 then []
    else
      var last := rows[|rows| - 1];
      assert rows == rows[..|rows| - 1] + [last];
      ChildrenOf(rows[..|rows| - 1], key) + (if last.parentId == key then [last] else [])
  }

  /** Children taken from distinct rows are distinct. */
  lemma {:induction false} ChildrenOfNoDup(rows: seq<Group>, key: Option<GroupId>)
    requires NoDup(rows)
    ensures NoDup(ChildrenOf(rows, key))
  {
    if |rows| > 0 {
      var last := rows[|rows| - 1];
      var prefix := rows[..|rows| - 1];
      assert forall i :: 0 <= i < |prefix| ==> prefix[i] == rows[i];
      assert last !in prefix;
      ChildrenOfNoDup(prefix, key);
    }
  }

  /** `filter(Group.is_active == True)`: the active rows, in row order. */
  function ActiveGroups(groups: seq<Group>): (rows: seq<Group>)
    ensures forall g :: g in rows <==> g in groups && g.isActive
    ensures |rows| <= |groups|
  {
    Filter(groups, (g: Group) => g.isActive)
  }

  /** The active groups whose parent is `parentId`, in row order. */
  function ActiveChildren(groups: seq<Group>, parentId: GroupId): (rows: seq<Group>)
    ensures forall g :: g in rows <==> g in groups && g.isActive && g.parentId == Some(parentId)
  {
    ChildrenOf(ActiveGroups(groups), Some(parentId))
  }

  /** Appending a row to the bucket of its parent keeps the index faithful. */
  lemma IndexStep(byParent: map<Option<GroupId>, seq<Group>>, rows: seq<Group>, g: Group)
    requires Indexes(byParent, rows)
    ensures Indexes(byParent[g.parentId := Lookup(byParent, g.parentId) + [g]], rows + [g])
  {
    var byParent' := byParent[g.parentId := Lookup(byParent, g.parentId) + [g]];
    assert (rows + [g])[..|rows|] == rows;
    forall key ensures IndexedAt(byParent', rows + [g], key) {
      assert IndexedAt(byParent, rows, key);
    }
  }

  /** Under `key`, `byParent` holds the rows whose parent is `key`, in row order. */
  predicate IndexedAt(byParent: map<Option<GroupId>, seq<Group>>, rows: seq<Group>, key: Option<GroupId>) {
    Lookup(byParent, key) == ChildrenOf(rows, key)
  }

  /** `byParent` is the parent-to-children index of `rows`. */
  ghost predicate Indexes(byParent: map<Option<GroupId>, seq<Group>>, rows: seq<Group>) {
    forall key :: IndexedAt(byParent, rows, key)
  }

  lemma IndexAt(byParent: map<Option<GroupId>, seq<Group>>, rows: seq<Group>, key: Option<GroupId>)
    requires Indexes(byParent, rows)
    ensures Lookup(byParent, key) == ChildrenOf(rows, key)
  {
    assert IndexedAt(byParent, rows, key);
  }

  /** A `dict.get(key, [])` on a parent-to-children index. */
  function Lookup(byParent: map<Option<GroupId>, seq<Group>>, key: Option<GroupId>): seq<Group> {
    if key in byParent then byParent[key] else []
  }

  /**
   * The `setdefault(g.parent_id, []).append(g)` loop: the index from each
   * parent id to its children, in row order.
   */
  method IndexByParent(rows: seq<Group>) returns (byParent: map<Option<GroupId>, seq<Group>>)
    ensures Indexes(byParent, rows)
  {
    byParent := map[];
    var i := 0;
    while i < |rows|
      invariant 0 <= i <= |rows|
      invariant Indexes(byParent, rows[..i])
    {
      var g := rows[i];
      IndexStep(byParent, rows[..i], g);
      var bucket := Lookup(byParent, g.parentId);
      byParent := byParent[g.parentId := bucket + [g]];
      assert rows[..i + 1] == rows[..i] + [g];
      i := i + 1;
    }
    assert rows[..i] == rows;
  }

  function ActiveIds(groups: seq<Group>): set<GroupId> {
    set g | g in groups && g.isActive :: g.id
  }

  /** The active child links: `(p, c)` when an active group `c` has parent `p`. */
  function ActiveLinks(groups: seq<Group>): (links: set<(GroupId, GroupId)>)
    ensures forall p, c :: (p, c) in links <==>
      exists g :: g in groups && g.isActive && g.id == c && g.parentId == Some(p)
  {
    set g | g in groups && g.isActive && g.parentId.Some? :: (g.parentId.value, g.id)
  }

  /** `path` leads from `from` to `to`, each step an active child link. */
  predicate IsActivePath(groups: seq<Group>, from: GroupId, to: GroupId, path: seq<GroupId>) {
    && |path| > 0 && path[0] == from && path[|path| - 1] == to
    && forall i :: 0 <= i < |path| - 1 ==> (path[i], path[i + 1]) in ActiveLinks(groups)
  }

  ghost predicate Reachable(groups: seq<Group>, from: GroupId, to: GroupId) {
    exists path :: IsActivePath(groups, from, to, path)
  }

  /** A set that holds every active child of each of its members. */
  ghost predicate ClosedUnderLinks(groups: seq<Group>, s: set<GroupId>) {
    forall p, c :: p in s && (p, c) in ActiveLinks(groups) ==> c in s
  }

  /** The ids reachable from `root` along active child links, `root` included. */
  ghost function Descendants(groups: seq<Group>, root: GroupId): (d: set<GroupId>)
    ensures root in d
    ensures d <= {root} + ActiveIds(groups)
    ensures forall x :: x in d <==> Reachable(groups, root, x)
  {
    assert IsActivePath(groups, root, root, [root]);
    var d := set x | x in {root} + ActiveIds(groups) && Reachable(groups, root, x);
    forall x | Reachable(groups, root, x) ensures x in d {
      var path :| IsActivePath(groups, root, x, path);
      if |path| > 1 {
        assert (path[|path| - 2], x) in ActiveLinks(groups);
      }
    }
    d
  }

  lemma DescendantsClosed(groups: seq<Group>, root: GroupId)
    ensures ClosedUnderLinks(groups, Descendants(groups, root))
  {
    var d := Descendants(groups, root);
    forall p, c | p in d && (p, c) in ActiveLinks(groups) ensures c in d {
      var path :| IsActivePath(groups, root, p, path);
      assert IsActivePath(groups, root, c, path + [c]);
    }
  }

  /** Any closed set holding `root` holds all of its descendants. */
  lemma DescendantsLeast(groups: seq<Group>, root: GroupId, s: set<GroupId>)
    requires root in s && ClosedUnderLinks(groups, s)
    ensures Descendants(groups, root) <= s
  {
    forall x | x in Descendants(groups, root) ensures x in s {
      var path :| IsActivePath(groups, root, x, path);
      PathStaysIn(groups, root, x, path, s);
    }
  }

  lemma {:induction false} PathStaysIn(groups: seq<Group>, root: GroupId, x: GroupId, path: seq<GroupId>, s: set<GroupId>)
    requires root in s && ClosedUnderLinks(groups, s)
    requires IsActivePath(groups, root, x, path)
    ensures x in s
    decreases |path|
  {
    if |path| > 1 {
      var prefix := path[..|path| - 1];
      assert IsActivePath(groups, root, prefix[|prefix| - 1], prefix);
      PathStaysIn(groups, root, prefix[|prefix| - 1], prefix, s);
    }
  }

  /**
   * The descendants are the only set that holds `root`, is closed under
   * active child links and holds nothing unreachable.
   */
  lemma DescendantsUnique(groups: seq<Group>, root: GroupId, s: set<GroupId>)
    requires root in s && ClosedUnderLinks(groups, s)
    requires forall x :: x in s ==> Reachable(groups, root, x)
    ensures s == Descendants(groups, root)
  {
    DescendantsLeast(groups, root, s);
  }

  /**
   * Traversal never passes through an inactive group: with unique ids, the
   * id of an inactive group is not a descendant of any other group.
   */
  lemma InactiveNotDescendant(groups: seq<Group>, m: Group, c: GroupId)
    requires UniqueGroupIds(groups)
    requires m in groups && !m.isActive && m.id != c
    ensures m.id !in Descendants(groups, c)
  {
    var d := Descendants(groups, c);
    forall g | g in groups && g.id == m.id ensures g == m {
      var i, j :| 0 <= i < |groups| && 0 <= j < |groups| && groups[i] == g && groups[j] == m;
    }
    forall x | x in d && x != c ensures exists g :: g in groups && g.isActive && g.id == x {
      var path :| IsActivePath(groups, c, x, path);
      assert (path[|path| - 2], x) in ActiveLinks(groups);
    }
  }
}
