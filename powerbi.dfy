/**
 * routers/powerbi.py: the group tree, the descendant closure of a group,
 * the group listings and the reports of a group's subtree.
 */
module PowerBi {
  import opened Wrappers
  import opened Query
  import opened Store
  import opened Access
  import opened Forest

  /** A group with the children `attach` hangs under it. */
  datatype GroupTree = GroupTree(group: Group, children: seq<GroupTree>)

  /**
   * `attach`: the node for `g` with its children looked up in the index,
   * each attached in turn. The recursion is cut at depth `fuel`.
   */
  function Attach(byParent: map<Option<GroupId>, seq<Group>>, g: Group, fuel: nat): (t: GroupTree)
    ensures t.group == g
    ensures fuel == 0 ==> t.children == []
    ensures fuel > 0 ==> |t.children| == |Lookup(byParent, Some(g.id))|
    decreases fuel, 1
  {
    if fuel == 0 then GroupTree(g, [])
    else GroupTree(g, AttachAll(byParent, Lookup(byParent, Some(g.id)), fuel - 1))
  }

  /** The trees `attach` builds for each of `kids`, in order. */
  function AttachAll(byParent: map<Option<GroupId>, seq<Group>>, kids: seq<Group>, fuel: nat): (ts: seq<GroupTree>)
    ensures |ts| == |kids|
    decreases fuel, 2, |kids|
  {
    if |kids| == 0 then [] else [Attach(byParent, kids[0], fuel)] + AttachAll(byParent, kids[1..], fuel)
  }

  lemma {:induction false} AttachAllAt(byParent: map<Option<GroupId>, seq<Group>>, kids: seq<Group>, fuel: nat, j: nat)
    requires j < |kids|
    ensures AttachAll(byParent, kids, fuel)[j] == Attach(byParent, kids[j], fuel)
    decreases j
  {
    if j > 0 {
      AttachAllAt(byParent, kids[1..], fuel, j - 1);
    }
  }

  /**
   * `attach` as the source runs it: look up the children, then attach each
   * in turn.
   */
  method AttachNode(byParent: map<Option<GroupId>, seq<Group>>, g: Group, fuel: nat) returns (t: GroupTree)
    ensures t == Attach(byParent, g, fuel)
    decreases fuel
  {
    if fuel == 0 {
      return GroupTree(g, []);
    }
    var kids := Lookup(byParent, Some(g.id));
    var children: seq<GroupTree> := [];
    for i := 0 to |kids|
      invariant |children| == i
      invariant forall j :: 0 <= j < i ==> children[j] == Attach(byParent, kids[j], fuel - 1)
    {
      var c := AttachNode(byParent, kids[i], fuel - 1);
      children := children + [c];
    }
    t := GroupTree(g, children);
    forall j | 0 <= j < |kids| ensures children[j] == AttachAll(byParent, kids, fuel - 1)[j] {
      AttachAllAt(byParent, kids, fuel - 1, j);
    }
  }

  /**
   * `t` matches `rows` down to `depth` levels: its group is a row, and below
   * the cut its children are, in row order, the rows whose parent it is.
   */
  ghost predicate Faithful(t: GroupTree, rows: seq<Group>, depth: nat)
    decreases depth, 1
  {
    && t.group in rows
    && (depth == 0 ==> t.children == [])
    && (depth > 0 ==>
      && RootedAt(t.children, ChildrenOf(rows, Some(t.group.id)))
      && AllFaithful(t.children, rows, depth - 1))
  }

  /** The trees `ts` are rooted at `gs`, in order. */
  predicate RootedAt(ts: seq<GroupTree>, gs: seq<Group>) {
    |ts| == |gs| && forall i :: 0 <= i < |ts| ==> ts[i].group == gs[i]
  }

  /** Every tree of `ts` matches `rows` down to `depth` levels. */
  ghost predicate AllFaithful(ts: seq<GroupTree>, rows: seq<Group>, depth: nat)
    decreases depth + 1, 0
  {
    forall i :: 0 <= i < |ts| ==> Faithful(ts[i], rows, depth)
  }

  lemma {:induction false} AttachFaithful(
    byParent: map<Option<GroupId>, seq<Group>>, rows: seq<Group>, g: Group, fuel: nat)
    requires Indexes(byParent, rows)
    requires g in rows
    ensures Faithful(Attach(byParent, g, fuel), rows, fuel)
    decreases fuel
  {
    if fuel > 0 {
      var t := Attach(byParent, g, fuel);
      IndexAt(byParent, rows, Some(g.id));
      AttachGroups(byParent, g, fuel);
      var kids := Lookup(byParent, Some(g.id));
      forall i | 0 <= i < |t.children| ensures Faithful(t.children[i], rows, fuel - 1) {
        AttachAllAt(byParent, kids, fuel - 1, i);
        KidInRows(rows, Some(g.id), i);
        AttachFaithful(byParent, rows, kids[i], fuel - 1);
      }
      FaithfulIntro(t, rows, fuel);
    }
  }

  lemma KidInRows(rows: seq<Group>, key: Option<GroupId>, i: nat)
    requires i < |ChildrenOf(rows, key)|
    ensures ChildrenOf(rows, key)[i] in rows
  {
    assert ChildrenOf(rows, key)[i] in ChildrenOf(rows, key);
  }

  /** A node is faithful when its group is a row and its children are the faithful trees of its row children. */
  lemma FaithfulIntro(t: GroupTree, rows: seq<Group>, depth: nat)
    requires t.group in rows && depth > 0
    requires RootedAt(t.children, ChildrenOf(rows, Some(t.group.id)))
    requires forall i :: 0 <= i < |t.children| ==> Faithful(t.children[i], rows, depth - 1)
    ensures Faithful(t, rows, depth)
  {
    assert AllFaithful(t.children, rows, depth - 1);
  }

  /** Below the cut, the children `attach` builds are rooted at the looked-up groups, in order. */
  lemma AttachGroups(byParent: map<Option<GroupId>, seq<Group>>, g: Group, fuel: nat)
    requires fuel > 0
    ensures RootedAt(Attach(byParent, g, fuel).children, Lookup(byParent, Some(g.id)))
  {
    var kids := Lookup(byParent, Some(g.id));
    var t := Attach(byParent, g, fuel);
    forall i | 0 <= i < |kids| ensures t.children[i].group == kids[i] {
      AttachAllAt(byParent, kids, fuel - 1, i);
    }
  }

  /** `g` is the group of `t` or of a node below it. */
  predicate InTree(t: GroupTree, g: Group)
    decreases t, 1
  {
    t.group == g || InForest(t.children, g)
  }

  /** `g` is in one of the trees `ts`. */
  predicate InForest(ts: seq<GroupTree>, g: Group)
    decreases ts, 0
  {
    |ts| > 0 && (InTree(ts[0], g) || InForest(ts[1..], g))
  }

  /** Some row is the parent of `g`. */
  ghost predicate HasRowParent(rows: seq<Group>, g: Group) {
    exists p :: p in rows && g.parentId == Some(p.id)
  }

  /** Every group in a faithful tree is a row whose parent is in the tree or is the tree's own parent. */
  lemma {:induction false} InTreeHasRowParent(t: GroupTree, rows: seq<Group>, depth: nat, g: Group)
    requires Faithful(t, rows, depth)
    ensures InTree(t, g) ==> g in rows
    ensures InTree(t, g) ==> g == t.group || HasRowParent(rows, g)
    decreases t, 2
  {
    FaithfulRow(t, rows, depth);
    if InTree(t, g) && g != t.group {
      BelowHasRowParent(t, rows, depth, g);
    }
  }

  /** The group of a faithful tree is a row. */
  lemma FaithfulRow(t: GroupTree, rows: seq<Group>, depth: nat)
    requires Faithful(t, rows, depth)
    ensures t.group in rows
  {
  }

  /** A group strictly below the root of a faithful tree is a row with a row as parent. */
  lemma {:induction false} BelowHasRowParent(t: GroupTree, rows: seq<Group>, depth: nat, g: Group)
    requires Faithful(t, rows, depth) && InForest(t.children, g)
    ensures g in rows && HasRowParent(rows, g)
    decreases t, 1
  {
    ChildrenAreSiblings(t, rows, depth);
    assert Siblings(t.group, t.children, rows, depth - 1);
    assert InForest(t.children, g);
    InForestHasRowParent(t.group, t.children, rows, depth - 1, g);
  }

  /** Trees that are all faithful to `depth` and all children of the row `parent`. */
  ghost predicate Siblings(parent: Group, ts: seq<GroupTree>, rows: seq<Group>, depth: nat) {
    && parent in rows
    && (forall j :: 0 <= j < |ts| ==> ts[j].group.parentId == Some(parent.id))
    && AllFaithful(ts, rows, depth)
  }

  /** The children of a faithful node, below the cut, are siblings under its group. */
  lemma ChildrenAreSiblings(t: GroupTree, rows: seq<Group>, depth: nat)
    requires Faithful(t, rows, depth) && |t.children| > 0
    ensures depth > 0 && Siblings(t.group, t.children, rows, depth - 1)
  {
    forall j | 0 <= j < |t.children| ensures t.children[j].group.parentId == Some(t.group.id) {
      FaithfulChild(t, rows, depth, j);
    }
  }

  /** A child of a faithful node is a row whose parent is that node, faithful one level less deep. */
  lemma FaithfulChild(t: GroupTree, rows: seq<Group>, depth: nat, i: nat)
    requires Faithful(t, rows, depth) && i < |t.children|
    ensures depth > 0 && t.group in rows
    ensures t.children[i].group in rows && t.children[i].group.parentId == Some(t.group.id)
    ensures Faithful(t.children[i], rows, depth - 1)
  {
    var kids := ChildrenOf(rows, Some(t.group.id));
    assert t.children[i].group == kids[i] && kids[i] in kids;
  }

  /** The same for sibling trees `ts`, all faithful and all children of the row `parent`. */
  lemma {:induction false} InForestHasRowParent(
    parent: Group, ts: seq<GroupTree>, rows: seq<Group>, depth: nat, g: Group)
    requires Siblings(parent, ts, rows, depth) && InForest(ts, g)
    ensures g in rows
    ensures HasRowParent(rows, g)
    decreases ts, 0
  {
    var head := ts[0];
    assert head.group.parentId == Some(parent.id) && Faithful(head, rows, depth);
    if InTree(head, g) {
      InTreeHasRowParent(head, rows, depth, g);
      if g == head.group {
        assert parent in rows && g.parentId == Some(parent.id);
      }
    } else {
      var rest := ts[1..];
      assert InForest(rest, g);
      assert Siblings(parent, rest, rows, depth) by {
        assert forall j :: 0 <= j < |rest| ==> rest[j] == ts[j + 1];
      }
      InForestHasRowParent(parent, rest, rows, depth, g);
    }
  }

  /**
   * `_build_tree`: the groups without a parent, in row order, each with its
   * subtree attached.
   */
  method BuildTree(groups: seq<Group>) returns (roots: seq<GroupTree>)
    ensures RootedAt(roots, ChildrenOf(groups, None))
    ensures AllFaithful(roots, groups, |groups|)
  {
    var byParent := IndexByParent(groups);
    roots := AttachRoots(byParent, |groups|);
    RootsFaithful(byParent, groups, roots);
  }

  /** `roots = by_parent.get(None, [])` and the loop attaching each root. */
  method AttachRoots(byParent: map<Option<GroupId>, seq<Group>>, fuel: nat) returns (roots: seq<GroupTree>)
    ensures |roots| == |Lookup(byParent, None)|
    ensures forall j :: 0 <= j < |roots| ==> roots[j] == Attach(byParent, Lookup(byParent, None)[j], fuel)
  {
    var tops := Lookup(byParent, None);
    roots := [];
    for i := 0 to |tops|
      invariant |roots| == i
      invariant forall j :: 0 <= j < i ==> roots[j] == Attach(byParent, tops[j], fuel)
    {
      var root := AttachNode(byParent, tops[i], fuel);
      roots := roots + [root];
    }
  }

  /** Trees attached from a faithful index, one per parentless row, match the rows. */
  lemma RootsFaithful(byParent: map<Option<GroupId>, seq<Group>>, groups: seq<Group>, roots: seq<GroupTree>)
    requires Indexes(byParent, groups)
    requires |roots| == |Lookup(byParent, None)|
    requires forall j :: 0 <= j < |roots| ==> roots[j] == Attach(byParent, Lookup(byParent, None)[j], |groups|)
    ensures RootedAt(roots, ChildrenOf(groups, None))
    ensures AllFaithful(roots, groups, |groups|)
  {
    var tops := ChildrenOf(groups, None);
    IndexAt(byParent, groups, None);
    assert RootedAt(roots, tops);
    forall i | 0 <= i < |roots| ensures Faithful(roots[i], groups, |groups|) {
      assert tops[i] in tops;
      AttachFaithful(byParent, groups, tops[i], |groups|);
    }
  }

  /** A group whose parent is not among the rows is in none of the built trees. */
  lemma OrphanAppearsNowhere(groups: seq<Group>, roots: seq<GroupTree>, g: Group)
    requires RootedAt(roots, ChildrenOf(groups, None))
    requires AllFaithful(roots, groups, |groups|)
    requires g.parentId.Some? && forall p :: p in groups ==> p.id != g.parentId.value
    ensures forall t :: t in roots ==> !InTree(t, g)
  {
    forall t | t in roots ensures !InTree(t, g) {
      var i :| 0 <= i < |roots| && roots[i] == t;
      var tops := ChildrenOf(groups, None);
      assert t.group == tops[i] && tops[i] in tops;
      assert Faithful(t, groups, |groups|);
      InTreeHasRowParent(t, groups, |groups|, g);
    }
  }

  /**
   * `_descendants_ids`: a depth-first walk from `rootId` over the active
   * child links. `pushLog` records every id pushed on the stack.
   */
  method DescendantsIds(groups: seq<Group>, rootId: GroupId)
    returns (result: set<GroupId>, ghost pushLog: seq<GroupId>)
    ensures result == Descendants(groups, rootId)
    ensures NoDup(pushLog) && forall x :: x in pushLog <==> x in result
  {
    var active := ActiveGroups(groups);
    var childrenByParent := IndexByParent(active);
    DescendantsClosed(groups, rootId);
    result, pushLog := Walk(groups, active, childrenByParent, rootId, Descendants(groups, rootId));
    DescendantsLeast(groups, rootId, result);
  }

  /**
   * The `while stack` loop of `_descendants_ids` over the index of active
   * children. It stays within any closed set `d` holding `rootId`, and what
   * it returns is itself closed.
   */
  method Walk(
    groups: seq<Group>, active: seq<Group>, childrenByParent: map<Option<GroupId>, seq<Group>>,
    rootId: GroupId, ghost d: set<GroupId>)
    returns (result: set<GroupId>, ghost pushLog: seq<GroupId>)
    requires forall g :: g in active <==> g in groups && g.isActive
    requires Indexes(childrenByParent, active)
    requires rootId in d && ClosedUnderLinks(groups, d)
    ensures rootId in result && result <= d && ClosedUnderLinks(groups, result)
    ensures NoDup(pushLog) && forall x :: x in pushLog <==> x in result
  {
    result := {rootId};
    var stack := [rootId];
    pushLog := [rootId];
    while |stack| > 0
      invariant WalkInv(groups, rootId, d, result, stack, pushLog)
      decreases |d - result|, |stack|
    {
      result, stack, pushLog := Visit(groups, active, childrenByParent, rootId, d, result, stack, pushLog);
    }
  }

  /**
   * One pass of the `while stack` loop: pop `cur` and push each of its
   * active children not seen yet. The invariant is kept and the measure drops.
   */
  method Visit(
    groups: seq<Group>, active: seq<Group>, childrenByParent: map<Option<GroupId>, seq<Group>>,
    rootId: GroupId, ghost d: set<GroupId>, result: set<GroupId>, stack: seq<GroupId>, ghost pushLog: seq<GroupId>)
    returns (result': set<GroupId>, stack': seq<GroupId>, ghost pushLog': seq<GroupId>)
    requires forall g :: g in active <==> g in groups && g.isActive
    requires Indexes(childrenByParent, active)
    requires WalkInv(groups, rootId, d, result, stack, pushLog) && |stack| > 0
    ensures WalkInv(groups, rootId, d, result', stack', pushLog')
    ensures |d - result'| < |d - result| || (result' == result && |stack'| < |stack|)
  {
    var cur := stack[|stack| - 1];
    var rest := stack[..|stack| - 1];
    PopKeeps(stack, result);
    var kids := Lookup(childrenByParent, Some(cur));
    IndexAt(childrenByParent, active, Some(cur));
    KidsAreActiveChildren(groups, active, cur, kids);
    result', stack', pushLog' := PushUnseenChildren(groups, cur, kids, result, rest, pushLog);
    WalkStep(groups, rootId, d, result, stack, cur, kids, pushLog, result', stack', pushLog');
    WalkMeasure(d, result, stack, result', stack');
  }

  /** The loop invariant of `_descendants_ids`. */
  ghost predicate WalkInv(
    groups: seq<Group>, rootId: GroupId, d: set<GroupId>,
    result: set<GroupId>, stack: seq<GroupId>, pushLog: seq<GroupId>)
  {
    && ClosedUnderLinks(groups, d)
    && rootId in result && result <= d
    && NoDup(stack) && (forall x :: x in stack ==> x in result)
    && NoDup(pushLog) && (forall x :: x in pushLog <==> x in result)
    && (forall p, c :: p in result && p !in stack && (p, c) in ActiveLinks(groups) ==> c in result)
  }

  /** Popping the top of a duplicate-free stack. */
  lemma PopKeeps(full: seq<GroupId>, result: set<GroupId>)
    requires |full| > 0 && NoDup(full) && forall x :: x in full ==> x in result
    ensures NoDup(full[..|full| - 1]) && forall x :: x in full[..|full| - 1] ==> x in result
    ensures full[|full| - 1] !in full[..|full| - 1]
  {
    var rest := full[..|full| - 1];
    assert forall k :: 0 <= k < |rest| ==> rest[k] == full[k];
  }

  /** The index lists for `cur` exactly its active children. */
  lemma KidsAreActiveChildren(groups: seq<Group>, active: seq<Group>, cur: GroupId, kids: seq<Group>)
    requires forall g :: g in active <==> g in groups && g.isActive
    requires kids == ChildrenOf(active, Some(cur))
    ensures forall g :: g in kids ==> (cur, g.id) in ActiveLinks(groups)
    ensures forall c :: (cur, c) in ActiveLinks(groups) ==> exists g :: g in kids && g.id == c
  {
    forall c | (cur, c) in ActiveLinks(groups) ensures exists g :: g in kids && g.id == c {
      var g :| g in groups && g.isActive && g.id == c && g.parentId == Some(cur);
      assert g in kids;
    }
  }

  /** One pass of the outer loop keeps the invariant and lowers the measure. */
  lemma WalkStep(
    groups: seq<Group>, rootId: GroupId, d: set<GroupId>,
    result: set<GroupId>, full: seq<GroupId>, cur: GroupId, kids: seq<Group>,
    pushLog: seq<GroupId>, result': set<GroupId>, stack': seq<GroupId>, pushLog': seq<GroupId>)
    requires WalkInv(groups, rootId, d, result, full, pushLog)
    requires |full| > 0 && cur == full[|full| - 1] && cur !in full[..|full| - 1]
    requires forall g :: g in kids ==> (cur, g.id) in ActiveLinks(groups)
    requires forall c :: (cur, c) in ActiveLinks(groups) ==> exists g :: g in kids && g.id == c
    requires result' == result + set g | g in kids :: g.id
    requires |stack'| >= |full| - 1 && stack'[..|full| - 1] == full[..|full| - 1]
    requires NoDup(stack') && forall x :: x in stack' ==> x in result'
    requires forall x :: x in stack'[|full| - 1..] <==> x in result' && x !in result
    requires NoDup(pushLog') && forall x :: x in pushLog' <==> x in result'
    ensures WalkInv(groups, rootId, d, result', stack', pushLog')
  {
    var rest := full[..|full| - 1];
    assert full == rest + [cur];
    assert cur in result;
    assert result' <= d by {
      forall g | g in kids ensures g.id in d {
        assert (cur, g.id) in ActiveLinks(groups);
      }
    }
    forall p, c | p in result' && p !in stack' && (p, c) in ActiveLinks(groups)
      ensures c in result'
    {
      if p == cur {
        var g :| g in kids && g.id == c;
      } else {
        assert p !in stack'[|full| - 1..] && p !in rest by {
          assert stack' == rest + stack'[|full| - 1..];
        }
        assert p in result && p !in full;
      }
    }
  }

  /** The measure of the outer loop: fewer unvisited descendants, or a shorter stack. */
  lemma WalkMeasure(
    d: set<GroupId>, result: set<GroupId>, full: seq<GroupId>, result': set<GroupId>, stack': seq<GroupId>)
    requires result <= result' <= d
    requires |full| > 0
    requires result' == result ==> stack' == full[..|full| - 1]
    ensures |d - result'| < |d - result| || (result' == result && |stack'| < |full|)
  {
    if result' != result {
      var x :| x in result' && x !in result;
      SubsetCard(d - result', (d - result) - {x});
    }
  }
  /**
   * The inner loop of `_descendants_ids`: each child of `cur` not yet in
   * `result` is added to it and pushed, in child order.
   */
  method PushUnseenChildren(
    groups: seq<Group>, cur: GroupId, kids: seq<Group>,
    result: set<GroupId>, stack: seq<GroupId>, ghost pushLog: seq<GroupId>)
    returns (result': set<GroupId>, stack': seq<GroupId>, ghost pushLog': seq<GroupId>)
    requires NoDup(stack) && forall x :: x in stack ==> x in result
    requires NoDup(pushLog) && forall x :: x in pushLog <==> x in result
    ensures result' == result + set g | g in kids :: g.id
    ensures |stack'| >= |stack| && stack'[..|stack|] == stack
    ensures NoDup(stack') && forall x :: x in stack' ==> x in result'
    ensures forall x :: x in stack'[|stack|..] <==> x in result' && x !in result
    ensures result' == result ==> stack' == stack
    ensures NoDup(pushLog') && forall x :: x in pushLog' <==> x in result'
  {
    result', stack', pushLog' := result, stack, pushLog;
    for j := 0 to |kids|
      invariant result' == result + set g | g in kids[..j] :: g.id
      invariant Pushed(result, stack, result', stack', pushLog')
    {
      var child := kids[j].id;
      assert kids[..j + 1] == kids[..j] + [kids[j]];
      if child !in result' {
        PushOne(result, stack, result', stack', pushLog', child);
        result' := result' + {child};
        stack' := stack' + [child];
        pushLog' := pushLog' + [child];
      }
    }
    assert kids[..|kids|] == kids;
  }

  /**
   * What the walk keeps while it pushes: the old stack is a prefix, the stack
   * and the push log repeat nothing, and what lies above the old stack is
   * exactly what was added to `result`.
   */
  ghost predicate Pushed(result: set<GroupId>, stack: seq<GroupId>,
                         result': set<GroupId>, stack': seq<GroupId>, pushLog': seq<GroupId>) {
    && |stack'| >= |stack| && stack'[..|stack|] == stack
    && NoDup(stack') && (forall x :: x in stack' ==> x in result')
    && (forall x :: x in stack'[|stack|..] <==> x in result' && x !in result)
    && (result' == result ==> stack' == stack)
    && NoDup(pushLog') && (forall x :: x in pushLog' <==> x in result')
  }

  /** Pushing an id not yet in `result'` keeps `Pushed`. */
  lemma PushOne(result: set<GroupId>, stack: seq<GroupId>,
                result': set<GroupId>, stack': seq<GroupId>, pushLog': seq<GroupId>, child: GroupId)
    requires Pushed(result, stack, result', stack', pushLog') && child !in result'
    requires result <= result'
    ensures Pushed(result, stack, result' + {child}, stack' + [child], pushLog' + [child])
  {
    var st := stack' + [child];
    assert st[|stack|..] == stack'[|stack|..] + [child];
    assert st[..|stack|] == stack'[..|stack|];
    NoDupSnoc(stack', child);
    NoDupSnoc(pushLog', child);
  }

  /** The `/groups` response: the top-level groups, or the whole tree. */
  datatype GroupListing = Flat(tops: seq<Group>) | Nested(roots: seq<GroupTree>)

  /**
   * `list_groups`: without `tree`, the active groups that have no parent, in
   * row order; with it, the tree `_build_tree` makes of the active groups.
   */
  method ListGroups(groups: seq<Group>, tree: bool) returns (listing: GroupListing)
    ensures !tree ==> listing.Flat? && listing.tops == ChildrenOf(ActiveGroups(groups), None)
    ensures !tree ==> forall g :: g in listing.tops <==> g in groups && g.isActive && g.parentId == None
    ensures tree ==> listing.Nested?
    ensures tree ==> RootedAt(listing.roots, ChildrenOf(ActiveGroups(groups), None))
    ensures tree ==> AllFaithful(listing.roots, ActiveGroups(groups), |ActiveGroups(groups)|)
  {
    var rows := ActiveGroups(groups);
    if !tree {
      var tops := TopLevel(rows);
      return Flat(tops);
    }
    var roots := BuildTree(rows);
    return Nested(roots);
  }

  /** The `tops.append(g)` loop of `list_groups`: the rows without a parent, in row order. */
  method TopLevel(rows: seq<Group>) returns (tops: seq<Group>)
    ensures tops == ChildrenOf(rows, None)
  {
    tops := [];
    for i := 0 to |rows|
      invariant tops == ChildrenOf(rows[..i], None)
    {
      assert rows[..i + 1][..i] == rows[..i];
      if rows[i].parentId == None {
        tops := tops + [rows[i]];
      }
    }
    assert rows[..|rows|] == rows;
  }

  /** `list_children`: the active groups whose parent is `groupId`, in row order. */
  function ListChildren(groups: seq<Group>, groupId: GroupId): (rows: seq<Group>)
    ensures forall g :: g in rows <==> g in groups && g.isActive && g.parentId == Some(groupId)
  {
    ActiveChildren(groups, groupId)
  }

  /**
   * The record `/reports` is meant to send back for a report: its own fields
   * and its group, with the other fields of `ReportOut` at their defaults
   * (`is_public` true, no Power BI ids, no access levels).
   */
  datatype ReportOut = ReportOut(
    id: ReportId, name: string,
    titleDescription: Option<string>, description: Option<string>, imageUrl: Option<string>,
    groupId: GroupId, isPublic: bool)

  function ToReportOut(r: Report): ReportOut {
    ReportOut(r.id, r.name, r.titleDescription, r.description, r.imageUrl, r.groupId, true)
  }

  function ToReportOuts(rows: seq<Report>): (out: seq<ReportOut>)
    ensures |out| == |rows| && forall i :: 0 <= i < |rows| ==> out[i] == ToReportOut(rows[i])
  {
    seq(|rows|, i requires 0 <= i < |rows| => ToReportOut(rows[i]))
  }

  /** `.filter(Group.is_active == True, Group.name == groupId).first()`. */
  function ActiveGroupNamed(groups: seq<Group>, name: string): (r: Option<Group>)
    ensures r.None? <==> forall g :: g in groups ==> !(g.isActive && g.name == name)
    ensures r.Some? ==> r.value in groups && r.value.isActive && r.value.name == name
  {
    First(groups, (g: Group) => g.isActive && g.name == name)
  }

  /**
   * The reports `list_reports_by_group` selects for a set of group ids: the
   * active reports of those groups that the access rule admits, in report
   * order.
   */
  function ReportsUnder(db: Snapshot, ids: set<GroupId>, v: Viewer): (rows: seq<Report>)
    ensures Sorted(ReportLe, rows)
    ensures forall r :: r in rows <==> r in db.reports && r.groupId in ids && Admits(db, v, r)
  {
    var q := Filter(db.reports, (r: Report) => r.isActive && r.groupId in ids);
    ListedIffAdmitted(db, v, q);
    ListReportsFor(db, v, q)
  }

  /**
   * What the output loop of `list_reports_by_group` raises on its first row:
   * it reads `r.thumbnail_url`, which `Report` does not have, and it leaves
   * out `group_id`, which `ReportOut` requires. Nothing handles the error.
   */
  const ReportOutFailure := HttpError(500, "Internal Server Error")

  /** The rows `list_reports_by_group` selects for the active group of that name. */
  ghost function SelectedRows(db: Snapshot, g: Group, current: Viewer): (rows: seq<Report>)
    ensures forall r :: r in rows <==> r in db.reports && r.groupId in Descendants(db.groups, g.id) && Admits(db, current, r)
  {
    ReportsUnder(db, Descendants(db.groups, g.id), current)
  }

  /**
   * `list_reports_by_group` as written: `[]` when no active group has the
   * name or no report is selected, and a server error as soon as one is.
   */
  method ListReportsByGroup(db: Snapshot, groupName: string, current: Viewer)
    returns (r: Result<seq<ReportOut>, HttpError>)
    ensures ActiveGroupNamed(db.groups, groupName).None? ==> r == Ok([])
    ensures ActiveGroupNamed(db.groups, groupName).Some? ==>
      var rows := SelectedRows(db, ActiveGroupNamed(db.groups, groupName).value, current);
      && (rows == [] ==> r == Ok([]))
      && (rows != [] ==> r == Err(ReportOutFailure))
  {
    var g := ActiveGroupNamed(db.groups, groupName);
    if g.None? {
      return Ok([]);
    }
    ghost var pushLog;
    var groupIds;
    groupIds, pushLog := DescendantsIds(db.groups, g.value.id);
    var rows := ReportsUnder(db, groupIds, current);
    // The first `ReportOut(...)` of the output loop raises.
    if |rows| > 0 {
      return Err(ReportOutFailure);
    }
    r := Ok([]);
  }

  /**
   * `list_reports_by_group` as intended: nothing when no active group has the
   * name; otherwise one record per admitted report of that group's active
   * subtree, in report order.
   */
  method ListReportsByGroupFixed(db: Snapshot, groupName: string, current: Viewer) returns (out: seq<ReportOut>)
    ensures ActiveGroupNamed(db.groups, groupName).None? ==> out == []
    ensures ActiveGroupNamed(db.groups, groupName).Some? ==>
      out == ToReportOuts(SelectedRows(db, ActiveGroupNamed(db.groups, groupName).value, current))
  {
    var g := ActiveGroupNamed(db.groups, groupName);
    if g.None? {
      return [];
    }
    ghost var pushLog;
    var groupIds;
    groupIds, pushLog := DescendantsIds(db.groups, g.value.id);
    var rows := ReportsUnder(db, groupIds, current);
    out := BuildReportOuts(rows);
  }

  /**
   * An admitted report of the named group itself is enough to tell the two
   * apart: the endpoint as written fails, and the intended listing holds the
   * report's record.
   */
  lemma OwnReportBreaksListing(db: Snapshot, groupName: string, current: Viewer, rep: Report)
    requires ActiveGroupNamed(db.groups, groupName).Some?
    requires rep in db.reports && rep.groupId == ActiveGroupNamed(db.groups, groupName).value.id
    requires Admits(db, current, rep)
    ensures var rows := SelectedRows(db, ActiveGroupNamed(db.groups, groupName).value, current);
      rows != [] && ToReportOut(rep) in ToReportOuts(rows)
  {
    var rows := SelectedRows(db, ActiveGroupNamed(db.groups, groupName).value, current);
    assert rep in rows;
    var i :| 0 <= i < |rows| && rows[i] == rep;
    assert ToReportOuts(rows)[i] == ToReportOut(rep);
  }

  /** The `out.append(ReportOut(...))` loop of `list_reports_by_group`. */
  method BuildReportOuts(rows: seq<Report>) returns (out: seq<ReportOut>)
    ensures out == ToReportOuts(rows)
  {
    ghost var expected := ToReportOuts(rows);
    out := [];
    for i := 0 to |rows|
      invariant out == expected[..i]
    {
      out := out + [ToReportOut(rows[i])];
      assert out == expected[..i + 1];
    }
    assert out == expected;
  }
}
