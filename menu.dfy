/**
 * core/menu.py: the two-level navigation menu, made of the active root
 * groups with their active children, each level ordered by lower-cased name.
 */
module Menu {
  import opened Wrappers
  import opened Text
  import opened Query
  import opened Store
  import opened Forest

  /** The `{"id": ..., "name": ...}` item built for each row. */
  datatype MenuItem = MenuItem(id: GroupId, name: string)

  /** An entry of the result: a root item with its children. */
  datatype MenuEntry = MenuEntry(id: GroupId, name: string, children: seq<MenuItem>)

  function ItemOf(g: Group): MenuItem {
    MenuItem(g.id, g.name)
  }

  /** The items of `rows`, in row order. */
  function Items(rows: seq<Group>): (items: seq<MenuItem>)
    ensures |items| == |rows| && forall i :: 0 <= i < |rows| ==> items[i] == ItemOf(rows[i])
  {
    seq(|rows|, i requires 0 <= i < |rows| => ItemOf(rows[i]))
  }

  /** `key=lambda x: x["name"].lower()`. */
  predicate ItemLe(a: MenuItem, b: MenuItem) {
    LexLe(Lower(a.name), Lower(b.name))
  }

  lemma ItemLeIsTotalPreorder()
    ensures TotalPreorder(ItemLe)
  {
    forall a: MenuItem, b: MenuItem ensures ItemLe(a, b) || ItemLe(b, a) {
      LexLeTotal(Lower(a.name), Lower(b.name));
    }
    forall a: MenuItem, b: MenuItem, c: MenuItem | ItemLe(a, b) && ItemLe(b, c)
      ensures ItemLe(a, c)
    {
      LexLeTransitive(Lower(a.name), Lower(b.name), Lower(c.name));
    }
  }

  /** `list.sort(key=...)` on a list of items. */
  function SortItems(items: seq<MenuItem>): (r: seq<MenuItem>)
    ensures Sorted(ItemLe, r) && multiset(r) == multiset(items)
  {
    ItemLeIsTotalPreorder();
    SortBy(ItemLe, items)
  }

  /** `kids.get(key, [])`. */
  function Bucket(kids: map<GroupId, seq<MenuItem>>, key: GroupId): seq<MenuItem> {
    if key in kids then kids[key] else []
  }

  /**
   * The partition loop: items of parentless rows go to `parents`, the others
   * to the bucket of their parent, each in row order.
   */
  method Partition(rows: seq<Group>) returns (parents: seq<MenuItem>, kids: map<GroupId, seq<MenuItem>>)
    ensures parents == Items(ChildrenOf(rows, None))
    ensures Buckets(kids, rows)
  {
    parents, kids := [], map[];
    for i := 0 to |rows|
      invariant parents == Items(ChildrenOf(rows[..i], None))
      invariant Buckets(kids, rows[..i])
    {
      var g := rows[i];
      assert rows[..i + 1] == rows[..i] + [g];
      if g.parentId == None {
        RootStep(parents, kids, rows[..i], g);
        parents := parents + [ItemOf(g)];
      } else {
        KidStep(parents, kids, rows[..i], g);
        kids := kids[g.parentId.value := Bucket(kids, g.parentId.value) + [ItemOf(g)]];
      }
    }
    assert rows[..|rows|] == rows;
  }

  /** The bucket of `key` holds the items of the rows whose parent is `key`, in row order. */
  predicate BucketHolds(kids: map<GroupId, seq<MenuItem>>, rows: seq<Group>, key: GroupId) {
    Bucket(kids, key) == Items(ChildrenOf(rows, Some(key)))
  }

  /** Every bucket holds the items of its key's children, in row order. */
  ghost predicate Buckets(kids: map<GroupId, seq<MenuItem>>, rows: seq<Group>) {
    forall key :: BucketHolds(kids, rows, key)
  }

  lemma BucketAt(kids: map<GroupId, seq<MenuItem>>, rows: seq<Group>, key: GroupId)
    requires Buckets(kids, rows)
    ensures Bucket(kids, key) == Items(ChildrenOf(rows, Some(key)))
  {
    assert BucketHolds(kids, rows, key);
  }

  /** A parentless row extends `parents` and leaves every bucket as it was. */
  lemma RootStep(parents: seq<MenuItem>, kids: map<GroupId, seq<MenuItem>>, rows: seq<Group>, g: Group)
    requires g.parentId == None
    requires parents == Items(ChildrenOf(rows, None))
    requires Buckets(kids, rows)
    ensures parents + [ItemOf(g)] == Items(ChildrenOf(rows + [g], None))
    ensures Buckets(kids, rows + [g])
  {
    ItemsOfChildrenSnoc(rows, g, None);
    forall key ensures BucketHolds(kids, rows + [g], key) {
      assert BucketHolds(kids, rows, key);
      ItemsOfChildrenSnoc(rows, g, Some(key));
    }
  }

  /** A row with a parent extends that parent's bucket only. */
  lemma KidStep(parents: seq<MenuItem>, kids: map<GroupId, seq<MenuItem>>, rows: seq<Group>, g: Group)
    requires g.parentId != None
    requires parents == Items(ChildrenOf(rows, None))
    requires Buckets(kids, rows)
    ensures parents == Items(ChildrenOf(rows + [g], None))
    ensures Buckets(kids[g.parentId.value := Bucket(kids, g.parentId.value) + [ItemOf(g)]], rows + [g])
  {
    ItemsOfChildrenSnoc(rows, g, None);
    var p := g.parentId.value;
    var kids' := kids[p := Bucket(kids, p) + [ItemOf(g)]];
    forall key ensures BucketHolds(kids', rows + [g], key) {
      assert BucketHolds(kids, rows, key);
      ItemsOfChildrenSnoc(rows, g, Some(key));
      if key == p {
        assert Bucket(kids', key) == Bucket(kids, p) + [ItemOf(g)];
      } else {
        assert Bucket(kids', key) == Bucket(kids, key);
      }
    }
  }

  lemma ItemsOfChildrenSnoc(rows: seq<Group>, g: Group, key: Option<GroupId>)
    ensures Items(ChildrenOf(rows + [g], key)) ==
      Items(ChildrenOf(rows, key)) + (if g.parentId == key then [ItemOf(g)] else [])
  {
    assert (rows + [g])[..|rows|] == rows;
    var a := ChildrenOf(rows, key);
    assert ChildrenOf(rows + [g], key) == a + (if g.parentId == key then [g] else []);
  }

  /** The `for v in kids.values(): v.sort(...)` loop. */
  method SortBuckets(kids: map<GroupId, seq<MenuItem>>) returns (sorted: map<GroupId, seq<MenuItem>>)
    ensures sorted.Keys == kids.Keys
    ensures forall key :: key in kids ==>
      Sorted(ItemLe, sorted[key]) && multiset(sorted[key]) == multiset(kids[key])
  {
    sorted := kids;
    var todo := kids.Keys;
    while todo != {}
      invariant todo <= kids.Keys && sorted.Keys == kids.Keys
      invariant forall key :: key in kids && key !in todo ==>
        Sorted(ItemLe, sorted[key]) && multiset(sorted[key]) == multiset(kids[key])
      invariant forall key :: key in todo ==> sorted[key] == kids[key]
      decreases |todo|
    {
      var key :| key in todo;
      sorted := sorted[key := SortItems(sorted[key])];
      todo := todo - {key};
    }
  }

  /**
   * `build_menu`: one entry per active root group, ordered by lower-cased
   * name, each holding the items of its active children in the same order.
   */
  method BuildMenu(groups: seq<Group>) returns (menu: seq<MenuEntry>)
    ensures Sorted(ItemLe, Heads(menu))
    ensures multiset(Heads(menu)) == multiset(Items(ChildrenOf(ActiveGroups(groups), None)))
    ensures forall i :: 0 <= i < |menu| ==>
      && Sorted(ItemLe, menu[i].children)
      && multiset(menu[i].children) == multiset(Items(ActiveChildren(groups, menu[i].id)))
  {
    var rows := ActiveGroups(groups);
    var roots, buckets := Partition(rows);
    var parents := SortItems(roots);
    var kids := SortBuckets(buckets);
    menu := Entries(parents, kids);
    forall i | 0 <= i < |menu|
      ensures Sorted(ItemLe, menu[i].children)
      ensures multiset(menu[i].children) == multiset(Items(ActiveChildren(groups, menu[i].id)))
    {
      SortedBucket(groups, buckets, kids, parents[i].id);
    }
  }

  /** `[{"id": p["id"], "name": p["name"], "children": kids.get(p["id"], [])} for p in parents]`. */
  function Entries(parents: seq<MenuItem>, kids: map<GroupId, seq<MenuItem>>): (menu: seq<MenuEntry>)
    ensures Heads(menu) == parents
    ensures forall i :: 0 <= i < |menu| ==> menu[i].id == parents[i].id && menu[i].children == Bucket(kids, parents[i].id)
  {
    var menu := seq(|parents|, i requires 0 <= i < |parents| =>
      MenuEntry(parents[i].id, parents[i].name, Bucket(kids, parents[i].id)));
    assert Heads(menu) == parents;
    menu
  }

  /** A sorted bucket holds the items of that group's active children. */
  lemma SortedBucket(groups: seq<Group>, buckets: map<GroupId, seq<MenuItem>>,
                     kids: map<GroupId, seq<MenuItem>>, key: GroupId)
    requires Buckets(buckets, ActiveGroups(groups))
    requires kids.Keys == buckets.Keys
    requires forall k :: k in buckets ==>
      Sorted(ItemLe, kids[k]) && multiset(kids[k]) == multiset(buckets[k])
    ensures Sorted(ItemLe, Bucket(kids, key))
    ensures multiset(Bucket(kids, key)) == multiset(Items(ActiveChildren(groups, key)))
  {
    BucketAt(buckets, ActiveGroups(groups), key);
    assert Bucket(buckets, key) == Items(ActiveChildren(groups, key));
  }

  /** The root items of a menu. */
  function Heads(menu: seq<MenuEntry>): (items: seq<MenuItem>)
    ensures |items| == |menu| && forall i :: 0 <= i < |menu| ==> items[i] == MenuItem(menu[i].id, menu[i].name)
  {
    seq(|menu|, i requires 0 <= i < |menu| => MenuItem(menu[i].id, menu[i].name))
  }

  /** An item is listed for `rows` iff some row carries its id and name. */
  lemma {:induction false} ItemsMembership(rows: seq<Group>, m: MenuItem)
    ensures m in Items(rows) <==> exists g :: g in rows && ItemOf(g) == m
  {
    if m in Items(rows) {
      var i :| 0 <= i < |rows| && Items(rows)[i] == m;
      assert rows[i] in rows;
    }
    if g :| g in rows && ItemOf(g) == m {
      var i :| 0 <= i < |rows| && rows[i] == g;
      assert Items(rows)[i] == m;
    }
  }

  /**
   * The root items of the menu are exactly the items of active groups without
   * a parent: an inactive group is never an entry.
   */
  lemma RootItemIff(groups: seq<Group>, m: MenuItem)
    ensures m in Items(ChildrenOf(ActiveGroups(groups), None)) <==>
      exists g :: g in groups && g.isActive && g.parentId == None && ItemOf(g) == m
  {
    ItemsMembership(ChildrenOf(ActiveGroups(groups), None), m);
  }

  /**
   * The child items listed under `id` are exactly the items of active groups
   * whose parent is `id`: a grandchild or an inactive group is never one.
   */
  lemma ChildItemIff(groups: seq<Group>, id: GroupId, m: MenuItem)
    ensures m in Items(ActiveChildren(groups, id)) <==>
      exists g :: g in groups && g.isActive && g.parentId == Some(id) && ItemOf(g) == m
  {
    ItemsMembership(ActiveChildren(groups, id), m);
  }
}
