/**
 * nies-front/src/components/SidebarTree.jsx: `containsId`, which tells
 * whether a node's subtree holds the node with a given id (ids compared as
 * JavaScript strings), and the two conditions of `Node` built on it: a node
 * starts open when its subtree holds the active id, and it renders its
 * children only when it has some and is open.
 */
module SidebarTree {

  /** The JavaScript values an id can take here (floating-point numbers other than NaN are not modelled). */
  datatype JsValue = Undefined | Null | Bool(b: bool) | Num(n: int) | NaN | Str(s: string)

  /**
   * A tree node as the `/groups?tree=true` response gives it. An absent
   * `children` field is the empty sequence: `node.children || []` and
   * `node.children && node.children.length > 0` treat the two alike.
   */
  datatype TreeNode = TreeNode(id: JsValue, name: string, children: seq<TreeNode>)

  /** JavaScript truthiness: `undefined`, `null`, `false`, `0`, `NaN` and `""` are falsy. */
  predicate Truthy(v: JsValue) {
    match v
    case Undefined => false
    case Null => false
    case Bool(b) => b
    case Num(n) => n != 0
    case NaN => false
    case Str(s) => s != ""
  }

  function DigitsOf(n: nat): (s: string)
    ensures |s| > 0 && forall i :: 0 <= i < |s| ==> '0' <= s[i] <= '9'
  {
    if n < 10 then [('0' as int + n) as char] else DigitsOf(n / 10) + [('0' as int + n % 10) as char]
  }

  /** `String(v)`. */
  function JsString(v: JsValue): string {
    match v
    case Undefined => "undefined"
    case Null => "null"
    case Bool(b) => if b then "true" else "false"
    case Num(n) => if n < 0 then "-" + DigitsOf(-n) else DigitsOf(n)
    case NaN => "NaN"
    case Str(s) => s
  }

  /** `String(node.id) === String(id)`: the node is the one `id` names. */
  predicate SameId(node: TreeNode, id: JsValue) {
    JsString(node.id) == JsString(id)
  }

  /** `containsId(node, id)`. */
  predicate ContainsId(node: TreeNode, id: JsValue)
    decreases node, 1
  {
    Truthy(id) && (SameId(node, id) || SomeContains(node.children, id))
  }

  /** `children.some((c) => containsId(c, id))`. */
  predicate SomeContains(children: seq<TreeNode>, id: JsValue)
    decreases children, 0
  {
    |children| > 0 && (ContainsId(children[0], id) || SomeContains(children[1..], id))
  }

  /** The nodes of a subtree, the node itself first, then each child's subtree in order. */
  function Subtree(node: TreeNode): (nodes: seq<TreeNode>)
    ensures |nodes| > 0 && nodes[0] == node
    decreases node, 1
  {
    [node] + Subtrees(node.children)
  }

  function Subtrees(children: seq<TreeNode>): seq<TreeNode>
    decreases children, 0
  {
    if |children| == 0 then [] else Subtree(children[0]) + Subtrees(children[1..])
  }

  /** `containsId` is false for every falsy id, whatever the tree. */
  lemma ContainsIdFalsy(node: TreeNode, id: JsValue)
    requires !Truthy(id)
    ensures !ContainsId(node, id)
  {
  }

  /**
   * Ids compare as strings: a node numbered `n` is found by the id spelled
   * as its decimal digits, and, unless `n` is the falsy 0, the other way round.
   */
  lemma NumberMatchesString(n: nat, name: string, children: seq<TreeNode>)
    ensures ContainsId(TreeNode(Num(n), name, children), Str(DigitsOf(n)))
    ensures n > 0 ==> ContainsId(TreeNode(Str(DigitsOf(n)), name, children), Num(n))
  {
  }

  /**
   * For a truthy id, `containsId` holds exactly when some node of the subtree
   * carries that id; absent children count as none.
   */
  lemma {:induction false} ContainsIdIffInSubtree(node: TreeNode, id: JsValue)
    requires Truthy(id)
    ensures ContainsId(node, id) <==> exists m :: m in Subtree(node) && SameId(m, id)
    decreases node, 1
  {
    SomeContainsIffInSubtrees(node.children, id);
    var rest := Subtrees(node.children);
    assert Subtree(node) == [node] + rest;
    if exists m :: m in Subtree(node) && SameId(m, id) {
      var m :| m in Subtree(node) && SameId(m, id);
      assert m == node || m in rest;
    }
  }

  lemma {:induction false} SomeContainsIffInSubtrees(children: seq<TreeNode>, id: JsValue)
    requires Truthy(id)
    ensures SomeContains(children, id) <==> exists m :: m in Subtrees(children) && SameId(m, id)
    decreases children, 0
  {
    if |children| > 0 {
      ContainsIdIffInSubtree(children[0], id);
      SomeContainsIffInSubtrees(children[1..], id);
      var a, b := Subtree(children[0]), Subtrees(children[1..]);
      assert Subtrees(children) == a + b;
      if exists m :: m in a + b && SameId(m, id) {
        var m :| m in a + b && SameId(m, id);
        assert m in a || m in b;
      }
    }
  }

  /** `SomeContains` holds exactly when some child contains the id. */
  lemma {:induction false} SomeContainsIffSome(children: seq<TreeNode>, id: JsValue)
    ensures SomeContains(children, id) <==> exists i :: 0 <= i < |children| && ContainsId(children[i], id)
    decreases children
  {
    if |children| > 0 {
      SomeContainsIffSome(children[1..], id);
      if exists i :: 0 <= i < |children| && ContainsId(children[i], id) {
        var i :| 0 <= i < |children| && ContainsId(children[i], id);
        if i > 0 {
          assert children[1..][i - 1] == children[i];
        }
      }
    }
  }

  /** If a child contains the id, so does its parent. */
  lemma ContainsIdUpward(parent: TreeNode, i: nat, id: JsValue)
    requires i < |parent.children| && ContainsId(parent.children[i], id)
    ensures ContainsId(parent, id)
  {
    SomeContainsIffSome(parent.children, id);
  }

  /** `path` descends from `path[0]`, each node a child of the one before. */
  predicate IsDescent(path: seq<TreeNode>) {
    forall k :: 0 <= k < |path| - 1 ==> path[k + 1] in path[k].children
  }

  /** `defaultOpen`: the node starts open when its subtree holds the active id. */
  predicate DefaultOpen(node: TreeNode, activeId: JsValue)
  {
    ContainsId(node, activeId)
  }

  /** Every node on the way down to the active node starts open. */
  lemma {:induction false} AncestorsOpenByDefault(path: seq<TreeNode>, activeId: JsValue)
    requires |path| > 0 && IsDescent(path)
    requires Truthy(activeId) && SameId(path[|path| - 1], activeId)
    ensures forall k :: 0 <= k < |path| ==> DefaultOpen(path[k], activeId)
    decreases |path|
  {
    if |path| > 1 {
      var tail := path[1..];
      assert IsDescent(tail) by {
        forall k | 0 <= k < |tail| - 1 ensures tail[k + 1] in tail[k].children {
          assert tail[k] == path[k + 1] && tail[k + 1] == path[k + 2];
        }
      }
      AncestorsOpenByDefault(tail, activeId);
      assert path[1] in path[0].children;
      var i :| 0 <= i < |path[0].children| && path[0].children[i] == path[1];
      assert tail[0] == path[1];
      ContainsIdUpward(path[0], i, activeId);
      forall k | 0 <= k < |path| ensures DefaultOpen(path[k], activeId) {
        if k > 0 { assert path[k] == tail[k - 1]; }
      }
    }
  }

  /** `hasChildren`: `node.children && node.children.length > 0`. */
  predicate HasChildren(node: TreeNode) {
    |node.children| > 0
  }

  /** `hasChildren && open`: the condition under which the children are rendered. */
  function RenderedChildren(node: TreeNode, open: bool): (shown: seq<TreeNode>)
    ensures |shown| > 0 <==> HasChildren(node) && open
    ensures |shown| > 0 ==> shown == node.children
  {
    if HasChildren(node) && open then node.children else []
  }

  /**
   * Whether the node with the active id is on screen when every node has its
   * default open state: the node itself, or a node below it whose parent
   * renders its children.
   */
  predicate ShownByDefault(node: TreeNode, activeId: JsValue)
    decreases node, 1
  {
    || SameId(node, activeId)
    || (|RenderedChildren(node, DefaultOpen(node, activeId))| > 0 && SomeShown(node.children, activeId))
  }

  predicate SomeShown(children: seq<TreeNode>, activeId: JsValue)
    decreases children, 0
  {
    |children| > 0 && (ShownByDefault(children[0], activeId) || SomeShown(children[1..], activeId))
  }

  /** Whenever the tree holds the active id, the active node is on screen from the start. */
  lemma {:induction false} ActiveNodeShown(node: TreeNode, activeId: JsValue)
    requires ContainsId(node, activeId)
    ensures ShownByDefault(node, activeId)
    decreases node, 1
  {
    if !SameId(node, activeId) {
      assert SomeContains(node.children, activeId);
      assert |RenderedChildren(node, true)| > 0;
      ActiveChildShown(node.children, activeId);
    }
  }

  lemma {:induction false} ActiveChildShown(children: seq<TreeNode>, activeId: JsValue)
    requires SomeContains(children, activeId)
    ensures SomeShown(children, activeId)
    decreases children, 0
  {
    if ContainsId(children[0], activeId) {
      ActiveNodeShown(children[0], activeId);
    } else {
      ActiveChildShown(children[1..], activeId);
    }
  }
}
