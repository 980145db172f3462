/**
 * The AVL tree of the tree visualiser as the source keeps it: `Node` objects
 * whose `left`, `right`, `val` and `height` fields are rewritten in place.
 *
 * Every node carries two ghost fields: `Repr`, the objects of its subtree, and
 * `Model`, the subtree as an `AvlTree.Tree` value. `Valid()` ties both to the
 * real fields; each method below is proved to leave exactly the subtree that
 * the corresponding function of module AvlTree returns, so everything proved
 * there (search order, balance, heights, key sets) holds of the objects too.
 */
module AvlHeap {
  import opened AvlTree

  class TreeNode {
    var val: int
    var left: TreeNode?
    var right: TreeNode?
    var height: nat

    ghost var Repr: set<object>
    ghost var Model: Tree

    /** The subtree rooted here is well formed, owns its children exclusively and is described by `Model`. */
    ghost predicate Valid()
      reads this, Repr
      decreases Repr
    {
      && this in Repr
      && (left != null ==>
            left in Repr && left.Repr <= Repr && this !in left.Repr && left.Valid())
      && (right != null ==>
            right in Repr && right.Repr <= Repr && this !in right.Repr && right.Valid())
      && (left != null && right != null ==> left.Repr !! right.Repr)
      && Model == Node(ModelOf(left), val, ModelOf(right), height)
    }

    /**
     * The state of a node whose children were just re-linked: each child is a
     * valid subtree not containing this node, and the two are disjoint; this
     * node's own `Repr`, `Model` and `height` may be stale.
     */
    ghost predicate ChildrenValid()
      reads this, left, right, Footprint(left), Footprint(right)
    {
      && (left != null ==> this !in left.Repr && left.Valid())
      && (right != null ==> this !in right.Repr && right.Valid())
      && (left != null && right != null ==> left.Repr !! right.Repr)
    }

    /** The subtree this node stands for once its height is brought up to date. */
    ghost function Pending(): Tree
      reads this, left, right
    {
      Node(ModelOf(left), val, ModelOf(right), height)
    }

    /** `new Node(val)`: a leaf of height 1. */
    constructor (v: int)
      ensures Valid() && fresh(Repr) && Repr == {this}
      ensures Model == Node(Nil, v, Nil, 1)
      ensures left == null && right == null && val == v && height == 1
    {
      val := v;
      left := null;
      right := null;
      height := 1;
      Repr := {this};
      Model := Node(Nil, v, Nil, 1);
    }

    /**
     * `updateHeight(n)`: set the height to one more than the larger height of
     * the children. The ghost `Repr` and `Model` are brought up to date with it.
     */
    method UpdateHeight()
      requires ChildrenValid()
      modifies this
      ensures Valid()
      ensures left == old(left) && right == old(right) && val == old(val)
      ensures Model == AvlTree.UpdateHeight(old(Pending()))
      ensures Repr == {this} + Footprint(left) + Footprint(right)
    {
      height := Max(HeightOf(left), HeightOf(right)) + 1;
      Repr := {this} + Footprint(left) + Footprint(right);
      Model := Node(ModelOf(left), val, ModelOf(right), height);
    }
  }

  /** The objects of a possibly absent subtree. */
  ghost function Footprint(n: TreeNode?): set<object>
    reads n
  {
    if n == null then {} else n.Repr
  }

  /** The value of a possibly absent subtree. */
  ghost function ModelOf(n: TreeNode?): Tree
    reads n
  {
    if n == null then Nil else n.Model
  }

  /** `getHeight` on objects: the cached height, 0 for null. */
  function HeightOf(n: TreeNode?): nat
    reads n
  {
    if n == null then 0 else n.height
  }

  /** `getBalance` on objects: left height minus right height, 0 for null. */
  function BalanceOf(n: TreeNode?): int
    reads n, if n == null then {} else {n.left, n.right}
  {
    if n == null then 0 else HeightOf(n.left) - HeightOf(n.right)
  }

  /** The cached heights and balance read from the objects are those of the model. */
  lemma BalanceAgrees(n: TreeNode?)
    requires n != null ==> n.Valid()
    ensures HeightOf(n) == GetHeight(ModelOf(n)) && BalanceOf(n) == GetBalance(ModelOf(n))
  {
    if n != null {
      assert n.left != null ==> n.left.Valid();
      assert n.right != null ==> n.right.Valid();
    }
  }

  /**
   * `getMinValueNode(n)`: follow `left` links down to the node without a left
   * child.
   */
  method GetMinValueNode(n: TreeNode) returns (m: TreeNode)
    requires n.Valid()
    ensures m in n.Repr && m.Valid() && m.left == null
    ensures m.Model == Leftmost(n.Model) && m.val == Leftmost(n.Model).val
  {
    m := n;
    while m.left != null
      invariant m in n.Repr && m.Valid()
      invariant Leftmost(m.Model) == Leftmost(n.Model)
      decreases m.Repr
    {
      m := m.left;
    }
  }

  /**
   * `rightRotate(y)`: `x = y.left` becomes the root of the subtree, `y` its
   * right child, and x's former right subtree T2 becomes y's left; y's height
   * is updated before x's. The caller stores the returned node.
   */
  method RightRotate(y: TreeNode) returns (x: TreeNode)
    requires y.ChildrenValid() && y.left != null
    modifies y, y.left
    ensures x == old(y.left) && x.right == y && y.left == old(y.left.right)
    ensures x.Valid() && x.Repr <= {y} + old(Footprint(y.left) + Footprint(y.right))
    ensures x.Model == AvlTree.RightRotate(old(y.Pending()))
  {
    x := y.left;
    var t2 := x.right;
    x.right := y;
    y.left := t2;
    y.UpdateHeight();
    x.UpdateHeight();
  }

  /**
   * `leftRotate(x)`: `y = x.right` becomes the root of the subtree, `x` its
   * left child, and y's former left subtree T2 becomes x's right; x's height
   * is updated before y's. The caller stores the returned node.
   */
  method LeftRotate(x: TreeNode) returns (y: TreeNode)
    requires x.ChildrenValid() && x.right != null
    modifies x, x.right
    ensures y == old(x.right) && y.left == x && x.right == old(x.right.left)
    ensures y.Valid() && y.Repr <= {x} + old(Footprint(x.left) + Footprint(x.right))
    ensures y.Model == AvlTree.LeftRotate(old(x.Pending()))
  {
    y := x.right;
    var t2 := y.left;
    y.left := x;
    x.right := t2;
    x.UpdateHeight();
    y.UpdateHeight();
  }

  /** The Left-Right case: left rotation of `node.left`, stored back, then a right rotation of `node`. */
  method LeftRightCase(node: TreeNode) returns (r: TreeNode)
    requires node.Valid() && node.Model.left.Node? && node.Model.left.right.Node?
    modifies node.Repr
    ensures r.Valid() && r.Repr <= old(node.Repr)
    ensures r.Model == AvlTree.LeftRightCase(old(node.Model))
  {
    var l := LeftRotate(node.left);
    node.left := l;
    r := RightRotate(node);
  }

  /** The Right-Left case: right rotation of `node.right`, stored back, then a left rotation of `node`. */
  method RightLeftCase(node: TreeNode) returns (r: TreeNode)
    requires node.Valid() && node.Model.right.Node? && node.Model.right.left.Node?
    modifies node.Repr
    ensures r.Valid() && r.Repr <= old(node.Repr)
    ensures r.Model == AvlTree.RightLeftCase(old(node.Model))
  {
    var rt := RightRotate(node.right);
    node.right := rt;
    r := LeftRotate(node);
  }

  /**
   * The rebalancing step of `insertAsync` at one node on the way back up,
   * with the four cases tested in the source's order. The precondition is
   * that the source does not fail here, which `InsertCorrect` guarantees for
   * every AVL tree.
   */
  method InsertRebalance(node: TreeNode, v: int) returns (r: TreeNode)
    requires node.Valid() && AvlTree.InsertRebalance(node.Model, v).Some?
    modifies node.Repr
    ensures r.Valid() && r.Repr <= old(node.Repr)
    ensures r.Model == AvlTree.InsertRebalance(old(node.Model), v).value
  {
    var balance := BalanceOf(node);
    BalanceAgrees(node);
    if balance > 1 && v < node.left.val {
      r := RightRotate(node);
    } else if balance < -1 && v > node.right.val {
      r := LeftRotate(node);
    } else if balance > 1 && v > node.left.val {
      r := LeftRightCase(node);
    } else if balance < -1 && v < node.right.val {
      r := RightLeftCase(node);
    } else {
      r := node;
    }
  }

  /**
   * `insertAsync(node, val)`: descend by comparison, hang a new leaf where the
   * search falls off the tree, then update the height of and rebalance every
   * node on the way back up. A present key returns the node unchanged.
   */
  method InsertInto(node: TreeNode?, v: int) returns (r: TreeNode)
    requires node != null ==> node.Valid()
    requires AvlTree.Insert(ModelOf(node), v).Some?
    modifies Footprint(node)
    ensures r.Valid() && fresh(r.Repr - old(Footprint(node)))
    ensures Some(r.Model) == AvlTree.Insert(old(ModelOf(node)), v)
    decreases Footprint(node)
  {
    if node == null {
      r := new TreeNode(v);
      return;
    }
    if v < node.val {
      var l := InsertInto(node.left, v);
      node.left := l;
    } else if v > node.val {
      var rt := InsertInto(node.right, v);
      node.right := rt;
    } else {
      return node;
    }
    node.UpdateHeight();
    r := InsertRebalance(node, v);
  }

  /**
   * The rebalancing step of `deleteAsync` at one node on the way back up,
   * with the four cases tested in the source's order.
   */
  method DeleteRebalance(node: TreeNode) returns (r: TreeNode)
    requires node.Valid()
    modifies node.Repr
    ensures r.Valid() && r.Repr <= old(node.Repr)
    ensures r.Model == AvlTree.DeleteRebalance(old(node.Model))
  {
    var balance := BalanceOf(node);
    BalanceAgrees(node);
    BalanceAgrees(node.left);
    BalanceAgrees(node.right);
    if balance > 1 && BalanceOf(node.left) >= 0 {
      r := RightRotate(node);
    } else if balance > 1 && BalanceOf(node.left) < 0 {
      r := LeftRightCase(node);
    } else if balance < -1 && BalanceOf(node.right) <= 0 {
      r := LeftRotate(node);
    } else if balance < -1 && BalanceOf(node.right) > 0 {
      r := RightLeftCase(node);
    } else {
      r := node;
    }
  }

  /**
   * The two-children case of `deleteAsync`: the node takes the key of the
   * leftmost node of its right subtree, and that key is then deleted from the
   * right subtree. The node's own height is left for the caller to update.
   */
  method ReplaceBySuccessor(node: TreeNode)
    requires node.Valid() && node.left != null && node.Model.right.Node?
    modifies node, node.right.Repr
    ensures node.ChildrenValid() && node.left == old(node.left)
    ensures Footprint(node.right) <= old(node.right.Repr)
    ensures node.Pending() ==
      Node(old(node.Model.left), Leftmost(old(node.Model.right)).val,
           AvlTree.Delete(old(node.Model.right), Leftmost(old(node.Model.right)).val), old(node.height))
    decreases node.Repr, 0
  {
    var temp := GetMinValueNode(node.right);
    node.val := temp.val;
    var rt := DeleteFrom(node.right, temp.val);
    node.right := rt;
  }

  /**
   * `deleteAsync(node, val)`: descend by comparison; a found node with at most
   * one child is replaced by that child, a found node with two children takes
   * the key of the leftmost node of its right subtree, which is then deleted
   * from there; every node on the way back up is re-heighted and rebalanced.
   */
  method DeleteFrom(node: TreeNode?, v: int) returns (r: TreeNode?)
    requires node != null ==> node.Valid()
    modifies Footprint(node)
    ensures r != null ==> r.Valid() && r.Repr <= old(Footprint(node))
    ensures ModelOf(r) == AvlTree.Delete(old(ModelOf(node)), v)
    decreases Footprint(node), 1
  {
    if node == null {
      return null;
    }
    ghost var t := node.Model;
    if v < node.val {
      var l := DeleteFrom(node.left, v);
      node.left := l;
      assert node.Pending() == Node(AvlTree.Delete(t.left, v), t.val, t.right, t.height);
    } else if v > node.val {
      var rt := DeleteFrom(node.right, v);
      node.right := rt;
      assert node.Pending() == Node(t.left, t.val, AvlTree.Delete(t.right, v), t.height);
    } else if node.left == null || node.right == null {
      r := if node.left != null then node.left else node.right;
      return;
    } else {
      ReplaceBySuccessor(node);
    }
    assert AvlTree.Delete(t, v) == AvlTree.DeleteRebalance(AvlTree.UpdateHeight(node.Pending()));
    node.UpdateHeight();
    r := DeleteRebalance(node);
  }

  /**
   * The visualiser's tree: the global `root` that `uiInsert`, `uiDelete` and
   * `uiClear` reassign. Between operations it always holds an AVL tree.
   */
  class AvlRoot {
    var root: TreeNode?
    ghost var Repr: set<object>

    ghost predicate Valid()
      reads this, Repr
    {
      && this in Repr
      && (root != null ==> root in Repr && root.Repr <= Repr && this !in root.Repr && root.Valid())
      && IsAvl(ModelOf(root))
    }

    /** The keys currently in the tree. */
    ghost function Contents(): set<int>
      reads this, root
    {
      Keys(ModelOf(root))
    }

    /** `root = null`: the empty tree. */
    constructor ()
      ensures Valid() && fresh(Repr) && root == null && Contents() == {}
    {
      root := null;
      Repr := {this};
    }

    /** `root = await insertAsync(root, val)`. */
    method Insert(v: int)
      requires Valid()
      modifies Repr
      ensures Valid() && fresh(Repr - old(Repr))
      ensures Contents() == old(Contents()) + {v}
      ensures Some(ModelOf(root)) == AvlTree.Insert(old(ModelOf(root)), v)
    {
      InsertCorrect(ModelOf(root), v);
      var r := InsertInto(root, v);
      root := r;
      Repr := Repr + r.Repr;
    }

    /** `root = await deleteAsync(root, val)`. */
    method Delete(v: int)
      requires Valid()
      modifies Repr
      ensures Valid() && Repr <= old(Repr)
      ensures Contents() == old(Contents()) - {v}
      ensures ModelOf(root) == AvlTree.Delete(old(ModelOf(root)), v)
    {
      DeleteCorrect(ModelOf(root), v);
      var r := DeleteFrom(root, v);
      root := r;
    }
  }
}
