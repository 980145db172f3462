/**
 * The AVL tree of the tree visualiser, as values.
 *
 * A `Tree` is what a `Node` object of the visualiser and everything below it
 * hold: the key `val`, the two children (an absent child is `Nil`) and the
 * cached `height`. The functions here return the subtree a parent stores after
 * each step, exactly as `insertAsync` and `deleteAsync` return the node their
 * caller assigns to `node.left`, `node.right` or `root`. Module AvlHeap
 * performs the same steps in place on objects and is proved to agree with them.
 */
module AvlTree {

  datatype Tree = Nil | Node(left: Tree, val: int, right: Tree, height: nat)

  datatype Option<T> = None | Some(value: T)

  // ---------------------------------------------------------------------------
  // Reference definitions
  // ---------------------------------------------------------------------------

  /** The set of keys stored in a subtree. */
  function Keys(t: Tree): set<int>
  {
    match t
    case Nil => {}
    case Node(l, x, r, _) => Keys(l) + {x} + Keys(r)
  }

  /** The keys in in-order (left subtree, node, right subtree). */
  function InOrder(t: Tree): seq<int>
  {
    match t
    case Nil => []
    case Node(l, x, r, _) => InOrder(l) + [x] + InOrder(r)
  }

  /** The number of nodes. */
  function Size(t: Tree): nat
  {
    match t
    case Nil => 0
    case Node(l, _, r, _) => Size(l) + 1 + Size(r)
  }

  /** The height computed from the shape, independently of the cached fields. */
  function Height(t: Tree): nat
  {
    match t
    case Nil => 0
    case Node(l, _, r, _) => 1 + Max(Height(l), Height(r))
  }

  function Max(a: int, b: int): int { if a >= b then a else b }

  /** Binary-search-tree order: left keys < node key < right keys, at every node. */
  ghost predicate IsBst(t: Tree)
  {
    match t
    case Nil => true
    case Node(l, x, r, _) =>
      IsBst(l) && IsBst(r) &&
      (forall k :: k in Keys(l) ==> k < x) &&
      (forall k :: k in Keys(r) ==> x < k)
  }

  /** Every cached height is one more than the larger cached height of the children. */
  ghost predicate HeightsOk(t: Tree)
  {
    match t
    case Nil => true
    case Node(l, _, r, h) =>
      HeightsOk(l) && HeightsOk(r) && h == 1 + Max(GetHeight(l), GetHeight(r))
  }

  /** The two children of every node differ in cached height by at most one. */
  ghost predicate Balanced(t: Tree)
  {
    match t
    case Nil => true
    case Node(l, _, r, _) =>
      Balanced(l) && Balanced(r) && -1 <= GetHeight(l) - GetHeight(r) <= 1
  }

  /** The tree invariant the visualiser keeps between operations. */
  ghost predicate IsAvl(t: Tree)
  {
    IsBst(t) && HeightsOk(t) && Balanced(t)
  }

  // ---------------------------------------------------------------------------
  // Height and balance helpers
  // ---------------------------------------------------------------------------

  /** `getHeight`: the cached height, 0 for an absent subtree. */
  function GetHeight(t: Tree): nat
  {
    if t.Nil? then 0 else t.height
  }

  /** `getBalance`: left cached height minus right cached height, 0 for an absent subtree. */
  function GetBalance(t: Tree): int
  {
    if t.Nil? then 0 else GetHeight(t.left) - GetHeight(t.right)
  }

  /** On a tree whose cached heights are right, `getHeight` is the real height. */
  lemma {:induction false} CachedHeightIsHeight(t: Tree)
    requires HeightsOk(t)
    ensures GetHeight(t) == Height(t)
  {
    match t
    case Nil =>
    case Node(l, _, r, _) =>
      CachedHeightIsHeight(l);
      CachedHeightIsHeight(r);
  }

  /** `s` is `t` itself or a subtree hanging somewhere below it. */
  ghost predicate SubtreeOf(s: Tree, t: Tree)
  {
    s == t || (t.Node? && (SubtreeOf(s, t.left) || SubtreeOf(s, t.right)))
  }

  /** On a balanced tree, `getBalance` is -1, 0 or 1 at every node. */
  lemma {:induction false} BalancedBalance(t: Tree)
    requires Balanced(t)
    ensures forall s :: SubtreeOf(s, t) ==> Balanced(s) && -1 <= GetBalance(s) <= 1
  {
    match t
    case Nil =>
    case Node(l, _, r, _) =>
      BalancedBalance(l);
      BalancedBalance(r);
  }

  /** `updateHeight`: the node with its cached height recomputed from its children. */
  function UpdateHeight(t: Tree): Tree
    requires t.Node?
  {
    t.(height := Max(GetHeight(t.left), GetHeight(t.right)) + 1)
  }

  /**
   * `updateHeight` makes the node's cached height right once its children's
   * are, and changes nothing on a node whose cached height is already right.
   */
  lemma UpdateHeightFixes(t: Tree)
    requires t.Node?
    ensures UpdateHeight(t).left == t.left && UpdateHeight(t).val == t.val && UpdateHeight(t).right == t.right
    ensures HeightsOk(t.left) && HeightsOk(t.right) ==> HeightsOk(UpdateHeight(t))
    ensures HeightsOk(t) ==> UpdateHeight(t) == t
  {
  }

  /** The leftmost node of a non-empty subtree: where `getMinValueNode` stops. */
  function Leftmost(t: Tree): (m: Tree)
    requires t.Node?
    ensures m.Node? && m.left.Nil?
  {
    if t.left.Nil? then t else Leftmost(t.left)
  }

  /**
   * The leftmost node has no left child and holds the first key in in-order,
   * which in a search tree is the smallest key.
   */
  lemma {:induction false} LeftmostIsMin(t: Tree)
    requires t.Node?
    ensures |InOrder(t)| > 0 && Leftmost(t).val == InOrder(t)[0]
    ensures Leftmost(t).val in Keys(t)
    ensures IsBst(t) ==> forall k :: k in Keys(t) ==> Leftmost(t).val <= k
  {
    if t.left.Node? {
      LeftmostIsMin(t.left);
      assert IsBst(t) ==> IsBst(t.left);
    }
  }

  // ---------------------------------------------------------------------------
  // Rotations
  // ---------------------------------------------------------------------------

  /**
   * `rightRotate(y)`: x = y.left moves up, y moves down to x's right and takes
   * x's former right subtree T2 as its left; y's height is updated before x's.
   */
  function RightRotate(y: Tree): Tree
    requires y.Node? && y.left.Node?
  {
    var x := y.left;
    var t2 := x.right;
    var y' := UpdateHeight(Node(t2, y.val, y.right, y.height));
    UpdateHeight(Node(x.left, x.val, y', x.height))
  }

  /**
   * `leftRotate(x)`: y = x.right moves up, x moves down to y's left and takes
   * y's former left subtree T2 as its right; x's height is updated before y's.
   */
  function LeftRotate(x: Tree): Tree
    requires x.Node? && x.right.Node?
  {
    var y := x.right;
    var t2 := y.left;
    var x' := UpdateHeight(Node(x.left, x.val, t2, x.height));
    UpdateHeight(Node(x', y.val, y.right, y.height))
  }

  /**
   * A right rotation keeps the in-order sequence, hence the keys; the two
   * heights it recomputes are right when those of the three subtrees it
   * re-hangs are.
   */
  lemma RightRotateKeeps(y: Tree)
    requires y.Node? && y.left.Node?
    ensures InOrder(RightRotate(y)) == InOrder(y) && Keys(RightRotate(y)) == Keys(y)
    ensures HeightsOk(y.left.left) && HeightsOk(y.left.right) && HeightsOk(y.right) ==> HeightsOk(RightRotate(y))
  {
  }

  /** The mirror image for a left rotation. */
  lemma LeftRotateKeeps(x: Tree)
    requires x.Node? && x.right.Node?
    ensures InOrder(LeftRotate(x)) == InOrder(x) && Keys(LeftRotate(x)) == Keys(x)
    ensures HeightsOk(x.left) && HeightsOk(x.right.left) && HeightsOk(x.right.right) ==> HeightsOk(LeftRotate(x))
  {
  }

  /** A right rotation keeps the search order. */
  lemma RightRotateBst(y: Tree)
    requires y.Node? && y.left.Node? && IsBst(y)
    ensures IsBst(RightRotate(y))
  {
    var Node(x, yv, c, _) := y;
    var Node(a, xv, b, _) := x;
    assert IsBst(x);
    assert xv in Keys(x);
    var r := RightRotate(y);
    var y' := r.right;
    assert y' == Node(b, yv, c, y'.height);
    assert forall k :: k in Keys(y') ==> xv < k;
    assert r == Node(a, xv, y', r.height);
  }

  /** A left rotation keeps the search order. */
  lemma LeftRotateBst(x: Tree)
    requires x.Node? && x.right.Node? && IsBst(x)
    ensures IsBst(LeftRotate(x))
  {
    var Node(a, xv, y, _) := x;
    var Node(b, yv, c, _) := y;
    assert IsBst(y);
    assert yv in Keys(y);
    var r := LeftRotate(x);
    var x' := r.left;
    assert x' == Node(a, xv, b, x'.height);
    assert forall k :: k in Keys(x') ==> k < yv;
    assert r == Node(x', yv, c, r.height);
  }

  /**
   * A node two levels heavier on the left whose left child does not lean right
   * (the Left-Left case) is an AVL tree after one right rotation; the height
   * drops by one exactly when the left child leaned left.
   */
  lemma RightRotateRestores(n: Tree)
    requires n.Node? && n.left.Node? && IsBst(n) && HeightsOk(n)
    requires Balanced(n.left) && Balanced(n.right)
    requires GetBalance(n) == 2 && GetBalance(n.left) >= 0
    ensures IsAvl(RightRotate(n))
    ensures GetHeight(RightRotate(n)) == GetHeight(n) - (if GetBalance(n.left) == 1 then 1 else 0)
  {
    var l, a, b, rt := n.left, n.left.left, n.left.right, n.right;
    assert HeightsOk(l) && HeightsOk(a) && HeightsOk(b) && HeightsOk(rt);
    assert Balanced(a) && Balanced(b);
    RightRotateBst(n);
    RightRotateKeeps(n);
    var r := RightRotate(n);
    assert r.right == Node(b, n.val, rt, 1 + Max(GetHeight(b), GetHeight(rt)));
    assert Balanced(r.right);
  }

  /** The mirror image: the Right-Right case is fixed by one left rotation. */
  lemma LeftRotateRestores(n: Tree)
    requires n.Node? && n.right.Node? && IsBst(n) && HeightsOk(n)
    requires Balanced(n.left) && Balanced(n.right)
    requires GetBalance(n) == -2 && GetBalance(n.right) <= 0
    ensures IsAvl(LeftRotate(n))
    ensures GetHeight(LeftRotate(n)) == GetHeight(n) - (if GetBalance(n.right) == -1 then 1 else 0)
  {
    var rt, a, b, l := n.right, n.right.right, n.right.left, n.left;
    assert HeightsOk(rt) && HeightsOk(a) && HeightsOk(b) && HeightsOk(l);
    assert Balanced(a) && Balanced(b);
    LeftRotateBst(n);
    LeftRotateKeeps(n);
    var r := LeftRotate(n);
    assert r.left == Node(l, n.val, b, 1 + Max(GetHeight(l), GetHeight(b)));
    assert Balanced(r.left);
  }

  /** Left rotation of `n.left` stored back into `n`, then a right rotation of `n`. */
  function LeftRightCase(n: Tree): Tree
    requires n.Node? && n.left.Node? && n.left.right.Node?
  {
    RightRotate(n.(left := LeftRotate(n.left)))
  }

  /** Right rotation of `n.right` stored back into `n`, then a left rotation of `n`. */
  function RightLeftCase(n: Tree): Tree
    requires n.Node? && n.right.Node? && n.right.left.Node?
  {
    LeftRotate(n.(right := RightRotate(n.right)))
  }

  /** A double rotation keeps the in-order sequence and the keys, and lifts the inner grandchild. */
  lemma LeftRightCaseKeeps(n: Tree)
    requires n.Node? && n.left.Node? && n.left.right.Node?
    ensures LeftRightCase(n).Node? && LeftRightCase(n).val == n.left.right.val
    ensures InOrder(LeftRightCase(n)) == InOrder(n) && Keys(LeftRightCase(n)) == Keys(n)
  {
    LeftRotateKeeps(n.left);
    RightRotateKeeps(n.(left := LeftRotate(n.left)));
  }

  /** The mirror image for the Right-Left double rotation. */
  lemma RightLeftCaseKeeps(n: Tree)
    requires n.Node? && n.right.Node? && n.right.left.Node?
    ensures RightLeftCase(n).Node? && RightLeftCase(n).val == n.right.left.val
    ensures InOrder(RightLeftCase(n)) == InOrder(n) && Keys(RightLeftCase(n)) == Keys(n)
  {
    RightRotateKeeps(n.right);
    LeftRotateKeeps(n.(right := RightRotate(n.right)));
  }

  /** The Left-Right double rotation keeps the search order. */
  lemma LeftRightCaseBst(n: Tree)
    requires n.Node? && n.left.Node? && n.left.right.Node? && IsBst(n)
    ensures IsBst(LeftRightCase(n))
  {
    assert IsBst(n.left);
    LeftRotateBst(n.left);
    LeftRotateKeeps(n.left);
    RightRotateBst(n.(left := LeftRotate(n.left)));
  }

  /** The Right-Left double rotation keeps the search order. */
  lemma RightLeftCaseBst(n: Tree)
    requires n.Node? && n.right.Node? && n.right.left.Node? && IsBst(n)
    ensures IsBst(RightLeftCase(n))
  {
    assert IsBst(n.right);
    RightRotateBst(n.right);
    RightRotateKeeps(n.right);
    LeftRotateBst(n.(right := RightRotate(n.right)));
  }

  /**
   * A node two levels heavier on the left whose left child leans right (the
   * Left-Right case) is an AVL tree one level lower after the double rotation.
   */
  lemma LeftRightRestores(n: Tree)
    requires n.Node? && n.left.Node? && n.left.right.Node? && IsBst(n) && HeightsOk(n)
    requires Balanced(n.left) && Balanced(n.right)
    requires GetBalance(n) == 2 && GetBalance(n.left) == -1
    ensures IsAvl(LeftRightCase(n))
    ensures GetHeight(LeftRightCase(n)) == GetHeight(n) - 1
  {
    var l, a, b, rt := n.left, n.left.left, n.left.right, n.right;
    var b1, b2 := b.left, b.right;
    assert HeightsOk(l) && HeightsOk(b);
    assert Balanced(b);
    LeftRightCaseBst(n);
    var r := LeftRightCase(n);
    assert r.left == Node(a, l.val, b1, 1 + Max(GetHeight(a), GetHeight(b1)));
    assert r.right == Node(b2, n.val, rt, 1 + Max(GetHeight(b2), GetHeight(rt)));
  }

  /** The mirror image: the Right-Left case. */
  lemma RightLeftRestores(n: Tree)
    requires n.Node? && n.right.Node? && n.right.left.Node? && IsBst(n) && HeightsOk(n)
    requires Balanced(n.left) && Balanced(n.right)
    requires GetBalance(n) == -2 && GetBalance(n.right) == 1
    ensures IsAvl(RightLeftCase(n))
    ensures GetHeight(RightLeftCase(n)) == GetHeight(n) - 1
  {
    var rt, a, b, l := n.right, n.right.right, n.right.left, n.left;
    var b1, b2 := b.left, b.right;
    assert HeightsOk(rt) && HeightsOk(b);
    assert Balanced(b);
    RightLeftCaseBst(n);
    var r := RightLeftCase(n);
    assert r.left == Node(l, n.val, b1, 1 + Max(GetHeight(l), GetHeight(b1)));
    assert r.right == Node(b2, rt.val, a, 1 + Max(GetHeight(b2), GetHeight(a)));
  }

  // ---------------------------------------------------------------------------
  // Insertion
  // ---------------------------------------------------------------------------

  /**
   * The state of a node on the way back up from an insertion of `v`: the
   * children are AVL trees, the node's own height is fresh, and if the node
   * leans by two then `v` went into the heavy child, which leans the way `v` went.
   */
  ghost predicate InsertPending(n: Tree, v: int)
  {
    && n.Node? && IsBst(n) && HeightsOk(n)
    && Balanced(n.left) && Balanced(n.right)
    && -2 <= GetBalance(n) <= 2
    && (GetBalance(n) == 2 ==>
          && n.left.Node? && v in Keys(n.left) && v != n.left.val
          && (v < n.left.val ==> GetBalance(n.left) == 1)
          && (v > n.left.val ==> GetBalance(n.left) == -1))
    && (GetBalance(n) == -2 ==>
          && n.right.Node? && v in Keys(n.right) && v != n.right.val
          && (v > n.right.val ==> GetBalance(n.right) == -1)
          && (v < n.right.val ==> GetBalance(n.right) == 1))
  }

  /**
   * The four rotation cases of `insertAsync`, tried in the source's order.
   * `None` is the source's failure when a double rotation meets a missing
   * inner grandchild (a property read of `null`), which only a tree that is
   * not AVL can reach (for instance the right-leaning chain 0, 2, 4, 6 with
   * -1 inserted).
   */
  function InsertRebalance(n: Tree, v: int): Option<Tree>
    requires n.Node?
  {
    var balance := GetBalance(n);
    if balance > 1 && v < n.left.val then
      Some(RightRotate(n))
    else if balance < -1 && v > n.right.val then
      Some(LeftRotate(n))
    else if balance > 1 && v > n.left.val then
      if n.left.right.Nil? then None else Some(LeftRightCase(n))
    else if balance < -1 && v < n.right.val then
      if n.right.left.Nil? then None else Some(RightLeftCase(n))
    else
      Some(n)
  }

  /**
   * On the way back up from an insertion, rebalancing succeeds and gives an
   * AVL tree with the same keys: the node itself if it leans by at most one,
   * otherwise a tree one level lower.
   */
  lemma InsertRebalanceCorrect(n: Tree, v: int)
    requires InsertPending(n, v)
    ensures InsertRebalance(n, v).Some?
    ensures IsAvl(InsertRebalance(n, v).value) && Keys(InsertRebalance(n, v).value) == Keys(n)
    ensures -1 <= GetBalance(n) <= 1 ==> InsertRebalance(n, v) == Some(n)
    ensures GetBalance(n) == 2 || GetBalance(n) == -2 ==> GetHeight(InsertRebalance(n, v).value) == GetHeight(n) - 1
  {
    var balance := GetBalance(n);
    if balance > 1 && v < n.left.val {
      RightRotateRestores(n);
      RightRotateKeeps(n);
    } else if balance < -1 && v > n.right.val {
      LeftRotateRestores(n);
      LeftRotateKeeps(n);
    } else if balance > 1 && v > n.left.val {
      LeftRightRestores(n);
      LeftRightCaseKeeps(n);
    } else if balance < -1 && v < n.right.val {
      RightLeftRestores(n);
      RightLeftCaseKeeps(n);
    }
  }

  /**
   * What inserting `v` into the AVL tree `t` must give: an AVL tree holding one
   * key more (none more if `v` was present, in which case nothing changes),
   * at most one level taller, and if it did grow, the same root leaning
   * towards the side `v` went to.
   */
  ghost predicate InsertResult(t: Tree, v: int, r: Tree)
  {
    && IsAvl(r) && r.Node?
    && Keys(r) == Keys(t) + {v}
    && (GetHeight(r) == GetHeight(t) || GetHeight(r) == GetHeight(t) + 1)
    && (GetHeight(r) == GetHeight(t) + 1 && t.Node? ==>
          && r.val == t.val
          && (v < t.val ==> GetBalance(r) == 1)
          && (v > t.val ==> GetBalance(r) == -1))
    && (v in Keys(t) ==> r == t)
  }

  /**
   * `insertAsync(node, val)`: the subtree its caller stores after inserting `v`.
   * A present key leaves the subtree as it is; otherwise the new leaf has height 1
   * and every node on the way back up has its height updated and is rebalanced.
   */
  function Insert(t: Tree, v: int): Option<Tree>
    decreases t
  {
    match t
    case Nil => Some(Node(Nil, v, Nil, 1))
    case Node(l, x, rt, h) =>
      if v < x then
        match Insert(l, v)
        case None => None
        case Some(l') => InsertRebalance(UpdateHeight(Node(l', x, rt, h)), v)
      else if v > x then
        match Insert(rt, v)
        case None => None
        case Some(r') => InsertRebalance(UpdateHeight(Node(l, x, r', h)), v)
      else
        Some(t)
  }

  /** Insertion into an AVL tree never fails and gives the tree `InsertResult` describes. */
  lemma {:induction false} InsertCorrect(t: Tree, v: int)
    requires IsAvl(t)
    ensures Insert(t, v).Some? && InsertResult(t, v, Insert(t, v).value)
    decreases t
  {
    match t
    case Nil =>
    case Node(l, x, rt, _) =>
      if v < x {
        InsertCorrect(l, v);
        InsertLeftStep(t, v, Insert(l, v).value);
      } else if v > x {
        InsertCorrect(rt, v);
        InsertRightStep(t, v, Insert(rt, v).value);
      }
  }

  /** The way back up after inserting into the left subtree. */
  lemma InsertLeftStep(t: Tree, v: int, l': Tree)
    requires IsAvl(t) && t.Node? && v < t.val && InsertResult(t.left, v, l')
    ensures InsertRebalance(UpdateHeight(Node(l', t.val, t.right, t.height)), v).Some?
    ensures InsertResult(t, v, InsertRebalance(UpdateHeight(Node(l', t.val, t.right, t.height)), v).value)
  {
    var n := UpdateHeight(Node(l', t.val, t.right, t.height));
    UpdateHeightFixes(Node(l', t.val, t.right, t.height));
    assert IsBst(n);
    assert InsertPending(n, v);
    InsertRebalanceCorrect(n, v);
    if v in Keys(t) {
      assert v !in Keys(t.right) by { assert IsBst(t); }
      assert v in Keys(t.left);
      assert n == t;
    }
  }

  /** The way back up after inserting into the right subtree. */
  lemma InsertRightStep(t: Tree, v: int, r': Tree)
    requires IsAvl(t) && t.Node? && v > t.val && InsertResult(t.right, v, r')
    ensures InsertRebalance(UpdateHeight(Node(t.left, t.val, r', t.height)), v).Some?
    ensures InsertResult(t, v, InsertRebalance(UpdateHeight(Node(t.left, t.val, r', t.height)), v).value)
  {
    var n := UpdateHeight(Node(t.left, t.val, r', t.height));
    UpdateHeightFixes(Node(t.left, t.val, r', t.height));
    assert IsBst(n);
    assert InsertPending(n, v);
    InsertRebalanceCorrect(n, v);
    if v in Keys(t) {
      assert v !in Keys(t.left) by { assert IsBst(t); }
      assert v in Keys(t.right);
      assert n == t;
    }
  }

  // ---------------------------------------------------------------------------
  // Deletion
  // ---------------------------------------------------------------------------

  /**
   * The state of a node on the way back up from a deletion: the children are
   * AVL trees, the node's own height is fresh, and it leans by at most two.
   */
  ghost predicate DeletePending(n: Tree)
  {
    && n.Node? && IsBst(n) && HeightsOk(n)
    && Balanced(n.left) && Balanced(n.right)
    && -2 <= GetBalance(n) <= 2
  }

  /**
   * The four rotation cases of `deleteAsync`, tried in the source's order. A
   * child that does not lean at all is handled by a single rotation. Unlike
   * insertion, the cached heights alone guarantee that every child a rotation
   * reads is present.
   */
  function DeleteRebalance(n: Tree): Tree
    requires n.Node?
  {
    var balance := GetBalance(n);
    if balance > 1 && GetBalance(n.left) >= 0 then
      RightRotate(n)
    else if balance > 1 && GetBalance(n.left) < 0 then
      LeftRightCase(n)
    else if balance < -1 && GetBalance(n.right) <= 0 then
      LeftRotate(n)
    else if balance < -1 && GetBalance(n.right) > 0 then
      RightLeftCase(n)
    else
      n
  }

  /**
   * On the way back up from a deletion, rebalancing gives an AVL tree with the
   * same keys: the node itself if it leans by at most one, otherwise a tree at
   * most one level lower.
   */
  lemma DeleteRebalanceCorrect(n: Tree)
    requires DeletePending(n)
    ensures IsAvl(DeleteRebalance(n)) && Keys(DeleteRebalance(n)) == Keys(n)
    ensures -1 <= GetBalance(n) <= 1 ==> DeleteRebalance(n) == n
    ensures GetHeight(n) - 1 <= GetHeight(DeleteRebalance(n)) <= GetHeight(n)
  {
    var balance := GetBalance(n);
    if balance > 1 && GetBalance(n.left) >= 0 {
      RightRotateRestores(n);
      RightRotateKeeps(n);
    } else if balance > 1 && GetBalance(n.left) < 0 {
      BalancedBalance(n.left);
      assert SubtreeOf(n.left, n.left);
      LeftRightRestores(n);
      LeftRightCaseKeeps(n);
    } else if balance < -1 && GetBalance(n.right) <= 0 {
      LeftRotateRestores(n);
      LeftRotateKeeps(n);
    } else if balance < -1 && GetBalance(n.right) > 0 {
      BalancedBalance(n.right);
      assert SubtreeOf(n.right, n.right);
      RightLeftRestores(n);
      RightLeftCaseKeeps(n);
    }
  }

  /**
   * What deleting `v` from the AVL tree `t` must give: an AVL tree without `v`
   * and with every other key, at most one level lower, and `t` itself when `v`
   * was absent.
   */
  ghost predicate DeleteResult(t: Tree, v: int, r: Tree)
  {
    && IsAvl(r)
    && Keys(r) == Keys(t) - {v}
    && GetHeight(t) - 1 <= GetHeight(r) <= GetHeight(t)
    && (v !in Keys(t) ==> r == t)
  }

  /**
   * `deleteAsync(node, val)`: the subtree its caller stores after deleting `v`.
   * A node with at most one child is replaced by that child; a node with two
   * takes the key of its in-order successor, which is then deleted from the
   * right subtree; every node on the way back up is re-heighted and rebalanced.
   */
  function Delete(t: Tree, v: int): Tree
    decreases t
  {
    match t
    case Nil => Nil
    case Node(l, x, rt, h) =>
      if v < x then
        DeleteRebalance(UpdateHeight(Node(Delete(l, v), x, rt, h)))
      else if v > x then
        DeleteRebalance(UpdateHeight(Node(l, x, Delete(rt, v), h)))
      else if l.Nil? || rt.Nil? then
        if l.Node? then l else rt
      else
        var m := Leftmost(rt).val;
        DeleteRebalance(UpdateHeight(Node(l, m, Delete(rt, m), h)))
  }

  /** Deletion from an AVL tree gives the tree `DeleteResult` describes. */
  lemma {:induction false} DeleteCorrect(t: Tree, v: int)
    requires IsAvl(t)
    ensures DeleteResult(t, v, Delete(t, v))
    decreases t
  {
    match t
    case Nil =>
    case Node(l, x, rt, _) =>
      if v < x {
        DeleteCorrect(l, v);
        DeleteLeftStep(t, v, Delete(l, v));
      } else if v > x {
        DeleteCorrect(rt, v);
        DeleteRightStep(t, v, Delete(rt, v));
      } else if l.Nil? || rt.Nil? {
        DeleteSpliceStep(t);
      } else {
        var m := Leftmost(rt).val;
        DeleteCorrect(rt, m);
        DeleteSuccessorStep(t, Delete(rt, m));
      }
  }

  /** The way back up after deleting from the left subtree. */
  lemma DeleteLeftStep(t: Tree, v: int, l': Tree)
    requires IsAvl(t) && t.Node? && v < t.val && DeleteResult(t.left, v, l')
    ensures DeleteResult(t, v, DeleteRebalance(UpdateHeight(Node(l', t.val, t.right, t.height))))
  {
    var n := UpdateHeight(Node(l', t.val, t.right, t.height));
    UpdateHeightFixes(Node(l', t.val, t.right, t.height));
    assert IsBst(n);
    assert DeletePending(n);
    DeleteRebalanceCorrect(n);
    assert v !in Keys(t.right) by { assert IsBst(t); }
    if v !in Keys(t) {
      assert n == t;
    }
  }

  /** The way back up after deleting from the right subtree. */
  lemma DeleteRightStep(t: Tree, v: int, r': Tree)
    requires IsAvl(t) && t.Node? && v > t.val && DeleteResult(t.right, v, r')
    ensures DeleteResult(t, v, DeleteRebalance(UpdateHeight(Node(t.left, t.val, r', t.height))))
  {
    var n := UpdateHeight(Node(t.left, t.val, r', t.height));
    UpdateHeightFixes(Node(t.left, t.val, r', t.height));
    assert IsBst(n);
    assert DeletePending(n);
    DeleteRebalanceCorrect(n);
    assert v !in Keys(t.left) by { assert IsBst(t); }
    if v !in Keys(t) {
      assert n == t;
    }
  }

  /** A found node with at most one child is replaced by that child (or by nothing). */
  lemma DeleteSpliceStep(t: Tree)
    requires IsAvl(t) && t.Node? && (t.left.Nil? || t.right.Nil?)
    ensures DeleteResult(t, t.val, if t.left.Node? then t.left else t.right)
  {
    assert IsBst(t);
  }

  /**
   * A found node with two children takes its successor's key; once that key
   * is deleted from the right subtree, the way back up is as for any deletion.
   */
  lemma DeleteSuccessorStep(t: Tree, r': Tree)
    requires IsAvl(t) && t.Node? && t.left.Node? && t.right.Node?
    requires DeleteResult(t.right, Leftmost(t.right).val, r')
    ensures DeleteResult(t, t.val, DeleteRebalance(UpdateHeight(Node(t.left, Leftmost(t.right).val, r', t.height))))
  {
    var m := Leftmost(t.right).val;
    LeftmostIsMin(t.right);
    assert IsBst(t) && IsBst(t.right);
    assert forall k :: k in Keys(t.left) ==> k < m;
    var n := UpdateHeight(Node(t.left, m, r', t.height));
    UpdateHeightFixes(Node(t.left, m, r', t.height));
    assert IsBst(n);
    assert Keys(n) == Keys(t) - {t.val};
    assert DeletePending(n);
    DeleteRebalanceCorrect(n);
  }

  // ---------------------------------------------------------------------------
  // Properties of the operations
  // ---------------------------------------------------------------------------

  /** A sequence of keys in strictly increasing order. */
  ghost predicate StrictlyIncreasing(s: seq<int>)
  {
    forall i, j :: 0 <= i < j < |s| ==> s[i] < s[j]
  }

  /** The in-order walk visits exactly the keys of the tree. */
  lemma {:induction false} InOrderHasKeys(t: Tree)
    ensures forall k :: k in InOrder(t) <==> k in Keys(t)
  {
    match t
    case Nil =>
    case Node(l, _, r, _) =>
      InOrderHasKeys(l);
      InOrderHasKeys(r);
  }

  /**
   * `a + [x] + b` is strictly increasing exactly when `a` and `b` are and
   * every element of `a` is below `x` and every element of `b` above it.
   */
  lemma JoinIncreasing(a: seq<int>, x: int, b: seq<int>)
    ensures StrictlyIncreasing(a + [x] + b) <==>
      StrictlyIncreasing(a) && StrictlyIncreasing(b) &&
      (forall k :: k in a ==> k < x) && (forall k :: k in b ==> x < k)
  {
    var s := a + [x] + b;
    if StrictlyIncreasing(a) && StrictlyIncreasing(b) &&
       (forall k :: k in a ==> k < x) && (forall k :: k in b ==> x < k)
    {
      forall i, j | 0 <= i < j < |s|
        ensures s[i] < s[j]
      {
        if j < |a| {
          assert s[i] == a[i] && s[j] == a[j];
        } else if i > |a| {
          assert s[i] == b[i - |a| - 1] && s[j] == b[j - |a| - 1];
        } else if i == |a| {
          assert s[j] == b[j - |a| - 1] && s[j] in b;
        } else {
          assert s[i] == a[i] && s[i] in a;
          if j > |a| {
            assert s[j] == b[j - |a| - 1] && s[j] in b;
          }
        }
      }
    }
    if StrictlyIncreasing(s) {
      assert StrictlyIncreasing(a) by {
        forall i, j | 0 <= i < j < |a| ensures a[i] < a[j] {
          assert a[i] == s[i] && a[j] == s[j];
        }
      }
      assert StrictlyIncreasing(b) by {
        forall i, j | 0 <= i < j < |b| ensures b[i] < b[j] {
          assert b[i] == s[i + |a| + 1] && b[j] == s[j + |a| + 1];
        }
      }
      forall k | k in a ensures k < x {
        var i :| 0 <= i < |a| && a[i] == k;
        assert s[i] == k && s[|a|] == x;
      }
      forall k | k in b ensures x < k {
        var i :| 0 <= i < |b| && b[i] == k;
        assert s[i + |a| + 1] == k && s[|a|] == x;
      }
    }
  }

  /** Search-tree order is exactly a strictly increasing in-order walk. */
  lemma {:induction false} BstIffSorted(t: Tree)
    ensures IsBst(t) <==> StrictlyIncreasing(InOrder(t))
  {
    match t
    case Nil =>
    case Node(l, x, r, _) =>
      BstIffSorted(l);
      BstIffSorted(r);
      InOrderHasKeys(l);
      InOrderHasKeys(r);
      JoinIncreasing(InOrder(l), x, InOrder(r));
  }

  /** In a search tree every key sits in exactly one node. */
  lemma {:induction false} BstSizeIsKeyCount(t: Tree)
    requires IsBst(t)
    ensures Size(t) == |Keys(t)|
  {
    match t
    case Nil =>
    case Node(l, x, r, _) =>
      BstSizeIsKeyCount(l);
      BstSizeIsKeyCount(r);
      assert x !in Keys(l) && x !in Keys(r);
      assert Keys(l) !! Keys(r) by {
        forall k | k in Keys(l) ensures k !in Keys(r) {
          assert k < x;
        }
      }
      assert |Keys(l) + {x}| == |Keys(l)| + 1;
  }

  /** Inserting a new key adds exactly one node; inserting a present key adds none. */
  lemma InsertSize(t: Tree, v: int)
    requires IsAvl(t)
    ensures Insert(t, v).Some?
    ensures Size(Insert(t, v).value) == if v in Keys(t) then Size(t) else Size(t) + 1
  {
    InsertCorrect(t, v);
    BstSizeIsKeyCount(t);
    BstSizeIsKeyCount(Insert(t, v).value);
  }

  /** Deleting a present key removes exactly one node; deleting an absent key removes none. */
  lemma DeleteSize(t: Tree, v: int)
    requires IsAvl(t)
    ensures Size(Delete(t, v)) == if v in Keys(t) then Size(t) - 1 else Size(t)
  {
    DeleteCorrect(t, v);
    BstSizeIsKeyCount(t);
    BstSizeIsKeyCount(Delete(t, v));
  }

  /** Inserting the same key twice is the same as inserting it once. */
  lemma InsertIdempotent(t: Tree, v: int)
    requires IsAvl(t)
    ensures Insert(t, v).Some? && Insert(Insert(t, v).value, v) == Insert(t, v)
  {
    InsertCorrect(t, v);
    InsertCorrect(Insert(t, v).value, v);
  }

  /** Deleting the same key twice is the same as deleting it once. */
  lemma DeleteIdempotent(t: Tree, v: int)
    requires IsAvl(t)
    ensures Delete(Delete(t, v), v) == Delete(t, v)
  {
    DeleteCorrect(t, v);
    DeleteCorrect(Delete(t, v), v);
  }

  /**
   * Deleting a key just inserted gives back an AVL tree with the original
   * keys; the tree need not have the original shape.
   */
  lemma DeleteUndoesInsert(t: Tree, v: int)
    requires IsAvl(t) && v !in Keys(t)
    ensures Insert(t, v).Some?
    ensures IsAvl(Delete(Insert(t, v).value, v)) && Keys(Delete(Insert(t, v).value, v)) == Keys(t)
  {
    InsertCorrect(t, v);
    DeleteCorrect(Insert(t, v).value, v);
  }

  /** Inserting a key just deleted gives back an AVL tree with the original keys. */
  lemma InsertUndoesDelete(t: Tree, v: int)
    requires IsAvl(t) && v in Keys(t)
    ensures Insert(Delete(t, v), v).Some?
    ensures IsAvl(Insert(Delete(t, v), v).value) && Keys(Insert(Delete(t, v), v).value) == Keys(t)
  {
    DeleteCorrect(t, v);
    InsertCorrect(Delete(t, v), v);
  }

  function Fib(n: nat): nat
  {
    if n < 2 then n else Fib(n - 1) + Fib(n - 2)
  }

  lemma {:induction false} FibMonotone(a: nat, b: nat)
    requires a <= b
    ensures Fib(a) <= Fib(b)
    decreases b
  {
    if a < b {
      FibMonotone(a, b - 1);
      if b >= 2 {
        assert Fib(b) == Fib(b - 1) + Fib(b - 2);
      }
    }
  }

  /**
   * An AVL tree is shallow: a tree of height h holds at least Fib(h + 2) - 1
   * nodes (the size of the sparsest AVL tree of that height), so its height
   * grows only logarithmically with its size.
   */
  lemma {:induction false} AvlHeightBound(t: Tree)
    requires HeightsOk(t) && Balanced(t)
    ensures Fib(Height(t) + 2) <= Size(t) + 1
  {
    match t
    case Nil =>
    case Node(l, _, r, _) =>
      AvlHeightBound(l);
      AvlHeightBound(r);
      CachedHeightIsHeight(l);
      CachedHeightIsHeight(r);
      var h, hl, hr := Height(t), Height(l), Height(r);
      if hl >= hr {
        FibMonotone(h, hr + 2);
      } else {
        FibMonotone(h, hl + 2);
      }
      assert Fib(h + 2) == Fib(h + 1) + Fib(h);
  }

  /** A single leaf, as `new Node(val)` creates it. */
  function Leaf(v: int): Tree
  {
    Node(Nil, v, Nil, 1)
  }
}
