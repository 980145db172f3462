/**
 * The drawing layout of the tree visualiser (`calculatePositions`): every node
 * gets its in-order rank, counted from 0, and is placed at
 * x = PADDING + rank * NODE_SPACING_X and y = PADDING + depth * NODE_SPACING_Y.
 */
module AvlLayout {
  import opened AvlTree

  const Padding: int := 60
  const SpacingX: int := 70
  const SpacingY: int := 90

  /** One placed node: its key, its in-order rank and its coordinates. */
  datatype Placed = Placed(val: int, rank: nat, x: int, y: int)

  /**
   * The nodes of `t` in in-order, ranked from `start` on (the running `index`
   * counter) and placed as if the root of `t` sat at depth `depth`.
   */
  function Layout(t: Tree, start: nat, depth: nat): seq<Placed>
  {
    match t
    case Nil => []
    case Node(l, v, r, _) =>
      var rank := start + Size(l);
      Layout(l, start, depth + 1)
      + [Placed(v, rank, Padding + rank * SpacingX, Padding + depth * SpacingY)]
      + Layout(r, rank + 1, depth + 1)
  }

  /** `calculatePositions(root)`: ranks from 0, the root at depth 0. */
  function CalculatePositions(t: Tree): seq<Placed>
  {
    Layout(t, 0, 0)
  }

  /**
   * The depth of the node of in-order rank `i`, found by descending from the
   * root: ranks below the left subtree's size lie to the left, the next rank
   * is the root itself, the rest lie to the right.
   */
  function DepthAt(t: Tree, i: nat): nat
    requires i < Size(t)
  {
    match t
    case Nil => 0
    case Node(l, _, r, _) =>
      if i < Size(l) then 1 + DepthAt(l, i)
      else if i == Size(l) then 0
      else 1 + DepthAt(r, i - Size(l) - 1)
  }

  /** Every node lies strictly above the tree's height: its depth is below it. */
  lemma {:induction false} DepthBelowHeight(t: Tree, i: nat)
    requires i < Size(t)
    ensures DepthAt(t, i) < Height(t)
  {
    match t
    case Nil =>
    case Node(l, _, r, _) =>
      if i < Size(l) {
        DepthBelowHeight(l, i);
      } else if i > Size(l) {
        DepthBelowHeight(r, i - Size(l) - 1);
      }
  }

  /**
   * The layout lists every node once, in in-order, with consecutive ranks
   * from `start`, the x coordinate given by the rank and the y coordinate
   * given by its depth below the subtree's root, itself at depth `depth`.
   */
  lemma {:induction false} LayoutFacts(t: Tree, start: nat, depth: nat)
    ensures |Layout(t, start, depth)| == Size(t) == |InOrder(t)|
    ensures forall i :: 0 <= i < |Layout(t, start, depth)| ==>
      && Layout(t, start, depth)[i].val == InOrder(t)[i]
      && Layout(t, start, depth)[i].rank == start + i
      && Layout(t, start, depth)[i].x == Padding + (start + i) * SpacingX
      && Layout(t, start, depth)[i].y == Padding + (depth + DepthAt(t, i)) * SpacingY
  {
    match t
    case Nil =>
    case Node(l, v, r, _) =>
      LayoutFacts(l, start, depth + 1);
      LayoutFacts(r, start + Size(l) + 1, depth + 1);
      var a := Layout(l, start, depth + 1);
      var b := Layout(r, start + Size(l) + 1, depth + 1);
      var ps := Layout(t, start, depth);
      var rank := start + Size(l);
      assert ps == a + [Placed(v, rank, Padding + rank * SpacingX, Padding + depth * SpacingY)] + b;
      forall i | 0 <= i < |ps|
        ensures ps[i].val == InOrder(t)[i] && ps[i].rank == start + i
        ensures ps[i].x == Padding + (start + i) * SpacingX
        ensures ps[i].y == Padding + (depth + DepthAt(t, i)) * SpacingY
      {
        if i < |a| {
          assert ps[i] == a[i];
        } else if i > |a| {
          assert ps[i] == b[i - |a| - 1];
          assert depth + DepthAt(t, i) == depth + 1 + DepthAt(r, i - |a| - 1);
        }
      }
  }

  /**
   * In the full layout the ranks are 0 .. n-1 along the in-order walk, so the
   * x coordinates strictly increase from left to right; every node is drawn
   * at y = PADDING + depth * NODE_SPACING_Y, the root at the top and every
   * node above the row of the tree's height.
   */
  lemma PositionsIncrease(t: Tree)
    ensures |CalculatePositions(t)| == Size(t) == |InOrder(t)|
    ensures forall i :: 0 <= i < |CalculatePositions(t)| ==>
      CalculatePositions(t)[i].rank == i && CalculatePositions(t)[i].val == InOrder(t)[i]
    ensures forall i, j :: 0 <= i < j < |CalculatePositions(t)| ==>
      CalculatePositions(t)[i].x < CalculatePositions(t)[j].x
    ensures forall i :: 0 <= i < |CalculatePositions(t)| ==>
      CalculatePositions(t)[i].y == Padding + DepthAt(t, i) * SpacingY
          < Padding + Height(t) * SpacingY
    ensures t.Node? ==> CalculatePositions(t)[Size(t.left)] == Placed(t.val, Size(t.left), Padding + Size(t.left) * SpacingX, Padding)
  {
    LayoutFacts(t, 0, 0);
    forall i | 0 <= i < Size(t) ensures DepthAt(t, i) < Height(t) {
      DepthBelowHeight(t, i);
    }
    if t.Node? {
      LayoutFacts(t.left, 0, 1);
      assert CalculatePositions(t)[Size(t.left)] == Placed(t.val, Size(t.left), Padding + Size(t.left) * SpacingX, Padding);
    }
  }
}
