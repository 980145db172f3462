# Dijkstra and AVL visualisers, modelled in Dafny

Two teaching visualisers share one repository. Each puts an animated page over a textbook algorithm:

- `dijkstra.js` lets the user draw an undirected graph with positive integer edge weights. It then runs Dijkstra's algorithm from a start label, optionally up to an end label, and rebuilds the shortest path from the `prev` links.
- `script.js` keeps an AVL tree of integers. Insertion and deletion are recursive, with the four rotation cases, and every node is drawn at a position computed from its in-order rank and depth.

This project models the algorithmic part of both and proves what they promise. The animation, the DOM and the pauses are left out.

- `dijkstra.dfy` (module `Dijkstra`) is imperative, as the source is.
  - A `Graph` object holds the node list, the edge list and the per-node search fields `dist`, `visited` and `prev`. The fields are kept as a `Mark` record per node id in the map `marks`.
  - The editing operations and the search are methods that update these fields in place.
  - The main loop picks any unvisited node of least distance, which is how the model treats the tie order of `sort`.
  - Distances are measured against an independent reference: walks along edges and their costs. The proofs show:
    - every visited node holds the least cost of any walk from the start;
    - a search that stops at `Infinity` leaves only unreachable nodes;
    - the reconstructed path is a walk of exactly the reported cost.
- `avl_tree.dfy` (module `AvlTree`) gives the AVL operations as functions on a `Tree` datatype. Each function returns the subtree the caller stores, just as `insertAsync` and `deleteAsync` do. Lemmas prove the search order, the balance, the cached heights and the key sets.
- `avl_heap.dfy` (module `AvlHeap`) performs the same steps in place on `TreeNode` objects, as the source does. Each method is proved to leave exactly the subtree that the matching function of `AvlTree` returns.
- `avl_layout.dfy` (module `AvlLayout`) models `calculatePositions`: in-order ranks from 0, x from the rank, y from the depth.

## Model

| member | source | states |
|---|---|---|
| Dijkstra.FirstIndex | dijkstra.js:298 | the position of the first element the test accepts, every earlier one rejected; `None` exactly when no element is accepted |
| Dijkstra.FindNode | dijkstra.js:424 | the position of the first node with the given id; `None` exactly when no node has that id |
| Dijkstra.FindByLabel | dijkstra.js:298-299 | the position of the first node with the given label; `None` exactly when no node carries it |
| Dijkstra.FindEdge | dijkstra.js:86-89 | the position of the first edge joining the two nodes in either orientation; `None` exactly when none does |
| Dijkstra.WithoutNode | dijkstra.js:52 | keeps exactly the nodes whose id differs, and ids stay unique |
| Dijkstra.RemoveKeepsFirstLabel | dijkstra.js:52 | after removing a node, the label lookup finds a node exactly when the old list had one with that label and another id, and finds the first such node in the old order |
| Dijkstra.FilterEdges | dijkstra.js:53 | keeps exactly the edges the test accepts, and at most one edge per pair of nodes is kept |
| Dijkstra.IncidentEdges | dijkstra.js:363 | exactly the edges with the given node at one end |
| Dijkstra.Graph.constructor | dijkstra.js:7-8 | an empty, well-formed graph |
| Dijkstra.Graph.AddNode | dijkstra.js:40-47 | appends the node unreached, unvisited and without predecessor; ids stay unique and the graph well formed |
| Dijkstra.Graph.RemoveNode | dijkstra.js:50-53 | the node's id is gone; every edge touching it is gone, and only those; its search fields are dropped |
| Dijkstra.Graph.AddEdge | dijkstra.js:84-100 | a self-loop or a non-positive weight changes nothing; an existing edge between the pair only gets the new weight; otherwise one edge is appended; afterwards an edge with that weight joins the pair, and there is never a second edge per pair |
| Dijkstra.Graph.RemoveEdge | dijkstra.js:104-108 | removes exactly the edges joining the pair, in both orientations |
| Dijkstra.Graph.GetLabel | dijkstra.js:112-115 | the label of the first node with that id, or `?` when there is none |
| Dijkstra.Graph.LabelledId | dijkstra.js:298-299 | the id of the first node carrying the label: a node of the graph with that label, no earlier node carrying it |
| Dijkstra.Graph.Reset | dijkstra.js:309-317 | every node at `Infinity`, unvisited and without predecessor, except the start at distance 0 |
| Dijkstra.Graph.Search | dijkstra.js:328-413 | the loop ends, removing one unvisited node per round; on exit every visited node holds its true shortest distance and every `prev` link is consistent; either the end node was visited or every unvisited node is at `Infinity` and unreachable; the search stops at the end node without relaxing its edges, so no node has it as predecessor, and no visited node is farther from the start than the end node |
| Dijkstra.Graph.Visit | dijkstra.js:342-360 | the chosen node of least distance, and only it, becomes visited; the search invariants hold except for its own edges, nodes stay visited in order of distance with it the farthest, and the end node stays no node's predecessor |
| Dijkstra.Graph.Relax | dijkstra.js:362-405 | a node changes only if it is unvisited and the new distance is strictly smaller, which then becomes its distance with the current node as its predecessor; visited nodes never change; afterwards every edge of the current node is relaxed |
| Dijkstra.Graph.ReconstructPath | dijkstra.js:420-426 | the path built back from the end starts at the start and ends at the end; consecutive nodes are joined by edges; it is a walk whose cost is the end's distance |
| Dijkstra.Graph.Run | dijkstra.js:291-456 | "too few nodes", "start not found" and "end not found" exactly in their cases, leaving every node's fields untouched; a reported path is a walk of least cost; "no path" only when none exists; without an end label, every node left unvisited is unreachable; a reported end node was visited, the search stopped there (it is no node's predecessor) and no visited node is farther from the start. When the end is the start, this model reports the one-node path of cost 0, where the source reports no path (see Findings) |
| Dijkstra.MinOf | dijkstra.js:332-333 | some unvisited node has the least tentative distance |
| Dijkstra.MinIsShortest | dijkstra.js:332-335 | the unvisited node of least finite distance is at the least cost of any walk from the start |
| Dijkstra.RestUnreachable | dijkstra.js:335-338 | once the least unvisited distance is `Infinity`, no unvisited node can be reached from the start |
| Dijkstra.VisitKeeps | dijkstra.js:360 | marking the selected node visited keeps every search invariant, except that its own edges are still to be relaxed |
| Dijkstra.VisitInOrder | dijkstra.js:332-360 | visiting an unvisited node of least distance keeps the nodes visited in order of distance and makes it the farthest visited node |
| Dijkstra.RelaxInOrder | dijkstra.js:363-386 | relaxing the edges of the farthest visited node, when it is not the end node, keeps the visiting order and leaves the end node no node's predecessor |
| Dijkstra.ImproveStep | dijkstra.js:380-386 | a strictly improving relaxation keeps the invariants and relaxes its edge |
| Dijkstra.SkipStep | dijkstra.js:368 | skipping a visited neighbour or one not improved keeps the invariants and still leaves the edge relaxed |
| Dijkstra.PrevLowersDist | dijkstra.js:384-385 | a node's predecessor is visited and strictly closer to the start, so the `prev` chain has no cycle |
| Dijkstra.PrevChainWalk | dijkstra.js:420-426 | following the `prev` links from any reached node gives a walk from the start that costs exactly its distance |
| Dijkstra.AsWrittenMissesStartAsEnd | dijkstra.js:416 | the program's test "`prev` is set" fails when the end node is the start node, although the start reaches itself by the empty walk; a direct consequence of the start having no predecessor, while the equivalence with reachability is proved for the corrected test by `Dijkstra.PathVerdictCorrect` |
| Dijkstra.StartLabel | dijkstra.js:296 | the start label is never empty: the typed label when there is one, otherwise the default `A` |
| Dijkstra.PathVerdictCorrect | dijkstra.js:416-455 | after the search, the corrected test (a predecessor, or end equal to start) holds exactly when some walk joins start and end |
| AvlTree.CachedHeightIsHeight | script.js:89 | with correct cached heights, `getHeight` is the height of the subtree, and 0 for an empty one |
| AvlTree.BalancedBalance | script.js:90 | in a balanced tree, every subtree is balanced and its `getBalance` lies between -1 and 1 |
| AvlTree.UpdateHeightFixes | script.js:91 | the height becomes one more than the taller child's; only the height changes |
| AvlTree.LeftmostIsMin | script.js:92-96 | the leftmost node has no left child and holds the first in-order key, the least key of a search tree |
| AvlTree.RightRotateKeeps | script.js:486-530 | right rotation keeps the in-order key sequence; heights are correct if the three moved subtrees' were |
| AvlTree.LeftRotateKeeps | script.js:536-580 | left rotation keeps the in-order key sequence; heights are correct if the three moved subtrees' were |
| AvlTree.RightRotateBst | script.js:486-530 | right rotation keeps search-tree order |
| AvlTree.LeftRotateBst | script.js:536-580 | left rotation keeps search-tree order |
| AvlTree.RightRotateRestores | script.js:771-776 | a node leaning two to the left, whose left child does not lean right, becomes AVL after one right rotation |
| AvlTree.LeftRotateRestores | script.js:788-793 | the mirror case, with a left rotation |
| AvlTree.LeftRightRestores | script.js:778-786 | a node leaning two to the left, whose left child leans right, becomes AVL after the double rotation and one level lower |
| AvlTree.RightLeftRestores | script.js:795-803 | the mirror double rotation |
| AvlTree.InsertRebalanceCorrect | script.js:648-693 | rebalancing after an insertion always succeeds with the same keys, and leaves a node that leans by at most one as it is |
| AvlTree.InsertCorrect | script.js:586-694 | insertion into an AVL tree gives an AVL tree with correct heights, holding the old keys plus the new one, at most one level taller, unchanged if the key was present |
| AvlTree.DeleteRebalanceCorrect | script.js:751-810 | rebalancing after a deletion, with the tie-breaks on the child's balance, gives an AVL tree with the same keys |
| AvlTree.DeleteCorrect | script.js:700-811 | deletion from an AVL tree gives an AVL tree holding the old keys minus the deleted one, at most one level lower, unchanged if the key was absent |
| AvlTree.DeleteSpliceStep | script.js:731-734 | a found node with at most one child is replaced by that child |
| AvlTree.DeleteSuccessorStep | script.js:736-743 | a found node with two children takes its in-order successor's key, which is then deleted from the right subtree |
| AvlTree.BstIffSorted | script.js:614-620 | search-tree order is the same as a strictly increasing in-order walk |
| AvlTree.InsertIdempotent | script.js:614-620 | inserting a key twice gives the same tree as once |
| AvlTree.DeleteIdempotent | script.js:701-704 | deleting a key twice gives the same tree as once |
| AvlTree.InsertSize | script.js:591-604 | insertion adds exactly one node for a new key and none for a present one |
| AvlTree.DeleteSize | script.js:731-743 | deletion removes exactly one node for a present key and none for an absent one |
| AvlTree.DeleteUndoesInsert | script.js:915-932 | deleting a key just inserted gives back an AVL tree with the original keys |
| AvlTree.InsertUndoesDelete | script.js:915-932 | inserting a key just deleted gives back an AVL tree with the original keys |
| AvlTree.AvlHeightBound | script.js:771-808 | an AVL tree of height h holds at least Fib(h + 2) - 1 nodes, so its height is logarithmic |
| AvlHeap.TreeNode.constructor | script.js:72-80 | a fresh leaf holding the value, both children null and height 1; its model is the one-node tree |
| AvlHeap.TreeNode.UpdateHeight | script.js:91 | writes the height `updateHeight` computes, and nothing else |
| AvlHeap.BalanceAgrees | script.js:89-90 | the height and balance read from the objects equal those of the modelled subtree |
| AvlHeap.GetMinValueNode | script.js:92-96 | walks down to the leftmost node of the subtree |
| AvlHeap.RightRotate | script.js:486-530 | returns the former left child as the new root, with `y` under it and `T2` under `y`; the result is the value-level right rotation |
| AvlHeap.LeftRotate | script.js:536-580 | returns the former right child as the new root, with `x` under it; the result is the value-level left rotation |
| AvlHeap.LeftRightCase | script.js:664-675 | rotates the left child left, stores it back, then rotates the node right |
| AvlHeap.RightLeftCase | script.js:676-686 | rotates the right child right, stores it back, then rotates the node left |
| AvlHeap.InsertRebalance | script.js:648-693 | in place, the four insertion cases agree with the value-level rebalance |
| AvlHeap.InsertInto | script.js:586-694 | the subtree returned in place is the value-level insertion; every new object is fresh |
| AvlHeap.DeleteRebalance | script.js:751-810 | in place, the four deletion cases agree with the value-level rebalance |
| AvlHeap.ReplaceBySuccessor | script.js:736-742 | copies the successor's key into the node and deletes it from the right subtree |
| AvlHeap.DeleteFrom | script.js:700-811 | the subtree returned in place is the value-level deletion |
| AvlHeap.AvlRoot.constructor | script.js:84 | the empty tree: root null, no keys, the invariant established |
| AvlHeap.AvlRoot.Insert | script.js:915 | the root's key set gains the value; the new tree is the value-level insertion |
| AvlHeap.AvlRoot.Delete | script.js:932 | the root's key set loses the value; the new tree is the value-level deletion |
| AvlLayout.DepthBelowHeight | script.js:831-836 | every node's depth below the root is less than the tree's height |
| AvlLayout.LayoutFacts | script.js:820-839 | the layout lists every node in in-order with consecutive ranks, x from the rank, and y from the node's depth, counted from the subtree root's depth |
| AvlLayout.PositionsIncrease | script.js:820-839 | ranks run 0..n-1 in in-order, x strictly increases along the in-order walk, every node sits at y = 60 + 90 times its depth (the root at 60), and every y lies above 60 + 90 times the tree's height |

## Left out

- Drawing, animation and pacing: the DOM, SVG overlays, badges, status texts, distance and detail tables, `sleep`/`await`, pan and zoom. None of them changes the data.
- Reading the inputs. The weight prompt and `parseInt` become an integer parameter of `AddEdge`; a non-positive value stands for a cancelled or non-numeric prompt. The start and end labels are parameters, already trimmed and upper-cased. Only the empty start label's default `A` is modelled.
- Node ids, labels and coordinates. `nextNodeId`, the `A + id % 26` label scheme and the x/y positions of graph nodes are not modelled; `AddNode` takes a fresh id and a label.
- Random graph generation and building a tree from a typed list: they depend on `Math.random` and JavaScript number parsing.
- The `isAnimating` guard that ignores a second run: it concerns concurrency between UI events.
- Dijkstra.Graph.Relax: the `!neighbor` test is not modelled, because every edge's two ends are nodes of the graph, so it never holds.
- Dijkstra.Graph.Run: the graph's numbers are unbounded integers; the floating-point sums of JavaScript are not modelled.
- Dijkstra.Graph.Run: reports the one-node path when the end is the start, where dijkstra.js:416 reports that there is none (see Findings).
- Dijkstra.Graph.Run: the tie order of `sort` is not modelled. Any unvisited node of least distance may be chosen, so a path of least cost is proved, not one specific path.
- The redundant re-linking through `findParent` and the global `root` inside `rightRotate`/`leftRotate`. The caller's own assignment of the returned subtree is modelled instead.
- AvlTree.InsertCorrect: proved for AVL trees with correct cached heights. On other trees the source can read a field of `null` in a double rotation; `Insert` returns `None` in that case, and nothing more is claimed.

## Findings

| source | as written | input that shows it | evidently intended | confidence | as-written member | corrected member |
|---|---|---|---|---|---|---|
| dijkstra.js:416 | a path is reported only when the end node has a predecessor | start label equal to end label: the start is visited first and has no predecessor, so "no path" is reported, although its distance is 0 | report the one-node path when the end is the start | not executed | Dijkstra.AsWrittenMissesStartAsEnd | Dijkstra.PathVerdictCorrect |
