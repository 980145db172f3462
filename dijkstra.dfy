/**
 * The Dijkstra visualiser: an undirected graph with positive integer edge
 * weights that the user edits, and a shortest-distance search from a start
 * node, optionally stopping at an end node, followed by reconstruction of
 * the path from the `prev` links.
 *
 * Each node object of the program carries its own `dist`, `visited` and
 * `prev` fields; here they are a `Mark` record per node, kept in a map
 * keyed by node id that is a field of the `Graph` object the search
 * updates in place.
 */
module Dijkstra {

  datatype Option<T> = None | Some(value: T)

  /** A tentative distance: a whole number, or `Infinity` for a node not reached. */
  datatype Dist = Fin(n: nat) | Inf

  /** `a <= b` on distances, `Infinity` lying above every number. */
  predicate DistLe(a: Dist, b: Dist)
  {
    b.Inf? || (a.Fin? && a.n <= b.n)
  }

  /** The candidate distance `alt` is strictly below `d`. */
  predicate Improves(alt: int, d: Dist)
  {
    d.Inf? || alt < d.n
  }

  /** A node as the graph lists it; its search state lives in the marks of `Graph`. */
  datatype NodeRec = NodeRec(id: nat, name: string)

  /** An undirected edge; `from` and `to` only record the order of the clicks. */
  datatype Edge = Edge(from: nat, to: nat, weight: int)

  /** Edge `e` connects `u` and `v`, in either orientation. */
  predicate Joins(e: Edge, u: nat, v: nat)
  {
    (e.from == u && e.to == v) || (e.from == v && e.to == u)
  }

  predicate Incident(e: Edge, u: nat)
  {
    e.from == u || e.to == u
  }

  /** The end of `e` that is not `u`. */
  function Other(e: Edge, u: nat): nat
  {
    if e.from == u then e.to else e.from
  }

  // ---------------------------------------------------------------------
  // Walks: the reference notion of distance the search is measured against
  // ---------------------------------------------------------------------

  /** `es` leads from `s` to `t`, each step along an edge of `edges`. */
  ghost predicate IsWalk(edges: seq<Edge>, s: nat, es: seq<Edge>, t: nat)
    decreases |es|
  {
    if |es| == 0 then s == t
    else es[0] in edges && Incident(es[0], s) && IsWalk(edges, Other(es[0], s), es[1..], t)
  }

  /** The total weight of a walk. */
  function Cost(es: seq<Edge>): int
  {
    if |es| == 0 then 0 else es[0].weight + Cost(es[1..])
  }

  /** The nodes a walk from `s` passes through, `s` first. */
  function NodesOf(s: nat, es: seq<Edge>): (ns: seq<nat>)
    ensures |ns| == |es| + 1 && ns[0] == s
    decreases |es|
  {
    if |es| == 0 then [s] else [s] + NodesOf(Other(es[0], s), es[1..])
  }

  /** No walk from `s` to `t` costs less than `d`. */
  ghost predicate IsLowerBound(edges: seq<Edge>, s: nat, t: nat, d: int)
  {
    forall es :: IsWalk(edges, s, es, t) ==> d <= Cost(es)
  }

  /** No walk at all leads from `s` to `t`. */
  ghost predicate Unreachable(edges: seq<Edge>, s: nat, t: nat)
  {
    forall es :: !IsWalk(edges, s, es, t)
  }

  ghost predicate PositiveWeights(edges: seq<Edge>)
  {
    forall e :: e in edges ==> e.weight > 0
  }

  /** A walk over positive weights never costs less than nothing. */
  lemma {:induction false} CostNonNegative(edges: seq<Edge>, s: nat, es: seq<Edge>, t: nat)
    requires PositiveWeights(edges) && IsWalk(edges, s, es, t)
    ensures Cost(es) >= |es|
    decreases |es|
  {
    if |es| > 0 {
      CostNonNegative(edges, Other(es[0], s), es[1..], t);
    }
  }

  /** Extending a walk by one more edge at its end. */
  lemma {:induction false} WalkAppend(edges: seq<Edge>, s: nat, es: seq<Edge>, x: nat, e: Edge)
    requires IsWalk(edges, s, es, x) && e in edges && Incident(e, x)
    ensures IsWalk(edges, s, es + [e], Other(e, x))
    ensures Cost(es + [e]) == Cost(es) + e.weight
    decreases |es|
  {
    if |es| > 0 {
      WalkAppend(edges, Other(es[0], s), es[1..], x, e);
      assert (es + [e])[1..] == es[1..] + [e];
    }
  }

  /** The node list of a walk starts at its start, ends at its end, and each
      step of the walk joins two consecutive nodes of the list. */
  lemma {:induction false} WalkShape(edges: seq<Edge>, s: nat, es: seq<Edge>, t: nat)
    requires IsWalk(edges, s, es, t)
    ensures NodesOf(s, es)[|es|] == t
    ensures forall i :: 0 <= i < |es| ==> es[i] in edges && Joins(es[i], NodesOf(s, es)[i], NodesOf(s, es)[i + 1])
    decreases |es|
  {
    if |es| > 0 {
      var y := Other(es[0], s);
      WalkShape(edges, y, es[1..], t);
      var ns := NodesOf(s, es);
      assert ns == [s] + NodesOf(y, es[1..]);
      forall i | 0 <= i < |es|
        ensures es[i] in edges && Joins(es[i], ns[i], ns[i + 1])
      {
        if i > 0 {
          assert es[i] == es[1..][i - 1];
        }
      }
    }
  }

  // ---------------------------------------------------------------------
  // Searches over the node and edge lists (`find` and `filter`)
  // ---------------------------------------------------------------------

  /** The position of the first element of `s` that `p` accepts, as `find` does. */
  function FirstIndex<T>(s: seq<T>, p: T -> bool): (r: Option<nat>)
    ensures r.Some? ==> r.value < |s| && p(s[r.value]) && forall j :: 0 <= j < r.value ==> !p(s[j])
    ensures r.None? <==> forall x :: x in s ==> !p(x)
  {
    if |s| == 0 then None
    else if p(s[0]) then Some(0)
    else match FirstIndex(s[1..], p)
      case None => None
      case Some(k) => Some(k + 1)
  }

  /** The position of the first node with id `id`. */
  function FindNode(ns: seq<NodeRec>, id: nat): (r: Option<nat>)
    ensures r.Some? ==> r.value < |ns| && ns[r.value].id == id
                        && forall j :: 0 <= j < r.value ==> ns[j].id != id
    ensures r.None? <==> forall n :: n in ns ==> n.id != id
  {
    FirstIndex(ns, (n: NodeRec) => n.id == id)
  }

  /** The position of the first node labelled `name`. */
  function FindByLabel(ns: seq<NodeRec>, name: string): (r: Option<nat>)
    ensures r.Some? ==> r.value < |ns| && ns[r.value].name == name
                        && forall j :: 0 <= j < r.value ==> ns[j].name != name
    ensures r.None? <==> forall n :: n in ns ==> n.name != name
  {
    FirstIndex(ns, (n: NodeRec) => n.name == name)
  }

  /** The position of the first edge joining `u` and `v`, in either orientation. */
  function FindEdge(es: seq<Edge>, u: nat, v: nat): (r: Option<nat>)
    ensures r.Some? ==> r.value < |es| && Joins(es[r.value], u, v)
                        && forall j :: 0 <= j < r.value ==> !Joins(es[j], u, v)
    ensures r.None? <==> forall e :: e in es ==> !Joins(e, u, v)
  {
    FirstIndex(es, (e: Edge) => Joins(e, u, v))
  }

  /** The nodes whose id is not `id`, in their order. */
  function WithoutNode(ns: seq<NodeRec>, id: nat): (r: seq<NodeRec>)
    ensures forall n :: n in r <==> n in ns && n.id != id
    ensures UniqueIds(ns) ==> UniqueIds(r)
  {
    if |ns| == 0 then []
    else
      var rest := WithoutNode(ns[1..], id);
      if ns[0].id == id then rest
      else
        assert UniqueIds(ns) ==> forall n :: n in rest ==> n.id != ns[0].id by {
          if UniqueIds(ns) {
            forall n | n in rest ensures n.id != ns[0].id {
              var k :| 1 <= k < |ns| && ns[k] == n;
            }
          }
        }
        [ns[0]] + rest
  }

  /** A search past a head that does not match lands one place further on. */
  lemma {:induction false} LabelPastHead(n: NodeRec, rest: seq<NodeRec>, name: string)
    requires n.name != name
    ensures FindByLabel([n] + rest, name)
            == if FindByLabel(rest, name).Some? then Some(FindByLabel(rest, name).value + 1) else None
  {
    assert ([n] + rest)[1..] == rest;
  }

  /** Removing a node keeps the order of the others: a label then names the
      first node of the old list that carries it and was not removed. */
  lemma {:induction false} RemoveKeepsFirstLabel(ns: seq<NodeRec>, id: nat, name: string)
    ensures FindByLabel(WithoutNode(ns, id), name).Some?
            <==> FirstIndex(ns, (n: NodeRec) => n.id != id && n.name == name).Some?
    ensures FindByLabel(WithoutNode(ns, id), name).Some? ==>
      WithoutNode(ns, id)[FindByLabel(WithoutNode(ns, id), name).value]
        == ns[FirstIndex(ns, (n: NodeRec) => n.id != id && n.name == name).value]
  {
    if |ns| > 0 {
      var kept := (n: NodeRec) => n.id != id && n.name == name;
      var r, rest := WithoutNode(ns, id), WithoutNode(ns[1..], id);
      RemoveKeepsFirstLabel(ns[1..], id, name);
      var f, g := FirstIndex(ns, kept), FirstIndex(ns[1..], kept);
      if ns[0].id == id {
        assert r == rest;
        assert f == if g.Some? then Some(g.value + 1) else None;
        if g.Some? {
          assert ns[f.value] == ns[1..][g.value];
        }
      } else if ns[0].name == name {
        assert r[0] == ns[0];
      } else {
        assert r == [ns[0]] + rest && r[1..] == rest;
        assert f == if g.Some? then Some(g.value + 1) else None;
        var h := FindByLabel(rest, name);
        LabelPastHead(ns[0], rest, name);
        if g.Some? {
          assert ns[f.value] == ns[1..][g.value];
          assert r[h.value + 1] == rest[h.value];
        }
      }
    }
  }

  /** The edges that `keep` accepts, in their order. */
  function FilterEdges(es: seq<Edge>, keep: Edge -> bool): (r: seq<Edge>)
    ensures forall e :: e in r <==> e in es && keep(e)
    ensures SimpleEdges(es) ==> SimpleEdges(r)
  {
    if |es| == 0 then []
    else
      var rest := FilterEdges(es[1..], keep);
      if !keep(es[0]) then rest
      else
        assert SimpleEdges(es) ==> forall e :: e in rest ==> !Joins(e, es[0].from, es[0].to) by {
          if SimpleEdges(es) {
            forall e | e in rest ensures !Joins(e, es[0].from, es[0].to) {
              var k :| 1 <= k < |es| && es[k] == e;
            }
          }
        }
        [es[0]] + rest
  }

  /** The edges touching node `u`, in their order. */
  function IncidentEdges(es: seq<Edge>, u: nat): (r: seq<Edge>)
    ensures forall e :: e in r <==> e in es && Incident(e, u)
  {
    FilterEdges(es, e => Incident(e, u))
  }

  predicate UniqueIds(ns: seq<NodeRec>)
  {
    forall i, j :: 0 <= i < j < |ns| ==> ns[i].id != ns[j].id
  }

  /** At most one edge between any two nodes. */
  predicate SimpleEdges(es: seq<Edge>)
  {
    forall i, j :: 0 <= i < j < |es| ==> !Joins(es[j], es[i].from, es[i].to)
  }

  /** The ids of a list of nodes. */
  function IdsOf(ns: seq<NodeRec>): set<nat>
  {
    set n | n in ns :: n.id
  }

  lemma IdsOfAppend(ns: seq<NodeRec>, n: NodeRec)
    ensures IdsOf(ns + [n]) == IdsOf(ns) + {n.id}
  {
    forall x | x in IdsOf(ns + [n]) ensures x in IdsOf(ns) + {n.id} {
      var m :| m in ns + [n] && m.id == x;
      if m != n {
        assert m in ns;
      }
    }
    forall x | x in IdsOf(ns) ensures x in IdsOf(ns + [n]) {
      var m :| m in ns && m.id == x;
      assert m in ns + [n];
    }
    assert n in ns + [n];
  }

  lemma IdsOfWithout(ns: seq<NodeRec>, id: nat)
    ensures IdsOf(WithoutNode(ns, id)) == IdsOf(ns) - {id}
  {
    forall x | x in IdsOf(ns) - {id} ensures x in IdsOf(WithoutNode(ns, id)) {
      var m :| m in ns && m.id == x;
      assert m in WithoutNode(ns, id);
    }
  }

  /** Changing one weight keeps at most one edge between any two nodes. */
  lemma SimpleReweigh(es: seq<Edge>, i: nat, w: int)
    requires SimpleEdges(es) && i < |es|
    ensures SimpleEdges(es[i := es[i].(weight := w)])
  {
    var es' := es[i := es[i].(weight := w)];
    forall a, b | 0 <= a < b < |es'| ensures !Joins(es'[b], es'[a].from, es'[a].to) {
      assert es'[a].from == es[a].from && es'[a].to == es[a].to;
      assert es'[b].from == es[b].from && es'[b].to == es[b].to;
    }
  }

  /** Appending an edge between two nodes not yet joined keeps the graph simple. */
  lemma SimpleAppend(es: seq<Edge>, e: Edge)
    requires SimpleEdges(es) && forall x :: x in es ==> !Joins(x, e.from, e.to)
    ensures SimpleEdges(es + [e])
  {
    var es' := es + [e];
    forall a, b | 0 <= a < b < |es'| ensures !Joins(es'[b], es'[a].from, es'[a].to) {
      if b == |es| {
        assert es'[a] in es;
      }
    }
  }

  // ---------------------------------------------------------------------
  // The state of a search
  // ---------------------------------------------------------------------

  /** The search fields every node carries: its tentative distance, whether
      it has been visited, and the node it was last reached from. */
  datatype Mark = Mark(dist: Dist, visited: bool, prev: Option<nat>)

  /** The marks of a node just created, or just reset before a search. */
  const Unreached := Mark(Inf, false, None)

  /** Every edge runs between marked nodes, with a positive weight. */
  ghost predicate WellFormed(edges: seq<Edge>, m: map<nat, Mark>)
  {
    forall e :: e in edges ==> e.from in m && e.to in m && e.weight > 0
  }

  /** Every visited node holds a finite distance that no walk from `s` undercuts. */
  ghost predicate Settled(edges: seq<Edge>, s: nat, m: map<nat, Mark>)
  {
    forall v :: v in m && m[v].visited ==> m[v].dist.Fin? && IsLowerBound(edges, s, v, m[v].dist.n)
  }

  /** `d` is finite and at most `du + w`, itself finite. */
  predicate Within(d: Dist, du: Dist, w: int)
  {
    du.Fin? && d.Fin? && d.n <= du.n + w
  }

  /** Edge `e` has been relaxed out of whichever of its ends is visited. */
  predicate Relaxed(e: Edge, m: map<nat, Mark>)
  {
    e.from in m && e.to in m ==>
      && (m[e.from].visited && !m[e.to].visited ==> Within(m[e.to].dist, m[e.from].dist, e.weight))
      && (m[e.to].visited && !m[e.from].visited ==> Within(m[e.from].dist, m[e.to].dist, e.weight))
  }

  /** Every edge leaving the visited nodes has been relaxed. */
  ghost predicate Frontier(edges: seq<Edge>, m: map<nat, Mark>)
  {
    forall e :: e in edges ==> Relaxed(e, m)
  }

  /** `v`'s predecessor `u` is visited, and `v`'s distance is `u`'s plus the
      weight of an edge joining them. */
  ghost predicate LinkOk(edges: seq<Edge>, m: map<nat, Mark>, u: nat, v: nat)
    requires v in m
  {
    && u in m && m[u].visited && m[u].dist.Fin? && m[v].dist.Fin?
    && exists e :: e in edges && Joins(e, u, v) && m[v].dist.n == m[u].dist.n + e.weight
  }

  /** The `prev` link of `v`: a node with a predecessor is linked to it, and
      a node without one other than the start is still at `Infinity`. */
  ghost predicate Linked(edges: seq<Edge>, s: nat, m: map<nat, Mark>, v: nat)
    requires v in m
  {
    match m[v].prev
    case None => v == s || m[v].dist.Inf?
    case Some(u) => LinkOk(edges, m, u, v)
  }

  /** The `prev` links: the start has distance 0 and no predecessor, and
      every node is linked. */
  ghost predicate PrevOk(edges: seq<Edge>, s: nat, m: map<nat, Mark>)
  {
    && s in m && m[s].dist == Fin(0) && m[s].prev == None
    && forall v {:trigger Linked(edges, s, m, v)} :: v in m ==> Linked(edges, s, m, v)
  }

  /** Every node left unvisited is at `Infinity` and out of reach of `s`. */
  ghost predicate Complete(edges: seq<Edge>, s: nat, m: map<nat, Mark>)
  {
    forall v :: v in m && !m[v].visited ==> m[v].dist.Inf? && Unreachable(edges, s, v)
  }

  /** The invariant of the main loop: well formed, settled, linked and
      relaxed. */
  ghost predicate Searching(edges: seq<Edge>, s: nat, m: map<nat, Mark>)
  {
    WellFormed(edges, m) && Settled(edges, s, m) && PrevOk(edges, s, m) && Frontier(edges, m)
  }

  /** Some node of `unvisited` has the least tentative distance (the head of
      the list sorted by distance). */
  lemma {:induction false} MinOf(unvisited: set<nat>, m: map<nat, Mark>) returns (c: nat)
    requires unvisited != {} && unvisited <= m.Keys
    ensures c in unvisited && forall u :: u in unvisited ==> DistLe(m[c].dist, m[u].dist)
    decreases |unvisited|
  {
    var x :| x in unvisited;
    if unvisited == {x} {
      c := x;
    } else {
      var y := MinOf(unvisited - {x}, m);
      c := if DistLe(m[x].dist, m[y].dist) then x else y;
    }
  }

  /** Following a walk from the visited node `x` (reached by `pre`) to the
      unvisited node `c`: the first unvisited node met has been relaxed to at
      most the cost so far, and `c`, least among the unvisited, to no more. */
  lemma {:induction false} FirstExit(edges: seq<Edge>, s: nat, m: map<nat, Mark>,
                                     c: nat, pre: seq<Edge>, x: nat, rest: seq<Edge>)
    requires WellFormed(edges, m) && Settled(edges, s, m) && Frontier(edges, m)
    requires c in m && !m[c].visited && m[c].dist.Fin?
    requires forall u :: u in m && !m[u].visited ==> DistLe(m[c].dist, m[u].dist)
    requires IsWalk(edges, s, pre, x) && x in m && m[x].visited && IsWalk(edges, x, rest, c)
    ensures m[c].dist.n <= Cost(pre) + Cost(rest)
    decreases |rest|
  {
    var e := rest[0];
    var y := Other(e, x);
    WalkAppend(edges, s, pre, x, e);
    if m[y].visited {
      FirstExit(edges, s, m, c, pre + [e], y, rest[1..]);
    } else {
      assert Relaxed(e, m);
      CostNonNegative(edges, y, rest[1..], c);
    }
  }

  /** The unvisited node of least distance is settled: no walk from the start
      reaches it more cheaply. */
  lemma MinIsShortest(edges: seq<Edge>, s: nat, m: map<nat, Mark>, c: nat)
    requires WellFormed(edges, m) && Settled(edges, s, m) && Frontier(edges, m)
    requires s in m && m[s].dist == Fin(0)
    requires c in m && !m[c].visited && m[c].dist.Fin?
    requires forall u :: u in m && !m[u].visited ==> DistLe(m[c].dist, m[u].dist)
    ensures IsLowerBound(edges, s, c, m[c].dist.n)
  {
    forall es | IsWalk(edges, s, es, c)
      ensures m[c].dist.n <= Cost(es)
    {
      if m[s].visited {
        FirstExit(edges, s, m, c, [], s, es);
      } else {
        CostNonNegative(edges, s, es, c);
      }
    }
  }

  /** A walk from a visited node to an unvisited one crosses an edge out of
      the visited nodes, whose far end therefore has a finite distance. */
  lemma {:induction false} Escape(edges: seq<Edge>, m: map<nat, Mark>, x: nat, rest: seq<Edge>, t: nat)
    returns (y: nat)
    requires WellFormed(edges, m) && Frontier(edges, m)
    requires x in m && m[x].visited && IsWalk(edges, x, rest, t) && t in m && !m[t].visited
    ensures y in m && !m[y].visited && m[y].dist.Fin?
    decreases |rest|
  {
    var e := rest[0];
    var z := Other(e, x);
    if m[z].visited {
      y := Escape(edges, m, z, rest[1..], t);
    } else {
      assert Relaxed(e, m);
      y := z;
    }
  }

  /** Once every unvisited node is at `Infinity`, none of them can be reached. */
  lemma RestUnreachable(edges: seq<Edge>, s: nat, m: map<nat, Mark>)
    requires WellFormed(edges, m) && Frontier(edges, m)
    requires s in m && m[s].dist == Fin(0)
    requires forall u :: u in m && !m[u].visited ==> m[u].dist.Inf?
    ensures Complete(edges, s, m)
  {
    forall v, es | v in m && !m[v].visited && IsWalk(edges, s, es, v)
      ensures false
    {
      var y := Escape(edges, m, s, es, v);
    }
  }

  /** Marking the settled node `c` visited keeps the invariants, except that
      the edges of `c` are still to be relaxed. */
  lemma VisitKeeps(edges: seq<Edge>, s: nat, m: map<nat, Mark>, c: nat, m': map<nat, Mark>)
    requires WellFormed(edges, m) && Settled(edges, s, m) && PrevOk(edges, s, m) && Frontier(edges, m)
    requires c in m && m[c].dist.Fin? && IsLowerBound(edges, s, c, m[c].dist.n)
    requires m' == m[c := m[c].(visited := true)]
    ensures WellFormed(edges, m') && m'.Keys == m.Keys
    ensures Settled(edges, s, m') && PrevOk(edges, s, m')
    ensures forall e :: e in edges && !Incident(e, c) ==> Relaxed(e, m')
  {
    forall v | v in m' ensures Linked(edges, s, m', v) {
      assert Linked(edges, s, m, v);
      assert m[v].prev == m'[v].prev;
      match m[v].prev
      case None =>
      case Some(u) =>
        assert LinkOk(edges, m, u, v);
        var e :| e in edges && Joins(e, u, v) && m[v].dist.n == m[u].dist.n + e.weight;
    }
    forall e | e in edges && !Incident(e, c) ensures Relaxed(e, m') {
      assert Relaxed(e, m);
    }
  }

  /** A relaxation step that improves the unvisited neighbour `Other(e, c)`
      of the visited node `c`, and the marks it produces. */
  ghost predicate StepOk(edges: seq<Edge>, m: map<nat, Mark>, c: nat, e: Edge, m': map<nat, Mark>)
  {
    && WellFormed(edges, m)
    && c in m && m[c].visited && m[c].dist.Fin? && e in edges && Incident(e, c)
    && Other(e, c) in m && !m[Other(e, c)].visited
    && Improves(m[c].dist.n + e.weight, m[Other(e, c)].dist)
    && m' == m[Other(e, c) := m[Other(e, c)].(dist := Fin(m[c].dist.n + e.weight), prev := Some(c))]
  }

  /** Nodes are visited in order of distance: no visited node is farther
      from the start than a node still waiting. */
  ghost predicate InOrder(m: map<nat, Mark>)
  {
    forall u, v :: u in m && v in m && m[u].visited && !m[v].visited ==> DistLe(m[u].dist, m[v].dist)
  }

  /** No node has the end node `end` as its predecessor: its edges have not
      been relaxed. */
  ghost predicate NotPast(m: map<nat, Mark>, end: Option<nat>)
  {
    end.Some? ==> forall v :: v in m ==> m[v].prev != Some(end.value)
  }

  /** The invariant of the main loop: `unvisited` holds exactly the nodes not
      yet visited, the marks are searching, nodes are visited in order of
      distance, and the end node is neither visited nor anyone's predecessor. */
  ghost predicate Exploring(edges: seq<Edge>, s: nat, m: map<nat, Mark>, unvisited: set<nat>, end: Option<nat>)
  {
    && unvisited <= m.Keys && (forall v :: v in m ==> (v in unvisited <==> !m[v].visited))
    && Searching(edges, s, m)
    && (end.Some? ==> end.value in m && !m[end.value].visited)
    && InOrder(m) && NotPast(m, end)
  }

  /** Visiting a node of least distance keeps the visiting order, and leaves
      it the farthest visited node. */
  lemma VisitInOrder(m: map<nat, Mark>, c: nat, m': map<nat, Mark>, end: Option<nat>)
    requires InOrder(m) && NotPast(m, end) && c in m && !m[c].visited
    requires forall u :: u in m && !m[u].visited ==> DistLe(m[c].dist, m[u].dist)
    requires m' == m[c := m[c].(visited := true)]
    ensures InOrder(m') && NotPast(m', end)
    ensures forall u :: u in m' && m'[u].visited ==> DistLe(m'[u].dist, m'[c].dist)
  {
  }

  /** The mark `after` of an unvisited node was strictly improved from
      `before` by the node `c`: a strictly smaller finite distance and `c`
      as predecessor; the node stays unvisited. */
  predicate Lowered(before: Mark, after: Mark, c: nat)
  {
    && !before.visited && !after.visited && after.prev == Some(c)
    && after.dist.Fin? && Improves(after.dist.n, before.dist)
  }

  /** Relaxing the edges of the farthest visited node `c` keeps the visiting
      order: a lowered neighbour ends up at `c`'s distance plus a positive
      weight. */
  lemma {:induction false} RelaxInOrder(edges: seq<Edge>, s: nat, m: map<nat, Mark>, m': map<nat, Mark>, c: nat,
                                        unvisited: set<nat>, end: Option<nat>)
    requires InOrder(m) && NotPast(m, end) && end != Some(c) && c in m && m[c].visited
    requires unvisited <= m.Keys && forall v :: v in m ==> (v in unvisited <==> !m[v].visited)
    requires end.Some? ==> end.value in m && !m[end.value].visited
    requires forall u :: u in m && m[u].visited ==> DistLe(m[u].dist, m[c].dist)
    requires m'.Keys == m.Keys && Searching(edges, s, m')
    requires forall v :: v in m' ==> m'[v] == m[v] || Lowered(m[v], m'[v], c)
    ensures Exploring(edges, s, m', unvisited, end)
  {
    forall u, v | u in m' && v in m' && m'[u].visited && !m'[v].visited
      ensures DistLe(m'[u].dist, m'[v].dist)
    {
      assert m'[u] == m[u];
      if m'[v] != m[v] {
        assert m'[c] == m[c];
        assert Linked(edges, s, m', v);
      }
    }
  }

  /** Improvements by `c` accumulate: a node improved again is still
      improved with respect to the marks before the first step. */
  lemma LoweredSince(o: map<nat, Mark>, m: map<nat, Mark>, c: nat, y: nat, m': map<nat, Mark>)
    requires forall v :: v in m ==> v in o && (m[v] == o[v] || Lowered(o[v], m[v], c))
    requires y in m && y in m' && m' == m[y := m'[y]] && Lowered(m[y], m'[y], c)
    ensures forall v :: v in m' ==> v in o && (m'[v] == o[v] || Lowered(o[v], m'[v], c))
  {
  }

  /** An improving step changes only an unvisited node, so the settled nodes
      stay settled. */
  lemma RelaxKeepsSettled(edges: seq<Edge>, s: nat, m: map<nat, Mark>, c: nat, e: Edge, m': map<nat, Mark>)
    requires StepOk(edges, m, c, e, m') && Settled(edges, s, m)
    ensures WellFormed(edges, m') && m'.Keys == m.Keys
    ensures Settled(edges, s, m')
    ensures forall v :: v in m ==> m'[v].visited == m[v].visited
  {
  }

  /** An improving step links the neighbour to `c` through `e`, and leaves
      every other link intact. */
  lemma RelaxKeepsLinks(edges: seq<Edge>, s: nat, m: map<nat, Mark>, c: nat, e: Edge, m': map<nat, Mark>)
    requires StepOk(edges, m, c, e, m') && PrevOk(edges, s, m)
    ensures PrevOk(edges, s, m')
  {
    var y := Other(e, c);
    assert y != s;
    forall v | v in m' ensures Linked(edges, s, m', v) {
      assert Linked(edges, s, m, v);
      if v == y {
        assert Joins(e, c, y);
      } else {
        match m[v].prev
        case None =>
        case Some(u) =>
          assert LinkOk(edges, m, u, v);
          var x :| x in edges && Joins(x, u, v) && m[v].dist.n == m[u].dist.n + x.weight;
      }
    }
  }

  /** An improving step only lowers an unvisited distance, so every edge
      already relaxed stays relaxed, and `e` itself becomes relaxed. */
  lemma RelaxKeepsRelaxed(edges: seq<Edge>, m: map<nat, Mark>, c: nat, e: Edge, done: seq<Edge>, m': map<nat, Mark>)
    requires StepOk(edges, m, c, e, m')
    requires forall x :: x in edges && !Incident(x, c) ==> Relaxed(x, m)
    requires forall x :: x in done ==> Relaxed(x, m)
    ensures forall x :: x in edges && !Incident(x, c) ==> Relaxed(x, m')
    ensures forall x :: x in done + [e] ==> Relaxed(x, m')
  {
  }

  /** A step that improves nothing (the neighbour is visited, or already at
      least as close) leaves `e` relaxed. */
  lemma KeepRelaxed(edges: seq<Edge>, m: map<nat, Mark>, c: nat, e: Edge, done: seq<Edge>)
    requires WellFormed(edges, m) && c in m && m[c].visited && m[c].dist.Fin? && e in edges && Incident(e, c)
    requires m[Other(e, c)].visited || !Improves(m[c].dist.n + e.weight, m[Other(e, c)].dist)
    requires forall x :: x in done ==> Relaxed(x, m)
    ensures forall x :: x in done + [e] ==> Relaxed(x, m)
  {
  }

  /** The invariant of the relaxation loop over the edges of `c`: the marks
      `m` keep the search invariants except that only the edges `done` of `c`
      are relaxed so far, and differ from the marks `o` before the loop only
      by improvements through `c`. */
  ghost predicate RelaxingFrom(edges: seq<Edge>, s: nat, o: map<nat, Mark>, m: map<nat, Mark>, c: nat, done: seq<Edge>)
  {
    && WellFormed(edges, m) && Settled(edges, s, m) && PrevOk(edges, s, m)
    && c in m && m[c].visited && m[c].dist.Fin?
    && (forall e :: e in edges && !Incident(e, c) ==> Relaxed(e, m))
    && (forall x :: x in done ==> Relaxed(x, m))
    && (forall v :: v in m ==> v in o && (m[v] == o[v] || Lowered(o[v], m[v], c)))
  }

  /** An improving step through the edge `e` of `c` keeps the loop invariant,
      with `e` now relaxed. */
  lemma ImproveStep(edges: seq<Edge>, s: nat, o: map<nat, Mark>, m: map<nat, Mark>, c: nat, e: Edge,
                    done: seq<Edge>, m': map<nat, Mark>)
    requires RelaxingFrom(edges, s, o, m, c, done) && StepOk(edges, m, c, e, m')
    ensures RelaxingFrom(edges, s, o, m', c, done + [e]) && m'.Keys == m.Keys
  {
    LoweredSince(o, m, c, Other(e, c), m');
    RelaxKeepsSettled(edges, s, m, c, e, m');
    RelaxKeepsLinks(edges, s, m, c, e, m');
    RelaxKeepsRelaxed(edges, m, c, e, done, m');
  }

  /** A step that changes nothing keeps the loop invariant, with `e` now relaxed. */
  lemma SkipStep(edges: seq<Edge>, s: nat, o: map<nat, Mark>, m: map<nat, Mark>, c: nat, e: Edge, done: seq<Edge>)
    requires RelaxingFrom(edges, s, o, m, c, done) && e in edges && Incident(e, c)
    requires m[Other(e, c)].visited || !Improves(m[c].dist.n + e.weight, m[Other(e, c)].dist)
    ensures RelaxingFrom(edges, s, o, m, c, done + [e])
  {
    KeepRelaxed(edges, m, c, e, done);
  }

  /** A walk from `s` to `v` along the `prev` links, costing `v`'s distance. */
  lemma {:induction false} PrevChainWalk(edges: seq<Edge>, s: nat, m: map<nat, Mark>, v: nat)
    returns (walk: seq<Edge>)
    requires WellFormed(edges, m) && PrevOk(edges, s, m)
    requires v in m && m[v].dist.Fin?
    ensures IsWalk(edges, s, walk, v) && Cost(walk) == m[v].dist.n
    decreases m[v].dist.n
  {
    assert Linked(edges, s, m, v);
    match m[v].prev
    case None =>
      walk := [];
    case Some(u) =>
      assert LinkOk(edges, m, u, v);
      var e :| e in edges && Joins(e, u, v) && m[v].dist.n == m[u].dist.n + e.weight;
      var w := PrevChainWalk(edges, s, m, u);
      WalkAppend(edges, s, w, u, e);
      walk := w + [e];
  }

  /** Each `prev` link steps to a node strictly closer to the start, so the
      chain of links has no cycle and the path reconstruction ends. */
  lemma PrevLowersDist(edges: seq<Edge>, s: nat, m: map<nat, Mark>, v: nat, u: nat)
    requires WellFormed(edges, m) && PrevOk(edges, s, m) && v in m && m[v].prev == Some(u)
    ensures u in m && m[u].visited && m[u].dist.Fin? && m[v].dist.Fin? && m[u].dist.n < m[v].dist.n
  {
    assert Linked(edges, s, m, v);
  }

  // ---------------------------------------------------------------------
  // The verdict on the end node
  // ---------------------------------------------------------------------

  /** The program's test for "a path was found": the end node has a predecessor. */
  predicate PathVerdictAsWritten(m: map<nat, Mark>, t: nat)
    requires t in m
  {
    m[t].prev.Some?
  }

  /** The test the model uses: the end node has a predecessor or is the start itself. */
  predicate PathVerdict(m: map<nat, Mark>, s: nat, t: nat)
    requires t in m
  {
    m[t].prev.Some? || t == s
  }

  /** When the end node is the start node, the program's test reports that no
      path exists, although the empty walk joins the start to itself. */
  lemma AsWrittenMissesStartAsEnd(edges: seq<Edge>, s: nat, m: map<nat, Mark>)
    requires PrevOk(edges, s, m)
    ensures !PathVerdictAsWritten(m, s)
    ensures !Unreachable(edges, s, s)
  {
    assert IsWalk(edges, s, [], s);
  }

  /** After a search that reached the end node or ran to completion, the
      corrected test says "path found" exactly when some walk joins start to end. */
  lemma PathVerdictCorrect(edges: seq<Edge>, s: nat, m: map<nat, Mark>, t: nat)
    requires WellFormed(edges, m) && Settled(edges, s, m) && PrevOk(edges, s, m)
    requires t in m && (m[t].visited || Complete(edges, s, m))
    ensures PathVerdict(m, s, t) <==> !Unreachable(edges, s, t)
  {
    assert Linked(edges, s, m, t);
    if PathVerdict(m, s, t) {
      var walk := PrevChainWalk(edges, s, m, t);
    }
  }

  /** What a run of the search reports. */
  datatype Outcome =
    | TooFewNodes
    | StartNotFound
    | EndNotFound
    | ShortestPath(path: seq<nat>, total: nat)
    | NoPath
    | Distances

  /** The start label typed in, `A` when the field is empty. */
  function StartLabel(input: string): (l: string)
    ensures l != [] && (input != [] ==> l == input) && (input == [] ==> l == "A")
  {
    if input == "" then "A" else input
  }

  /** The graph being edited and searched. */
  class Graph {
    var nodes: seq<NodeRec>
    var edges: seq<Edge>
    /** The search fields of each node, by id. */
    var marks: map<nat, Mark>

    /** The ids of the listed nodes. */
    function Ids(): set<nat>
      reads this
    {
      IdsOf(nodes)
    }

    ghost predicate Valid()
      reads this
    {
      && UniqueIds(nodes) && SimpleEdges(edges) && marks.Keys == Ids()
      && (forall e :: e in edges ==> e.from in marks && e.to in marks && e.from != e.to && e.weight > 0)
    }

    constructor ()
      ensures Valid() && nodes == [] && edges == []
    {
      nodes, edges, marks := [], [], map[];
    }

    /** A new node, unreached and unvisited, with a fresh id. */
    method AddNode(id: nat, name: string)
      requires Valid() && id !in Ids()
      modifies this
      ensures Valid() && Ids() == old(Ids()) + {id}
      ensures nodes == old(nodes) + [NodeRec(id, name)] && edges == old(edges)
      ensures marks == old(marks)[id := Unreached]
    {
      IdsOfAppend(nodes, NodeRec(id, name));
      nodes := nodes + [NodeRec(id, name)];
      marks := marks[id := Unreached];
    }

    /** Removes node `id` and every edge touching it. */
    method RemoveNode(id: nat)
      requires Valid()
      modifies this
      ensures Valid() && Ids() == old(Ids()) - {id}
      ensures nodes == WithoutNode(old(nodes), id)
      ensures forall e :: e in edges <==> e in old(edges) && !Incident(e, id)
      ensures marks == old(marks) - {id}
    {
      IdsOfWithout(nodes, id);
      nodes := WithoutNode(nodes, id);
      edges := FilterEdges(edges, e => !Incident(e, id));
      marks := marks - {id};
    }

    /** Connects `u` and `v` with weight `w`, or sets the weight of the edge
        already joining them; a weight that is not positive (a cancelled or
        unreadable prompt) changes nothing, and neither does `u == v`. */
    method AddEdge(u: nat, v: nat, w: int)
      requires Valid() && u in Ids() && v in Ids()
      modifies this
      ensures Valid() && nodes == old(nodes) && marks == old(marks)
      ensures u == v || w <= 0 ==> edges == old(edges)
      ensures u != v && w > 0 ==> match FindEdge(old(edges), u, v)
        case Some(i) => edges == old(edges)[i := old(edges)[i].(weight := w)]
        case None => edges == old(edges) + [Edge(u, v, w)]
      ensures u != v && w > 0 ==> exists e :: e in edges && Joins(e, u, v) && e.weight == w
    {
      if u == v {
        return;
      }
      var existing := FindEdge(edges, u, v);
      if existing.Some? {
        if w > 0 {
          var i := existing.value;
          SimpleReweigh(edges, i, w);
          edges := edges[i := edges[i].(weight := w)];
          assert edges[i] in edges;
        }
      } else if w > 0 {
        SimpleAppend(edges, Edge(u, v, w));
        edges := edges + [Edge(u, v, w)];
        assert edges[|edges| - 1] in edges;
      }
    }

    /** Deletes the edge between `u` and `v`, whichever way it was drawn. */
    method RemoveEdge(u: nat, v: nat)
      requires Valid()
      modifies this
      ensures Valid() && nodes == old(nodes) && marks == old(marks)
      ensures forall e :: e in edges <==> e in old(edges) && !Joins(e, u, v)
    {
      edges := FilterEdges(edges, e => !Joins(e, u, v));
    }

    /** The label of node `id`, or `?` when no node has that id. */
    function GetLabel(id: nat): (l: string)
      reads this
      ensures id in Ids() ==> exists n :: n in nodes && n.id == id && n.name == l
      ensures FindNode(nodes, id).Some? ==> l == nodes[FindNode(nodes, id).value].name
      ensures id !in Ids() ==> l == "?"
    {
      match FindNode(nodes, id)
      case Some(i) => assert nodes[i] in nodes; nodes[i].name
      case None => "?"
    }

    /** The id of the first node labelled `name`. */
    function LabelledId(name: string): (id: nat)
      reads this
      requires FindByLabel(nodes, name).Some?
      ensures id in Ids()
      ensures exists i :: 0 <= i < |nodes| && nodes[i].id == id && nodes[i].name == name
                          && forall j :: 0 <= j < i ==> nodes[j].name != name
    {
      var n := nodes[FindByLabel(nodes, name).value];
      assert n in nodes;
      n.id
    }

    /** Every node back to `Infinity`, unvisited and without predecessor;
        the start node at distance 0. */
    method Reset(s: nat)
      requires marks.Keys == Ids() && s in marks
      modifies this
      ensures nodes == old(nodes) && edges == old(edges) && marks.Keys == old(marks).Keys
      ensures forall v :: v in marks ==> marks[v] == if v == s then Mark(Fin(0), false, None) else Unreached
    {
      var ns := nodes;
      var i := 0;
      while i < |ns|
        invariant 0 <= i <= |ns|
        invariant nodes == ns && edges == old(edges) && marks.Keys == old(marks).Keys
        invariant forall j :: 0 <= j < i ==> marks[ns[j].id] == Unreached
      {
        var id := ns[i].id;
        assert ns[i] in ns;
        marks := marks[id := Unreached];
        i := i + 1;
      }
      marks := marks[s := marks[s].(dist := Fin(0))];
      forall v | v in marks
        ensures marks[v] == if v == s then Mark(Fin(0), false, None) else Unreached
      {
        var j :| 0 <= j < |ns| && ns[j].id == v;
      }
    }

    /** The main loop: repeatedly takes an unvisited node of least distance,
        stops at one still at `Infinity`, marks it visited, stops if it is the
        end node, and otherwise relaxes its edges. */
    method Search(s: nat, end: Option<nat>)
      requires WellFormed(edges, marks) && s in marks && (end.Some? ==> end.value in marks)
      requires forall v :: v in marks ==> marks[v] == if v == s then Mark(Fin(0), false, None) else Unreached
      modifies this
      ensures nodes == old(nodes) && edges == old(edges) && marks.Keys == old(marks).Keys
      ensures Settled(edges, s, marks) && PrevOk(edges, s, marks)
      ensures (end.Some? && marks[end.value].visited) || Complete(edges, s, marks)
      ensures NotPast(marks, end)
      ensures end.Some? && marks[end.value].visited ==>
        forall v :: v in marks && marks[v].visited ==> DistLe(marks[v].dist, marks[end.value].dist)
    {
      var unvisited := marks.Keys;
      while unvisited != {}
        invariant nodes == old(nodes) && edges == old(edges) && marks.Keys == old(marks).Keys
        invariant Exploring(edges, s, marks, unvisited, end)
        decreases unvisited
      {
        ghost var m := marks;
        ghost var least := MinOf(unvisited, m);
        var c :| c in unvisited && forall u :: u in unvisited ==> DistLe(marks[c].dist, marks[u].dist);
        assert forall u :: u in m && !m[u].visited ==> DistLe(m[c].dist, m[u].dist) by {
          forall u | u in m && !m[u].visited ensures DistLe(m[c].dist, m[u].dist) {
            assert u in unvisited;
          }
        }
        if marks[c].dist.Inf? {
          RestUnreachable(edges, s, m);
          break;
        }
        Visit(c, s, unvisited, end);
        unvisited := unvisited - {c};
        if end == Some(c) {
          break;
        }
        ghost var v := marks;
        Relax(c, s);
        RelaxInOrder(edges, s, v, marks, c, unvisited, end);
      }
    }

    /** Marks the node `c` of least distance visited: its distance is final,
        and it is now the farthest visited node. */
    method Visit(c: nat, ghost s: nat, ghost unvisited: set<nat>, ghost end: Option<nat>)
      requires Exploring(edges, s, marks, unvisited, end) && c in unvisited && marks[c].dist.Fin?
      requires forall u :: u in marks && !marks[u].visited ==> DistLe(marks[c].dist, marks[u].dist)
      modifies this
      ensures nodes == old(nodes) && edges == old(edges)
      ensures marks == old(marks)[c := old(marks)[c].(visited := true)]
      ensures WellFormed(edges, marks) && Settled(edges, s, marks) && PrevOk(edges, s, marks)
      ensures forall e :: e in edges && !Incident(e, c) ==> Relaxed(e, marks)
      ensures InOrder(marks) && NotPast(marks, end)
      ensures forall u :: u in marks && marks[u].visited ==> DistLe(marks[u].dist, marks[c].dist)
      ensures unvisited - {c} <= marks.Keys
      ensures forall v :: v in marks ==> (v in unvisited - {c} <==> !marks[v].visited)
      ensures end.Some? && end != Some(c) ==> end.value in marks && !marks[end.value].visited
    {
      MinIsShortest(edges, s, marks, c);
      var visitedC := marks[c := marks[c].(visited := true)];
      VisitKeeps(edges, s, marks, c, visitedC);
      VisitInOrder(marks, c, visitedC, end);
      marks := visitedC;
    }

    /** Relaxes every edge of the newly visited node `c`: an unvisited
        neighbour to which `c` offers a strictly shorter distance takes that
        distance and `c` as its predecessor. */
    method Relax(c: nat, ghost s: nat)
      requires WellFormed(edges, marks) && c in marks && marks[c].visited && marks[c].dist.Fin?
      requires Settled(edges, s, marks) && PrevOk(edges, s, marks)
      requires forall e :: e in edges && !Incident(e, c) ==> Relaxed(e, marks)
      modifies this
      ensures nodes == old(nodes) && edges == old(edges) && marks.Keys == old(marks).Keys
      ensures forall v :: v in marks ==> marks[v] == old(marks)[v] || Lowered(old(marks)[v], marks[v], c)
      ensures Searching(edges, s, marks)
    {
      var incident := IncidentEdges(edges, c);
      var k := 0;
      while k < |incident|
        invariant 0 <= k <= |incident|
        invariant nodes == old(nodes) && edges == old(edges) && marks.Keys == old(marks).Keys
        invariant RelaxingFrom(edges, s, old(marks), marks, c, incident[..k])
      {
        var e := incident[k];
        assert e in edges && Incident(e, c);
        assert incident[..k + 1] == incident[..k] + [e];
        var neighbour := Other(e, c);
        var alt := marks[c].dist.n + e.weight;
        if !marks[neighbour].visited && Improves(alt, marks[neighbour].dist) {
          var relaxed := marks[neighbour := marks[neighbour].(dist := Fin(alt), prev := Some(c))];
          ImproveStep(edges, s, old(marks), marks, c, e, incident[..k], relaxed);
          marks := relaxed;
        } else {
          SkipStep(edges, s, old(marks), marks, c, e, incident[..k]);
        }
        k := k + 1;
      }
      assert incident[..k] == incident;
    }

    /** Follows the `prev` links back from `t`, each node put in front of the
        path, until a node without predecessor. */
    method ReconstructPath(s: nat, t: nat) returns (path: seq<nat>, ghost walk: seq<Edge>)
      requires marks.Keys == Ids() && WellFormed(edges, marks) && PrevOk(edges, s, marks)
      requires t in marks && marks[t].dist.Fin?
      ensures IsWalk(edges, s, walk, t) && path == NodesOf(s, walk) && Cost(walk) == marks[t].dist.n
      ensures path[0] == s && path[|path| - 1] == t
      ensures forall i :: 0 <= i < |walk| ==> walk[i] in edges && Joins(walk[i], path[i], path[i + 1])
    {
      path, walk := [], [];
      var cur: Option<nat> := Some(t);
      while cur.Some?
        invariant cur.Some? ==> (cur.value in marks && marks[cur.value].dist.Fin?
          && IsWalk(edges, cur.value, walk, t) && [cur.value] + path == NodesOf(cur.value, walk)
          && marks[cur.value].dist.n + Cost(walk) == marks[t].dist.n)
        invariant cur.None? ==> IsWalk(edges, s, walk, t) && path == NodesOf(s, walk) && Cost(walk) == marks[t].dist.n
        decreases if cur.Some? then marks[cur.value].dist.n + 1 else 0
      {
        var v := cur.value;
        assert Linked(edges, s, marks, v);
        path := [v] + path;
        var n := FindNode(nodes, v);
        assert n.Some? by {
          assert v in IdsOf(nodes);
        }
        cur := if n.Some? then marks[v].prev else None;
        if cur.Some? {
          var u := cur.value;
          assert LinkOk(edges, marks, u, v);
          ghost var e :| e in edges && Joins(e, u, v) && marks[v].dist.n == marks[u].dist.n + e.weight;
          walk := [e] + walk;
        }
      }
      WalkShape(edges, s, walk, t);
    }

    /** A run of the search: checks the graph and the labels, resets the
        marks, searches from the start node, and reports the shortest path to
        the end node, that none exists, or (without an end node) that every
        distance is computed. */
    method Run(startInput: string, endInput: string) returns (out: Outcome, ghost walk: seq<Edge>)
      requires Valid()
      modifies this
      ensures Valid() && nodes == old(nodes) && edges == old(edges)
      ensures out.TooFewNodes? <==> |nodes| < 2
      ensures out.StartNotFound? <==> |nodes| >= 2 && FindByLabel(nodes, StartLabel(startInput)).None?
      ensures out.EndNotFound? <==>
        |nodes| >= 2 && FindByLabel(nodes, StartLabel(startInput)).Some? && endInput != "" && FindByLabel(nodes, endInput).None?
      ensures out.TooFewNodes? || out.StartNotFound? || out.EndNotFound? ==> marks == old(marks)
      ensures out.ShortestPath? || out.NoPath? ==> endInput != "" && FindByLabel(nodes, endInput).Some?
      ensures out.Distances? ==> endInput == ""
      ensures out.ShortestPath? || out.NoPath? || out.Distances? ==>
        FindByLabel(nodes, StartLabel(startInput)).Some?
        && Settled(edges, LabelledId(StartLabel(startInput)), marks)
        && PrevOk(edges, LabelledId(StartLabel(startInput)), marks)
      ensures out.ShortestPath? ==>
        var s, t := LabelledId(StartLabel(startInput)), LabelledId(endInput);
        && IsWalk(edges, s, walk, t) && out.path == NodesOf(s, walk) && Cost(walk) == out.total
        && IsLowerBound(edges, s, t, out.total) && marks[t].dist == Fin(out.total) && marks[t].visited
      ensures out.ShortestPath? || out.NoPath? ==>
        var t := LabelledId(endInput);
        && NotPast(marks, Some(t))
        && (marks[t].visited ==> forall v :: v in marks && marks[v].visited ==> DistLe(marks[v].dist, marks[t].dist))
      ensures out.NoPath? ==> Unreachable(edges, LabelledId(StartLabel(startInput)), LabelledId(endInput))
      ensures out.Distances? ==> Complete(edges, LabelledId(StartLabel(startInput)), marks)
    {
      walk := [];
      if |nodes| < 2 {
        return TooFewNodes, walk;
      }
      var startLabel := StartLabel(startInput);
      var si := FindByLabel(nodes, startLabel);
      var ei := if endInput != "" then FindByLabel(nodes, endInput) else None;
      if si.None? {
        return StartNotFound, walk;
      }
      if endInput != "" && ei.None? {
        return EndNotFound, walk;
      }
      var s := LabelledId(startLabel);
      var end := if endInput != "" then Some(LabelledId(endInput)) else None;
      Reset(s);
      Search(s, end);
      if end.Some? {
        var t := end.value;
        PathVerdictCorrect(edges, s, marks, t);
        if PathVerdict(marks, s, t) {
          var path;
          path, walk := ReconstructPath(s, t);
          out := ShortestPath(path, marks[t].dist.n);
        } else {
          out := NoPath;
        }
      } else {
        out := Distances;
      }
    }
  }
}
