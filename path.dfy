/**
  * The Path class: a graph whose node list, line list and matrix are updated in place,
  * with the two endpoints it remembers, the breadth-first spanning-path check, the
  * path order and the crossing scan.
  */
module Paths {
  import opened Geometry
  import opened GraphModel
  import opened PathSpec
  import opened PathOrders

  // ---------------------------------------------------------------- breadth-first search

  /** Every node has degree at most 2 and the start at most 1: the search then walks a single chain. */
  predicate ChainShaped(g: Graph, s: nat)
    requires Square(g) && s < |g.nodes|
  {
    Deg(g, s) <= 1 && forall i :: 0 <= i < |g.nodes| ==> Deg(g, i) <= 2
  }

  /** Consecutive positions are connected. */
  predicate Chain(g: Graph, w: seq<nat>)
    requires Square(g)
  {
    (forall k :: 0 <= k < |w| ==> w[k] < |g.nodes|) &&
    forall k :: 0 < k < |w| ==> g.adj[w[k - 1]][w[k]] == 1
  }

  /**
    * In a chain-shaped graph, once the search has explored a chain ending in v, v has at most
    * one neighbour left to explore: its degree leaves room for no more.
    */
  lemma OneNewNeighbour(g: Graph, s: nat, explored: seq<nat>, found: seq<nat>)
    requires Lockstep(g) && s < |g.nodes| && ChainShaped(g, s)
    requires |explored| > 0 && explored[0] == s && Chain(g, explored) && Distinct(explored + found)
    requires forall k :: 0 <= k < |found| ==> found[k] < |g.nodes| && g.adj[explored[|explored| - 1]][found[k]] == 1
    ensures |found| <= 1 && Chain(g, explored + found)
  {
    var v := explored[|explored| - 1];
    var e := explored + found;
    assert Distinct(found) by {
      forall a, b | 0 <= a < b < |found| ensures found[a] != found[b] {
        assert e[|explored| + a] == found[a] && e[|explored| + b] == found[b];
      }
    }
    DistinctCard(found);
    forall y | y in Elems(found) ensures y in Ones(g.adj[v]) {
      var k :| 0 <= k < |found| && found[k] == y;
    }
    if |explored| == 1 {
      NeighbourBound(g, v, Elems(found));
    } else {
      var prev := explored[|explored| - 2];
      Symmetric(g, prev, v);
      forall k | 0 <= k < |found| ensures found[k] != prev {
        assert e[|explored| - 2] == prev && e[|explored| + k] == found[k];
      }
      NeighbourBound(g, v, Elems(found) + {prev});
    }
    forall k | 0 < k < |e| ensures g.adj[e[k - 1]][e[k]] == 1 {
      if k < |explored| {
        assert e[k - 1] == explored[k - 1] && e[k] == explored[k];
      } else {
        assert e[k - 1] == v && e[k] == found[0];
      }
    }
  }

  /** A set of neighbours of v has at most Deg(v) elements. */
  lemma NeighbourBound(g: Graph, v: nat, x: set<nat>)
    requires Lockstep(g) && v < |g.nodes| && x <= Ones(g.adj[v])
    ensures |x| <= Deg(g, v)
  {
    RowSumCountsOnes(g.adj[v]);
    SubsetCard(x, Ones(g.adj[v]));
  }

  /**
    * One pass of the search's inner loop over adj(v): the neighbours of v, in node-list order,
    * that are not explored yet (the source appends each to the explored list and the queue as
    * it finds it; here they are returned and appended by the caller).
    */
  method NewNeighbours(g: Graph, v: nat, explored: seq<nat>) returns (found: seq<nat>)
    requires Square(g) && v < |g.nodes| && Distinct(explored)
    ensures Distinct(explored + found)
    ensures forall k :: 0 <= k < |found| ==> found[k] < |g.nodes| && g.adj[v][found[k]] == 1 && found[k] !in explored
    ensures forall y :: 0 <= y < |g.nodes| && g.adj[v][y] == 1 ==> y in explored + found
  {
    found := [];
    var j := 0;
    while j < |g.nodes|
      invariant 0 <= j <= |g.nodes| && Distinct(explored + found)
      invariant forall k :: 0 <= k < |found| ==> found[k] < j && g.adj[v][found[k]] == 1 && found[k] !in explored
      invariant forall y :: 0 <= y < j && g.adj[v][y] == 1 ==> y in explored + found
    {
      if g.adj[v][j] == 1 && j !in explored + found {
        ghost var e := explored + found;
        forall a, b | 0 <= a < b < |e + [j]| ensures (e + [j])[a] != (e + [j])[b] {
          if b == |e| {
            assert e[a] in e;
          } else {
            assert (e + [j])[a] == e[a] && (e + [j])[b] == e[b];
          }
        }
        assert explored + (found + [j]) == e + [j];
        found := found + [j];
      }
      j := j + 1;
    }
  }

  /**
    * The breadth-first search that is_spanning_path and path_node_order both run: a FIFO queue
    * seeded with s, each node taken off it appending its not yet explored neighbours in node-list
    * order. Node positions stand for the nodes themselves.
    */
  method Explore(g: Graph, s: nat) returns (explored: seq<nat>)
    requires Lockstep(g) && s < |g.nodes|
    ensures |explored| > 0 && explored[0] == s && Distinct(explored)
    ensures forall k :: 0 <= k < |explored| ==> explored[k] < |g.nodes|
    ensures forall t :: 0 <= t < |g.nodes| ==> (t in explored <==> Reachable(g, s, t))
    ensures ChainShaped(g, s) ==> Chain(g, explored)
  {
    var n := |g.nodes|;
    var queue := [s];
    explored := [s];
    ghost var head := 0;
    ReachableSelf(g, s);
    while |queue| > 0
      invariant 0 <= head <= |explored| <= n && 1 <= |explored| && queue == explored[head..]
      invariant explored[0] == s && Distinct(explored)
      invariant forall k :: 0 <= k < |explored| ==> explored[k] < n && Reachable(g, s, explored[k])
      invariant forall k, y :: 0 <= k < head && 0 <= y < n && g.adj[explored[k]][y] == 1 ==> y in explored
      invariant ChainShaped(g, s) ==> Chain(g, explored) && |explored| <= head + 1
      decreases n - head
    {
      var v := queue[0];
      queue := queue[1..];
      head := head + 1;
      var found := NewNeighbours(g, v, explored);
      forall k | 0 <= k < |found| ensures Reachable(g, s, found[k]) {
        ReachableStep(g, s, v, found[k]);
      }
      if ChainShaped(g, s) {
        OneNewNeighbour(g, s, explored, found);
      }
      DistinctPositions(explored + found, n);
      ClosedStep(g, explored, found, head - 1);
      explored := explored + found;
      queue := queue + found;
    }
    ExploredIsReachable(g, s, explored);
  }

  /** Taking the node at `head` off the queue and appending its new neighbours keeps the nodes before it closed. */
  lemma ClosedStep(g: Graph, explored: seq<nat>, found: seq<nat>, head: nat)
    requires Square(g) && head < |explored|
    requires forall k :: 0 <= k < |explored| ==> explored[k] < |g.nodes|
    requires forall k, y :: 0 <= k < head && 0 <= y < |g.nodes| && g.adj[explored[k]][y] == 1 ==> y in explored
    requires forall y :: 0 <= y < |g.nodes| && g.adj[explored[head]][y] == 1 ==> y in explored + found
    ensures forall k, y :: 0 <= k < head + 1 && 0 <= y < |g.nodes| && g.adj[(explored + found)[k]][y] == 1 ==>
      y in explored + found
  {
    forall k, y | 0 <= k < head + 1 && 0 <= y < |g.nodes| && g.adj[(explored + found)[k]][y] == 1
      ensures y in explored + found
    {
      assert (explored + found)[k] == explored[k];
    }
  }

  /** A search that has emptied its queue holds every node reachable from its start. */
  lemma ExploredIsReachable(g: Graph, s: nat, explored: seq<nat>)
    requires Square(g) && |explored| > 0 && explored[0] == s
    requires forall k :: 0 <= k < |explored| ==> explored[k] < |g.nodes|
    requires forall k, y :: 0 <= k < |explored| && 0 <= y < |g.nodes| && g.adj[explored[k]][y] == 1 ==> y in explored
    ensures forall t :: 0 <= t < |g.nodes| && Reachable(g, s, t) ==> t in explored
  {
    var e := Elems(explored);
    assert explored[0] in e;
    forall x, y | x in e && x < |g.nodes| && 0 <= y < |g.nodes| && g.adj[x][y] == 1 ensures y in e {
      var k :| 0 <= k < |explored| && explored[k] == x;
    }
    forall t | 0 <= t < |g.nodes| && Reachable(g, s, t) ensures t in explored {
      ClosedHoldsReachable(g, s, e, t);
    }
  }

  /** Distinct positions below n that miss one of them number fewer than n. */
  lemma DistinctPositionsBelow(s: seq<nat>, n: nat, j: nat)
    requires Distinct(s) && (forall k :: 0 <= k < |s| ==> s[k] < n) && j < n && j !in s
    ensures |s| < n && Distinct(s + [j])
  {
    DistinctPositions(s, n);
  }

  // ---------------------------------------------------------------- the class

  class Path {
    var nodes: seq<Node>
    var lines: seq<Line>
    var adj: seq<seq<int>>
    var start: Option<Node>
    var end: Option<Node>

    function Model(): Graph
      reads this
    {
      Graph(nodes, lines, adj)
    }

    /** A deep copy of the path, as the history stacks keep it. */
    function Snap(): Snapshot
      reads this
    {
      Snapshot(Model(), start, end)
    }

    ghost predicate Valid()
      reads this
    {
      GraphModel.Valid(Model())
    }

    /** Path(Nodes, start, end, Lines): the line argument is dropped, so the path starts without edges. */
    constructor (ns: seq<Node>, s: Option<Node>, e: Option<Node>)
      ensures nodes == ns && lines == [] && adj == ZeroMatrix(|ns|)
      ensures start == s && end == e
    {
      nodes := ns;
      lines := [];
      adj := ZeroMatrix(|ns|);
      start := s;
      end := e;
    }

    /** deepcopy of a path kept in the history. */
    constructor Copy(snap: Snapshot)
      ensures Snap() == snap
    {
      nodes, lines, adj := snap.graph.nodes, snap.graph.lines, snap.graph.adj;
      start, end := snap.start, snap.end;
    }

    predicate IsConnected(u: Node, w: Node)
      reads this
      requires Square(Model()) && u in nodes && w in nodes
    {
      GraphModel.IsConnected(Model(), IndexOf(nodes, u), IndexOf(nodes, w))
    }

    function Deg(v: Node): int
      reads this
      requires Square(Model()) && v in nodes
    {
      GraphModel.Deg(Model(), IndexOf(nodes, v))
    }

    function Adj(v: Node): seq<Node>
      reads this
      requires Square(Model()) && v in nodes
    {
      AdjNodes(Model(), IndexOf(nodes, v))
    }

    function WhichNodes(l: Line): seq<Node>
      reads this
    {
      GraphModel.WhichNodes(nodes, l)
    }

    method AddLine(l: Line)
      modifies this
      ensures lines == old(lines) + [l]
      ensures nodes == old(nodes) && adj == old(adj) && start == old(start) && end == old(end)
    {
      lines := lines + [l];
    }

    /** delLine asserts that the line is present, then removes its first occurrence. */
    method DelLine(l: Line)
      requires LineIn(l, lines)
      modifies this
      ensures lines == RemoveFirst(old(lines), l)
      ensures nodes == old(nodes) && adj == old(adj) && start == old(start) && end == old(end)
    {
      lines := RemoveFirst(lines, l);
    }

    method AddNode(v: Node)
      requires Square(Model())
      modifies this
      ensures Model() == GraphModel.AddNode(old(Model()), v)
      ensures start == old(start) && end == old(end)
    {
      if v !in nodes {
        nodes := nodes + [v];
        var m := adj;
        adj := seq(|m|, k requires 0 <= k < |m| => m[k] + [0]);
        adj := adj + [Zeros(|adj| + 1)];
      }
    }

    /** removeNode asserts presence; the lines at the node are left in place. */
    method RemoveNode(v: Node)
      requires Square(Model()) && v in nodes
      modifies this
      ensures Model() == GraphModel.RemoveNode(old(Model()), IndexOf(old(nodes), v))
      ensures start == old(start) && end == old(end)
    {
      var i := IndexOf(nodes, v);
      adj := DropRowCol(adj, i);
      nodes := nodes[..i] + nodes[i + 1..];
    }

    method Connect(u: Node, w: Node)
      requires Square(Model()) && u in nodes && w in nodes
      modifies this
      ensures Model() == GraphModel.Connect(old(Model()), IndexOf(old(nodes), u), IndexOf(old(nodes), w))
      ensures start == old(start) && end == old(end)
    {
      var i := IndexOf(nodes, u);
      var j := IndexOf(nodes, w);
      var l := Line(u.coord, w.coord);
      if !LineIn(l, lines) {
        AddLine(l);
      }
      adj := adj[i := adj[i][j := 1]];
      adj := adj[j := adj[j][i := 1]];
    }

    method Disconnect(u: Node, w: Node)
      requires Square(Model()) && u in nodes && w in nodes
      modifies this
      ensures Model() == GraphModel.Disconnect(old(Model()), IndexOf(old(nodes), u), IndexOf(old(nodes), w))
      ensures start == old(start) && end == old(end)
    {
      var i := IndexOf(nodes, u);
      var j := IndexOf(nodes, w);
      var l := Line(u.coord, w.coord);
      if LineIn(l, lines) {
        DelLine(l);
      }
      adj := adj[i := adj[i][j := 0]];
      adj := adj[j := adj[j][i := 0]];
    }

    /**
      * expandPath: the first node becomes both endpoints; any later node is added, joined to
      * the current end, and becomes the new end.
      */
    method ExpandPath(v: Node)
      requires Square(Model())
      requires |nodes| > 0 ==> end.Some? && end.value in nodes
      modifies this
      ensures old(|nodes|) == 0 ==> Model() == GraphModel.AddNode(old(Model()), v) && start == Some(v)
      ensures old(|nodes|) > 0 ==>
        var grown := GraphModel.AddNode(old(Model()), v);
        Model() == GraphModel.Connect(grown, IndexOf(grown.nodes, old(end).value), IndexOf(grown.nodes, v)) &&
        start == old(start)
      ensures end == Some(v)
    {
      if |nodes| == 0 {
        AddNode(v);
        start := Some(v);
        end := Some(v);
      } else {
        AddNode(v);
        Connect(end.value, v);
        end := Some(v);
      }
    }

    /**
      * is_spanning_path: the degree test, then a search from the first degree-1 node that must
      * reach every node. Passing the degree test records the two degree-1 nodes as the endpoints,
      * whatever the search then finds.
      */
    method IsSpanningPath() returns (b: bool)
      requires Lockstep(Model())
      modifies this
      ensures Model() == old(Model())
      ensures b <==> SpanningSpec(Model())
      ensures DegreeShape(Model()) ==>
        start == Some(nodes[WithDeg(Model(), 1)[0]]) && end == Some(nodes[WithDeg(Model(), 1)[1]])
      ensures !DegreeShape(Model()) ==> start == old(start) && end == old(end)
    {
      var g := Model();
      var endpoints := WithDeg(g, 1);
      var inner := WithDeg(g, 2);
      if |endpoints| != 2 || |inner| != |nodes| - 2 {
        return false;
      }
      DegreeShapeDegrees(g);
      start := Some(nodes[endpoints[0]]);
      end := Some(nodes[endpoints[1]]);
      var explored := Explore(g, endpoints[0]);
      DistinctPositions(explored, |nodes|);
      b := |explored| >= |nodes|;
    }

    /**
      * path_node_order: after the (asserted) spanning check, the search from `start` lists every
      * node exactly once, each connected to the one before it.
      */
    method PathNodeOrder() returns (order: seq<Node>)
      requires GraphModel.Valid(Model()) && SpanningSpec(Model())
      modifies this
      ensures Model() == old(Model())
      ensures start == Some(nodes[WithDeg(Model(), 1)[0]]) && end == Some(nodes[WithDeg(Model(), 1)[1]])
      ensures |order| == |nodes| && order[0] == start.value && order[|order| - 1] == end.value
      ensures forall v :: v in order <==> v in nodes
      ensures forall a, b :: 0 <= a < b < |order| ==> order[a] != order[b]
      ensures forall k :: 0 < k < |order| ==> IsConnected(order[k - 1], order[k])
    {
      var ok := IsSpanningPath();
      var g := Model();
      DegreeShapeDegrees(g);
      var s := IndexOf(nodes, start.value);
      CoordsDistinctAt(nodes, s, WithDeg(g, 1)[0]);
      var explored := Explore(g, s);
      order := NodesAt(nodes, explored);
      SearchOrder(g, s, explored);
      SearchEnds(g, explored);
    }

    /**
      * crosses: every pair of lines, in list order, is checked once; each line of a crossing pair
      * is collected unless an equal line is already there.
      */
    method Crosses() returns (r: seq<Line>)
      ensures forall k :: 0 <= k < |r| ==> exists a :: 0 <= a < |lines| && CrossesOther(lines, a) && SameLine(lines[a], r[k])
      ensures forall a :: 0 <= a < |lines| && CrossesOther(lines, a) ==> LineIn(lines[a], r)
      ensures |r| == 0 <==> !HasCrossing(lines)
    {
      r := [];
      var ls := lines;
      var a := 0;
      while a < |ls|
        invariant 0 <= a <= |ls|
        invariant Sound(ls, r) && RowsDone(ls, r, a)
      {
        var b := a + 1;
        while b < |ls|
          invariant a < b <= |ls|
          invariant Sound(ls, r) && RowsDone(ls, r, a) && RowDone(ls, r, a, b)
        {
          var r' := r;
          if Intersect(ls[a], ls[b]) {
            r' := CollectPair(ls, r, a, b);
          }
          ScanPair(ls, r, r', a, b);
          r := r';
          b := b + 1;
        }
        RowClose(ls, r, a);
        a := a + 1;
      }
      CrossesResult(ls, r);
    }
  }

  /** The search that lists a spanning path from its first end finishes at the other end. */
  lemma SearchEnds(g: Graph, explored: seq<nat>)
    requires GraphModel.Valid(g) && SpanningSpec(g) && IsOrder(explored, |g.nodes|)
    requires |explored| > 0 && explored[0] == WithDeg(g, 1)[0] && Chain(g, explored)
    ensures |WithDeg(g, 1)| == 2 && WithDeg(g, 1)[1] == explored[|explored| - 1]
  {
    ChainIsPath(g, explored);
    PathEnds(g, explored);
    var w1 := WithDeg(g, 1);
    assert w1[1] in Elems(w1);
  }

  /** The nodes at the given positions, in order. */
  function NodesAt(ns: seq<Node>, ps: seq<nat>): (r: seq<Node>)
    requires forall k :: 0 <= k < |ps| ==> ps[k] < |ns|
    ensures |r| == |ps| && forall k :: 0 <= k < |ps| ==> r[k] == ns[ps[k]]
  {
    seq(|ps|, k requires 0 <= k < |ps| => ns[ps[k]])
  }

  /**
    * On a spanning path, the search from an end visits every node once, each one next to the
    * one before it: mapped to nodes, its order lists the path.
    */
  lemma SearchOrder(g: Graph, s: nat, explored: seq<nat>)
    requires GraphModel.Valid(g) && SpanningSpec(g) && s == WithDeg(g, 1)[0]
    requires |explored| > 0 && explored[0] == s && Distinct(explored)
    requires forall k :: 0 <= k < |explored| ==> explored[k] < |g.nodes|
    requires forall t :: 0 <= t < |g.nodes| ==> (t in explored <==> Reachable(g, s, t))
    requires Chain(g, explored)
    ensures |NodesAt(g.nodes, explored)| == |g.nodes|
    ensures forall v :: v in NodesAt(g.nodes, explored) <==> v in g.nodes
    ensures forall a, b :: 0 <= a < b < |explored| ==> NodesAt(g.nodes, explored)[a] != NodesAt(g.nodes, explored)[b]
    ensures forall k :: 0 < k < |explored| ==>
      GraphModel.IsConnected(g, IndexOf(g.nodes, NodesAt(g.nodes, explored)[k - 1]), IndexOf(g.nodes, NodesAt(g.nodes, explored)[k]))
  {
    var ns := g.nodes;
    DistinctPositions(explored, |ns|);
    forall t | 0 <= t < |ns| ensures t in explored {
      assert Reachable(g, s, t);
    }
    NodesAtDistinct(ns, explored);
    NodesAtCover(ns, explored);
    NodesAtChain(g, explored);
  }

  lemma NodesAtDistinct(ns: seq<Node>, ps: seq<nat>)
    requires DistinctCoords(ns) && Distinct(ps) && forall k :: 0 <= k < |ps| ==> ps[k] < |ns|
    ensures forall a, b :: 0 <= a < b < |ps| ==> NodesAt(ns, ps)[a] != NodesAt(ns, ps)[b]
  {
    var order := NodesAt(ns, ps);
    forall a, b | 0 <= a < b < |order| ensures order[a] != order[b] {
      CoordsDistinctAt(ns, ps[a], ps[b]);
    }
  }

  lemma NodesAtCover(ns: seq<Node>, ps: seq<nat>)
    requires forall k :: 0 <= k < |ps| ==> ps[k] < |ns|
    requires forall t :: 0 <= t < |ns| ==> t in ps
    ensures forall v :: v in NodesAt(ns, ps) <==> v in ns
  {
    var order := NodesAt(ns, ps);
    forall v | v in ns ensures v in order {
      var i := IndexOf(ns, v);
      assert i in ps;
      var k :| 0 <= k < |ps| && ps[k] == i;
      assert order[k] == v;
    }
  }

  lemma NodesAtChain(g: Graph, ps: seq<nat>)
    requires Square(g) && DistinctCoords(g.nodes) && Chain(g, ps)
    ensures forall k :: 0 < k < |ps| ==>
      GraphModel.IsConnected(g, IndexOf(g.nodes, NodesAt(g.nodes, ps)[k - 1]), IndexOf(g.nodes, NodesAt(g.nodes, ps)[k]))
  {
    var ns := g.nodes;
    var order := NodesAt(ns, ps);
    forall k | 0 < k < |order|
      ensures GraphModel.IsConnected(g, IndexOf(ns, order[k - 1]), IndexOf(ns, order[k]))
    {
      CoordsDistinctAt(ns, IndexOf(ns, order[k - 1]), ps[k - 1]);
      CoordsDistinctAt(ns, IndexOf(ns, order[k]), ps[k]);
    }
  }

  /** x equals a line of the list that crosses another one. */
  ghost predicate FromCrossing(ls: seq<Line>, x: Line)
  {
    exists a :: 0 <= a < |ls| && CrossesOther(ls, a) && SameLine(ls[a], x)
  }

  /** Every collected line equals a line of the list that crosses another one. */
  ghost predicate Sound(ls: seq<Line>, r: seq<Line>)
  {
    forall k :: 0 <= k < |r| ==> FromCrossing(ls, r[k])
  }

  /** Append each line of the crossing pair a, b unless an equal line is already collected. */
  method CollectPair(ls: seq<Line>, r: seq<Line>, a: nat, b: nat) returns (r': seq<Line>)
    requires a < b < |ls| && Intersect(ls[a], ls[b]) && Sound(ls, r)
    ensures Sound(ls, r')
    ensures LineIn(ls[a], r') && LineIn(ls[b], r')
    ensures forall x :: LineIn(x, r) ==> LineIn(x, r')
  {
    IntersectSymmetric(ls[a], ls[b]);
    assert CrossesOther(ls, a) && CrossesOther(ls, b);
    r' := r;
    if !LineIn(ls[a], r') {
      r' := r' + [ls[a]];
      forall x | LineIn(x, r) ensures LineIn(x, r') { LineInAppend(x, r, ls[a]); }
    }
    assert LineIn(ls[a], r') by { LineInAppend(ls[a], r, ls[a]); }
    ghost var mid := r';
    if !LineIn(ls[b], r') {
      r' := r' + [ls[b]];
      forall x | LineIn(x, mid) ensures LineIn(x, r') { LineInAppend(x, mid, ls[b]); }
    }
    assert LineIn(ls[b], r') by { LineInAppend(ls[b], mid, ls[b]); }
  }

  /** Once every crossing pair has been collected, the result is exactly what crosses promises. */
  /** Every crossing pair whose first line is among the first a lines has both lines collected in r. */
  ghost predicate RowsDone(ls: seq<Line>, r: seq<Line>, a: nat)
  {
    forall p, q {:trigger Intersect(ls[p], ls[q])} :: 0 <= p < a && p < q < |ls| && Intersect(ls[p], ls[q]) ==> LineIn(ls[p], r) && LineIn(ls[q], r)
  }

  /** Every crossing pair a, q with q before b has both lines collected in r. */
  ghost predicate RowDone(ls: seq<Line>, r: seq<Line>, a: nat, b: nat)
    requires a < |ls|
  {
    forall q {:trigger Intersect(ls[a], ls[q])} :: a < q < b && q < |ls| && Intersect(ls[a], ls[q]) ==> LineIn(ls[a], r) && LineIn(ls[q], r)
  }

  /** Testing pair a, b: r' keeps what r held and holds both lines when they cross. */
  lemma ScanPair(ls: seq<Line>, r: seq<Line>, r': seq<Line>, a: nat, b: nat)
    requires a < b < |ls| && RowsDone(ls, r, a) && RowDone(ls, r, a, b)
    requires r' == r || forall x :: LineIn(x, r) ==> LineIn(x, r')
    requires Intersect(ls[a], ls[b]) ==> LineIn(ls[a], r') && LineIn(ls[b], r')
    requires !Intersect(ls[a], ls[b]) ==> r' == r
    ensures RowsDone(ls, r', a) && RowDone(ls, r', a, b + 1)
  {
  }

  lemma RowClose(ls: seq<Line>, r: seq<Line>, a: nat)
    requires a < |ls| && RowsDone(ls, r, a) && RowDone(ls, r, a, |ls|)
    ensures RowsDone(ls, r, a + 1)
  {
  }

  lemma CrossesResult(ls: seq<Line>, r: seq<Line>)
    requires Sound(ls, r)
    requires forall p, q {:trigger Intersect(ls[p], ls[q])} :: 0 <= p < |ls| && p < q < |ls| && Intersect(ls[p], ls[q]) ==> LineIn(ls[p], r) && LineIn(ls[q], r)
    ensures forall a :: 0 <= a < |ls| && CrossesOther(ls, a) ==> LineIn(ls[a], r)
    ensures |r| == 0 <==> !HasCrossing(ls)
  {
    CrossersCollected(ls, r);
    CollectedHasCrossing(ls, r);
  }

  lemma CrossersCollected(ls: seq<Line>, r: seq<Line>)
    requires forall p, q {:trigger Intersect(ls[p], ls[q])} :: 0 <= p < |ls| && p < q < |ls| && Intersect(ls[p], ls[q]) ==> LineIn(ls[p], r) && LineIn(ls[q], r)
    ensures forall a :: 0 <= a < |ls| && CrossesOther(ls, a) ==> LineIn(ls[a], r)
    ensures HasCrossing(ls) ==> |r| > 0
  {
    forall a | 0 <= a < |ls| && CrossesOther(ls, a) ensures LineIn(ls[a], r) {
      var m :| 0 <= m < |ls| && m != a && Intersect(ls[a], ls[m]);
      IntersectSymmetric(ls[a], ls[m]);
    }
    if HasCrossing(ls) {
      var p, q :| 0 <= p < q < |ls| && Intersect(ls[p], ls[q]);
      assert LineIn(ls[p], r);
    }
  }

  lemma CollectedHasCrossing(ls: seq<Line>, r: seq<Line>)
    requires Sound(ls, r)
    ensures |r| > 0 ==> HasCrossing(ls)
  {
    if |r| > 0 {
      assert FromCrossing(ls, r[0]);
      var a :| 0 <= a < |ls| && CrossesOther(ls, a) && SameLine(ls[a], r[0]);
      HasCrossingWitness(ls, a);
    }
  }
}
