/**
  * The moves of the canonical-path solver on the live canvas: the endpoint flip of
  * boundary_alg and boundary_alg_alt with its repair, the two-node-layer step, and the calls
  * into problem_edge they rely on. Every edit goes through the canvas's FLIP-mode draw_edge
  * and delete_edge, so the history records each one.
  */
module SolverMoves {
  import opened Geometry
  import opened GraphModel
  import opened PathSpec
  import opened PathOrders
  import opened Paths
  import opened Layers
  import opened Canvases
  import opened Solvers
  import opened Randoms

  // ---------------------------------------------------------------- states the moves keep

  /** No node is joined to itself. */
  predicate Loopless(g: Graph)
    requires Square(g)
  {
    forall i :: 0 <= i < |g.nodes| ==> g.adj[i][i] == 0
  }

  /**
    * A spanning path some ordering of whose lines has no crossing: what a path that FLIP mode
    * accepted still is after its lines were taken out and put back in another order.
    */
  ghost predicate PlanarPath(g: Graph)
    requires Square(g)
  {
    SpanningSpec(g) && NonCrossingUpToOrder(g.lines)
  }

  /** The canvas in FLIP mode with a current edge difference and no self-joined node. */
  ghost predicate Ready(c: Canvas)
    reads c, c.graph
  {
    c.Valid() && c.mode == Flip && c.edgeDiff == EdgeDiff(c.graph.Model()) && Loopless(c.graph.Model())
  }

  /** What compute_ch leaves: layers of hull shape that split the node list. */
  ghost predicate Peeled(layers: seq<Graph>, nodes: seq<Node>)
  {
    (forall k :: 0 <= k < |layers| ==> LayerShape(layers[k])) &&
    (forall k, v :: 0 <= k < |layers| && v in layers[k].nodes ==> v in nodes) &&
    (forall v :: v in nodes ==> exists k :: 0 <= k < |layers| && v in layers[k].nodes) &&
    (forall k, m, v :: 0 <= k < m < |layers| && v in layers[k].nodes ==> v !in layers[m].nodes)
  }

  lemma ConnectLoopless(g: Graph, i: nat, j: nat)
    requires Square(g) && Loopless(g) && i < |g.nodes| && j < |g.nodes| && i != j
    ensures Loopless(Connect(g, i, j))
  {
    forall k | 0 <= k < |g.nodes| ensures Connect(g, i, j).adj[k][k] == 0 {
      SetSymAt(g.adj, i, j, 1, k, k);
    }
  }

  lemma DisconnectLoopless(g: Graph, i: nat, j: nat)
    requires Square(g) && Loopless(g) && i < |g.nodes| && j < |g.nodes|
    ensures Loopless(Disconnect(g, i, j))
  {
    forall k | 0 <= k < |g.nodes| ensures Disconnect(g, i, j).adj[k][k] == 0 {
      SetSymAt(g.adj, i, j, 0, k, k);
    }
  }

  /** A path that FLIP mode accepts is a planar path. */
  lemma HealthyPlanar(g: Graph)
    requires Valid(g) && Healthy(g)
    ensures PlanarPath(g)
  {
    forall k | 0 <= k < |g.lines| ensures LineIn(g.lines[k], g.lines) { LineInSelf(g.lines, k); }
    assert SameLineSet(g.lines, g.lines);
  }

  /** Being a planar path does not depend on the order of the lines. */
  lemma PlanarSameGraph(g: Graph, h: Graph)
    requires Square(g) && SameGraph(g, h) && PlanarPath(g)
    ensures PlanarPath(h)
  {
    SpanningSpecFrame(g, h);
    var ms :| SameLineSet(ms, g.lines) && NoDupLines(ms) && !HasCrossing(ms);
    SameGraphTrans(Graph(g.nodes, ms, g.adj), g, h);
  }

  /** With no three node coordinates on a line, a planar path is exactly a path FLIP mode accepts. */
  lemma PlanarIsHealthy(g: Graph)
    requires Valid(g) && GeneralPosition(Coords(g.nodes))
    ensures PlanarPath(g) <==> Healthy(g)
  {
    NonCrossingInGeneralPosition(g.lines, Coords(g.nodes));
  }

  /** A spanning path joins no node to itself and has one line fewer than nodes. */
  lemma SpanningLoopless(g: Graph)
    requires Valid(g) && SpanningSpec(g)
    ensures Loopless(g) && EdgeDiff(g) == 0
  {
    SpanningShape(g);
  }

  // ---------------------------------------------------------------- whichNodes on a line

  /** The line runs between two different nodes. */
  ghost predicate TwoEnds(g: Graph, l: Line)
  {
    exists i, j {:trigger LineBetween(g, i, j)} ::
      0 <= i < |g.nodes| && 0 <= j < |g.nodes| && i != j && l == LineBetween(g, i, j)
  }

  /**
    * whichNodes of the line between two different nodes finds exactly those two nodes, in
    * node-list order.
    */
  lemma LineEnds(g: Graph, i: nat, j: nat) returns (p: nat, q: nat)
    requires DistinctCoords(g.nodes) && i < |g.nodes| && j < |g.nodes| && i != j
    ensures var w := WhichNodes(g.nodes, LineBetween(g, i, j));
      |w| == 2 && w[0] in g.nodes && w[1] in g.nodes &&
      p == IndexOf(g.nodes, w[0]) && q == IndexOf(g.nodes, w[1]) &&
      ((p == i && q == j) || (p == j && q == i))
  {
    var w := WhichNodes(g.nodes, LineBetween(g, i, j));
    var a, b := g.nodes[i], g.nodes[j];
    CoordsDistinctAt(g.nodes, i, j);
    assert forall v :: v in w <==> v == a || v == b by {
      forall v | v in w ensures v == a || v == b {
        var k :| 0 <= k < |g.nodes| && g.nodes[k] == v;
        CoordsDistinctAt(g.nodes, k, i);
        CoordsDistinctAt(g.nodes, k, j);
      }
    }
    assert a in w && b in w;
    assert Coords(w) == {a.coord, b.coord};
    CoordsCount(w);
    assert w[0].coord != w[1].coord;
    IndexOfAt(g.nodes, i);
    IndexOfAt(g.nodes, j);
    p, q := IndexOf(g.nodes, w[0]), IndexOf(g.nodes, w[1]);
  }

  /** Nodes with distinct coordinates have as many coordinates as there are nodes. */
  lemma {:induction false} CoordsCount(s: seq<Node>)
    requires DistinctCoords(s)
    ensures |Coords(s)| == |s|
  {
    if s != [] {
      var t := s[1..];
      assert DistinctCoords(t) by {
        forall a, b | 0 <= a < b < |t| ensures t[a].coord != t[b].coord {
          assert t[a] == s[a + 1] && t[b] == s[b + 1];
        }
      }
      CoordsCount(t);
      CoordsCons(s);
      assert s[0].coord !in Coords(t) by {
        forall v | v in t ensures v.coord != s[0].coord {
          var k :| 0 <= k < |t| && t[k] == v;
          assert s[k + 1] == v;
        }
      }
    }
  }

  lemma CoordsCons(s: seq<Node>)
    requires s != []
    ensures Coords(s) == {s[0].coord} + Coords(s[1..])
  {
    assert forall v :: v in s <==> v == s[0] || v in s[1..];
  }

  /** Every line of a valid loopless graph runs between two different nodes. */
  lemma LineHasTwoEnds(g: Graph, l: Line)
    requires Valid(g) && Loopless(g)
    requires exists k :: 0 <= k < |g.lines| && SameLine(g.lines[k], l)
    ensures TwoEnds(g, l)
  {
    var k :| 0 <= k < |g.lines| && SameLine(g.lines[k], l);
    var a, b := LineEndsConnected(g, k);
    if l == LineBetween(g, a, b) {
      assert a != b;
    } else {
      assert l == LineBetween(g, b, a);
    }
  }

  /** Every line problem_edge reports runs between two different nodes, so whichNodes finds both. */
  lemma ReportHasTwoEnds(g: Graph, d: int, r: seq<Line>)
    requires Valid(g) && Loopless(g) && EdgeReport(g, d, r)
    ensures forall k :: 0 <= k < |r| ==> TwoEnds(g, r[k])
  {
    forall k | 0 <= k < |r| ensures TwoEnds(g, r[k]) {
      if d == 1 {
        assert RemovalFixes(g, r[k]);
        var i, j := RemovedLineEnds(g, r[k]);
        assert TwoEnds(g, LineBetween(g, i, j));
      } else if d == -1 {
        assert AdditionFixes(g, r[k]);
        var i, j := AddedLineEnds(g, r[k]);
        assert TwoEnds(g, LineBetween(g, i, j));
      } else if d == 0 {
        LineHasTwoEnds(g, r[k]);
      }
    }
  }

  /** A line whose addition gives a spanning path joins two different nodes. */
  lemma AddedEnds(g: Graph, i: nat, j: nat)
    requires Valid(g) && i < |g.nodes| && j < |g.nodes| && AddFixesAt(g, i, j)
    ensures i != j
  {
    ConnectValid(g, i, j);
    SpanningShape(Connect(g, i, j));
  }

  /** disconnect does not depend on which end comes first. */
  lemma DisconnectSwap(g: Graph, i: nat, j: nat)
    requires Square(g) && i < |g.nodes| && j < |g.nodes|
    ensures Disconnect(g, j, i) == Disconnect(g, i, j)
  {
    var l, m := LineBetween(g, i, j), LineBetween(g, j, i);
    LineInRespectsSameLine(l, m, g.lines);
    RemoveFirstSameLine(g.lines, l, m);
    SetSymSwap(g.adj, i, j, 0);
  }

  /** connect does not depend on which end comes first, up to the stored endpoint order of the line. */
  lemma ConnectSwap(g: Graph, i: nat, j: nat)
    requires Square(g) && i < |g.nodes| && j < |g.nodes|
    ensures SameGraph(Connect(g, j, i), Connect(g, i, j))
  {
    var l, m := LineBetween(g, i, j), LineBetween(g, j, i);
    LineInRespectsSameLine(l, m, g.lines);
    SetSymSwap(g.adj, i, j, 1);
    SameGraphRefl(g);
    if !LineIn(l, g.lines) {
      var a, b := g.lines + [m], g.lines + [l];
      forall x ensures LineIn(x, a) <==> LineIn(x, b) {
        LineInAppend(x, g.lines, m);
        LineInAppend(x, g.lines, l);
        if SameLine(m, x) { SameLineTransitive(l, m, x); }
        if SameLine(l, x) { SameLineTransitive(m, l, x); }
      }
      forall k | 0 <= k < |a| ensures LineIn(a[k], b) { LineInSelf(a, k); }
      forall k | 0 <= k < |b| ensures LineIn(b[k], a) { LineInSelf(b, k); }
    }
  }

  lemma SetSymSwap(adj: seq<seq<int>>, i: nat, j: nat, x: int)
    requires i < |adj| && j < |adj| && j < |adj[i]| && i < |adj[j]|
    ensures SetSym(adj, j, i, x) == SetSym(adj, i, j, x)
  {
    var s, t := SetSym(adj, j, i, x), SetSym(adj, i, j, x);
    forall a | 0 <= a < |adj| ensures s[a] == t[a] {
      forall b | 0 <= b < |adj[a]| ensures s[a][b] == t[a][b] {
        SetSymAt(adj, i, j, x, a, b);
        SetSymAt(adj, j, i, x, a, b);
      }
    }
  }

  /** list.remove finds equal lines alike. */
  lemma {:induction false} RemoveFirstSameLine(lines: seq<Line>, l: Line, m: Line)
    requires SameLine(l, m)
    ensures RemoveFirst(lines, l) == RemoveFirst(lines, m)
  {
    if lines != [] {
      assert SameLine(lines[0], l) <==> SameLine(lines[0], m) by {
        if SameLine(lines[0], l) { SameLineTransitive(lines[0], l, m); }
        if SameLine(lines[0], m) { SameLineTransitive(lines[0], m, l); }
      }
      RemoveFirstSameLine(lines[1..], l, m);
    }
  }

  // ---------------------------------------------------------------- edits through whichNodes

  /** `points = whichNodes(line)` then delete_edge(points[0], points[1]), for a line between two different nodes. */
  method DeleteLine(c: Canvas, l: Line, ghost i: nat, ghost j: nat) returns (accepted: bool)
    requires Ready(c) && i < |c.graph.nodes| && j < |c.graph.nodes| && i != j
    requires l == LineBetween(c.graph.Model(), i, j)
    modifies c, c.graph
    ensures Ready(c) && c.graph == old(c.graph) && c.graph.nodes == old(c.graph.nodes) && c.layers == old(c.layers)
    ensures accepted <==> old(c.edgeDiff) > -1
    ensures accepted ==> (c.graph.Model() ==
      var g := old(c.graph.Model()); if IsConnected(g, i, j) then Disconnect(g, i, j) else g)
    ensures !accepted ==> c.graph.Model() == old(c.graph.Model())
  {
    ghost var g := c.graph.Model();
    ghost var p, q := LineEnds(g, i, j);
    var ends := c.graph.WhichNodes(l);
    DisconnectSwap(g, i, j);
    Symmetric(g, i, j);
    DisconnectLoopless(g, i, j);
    accepted := c.DeleteEdge(ends[0], ends[1]);
  }

  /** `points = whichNodes(line)` then draw_edge(points[0], points[1]), for a line between two different nodes. */
  method DrawLine(c: Canvas, l: Line, ghost i: nat, ghost j: nat) returns (accepted: bool)
    requires Ready(c) && i < |c.graph.nodes| && j < |c.graph.nodes| && i != j
    requires l == LineBetween(c.graph.Model(), i, j)
    modifies c, c.graph
    ensures Ready(c) && c.graph == old(c.graph) && c.graph.nodes == old(c.graph.nodes) && c.layers == old(c.layers)
    ensures accepted <==> old(c.edgeDiff) < 1
    ensures accepted ==> SameGraph(c.graph.Model(),
      (var g := old(c.graph.Model()); if IsConnected(g, i, j) then g else Connect(g, i, j)))
    ensures !accepted ==> c.graph.Model() == old(c.graph.Model())
  {
    ghost var g := c.graph.Model();
    ghost var p, q := LineEnds(g, i, j);
    var ends := c.graph.WhichNodes(l);
    ConnectSwap(g, i, j);
    SameGraphRefl(Connect(g, i, j));
    SameGraphRefl(g);
    Symmetric(g, i, j);
    ConnectLoopless(g, i, j);
    ConnectLoopless(g, j, i);
    accepted := c.DrawEdge(ends[0], ends[1]);
  }

  // ---------------------------------------------------------------- the order boundary_alg walks

  function Reverse(s: seq<Node>): (r: seq<Node>)
    ensures |r| == |s| && forall k :: 0 <= k < |s| ==> r[k] == s[|s| - 1 - k]
  {
    seq(|s|, k requires 0 <= k < |s| => s[|s| - 1 - k])
  }

  /** Every node of order is a node of g, and each is joined to the one before it. */
  ghost predicate Walks(g: Graph, order: seq<Node>)
    requires Square(g)
  {
    (forall v :: v in order ==> v in g.nodes) &&
    forall k :: 0 < k < |order| ==> IsConnected(g, IndexOf(g.nodes, order[k - 1]), IndexOf(g.nodes, order[k]))
  }

  /** A walk read backwards is a walk: the matrix is symmetric. */
  lemma WalksReversed(g: Graph, order: seq<Node>)
    requires Lockstep(g) && Walks(g, order)
    ensures Walks(g, Reverse(order))
  {
    var r := Reverse(order);
    var n := |order|;
    forall v | v in r ensures v in g.nodes {
      var k :| 0 <= k < n && r[k] == v;
      assert order[n - 1 - k] == v;
    }
    forall k | 0 < k < n
      ensures IsConnected(g, IndexOf(g.nodes, r[k - 1]), IndexOf(g.nodes, r[k]))
    {
      assert r[k - 1] == order[n - k] && r[k] == order[n - 1 - k];
      assert order[n - k] in order && order[n - 1 - k] in order;
      Symmetric(g, IndexOf(g.nodes, order[n - 1 - k]), IndexOf(g.nodes, order[n - k]));
    }
  }

  /**
    * The order of the scan: path_node_order, reversed when the anchor is the recorded end (read
    * before the search records the endpoints anew). The search asserts that the path is spanning.
    */
  method OrderFrom(c: Canvas, v: Node) returns (raised: bool, order: seq<Node>)
    requires Ready(c)
    modifies c.graph
    ensures Ready(c) && c.graph.Model() == old(c.graph.Model())
    ensures raised <==> !SpanningSpec(c.graph.Model())
    ensures !raised ==> |order| == |c.graph.nodes| && Walks(c.graph.Model(), order)
    ensures !raised ==> forall w :: w in order <==> w in c.graph.nodes
    ensures !raised ==> forall a, b :: 0 <= a < b < |order| ==> order[a] != order[b]
    ensures !raised ==> (c.graph.start.Some? &&
      (if old(c.graph.end) == Some(v) then order[|order| - 1] else order[0]) == c.graph.start.value)
  {
    var atEnd := c.graph.end == Some(v);
    var spans := c.graph.IsSpanningPath();
    if !spans {
      return true, [];
    }
    raised := false;
    var found := c.graph.PathNodeOrder();
    order := found;
    if atEnd {
      WalksReversed(c.graph.Model(), found);
      order := Reverse(found);
      forall w | w in order ensures w in found {
        var k :| 0 <= k < |order| && order[k] == w;
      }
      forall w | w in found ensures w in order {
        var k :| 0 <= k < |found| && found[k] == w;
        assert order[|found| - 1 - k] == w;
      }
      forall a, b | 0 <= a < b < |order| ensures order[a] != order[b] {
        assert order[a] == found[|found| - 1 - a] && order[b] == found[|found| - 1 - b];
      }
    }
  }

  // ---------------------------------------------------------------- the endpoint flip

  /**
    * The ring neighbours boundary_alg scans for: the nodes one place before and one place after v
    * on its layer (wrapping round), each kept only while the path has no line from v to it.
    */
  function Around(layer: Graph, v: Node, lines: seq<Line>): (r: seq<Node>)
    requires v in layer.nodes
  {
    Unjoined(v, RingBefore(layer, v), lines) + Unjoined(v, RingAfter(layer, v), lines)
  }

  /** layer_nodes[position - 1]: the node one place before v, the last one when v is first. */
  function RingBefore(layer: Graph, v: Node): Node
    requires v in layer.nodes
  {
    layer.nodes[(IndexOf(layer.nodes, v) - 1) % |layer.nodes|]
  }

  /** layer_nodes[(position + 1) % len]: the node one place after v, the first one when v is last. */
  function RingAfter(layer: Graph, v: Node): Node
    requires v in layer.nodes
  {
    layer.nodes[(IndexOf(layer.nodes, v) + 1) % |layer.nodes|]
  }

  /** [w] while the path has no line from v to w, else nothing. */
  function Unjoined(v: Node, w: Node, lines: seq<Line>): seq<Node>
  {
    if LineIn(Line(v.coord, w.coord), lines) then [] else [w]
  }

  /** Python's negative index and the wrap-around of the next position. */
  lemma Wrap(p: int, m: int)
    requires 0 <= p < m
    ensures (p - 1) % m == if p == 0 then m - 1 else p - 1
    ensures (p + 1) % m == if p == m - 1 then 0 else p + 1
  {
  }

  lemma AroundAt(layer: Graph, v: Node, lines: seq<Line>, w: Node)
    requires Ring(layer) && |layer.nodes| >= 3 && v in layer.nodes && w in layer.nodes
    ensures w in Around(layer, v, lines) <==>
      IsConnected(layer, IndexOf(layer.nodes, v), IndexOf(layer.nodes, w)) && !LineIn(Line(v.coord, w.coord), lines)
  {
    var m := |layer.nodes|;
    var p, x := IndexOf(layer.nodes, v), IndexOf(layer.nodes, w);
    AroundMembers(layer, v, lines, w);
    Wrap(p, m);
    var a, b := (p - 1) % m, (p + 1) % m;
    IndexOfAt(layer.nodes, a);
    IndexOfAt(layer.nodes, b);
    assert RingBefore(layer, v) == layer.nodes[a] && RingAfter(layer, v) == layer.nodes[b];
    assert w == layer.nodes[a] <==> x == a;
    assert w == layer.nodes[b] <==> x == b;
    assert RingPair(m, p, x) <==> x == a || x == b;
  }

  /** The scanned neighbours are the nodes one place either side of v, less those the path joins to v. */
  lemma AroundMembers(layer: Graph, v: Node, lines: seq<Line>, w: Node)
    requires v in layer.nodes
    ensures w in Around(layer, v, lines) <==>
      (w == RingBefore(layer, v) || w == RingAfter(layer, v)) && !LineIn(Line(v.coord, w.coord), lines)
  {
    var a, b := RingBefore(layer, v), RingAfter(layer, v);
    UnjoinedMember(v, a, lines, w);
    UnjoinedMember(v, b, lines, w);
    assert w in Around(layer, v, lines) <==> w in Unjoined(v, a, lines) || w in Unjoined(v, b, lines);
  }

  lemma UnjoinedMember(v: Node, x: Node, lines: seq<Line>, w: Node)
    ensures w in Unjoined(v, x, lines) <==> w == x && !LineIn(Line(v.coord, w.coord), lines)
  {
  }

  /**
    * On a ring of three or more nodes, the scanned neighbours are exactly the nodes the ring joins
    * to v that the path does not join to v; v itself is never among them.
    */
  lemma AroundIsRing(layer: Graph, v: Node, lines: seq<Line>)
    requires Ring(layer) && |layer.nodes| >= 3 && v in layer.nodes
    ensures forall w :: w in Around(layer, v, lines) <==>
      w in layer.nodes && IsConnected(layer, IndexOf(layer.nodes, v), IndexOf(layer.nodes, w)) &&
      !LineIn(Line(v.coord, w.coord), lines)
    ensures v !in Around(layer, v, lines)
  {
    var r := Around(layer, v, lines);
    forall w | w in r ensures w in layer.nodes { }
    forall w | w in layer.nodes
      ensures w in r <==> (IsConnected(layer, IndexOf(layer.nodes, v), IndexOf(layer.nodes, w)) &&
        !LineIn(Line(v.coord, w.coord), lines))
    {
      AroundAt(layer, v, lines, w);
    }
    AroundAt(layer, v, lines, v);
    var p := IndexOf(layer.nodes, v);
    assert !RingPair(|layer.nodes|, p, p);
  }

  /** delete_edge in FLIP mode while the edge difference allows it. */
  method Unjoin(c: Canvas, u: Node, w: Node)
    requires Ready(c) && u in c.graph.nodes && w in c.graph.nodes && c.edgeDiff > -1
    modifies c, c.graph
    ensures Ready(c) && c.graph == old(c.graph) && c.graph.nodes == old(c.graph.nodes) && c.layers == old(c.layers)
    ensures c.graph.Model() == Disconnect(old(c.graph.Model()), IndexOf(c.graph.nodes, u), IndexOf(c.graph.nodes, w))
  {
    ghost var g := c.graph.Model();
    ghost var i, j := IndexOf(g.nodes, u), IndexOf(g.nodes, w);
    DisconnectLoopless(g, i, j);
    if !IsConnected(g, i, j) {
      DisconnectUnconnected(g, i, j);
    }
    var accepted := c.DeleteEdge(u, w);
  }

  /** draw_edge in FLIP mode while the edge difference allows it, between two different nodes. */
  method Join(c: Canvas, u: Node, w: Node)
    requires Ready(c) && u in c.graph.nodes && w in c.graph.nodes && u != w && c.edgeDiff < 1
    modifies c, c.graph
    ensures Ready(c) && c.graph == old(c.graph) && c.graph.nodes == old(c.graph.nodes) && c.layers == old(c.layers)
    ensures c.graph.Model() == Connect(old(c.graph.Model()), IndexOf(c.graph.nodes, u), IndexOf(c.graph.nodes, w))
  {
    ghost var g := c.graph.Model();
    ghost var i, j := IndexOf(g.nodes, u), IndexOf(g.nodes, w);
    ConnectLoopless(g, i, j);
    if IsConnected(g, i, j) {
      ConnectConnected(g, i, j);
    }
    var accepted := c.DrawEdge(u, w);
  }

  /** The edge difference after connecting or disconnecting a pair of a valid graph. */
  lemma EdgeDiffSteps(g: Graph, i: nat, j: nat)
    requires Valid(g) && i < |g.nodes| && j < |g.nodes|
    ensures Valid(Connect(g, i, j)) && Valid(Disconnect(g, i, j))
    ensures EdgeDiff(Connect(g, i, j)) == EdgeDiff(g) + (if IsConnected(g, i, j) then 0 else 1)
    ensures EdgeDiff(Disconnect(g, i, j)) == EdgeDiff(g) - (if IsConnected(g, i, j) then 1 else 0)
  {
    ConnectValid(g, i, j);
    DisconnectValid(g, i, j);
  }

  /** `path.is_spanning_path() and not path.crosses()`, evaluated left to right. */
  method Accepts(c: Canvas) returns (ok: bool)
    requires Ready(c)
    modifies c.graph
    ensures Ready(c) && c.graph.Model() == old(c.graph.Model())
    ensures ok <==> Healthy(c.graph.Model())
  {
    ghost var h := c.Hist();
    ok := c.graph.IsSpanningPath();
    if ok {
      var crossing := c.graph.Crosses();
      ok := |crossing| == 0;
    }
    CurrentValid(h, c.graph.Snap());
  }

  /** Only the current snapshot's graph matters to the history's validity, not its endpoints. */
  lemma CurrentValid(h: History, s: Snapshot)
    requires HistoryValid(h) && s.graph == h.current.graph
    ensures HistoryValid(History(s, h.last, h.next))
  {
  }

  /**
    * One try of boundary_alg: delete the path line x-y, draw v-y, and when the result is not a
    * spanning path without crossings delete v-y and draw x-y again. A kept flip leaves a path
    * FLIP mode accepts; a reverted one leaves the same nodes, matrix and lines.
    */
  method FlipStep(c: Canvas, v: Node, x: Node, y: Node) returns (kept: bool)
    requires Ready(c) && v in c.graph.nodes && x in c.graph.nodes && y in c.graph.nodes && v != y
    requires EdgeDiff(c.graph.Model()) == 0
    requires c.graph.IsConnected(x, y) && !c.graph.IsConnected(v, y)
    modifies c, c.graph
    ensures Ready(c) && c.graph == old(c.graph) && c.graph.nodes == old(c.graph.nodes) && c.layers == old(c.layers)
    ensures c.edgeDiff == 0 && (kept <==> Healthy(Rerouted(old(c.graph.Model()), x, y, v)))
    ensures kept ==> c.graph.Model() == Rerouted(old(c.graph.Model()), x, y, v)
    ensures !kept ==> SameGraph(c.graph.Model(), old(c.graph.Model()))
  {
    ghost var g := c.graph.Model();
    Swap(c, v, x, y);
    kept := Accepts(c);
    if !kept {
      assert x != y by { assert Loopless(g); }
      Unswap(c, v, x, y, g);
    }
  }

  /** The path with the line x-y replaced by v-y. */
  ghost function Rerouted(g: Graph, x: Node, y: Node, v: Node): (r: Graph)
    requires Square(g) && x in g.nodes && y in g.nodes && v in g.nodes
    ensures Square(r) && r.nodes == g.nodes
  {
    var ix, iy, iv := IndexOf(g.nodes, x), IndexOf(g.nodes, y), IndexOf(g.nodes, v);
    Connect(Disconnect(g, ix, iy), iv, iy)
  }

  /** delete_edge(x, y) then draw_edge(v, y), both inside the edge-difference gate. */
  method Swap(c: Canvas, v: Node, x: Node, y: Node)
    requires Ready(c) && v in c.graph.nodes && x in c.graph.nodes && y in c.graph.nodes && v != y
    requires EdgeDiff(c.graph.Model()) == 0
    requires c.graph.IsConnected(x, y) && !c.graph.IsConnected(v, y)
    modifies c, c.graph
    ensures Ready(c) && c.graph == old(c.graph) && c.graph.nodes == old(c.graph.nodes) && c.layers == old(c.layers)
    ensures c.graph.Model() == Rerouted(old(c.graph.Model()), x, y, v) && c.edgeDiff == 0
  {
    ghost var g := c.graph.Model();
    ghost var ix, iy, iv := IndexOf(g.nodes, x), IndexOf(g.nodes, y), IndexOf(g.nodes, v);
    EdgeDiffSteps(g, ix, iy);
    Unjoin(c, x, y);
    SetSymAt(g.adj, ix, iy, 0, iv, iy);
    EdgeDiffSteps(c.graph.Model(), iv, iy);
    Join(c, v, y);
  }

  /** delete_edge(v, y) then draw_edge(x, y): the flip undone, up to the order of the lines. */
  method Unswap(c: Canvas, v: Node, x: Node, y: Node, ghost g: Graph)
    requires Ready(c) && Valid(g) && g.nodes == c.graph.nodes
    requires v in g.nodes && x in g.nodes && y in g.nodes && v != y && x != y
    requires IsConnected(g, IndexOf(g.nodes, x), IndexOf(g.nodes, y))
    requires !IsConnected(g, IndexOf(g.nodes, v), IndexOf(g.nodes, y))
    requires c.graph.Model() == Rerouted(g, x, y, v) && c.edgeDiff == 0
    modifies c, c.graph
    ensures Ready(c) && c.graph == old(c.graph) && c.graph.nodes == old(c.graph.nodes) && c.layers == old(c.layers)
    ensures SameGraph(c.graph.Model(), g) && c.edgeDiff == EdgeDiff(g)
  {
    ghost var ix, iy, iv := IndexOf(g.nodes, x), IndexOf(g.nodes, y), IndexOf(g.nodes, v);
    ghost var g1 := Disconnect(g, ix, iy);
    EdgeDiffSteps(g, ix, iy);
    SetSymAt(g.adj, ix, iy, 0, iv, iy);
    ConnectDisconnectRoundTrip(g1, iv, iy);
    EdgeDiffSteps(g1, iv, iy);
    Unjoin(c, v, y);
    assert c.graph.Model() == g1 && c.edgeDiff == -1;
    DisconnectConnectRoundTrip(g, ix, iy);
    Join(c, x, y);
  }

  /** Graphs that differ only in line order are rerouted alike. */
  lemma ReroutedSameGraph(cur: Graph, g: Graph, x: Node, y: Node, v: Node)
    requires Valid(cur) && Valid(g) && SameGraph(cur, g) && x in g.nodes && y in g.nodes && v in g.nodes
    ensures Valid(Rerouted(g, x, y, v)) && Valid(Rerouted(cur, x, y, v))
    ensures SameGraph(Rerouted(cur, x, y, v), Rerouted(g, x, y, v))
  {
    var ix, iy, iv := IndexOf(g.nodes, x), IndexOf(g.nodes, y), IndexOf(g.nodes, v);
    DisconnectSameGraph(cur, g, ix, iy);
    DisconnectValid(cur, ix, iy);
    DisconnectValid(g, ix, iy);
    ConnectSameGraph(Disconnect(cur, ix, iy), Disconnect(g, ix, iy), iv, iy);
    ConnectValid(Disconnect(cur, ix, iy), iv, iy);
    ConnectValid(Disconnect(g, ix, iy), iv, iy);
  }

  /**
    * With no three node coordinates on a line, a try that FLIP mode rejects on a reordering of g
    * would be rejected on g too: its rerouted graph is no planar path.
    */
  lemma RejectedNotPlanar(cur: Graph, g: Graph, x: Node, y: Node, v: Node, h: Graph)
    requires Valid(cur) && Valid(g) && SameGraph(cur, g) && x in g.nodes && y in g.nodes && v in g.nodes
    requires h == Rerouted(cur, x, y, v) && Valid(h) && !Healthy(h)
    requires GeneralPosition(Coords(g.nodes))
    ensures !PlanarTry(g, x, y, v)
  {
    ReroutedSameGraph(cur, g, x, y, v);
    PlanarIsHealthy(h);
    SameGraphSym(h, Rerouted(g, x, y, v));
    if PlanarPath(Rerouted(g, x, y, v)) {
      PlanarSameGraph(Rerouted(g, x, y, v), h);
    }
  }

  /** The scanned neighbours: nodes of g other than v that the path does not join to v. */
  ghost predicate Candidates(g: Graph, v: Node, around: seq<Node>)
    requires Square(g) && v in g.nodes
  {
    forall w :: w in around ==> w in g.nodes && w != v && !IsConnected(g, IndexOf(g.nodes, v), IndexOf(g.nodes, w))
  }

  /** h has the lines of g with x-y replaced by v-y, up to their order. */
  ghost predicate IsRerouted(h: Graph, g: Graph, x: Node, y: Node, v: Node)
  {
    Square(g) && x in g.nodes && y in g.nodes && v in g.nodes && SameGraph(h, Rerouted(g, x, y, v))
  }

  /** Replacing x-y by v-y in g gives a planar path. */
  ghost predicate PlanarTry(g: Graph, x: Node, y: Node, v: Node)
  {
    Square(g) && x in g.nodes && y in g.nodes && v in g.nodes && Valid(Rerouted(g, x, y, v)) &&
    PlanarPath(Rerouted(g, x, y, v))
  }

  /**
    * The loop of boundary_alg over a ring layer: for each entry of the order from the third on that
    * is a scanned neighbour, try the flip, and stop at the first try kept. at is that entry, or -1;
    * either the lines are the old ones up to order, or exactly one line was swapped.
    */
  method RingScan(c: Canvas, v: Node, order: seq<Node>, around: seq<Node>) returns (at: int)
    requires Ready(c) && SpanningSpec(c.graph.Model()) && v in c.graph.nodes
    requires Walks(c.graph.Model(), order) && Candidates(c.graph.Model(), v, around)
    modifies c, c.graph
    ensures Ready(c) && c.graph == old(c.graph) && c.graph.nodes == old(c.graph.nodes) && c.layers == old(c.layers)
    ensures at == -1 || (2 <= at < |order| && order[at] in around)
    ensures at == -1 ==> SameGraph(c.graph.Model(), old(c.graph.Model()))
    ensures at != -1 ==> (Healthy(c.graph.Model()) &&
      IsRerouted(c.graph.Model(), old(c.graph.Model()), order[at - 1], order[at], v))
  {
    ghost var g := c.graph.Model();
    SpanningLoopless(g);
    at := -1;
    var i := 2;
    while i < |order|
      invariant Ready(c) && c.graph == old(c.graph) && c.graph.nodes == g.nodes && c.layers == old(c.layers)
      invariant 2 <= i && SameGraph(c.graph.Model(), g) && c.edgeDiff == 0
    {
      var kept := ScanStep(c, v, order, around, i, g);
      if kept {
        at := i;
        return;
      }
      i := i + 1;
    }
  }

  /** The body of the scan for entry i: try the flip when order[i] is a scanned neighbour. */
  method ScanStep(c: Canvas, v: Node, order: seq<Node>, around: seq<Node>, i: nat, ghost g: Graph) returns (kept: bool)
    requires Ready(c) && Valid(g) && SameGraph(c.graph.Model(), g) && c.edgeDiff == 0 && v in g.nodes
    requires Walks(g, order) && Candidates(g, v, around) && 2 <= i < |order|
    modifies c, c.graph
    ensures Ready(c) && c.graph == old(c.graph) && c.graph.nodes == old(c.graph.nodes) && c.layers == old(c.layers)
    ensures c.edgeDiff == 0
    ensures kept ==> (order[i] in around && Healthy(c.graph.Model()) &&
      IsRerouted(c.graph.Model(), g, order[i - 1], order[i], v))
    ensures !kept ==> SameGraph(c.graph.Model(), g)
  {
    kept := false;
    if order[i] in around {
      assert order[i - 1] in order && order[i] in order;
      kept := TryAt(c, v, order[i - 1], order[i], g);
    }
  }

  /** One try of the scan on a reordering of g's lines, with its outcome stated against g. */
  method TryAt(c: Canvas, v: Node, x: Node, y: Node, ghost g: Graph) returns (kept: bool)
    requires Ready(c) && Valid(g) && SameGraph(c.graph.Model(), g) && c.edgeDiff == 0
    requires v in g.nodes && x in g.nodes && y in g.nodes && v != y
    requires IsConnected(g, IndexOf(g.nodes, x), IndexOf(g.nodes, y))
    requires !IsConnected(g, IndexOf(g.nodes, v), IndexOf(g.nodes, y))
    modifies c, c.graph
    ensures Ready(c) && c.graph == old(c.graph) && c.graph.nodes == old(c.graph.nodes) && c.layers == old(c.layers)
    ensures c.edgeDiff == 0
    ensures kept ==> Healthy(c.graph.Model()) && IsRerouted(c.graph.Model(), g, x, y, v)
    ensures !kept ==> SameGraph(c.graph.Model(), g)
    ensures !kept && GeneralPosition(Coords(g.nodes)) ==> !PlanarTry(g, x, y, v)
  {
    ghost var cur := c.graph.Model();
    kept := FlipStep(c, v, x, y);
    ReroutedSameGraph(cur, g, x, y, v);
    if !kept {
      SameGraphTrans(c.graph.Model(), cur, g);
      if GeneralPosition(Coords(g.nodes)) {
        RejectedNotPlanar(cur, g, x, y, v, Rerouted(cur, x, y, v));
      }
    }
  }

  /**
    * From an end of the path, the swap always leaves a spanning path: if o lists the path from
    * its end o[0], replacing o[i-1]-o[i] by o[0]-o[i] reverses the prefix. FLIP mode can then
    * refuse the swap only because of a crossing.
    */
  lemma EndSwapSpans(g: Graph, o: seq<nat>, i: nat)
    requires Valid(g) && IsPathOf(g, o) && 2 <= i < |o|
    ensures var r := Rerouted(g, g.nodes[o[i - 1]], g.nodes[o[i]], g.nodes[o[0]]);
      Valid(r) && SpanningSpec(r) && (Healthy(r) <==> !HasCrossing(r.lines))
  {
    IndexOfAt(g.nodes, o[i - 1]);
    IndexOfAt(g.nodes, o[i]);
    IndexOfAt(g.nodes, o[0]);
    BoundarySwapSpans(g, o, i);
    EdgeDiffSteps(g, o[i - 1], o[i]);
    EdgeDiffSteps(Disconnect(g, o[i - 1], o[i]), o[0], o[i]);
  }

  // ---------------------------------------------------------------- the alternative scan

  /** problem_edge on the live canvas: the lines may come back reordered, nothing else changes. */
  method Report(c: Canvas) returns (r: seq<Line>)
    requires Ready(c)
    modifies c.graph
    ensures Ready(c) && c.graph.nodes == old(c.graph.nodes) && SameGraph(c.graph.Model(), old(c.graph.Model()))
    ensures EdgeReport(old(c.graph.Model()), c.edgeDiff, r)
  {
    ghost var g := c.graph.Model();
    r := c.ProblemEdge();
    SameGraphReady(g, c.graph.Model());
  }

  /** A path equal up to line order has the same edge difference and no more loops. */
  lemma SameGraphReady(g: Graph, h: Graph)
    requires Square(g) && SameGraph(h, g)
    ensures Square(h) && EdgeDiff(h) == EdgeDiff(g) && (Loopless(g) ==> Loopless(h))
  {
  }

  /** `[l for l in r if l != m]`, with the unordered line equality. */
  function Except(r: seq<Line>, m: Line): (s: seq<Line>)
    ensures forall l :: l in s <==> l in r && !SameLine(l, m)
  {
    if r == [] then []
    else (if SameLine(r[0], m) then [] else [r[0]]) + Except(r[1..], m)
  }

  /**
    * One try of boundary_alg_alt at y: draw v-y; when the path is then not a spanning path without
    * crossings, repair it as Repair says. The lines end up the old ones up to order, or the old ones
    * with v-y added, or the old ones with v-y added and another line a-b taken out.
    */
  method AltTry(c: Canvas, rng: Random, v: Node, y: Node) returns (done: bool, ghost a: nat, ghost b: nat)
    requires Ready(c) && SpanningSpec(c.graph.Model()) && v in c.graph.nodes && y in c.graph.nodes && v != y
    requires !c.graph.IsConnected(v, y)
    modifies c, c.graph, rng
    ensures Ready(c) && c.graph == old(c.graph) && c.graph.nodes == old(c.graph.nodes) && c.layers == old(c.layers)
    ensures AltOutcome(old(c.graph.Model()), c.graph.Model(), IndexOf(c.graph.nodes, v), IndexOf(c.graph.nodes, y), done, a, b)
  {
    ghost var g := c.graph.Model();
    ghost var iv, iy := IndexOf(g.nodes, v), IndexOf(g.nodes, y);
    a, b := 0, 0;
    SpanningLoopless(g);
    EdgeDiffSteps(g, iv, iy);
    Join(c, v, y);
    done := Accepts(c);
    if !done {
      a, b := Repair(c, rng, v, y, g);
    }
  }

  /**
    * What one try of boundary_alg_alt leaves, from g, drawing the line between nodes iv and iy:
    * the drawn path when it is accepted; otherwise g up to line order (a == b), or a planar path
    * whose lines are g's plus iv-iy less another line a-b.
    */
  ghost predicate AltOutcome(g: Graph, r: Graph, iv: nat, iy: nat, done: bool, a: nat, b: nat)
  {
    Valid(g) && Square(r) && iv < |g.nodes| && iy < |g.nodes| &&
    (done ==> Healthy(r) && r == Connect(g, iv, iy)) &&
    (!done && a == b ==> SameGraph(r, g)) &&
    (!done && a != b ==>
      a < |g.nodes| && b < |g.nodes| && PlanarPath(r) && IsConnected(Connect(g, iv, iy), a, b) &&
      !SameLine(LineBetween(g, a, b), LineBetween(g, iv, iy)) && SameGraph(r, Disconnect(Connect(g, iv, iy), a, b)))
  }

  /**
    * The branch of boundary_alg_alt after a drawn line v-y was not accepted: problem_edge lists the
    * lines whose removal leaves a non-crossing spanning path; one other than v-y, picked at random,
    * is deleted, or v-y itself when there is no other.
    */
  method Repair(c: Canvas, rng: Random, v: Node, y: Node, ghost g: Graph) returns (ghost a: nat, ghost b: nat)
    requires Valid(g) && v in g.nodes && y in g.nodes && !IsConnected(g, IndexOf(g.nodes, v), IndexOf(g.nodes, y))
    requires Ready(c) && c.graph.nodes == g.nodes && SpanningSpec(g)
    requires c.graph.Model() == Connect(g, IndexOf(g.nodes, v), IndexOf(g.nodes, y))
    modifies c, c.graph, rng
    ensures Ready(c) && c.graph == old(c.graph) && c.graph.nodes == old(c.graph.nodes) && c.layers == old(c.layers)
    ensures AltOutcome(g, c.graph.Model(), IndexOf(g.nodes, v), IndexOf(g.nodes, y), false, a, b)
  {
    ghost var iv, iy := IndexOf(g.nodes, v), IndexOf(g.nodes, y);
    ghost var g1 := c.graph.Model();
    SpanningLoopless(g);
    EdgeDiffSteps(g, iv, iy);
    assert c.edgeDiff == 1;
    var bad := Report(c);
    SameGraphEdgeDiff(c.graph.Model(), g1);
    var others := Except(bad, Line(v.coord, y.coord));
    if |others| > 0 {
      var k := PickReported(c, rng, |others|);
      assert others[k] in others;
      a, b := RemoveReported(c, others[k], g1, bad);
      assert LineBetween(g, a, b) == others[k] && LineBetween(g, iv, iy) == Line(v.coord, y.coord);
    } else {
      a, b := 0, 0;
      PairUndraw(c, v, y, g, g1);
    }
  }

  /** The random pick among reported lines; the canvas stays as it is. */
  method PickReported(c: Canvas, rng: Random, n: nat) returns (k: nat)
    requires Ready(c) && n > 0
    modifies rng
    ensures k < n && Ready(c) && c.graph == old(c.graph) && c.graph.Model() == old(c.graph.Model())
    ensures c.graph.nodes == old(c.graph.nodes) && c.edgeDiff == old(c.edgeDiff) && c.layers == old(c.layers)
  {
    k := rng.Pick(n);
  }

  /**
    * `points = whichNodes(l)` then delete_edge(points[0], points[1]) for a line problem_edge
    * reported; at edge difference 1 the path left is a planar path.
    */
  method RemoveReported(c: Canvas, l: Line, ghost g1: Graph, ghost bad: seq<Line>) returns (ghost a: nat, ghost b: nat)
    requires Ready(c) && Valid(g1) && SameGraph(c.graph.Model(), g1) && EdgeReport(g1, c.edgeDiff, bad) && l in bad
    modifies c, c.graph
    ensures Ready(c) && c.graph == old(c.graph) && c.graph.nodes == old(c.graph.nodes) && c.layers == old(c.layers)
    ensures old(c.edgeDiff) == 1 ==>
      a < |g1.nodes| && b < |g1.nodes| && a != b && l == LineBetween(g1, a, b) && IsConnected(g1, a, b) &&
      PlanarPath(c.graph.Model()) && SameGraph(c.graph.Model(), Disconnect(g1, a, b))
  {
    ghost var cur := c.graph.Model();
    ghost var d := c.edgeDiff;
    a, b := ReportedEnds(g1, d, bad, l);
    var accepted := DeleteLine(c, l, a, b);
    if d == 1 {
      DisconnectSameGraph(cur, g1, a, b);
      SameGraphSym(c.graph.Model(), Disconnect(g1, a, b));
      PlanarSameGraph(Disconnect(g1, a, b), c.graph.Model());
    }
  }

  /**
    * The two nodes whose line a report names: distinct; at edge difference 1 their removal fixes g,
    * at edge difference -1 their addition does.
    */
  lemma ReportedEnds(g: Graph, d: int, bad: seq<Line>, l: Line) returns (a: nat, b: nat)
    requires Valid(g) && Loopless(g) && EdgeReport(g, d, bad) && l in bad
    ensures a < |g.nodes| && b < |g.nodes| && a != b && l == LineBetween(g, a, b)
    ensures d == 1 ==> RemovalFixesAt(g, a, b)
    ensures d == -1 ==> AddFixesAt(g, a, b)
  {
    var t :| 0 <= t < |bad| && bad[t] == l;
    if d == 1 {
      assert RemovalFixes(g, bad[t]);
      a, b := RemovedLineEnds(g, l);
    } else if d == -1 {
      assert AdditionFixes(g, bad[t]);
      a, b := AddedLineEnds(g, l);
    } else {
      ReportHasTwoEnds(g, d, bad);
      assert TwoEnds(g, bad[t]);
      a, b :| 0 <= a < |g.nodes| && 0 <= b < |g.nodes| && a != b && l == LineBetween(g, a, b);
    }
  }

  /** The two nodes of a line whose removal fixes g. */
  lemma RemovedLineEnds(g: Graph, l: Line) returns (a: nat, b: nat)
    requires Valid(g) && Loopless(g) && RemovalFixes(g, l)
    ensures a < |g.nodes| && b < |g.nodes| && a != b && l == LineBetween(g, a, b) && RemovalFixesAt(g, a, b)
  {
    a, b :| 0 <= a < |g.nodes| && 0 <= b < |g.nodes| && RemovalFixesAt(g, a, b) && l == LineBetween(g, a, b);
  }

  /** The two nodes of a line whose addition fixes g. */
  lemma AddedLineEnds(g: Graph, l: Line) returns (a: nat, b: nat)
    requires Valid(g) && AdditionFixes(g, l)
    ensures a < |g.nodes| && b < |g.nodes| && a != b && l == LineBetween(g, a, b) && AddFixesAt(g, a, b)
  {
    a, b :| 0 <= a < |g.nodes| && 0 <= b < |g.nodes| && AddFixesAt(g, a, b) && l == LineBetween(g, a, b);
    AddedEnds(g, a, b);
  }

  /**
    * The branch of boundary_alg for a two-node layer: when the pair is not joined, draw its line,
    * then delete a random line problem_edge reports, or the pair's line when there is none. On a
    * spanning path the lines end up the old ones up to order, or the path is a planar path.
    */
  method PairStep(c: Canvas, rng: Random, first: Node, second: Node)
    requires Ready(c) && first in c.graph.nodes && second in c.graph.nodes && first != second
    modifies c, c.graph, rng
    ensures Ready(c) && c.graph == old(c.graph) && c.graph.nodes == old(c.graph.nodes) && c.layers == old(c.layers)
    ensures old(c.graph.IsConnected(first, second)) ==> c.graph.Model() == old(c.graph.Model())
    ensures SpanningSpec(old(c.graph.Model())) ==>
      SameGraph(c.graph.Model(), old(c.graph.Model())) || PlanarPath(c.graph.Model())
  {
    if !c.graph.IsConnected(first, second) {
      ghost var g := c.graph.Model();
      PairDraw(c, first, second);
      ghost var g1 := c.graph.Model();
      var bad := Report(c);
      if |bad| > 0 {
        var k := PickReported(c, rng, |bad|);
        assert bad[k] in bad;
        ghost var a, b := RemoveReported(c, bad[k], g1, bad);
      } else {
        PairUndraw(c, first, second, g, g1);
      }
    }
  }

  /** draw_edge(first, second) for a pair not joined: on a spanning path it is accepted. */
  method PairDraw(c: Canvas, first: Node, second: Node)
    requires Ready(c) && first in c.graph.nodes && second in c.graph.nodes && first != second
    requires !c.graph.IsConnected(first, second)
    modifies c, c.graph
    ensures Ready(c) && c.graph == old(c.graph) && c.graph.nodes == old(c.graph.nodes) && c.layers == old(c.layers)
    ensures SpanningSpec(old(c.graph.Model())) ==>
      c.edgeDiff == 1 && c.graph.Model() == Connect(old(c.graph.Model()), IndexOf(c.graph.nodes, first), IndexOf(c.graph.nodes, second))
  {
    ghost var g := c.graph.Model();
    ghost var i1, i2 := IndexOf(g.nodes, first), IndexOf(g.nodes, second);
    ConnectLoopless(g, i1, i2);
    EdgeDiffSteps(g, i1, i2);
    if SpanningSpec(g) {
      SpanningLoopless(g);
    }
    var drawn := c.DrawEdge(first, second);
  }

  /** delete_edge(first, second) when problem_edge reported nothing: on a spanning path, a full undo. */
  method PairUndraw(c: Canvas, first: Node, second: Node, ghost g: Graph, ghost g1: Graph)
    requires Ready(c) && Valid(g) && first in g.nodes && second in g.nodes && c.graph.nodes == g.nodes
    requires !IsConnected(g, IndexOf(g.nodes, first), IndexOf(g.nodes, second)) && SameGraph(c.graph.Model(), g1)
    requires SpanningSpec(g) ==> c.edgeDiff == 1 && g1 == Connect(g, IndexOf(g.nodes, first), IndexOf(g.nodes, second))
    modifies c, c.graph
    ensures Ready(c) && c.graph == old(c.graph) && c.graph.nodes == old(c.graph.nodes) && c.layers == old(c.layers)
    ensures SpanningSpec(g) ==> SameGraph(c.graph.Model(), g)
  {
    ghost var cur := c.graph.Model();
    ghost var i1, i2 := IndexOf(g.nodes, first), IndexOf(g.nodes, second);
    DisconnectLoopless(cur, i1, i2);
    EdgeDiffSteps(cur, i1, i2);
    var erased := c.DeleteEdge(first, second);
    if SpanningSpec(g) {
      ConnectValid(g, i1, i2);
      DisconnectSameGraph(cur, g1, i1, i2);
      ConnectDisconnectRoundTrip(g, i1, i2);
    }
  }

  /** Drawing a new line on a spanning path leaves as many lines as nodes: never a spanning path. */
  lemma DrawnNeverSpans(g: Graph, i: nat, j: nat)
    requires Valid(g) && SpanningSpec(g) && i < |g.nodes| && j < |g.nodes| && !IsConnected(g, i, j)
    ensures !SpanningSpec(Connect(g, i, j)) && !Healthy(Connect(g, i, j))
  {
    SpanningShape(g);
    ConnectValid(g, i, j);
    if SpanningSpec(Connect(g, i, j)) {
      SpanningShape(Connect(g, i, j));
    }
  }

  /** After a try of the alternative scan that was not accepted, v has no neighbour it lacked before, y aside. */
  lemma AltNoNewNeighbour(g: Graph, r: Graph, iv: nat, iy: nat, a: nat, b: nat, k: nat)
    requires AltOutcome(g, r, iv, iy, false, a, b) && r.nodes == g.nodes && iv != iy && k < |g.nodes| && k != iy
    ensures IsConnected(r, iv, k) ==> IsConnected(g, iv, k)
  {
    var g1 := Connect(g, iv, iy);
    SetSymAt(g.adj, iv, iy, 1, iv, k);
    if a != b {
      SetSymAt(g1.adj, a, b, 0, iv, k);
    }
  }

  /** No entry of order from position i on that is a scanned neighbour is joined to v in g. */
  ghost predicate OpenFrom(g: Graph, v: Node, order: seq<Node>, around: seq<Node>, i: nat)
    requires Square(g) && v in g.nodes
  {
    (forall w :: w in order ==> w in g.nodes) &&
    forall k :: i <= k < |order| && order[k] in around ==>
      !IsConnected(g, IndexOf(g.nodes, v), IndexOf(g.nodes, order[k]))
  }

  /** The entries after the one tried are still unjoined to v: the try draws only v-order[i]. */
  lemma OpenAfter(g: Graph, r: Graph, v: Node, order: seq<Node>, around: seq<Node>, i: nat, a: nat, b: nat)
    requires Valid(g) && v in g.nodes && OpenFrom(g, v, order, around, i) && i < |order| && order[i] != v
    requires forall p, q :: 0 <= p < q < |order| ==> order[p] != order[q]
    requires AltOutcome(g, r, IndexOf(g.nodes, v), IndexOf(g.nodes, order[i]), false, a, b) && r.nodes == g.nodes
    ensures OpenFrom(r, v, order, around, i + 1)
  {
    var iv := IndexOf(g.nodes, v);
    forall k | i + 1 <= k < |order| && order[k] in around
      ensures !IsConnected(r, iv, IndexOf(g.nodes, order[k]))
    {
      assert order[k] in order && order[i] in order;
      AltNoNewNeighbour(g, r, iv, IndexOf(g.nodes, order[i]), a, b, IndexOf(g.nodes, order[k]));
    }
  }

  /**
    * The loop of boundary_alg_alt over a ring layer: for each entry of the order from the third on
    * that is a scanned neighbour, draw the line from v and repair. The loop would stop at a drawn
    * line FLIP mode accepts; DrawnNeverSpans shows there is none. At the end the lines are the
    * old ones up to order, or the path is a planar path.
    */
  method AltScan(c: Canvas, rng: Random, v: Node, order: seq<Node>, around: seq<Node>)
    requires Ready(c) && SpanningSpec(c.graph.Model()) && v in c.graph.nodes
    requires (forall w :: w in order ==> w in c.graph.nodes) && (forall w :: w in around ==> w != v)
    requires forall p, q :: 0 <= p < q < |order| ==> order[p] != order[q]
    requires OpenFrom(c.graph.Model(), v, order, around, 2)
    modifies c, c.graph, rng
    ensures Ready(c) && c.graph == old(c.graph) && c.graph.nodes == old(c.graph.nodes) && c.layers == old(c.layers)
    ensures SameGraph(c.graph.Model(), old(c.graph.Model())) || PlanarPath(c.graph.Model())
  {
    ghost var g := c.graph.Model();
    SameGraphRefl(g);
    var i := 2;
    while i < |order|
      invariant Ready(c) && c.graph == old(c.graph) && c.graph.nodes == g.nodes && c.layers == old(c.layers)
      invariant 2 <= i && SpanningSpec(c.graph.Model()) && OpenFrom(c.graph.Model(), v, order, around, i)
      invariant SameGraph(c.graph.Model(), g) || PlanarPath(c.graph.Model())
    {
      var done := AltStep(c, rng, v, order, around, i, g);
      if done {
        HealthyPlanar(c.graph.Model());
        break;
      }
      i := i + 1;
    }
  }

  /** The body of the alternative scan for entry i: a try when order[i] is a scanned neighbour. */
  method AltStep(c: Canvas, rng: Random, v: Node, order: seq<Node>, around: seq<Node>, i: nat, ghost g: Graph)
    returns (done: bool)
    requires Ready(c) && Valid(g) && v in g.nodes && c.graph.nodes == g.nodes && SpanningSpec(c.graph.Model())
    requires SameGraph(c.graph.Model(), g) || PlanarPath(c.graph.Model())
    requires OpenFrom(c.graph.Model(), v, order, around, i) && (forall w :: w in around ==> w != v)
    requires (forall p, q :: 0 <= p < q < |order| ==> order[p] != order[q]) && 2 <= i < |order|
    modifies c, c.graph, rng
    ensures Ready(c) && c.graph == old(c.graph) && c.graph.nodes == old(c.graph.nodes) && c.layers == old(c.layers)
    ensures done ==> Healthy(c.graph.Model())
    ensures !done ==> SpanningSpec(c.graph.Model()) && OpenFrom(c.graph.Model(), v, order, around, i + 1)
    ensures !done ==> SameGraph(c.graph.Model(), g) || PlanarPath(c.graph.Model())
  {
    ghost var cur := c.graph.Model();
    done := false;
    if order[i] in around {
      var y := order[i];
      assert y in order;
      ghost var a, b;
      done, a, b := AltTry(c, rng, v, y);
      if !done {
        OpenAfter(cur, c.graph.Model(), v, order, around, i, a, b);
        AltKeeps(g, cur, c.graph.Model(), IndexOf(g.nodes, v), IndexOf(g.nodes, y), a, b);
      }
    } else {
      forall k | i + 1 <= k < |order| && order[k] in around
        ensures !IsConnected(cur, IndexOf(cur.nodes, v), IndexOf(cur.nodes, order[k]))
      {
      }
    }
  }

  /** A try that was not accepted keeps the path spanning, and a planar path or g up to line order. */
  lemma AltKeeps(g: Graph, cur: Graph, r: Graph, iv: nat, iy: nat, a: nat, b: nat)
    requires Valid(g) && AltOutcome(cur, r, iv, iy, false, a, b) && SpanningSpec(cur)
    requires SameGraph(cur, g) || PlanarPath(cur)
    ensures SpanningSpec(r) && (SameGraph(r, g) || PlanarPath(r))
  {
    if a == b {
      SpanningSpecFrame(cur, r);
      if SameGraph(cur, g) {
        SameGraphTrans(r, cur, g);
      } else {
        SameGraphSym(r, cur);
        PlanarSameGraph(cur, r);
      }
    }
  }
}
