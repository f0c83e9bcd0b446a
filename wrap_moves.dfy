/**
  * The edits of the wrapper on the live canvas: try_edge and try_del_edge with the weight that
  * ranks the lines problem_edge reports, the scans try_all, try_del_all and try_node over them,
  * and the steps of wrap_path built from those scans. Every edit goes through the canvas's
  * FLIP-mode draw_edge and delete_edge, so each step leaves the path as it was up to line order
  * or a planar path (Kept).
  */
module WrapMoves {
  import opened Geometry
  import opened GraphModel
  import opened PathSpec
  import opened Paths
  import opened Layers
  import opened Canvases
  import opened Solvers
  import opened Randoms
  import opened SolverMoves
  import opened SolverRuns
  import opened WrapOrders

  // ---------------------------------------------------------------- the heaviest reported line

  /** Every line problem_edge reports on a loopless path has both its ends on some layer. */
  lemma ReportWeighable(g: Graph, d: int, bad: seq<Line>, layers: seq<Graph>)
    requires Valid(g) && Loopless(g) && EdgeReport(g, d, bad) && Peeled(layers, g.nodes)
    ensures forall l :: l in bad ==> Weighable(layers, g.nodes, l)
  {
    ReportHasTwoEnds(g, d, bad);
    forall l | l in bad ensures Weighable(layers, g.nodes, l) {
      var t :| 0 <= t < |bad| && bad[t] == l;
      TwoEndsWeighable(g, bad[t], layers);
    }
  }

  /** A line between two distinct nodes of g has both its ends on some layer. */
  lemma TwoEndsWeighable(g: Graph, l: Line, layers: seq<Graph>)
    requires Valid(g) && Peeled(layers, g.nodes) && TwoEnds(g, l)
    ensures Weighable(layers, g.nodes, l)
  {
    var i, j :| 0 <= i < |g.nodes| && 0 <= j < |g.nodes| && i != j && l == LineBetween(g, i, j);
    var p, q := LineEnds(g, i, j);
    var w := WhichNodes(g.nodes, l);
    assert w[0] in g.nodes && w[1] in g.nodes;
  }

  /**
    * Sort by comp descending, keep the lines of the top weight, shuffle, take the first: a line
    * of the list no other line outweighs.
    */
  method Choose(layers: seq<Graph>, nodes: seq<Node>, ls: seq<Line>, rng: Random) returns (l: Line)
    requires |ls| > 0 && forall x :: x in ls ==> Weighable(layers, nodes, x)
    modifies rng
    ensures HeaviestOf(layers, nodes, ls, l)
  {
    var heavy := Heaviest(layers, nodes, ls, Top(layers, nodes, ls));
    HeaviestAreTop(layers, nodes, ls);
    var k := rng.Pick(|heavy|);
    assert heavy[k] in heavy;
    l := heavy[k];
  }

  // ---------------------------------------------------------------- try_edge and try_del_edge

  /**
    * What try_edge leaves, from g, drawing the line between nodes iu and iw that g lacks:
    * problem_edge was asked about g with the line drawn; the code is 1 exactly when it named a
    * line other than iu-iw, and then the line a-b taken out is one of the heaviest of those;
    * otherwise the drawn line was taken out again.
    */
  ghost predicate EdgeTried(layers: seq<Graph>, g: Graph, r: Graph, iu: nat, iw: nat, code: int, bad: seq<Line>, a: nat, b: nat)
  {
    Valid(g) && iu < |g.nodes| && iw < |g.nodes| && (code == 0 || code == 1) &&
    EdgeReport(Connect(g, iu, iw), 1, bad) &&
    (code == 1 <==> |Except(bad, LineBetween(g, iu, iw))| > 0) &&
    AltOutcome(g, r, iu, iw, false, a, b) && (code == 1 <==> a != b) &&
    (code == 1 ==>
      a < |g.nodes| && b < |g.nodes| &&
      HeaviestOf(layers, g.nodes, Except(bad, LineBetween(g, iu, iw)), LineBetween(g, a, b)))
  }

  /**
    * What try_del_edge leaves, from g, deleting the line between nodes iu and iw that g holds:
    * the mirror of EdgeTried, with the heaviest reported line drawn in place of the deleted one.
    */
  ghost predicate DelTried(layers: seq<Graph>, g: Graph, r: Graph, iu: nat, iw: nat, code: int, bad: seq<Line>, a: nat, b: nat)
  {
    Valid(g) && iu < |g.nodes| && iw < |g.nodes| && (code == 0 || code == 1) &&
    EdgeReport(Disconnect(g, iu, iw), -1, bad) &&
    (code == 1 <==> |Except(bad, LineBetween(g, iu, iw))| > 0) &&
    AllocOutcome(g, r, iu, iw, a, b) && (code == 1 <==> a != b) &&
    (code == 1 ==>
      a < |g.nodes| && b < |g.nodes| &&
      HeaviestOf(layers, g.nodes, Except(bad, LineBetween(g, iu, iw)), LineBetween(g, a, b)))
  }

  /**
    * try_edge: when u-w is not a line of the path, draw it, then delete one of the heaviest
    * lines problem_edge reports other than it (code 1), or delete u-w again (code 0).
    */
  method TryEdge(c: Canvas, rng: Random, layers: seq<Graph>, u: Node, w: Node)
    returns (code: int, ghost bad: seq<Line>, ghost a: nat, ghost b: nat)
    requires Ready(c) && SpanningSpec(c.graph.Model()) && Peeled(layers, c.graph.nodes)
    requires u in c.graph.nodes && w in c.graph.nodes && u != w
    modifies c, c.graph, rng
    ensures Ready(c) && c.graph == old(c.graph) && c.graph.nodes == old(c.graph.nodes) && c.layers == old(c.layers)
    ensures var g, iu, iw := old(c.graph.Model()), IndexOf(c.graph.nodes, u), IndexOf(c.graph.nodes, w);
      (IsConnected(g, iu, iw) ==> code == 0 && c.graph.Model() == g) &&
      (!IsConnected(g, iu, iw) ==> EdgeTried(layers, g, c.graph.Model(), iu, iw, code, bad, a, b))
  {
    var uw := Line(u.coord, w.coord);
    ghost var g := c.graph.Model();
    ghost var iu, iw := IndexOf(g.nodes, u), IndexOf(g.nodes, w);
    assert uw == LineBetween(g, iu, iw);
    bad, a, b := [], 0, 0;
    code := 0;
    if !LineIn(uw, c.graph.lines) {
      PairDraw(c, u, w);
      code, bad, a, b := Trim(c, rng, layers, u, w, g);
    }
  }

  /** The rest of try_edge once u-w is drawn on g: trim one of the heaviest reported lines, or u-w. */
  method Trim(c: Canvas, rng: Random, layers: seq<Graph>, u: Node, w: Node, ghost g: Graph)
    returns (code: int, ghost bad: seq<Line>, ghost a: nat, ghost b: nat)
    requires Ready(c) && Valid(g) && SpanningSpec(g) && Peeled(layers, g.nodes) && c.graph.nodes == g.nodes
    requires u in g.nodes && w in g.nodes && u != w && !IsConnected(g, IndexOf(g.nodes, u), IndexOf(g.nodes, w))
    requires c.edgeDiff == 1 && c.graph.Model() == Connect(g, IndexOf(g.nodes, u), IndexOf(g.nodes, w))
    modifies c, c.graph, rng
    ensures Ready(c) && c.graph == old(c.graph) && c.graph.nodes == old(c.graph.nodes) && c.layers == old(c.layers)
    ensures EdgeTried(layers, g, c.graph.Model(), IndexOf(g.nodes, u), IndexOf(g.nodes, w), code, bad, a, b)
  {
    var uw := Line(u.coord, w.coord);
    ghost var iu, iw := IndexOf(g.nodes, u), IndexOf(g.nodes, w);
    assert uw == LineBetween(g, iu, iw);
    ghost var g1 := c.graph.Model();
    var reported := Report(c);
    bad, a, b := reported, 0, 0;
    code := 0;
    var others := Except(reported, uw);
    if |others| > 0 {
      ReportWeighable(g1, 1, bad, layers);
      a, b := TrimHeaviest(c, rng, layers, others, g1, reported);
      code := 1;
      TrimmedTried(layers, g, c.graph.Model(), iu, iw, bad, a, b);
    } else {
      PairUndraw(c, u, w, g, g1);
    }
  }

  /** Delete one of the heaviest lines of others, a part of what problem_edge reported on g1. */
  method TrimHeaviest(c: Canvas, rng: Random, layers: seq<Graph>, others: seq<Line>, ghost g1: Graph, ghost bad: seq<Line>)
    returns (ghost a: nat, ghost b: nat)
    requires Ready(c) && Valid(g1) && SameGraph(c.graph.Model(), g1) && c.edgeDiff == 1 && EdgeReport(g1, 1, bad)
    requires |others| > 0 && (forall l :: l in others ==> l in bad) && forall l :: l in bad ==> Weighable(layers, g1.nodes, l)
    modifies c, c.graph, rng
    ensures Ready(c) && c.graph == old(c.graph) && c.graph.nodes == old(c.graph.nodes) && c.layers == old(c.layers)
    ensures a < |g1.nodes| && b < |g1.nodes| && a != b && IsConnected(g1, a, b)
    ensures HeaviestOf(layers, g1.nodes, others, LineBetween(g1, a, b))
    ensures PlanarPath(c.graph.Model()) && SameGraph(c.graph.Model(), Disconnect(g1, a, b))
  {
    var l := Choose(layers, c.graph.nodes, others, rng);
    a, b := RemoveReported(c, l, g1, bad);
  }

  /** The facts of a trim that took out the reported line a-b make up EdgeTried with code 1. */
  lemma TrimmedTried(layers: seq<Graph>, g: Graph, r: Graph, iu: nat, iw: nat, bad: seq<Line>, a: nat, b: nat)
    requires Valid(g) && iu < |g.nodes| && iw < |g.nodes| && iu != iw && !IsConnected(g, iu, iw)
    requires EdgeReport(Connect(g, iu, iw), 1, bad)
    requires var g1 := Connect(g, iu, iw);
      a < |g.nodes| && b < |g.nodes| && a != b && IsConnected(g1, a, b) &&
      HeaviestOf(layers, g.nodes, Except(bad, LineBetween(g, iu, iw)), LineBetween(g1, a, b)) &&
      Square(r) && PlanarPath(r) && SameGraph(r, Disconnect(g1, a, b))
    ensures EdgeTried(layers, g, r, iu, iw, 1, bad, a, b)
  {
    assert LineBetween(Connect(g, iu, iw), a, b) == LineBetween(g, a, b);
  }

  /**
    * try_del_edge: when u-w is a line of the path, delete it, then draw one of the heaviest
    * lines problem_edge reports other than it (code 1), or draw u-w again (code 0).
    */
  method TryDelEdge(c: Canvas, rng: Random, layers: seq<Graph>, u: Node, w: Node)
    returns (code: int, ghost bad: seq<Line>, ghost a: nat, ghost b: nat)
    requires Ready(c) && SpanningSpec(c.graph.Model()) && Peeled(layers, c.graph.nodes)
    requires u in c.graph.nodes && w in c.graph.nodes && u != w
    modifies c, c.graph, rng
    ensures Ready(c) && c.graph == old(c.graph) && c.graph.nodes == old(c.graph.nodes) && c.layers == old(c.layers)
    ensures var g, iu, iw := old(c.graph.Model()), IndexOf(c.graph.nodes, u), IndexOf(c.graph.nodes, w);
      (!IsConnected(g, iu, iw) ==> code == 0 && c.graph.Model() == g) &&
      (IsConnected(g, iu, iw) ==> DelTried(layers, g, c.graph.Model(), iu, iw, code, bad, a, b))
  {
    var uw := Line(u.coord, w.coord);
    ghost var g := c.graph.Model();
    ghost var iu, iw := IndexOf(g.nodes, u), IndexOf(g.nodes, w);
    assert uw == LineBetween(g, iu, iw);
    bad, a, b := [], 0, 0;
    code := 0;
    if LineIn(uw, c.graph.lines) {
      SpanningLoopless(g);
      EdgeDiffSteps(g, iu, iw);
      Unjoin(c, u, w);
      code, bad, a, b := Refill(c, rng, layers, u, w, g);
    }
  }

  /** The rest of try_del_edge once u-w is deleted from g: draw one of the heaviest reported lines, or u-w. */
  method Refill(c: Canvas, rng: Random, layers: seq<Graph>, u: Node, w: Node, ghost g: Graph)
    returns (code: int, ghost bad: seq<Line>, ghost a: nat, ghost b: nat)
    requires Ready(c) && Valid(g) && SpanningSpec(g) && Peeled(layers, g.nodes) && c.graph.nodes == g.nodes
    requires u in g.nodes && w in g.nodes && u != w && IsConnected(g, IndexOf(g.nodes, u), IndexOf(g.nodes, w))
    requires c.edgeDiff == -1 && c.graph.Model() == Disconnect(g, IndexOf(g.nodes, u), IndexOf(g.nodes, w))
    modifies c, c.graph, rng
    ensures Ready(c) && c.graph == old(c.graph) && c.graph.nodes == old(c.graph.nodes) && c.layers == old(c.layers)
    ensures DelTried(layers, g, c.graph.Model(), IndexOf(g.nodes, u), IndexOf(g.nodes, w), code, bad, a, b)
  {
    var uw := Line(u.coord, w.coord);
    ghost var iu, iw := IndexOf(g.nodes, u), IndexOf(g.nodes, w);
    assert uw == LineBetween(g, iu, iw);
    ghost var g1 := c.graph.Model();
    var reported := Report(c);
    bad, a, b := reported, 0, 0;
    code := 0;
    var others := Except(reported, uw);
    if |others| > 0 {
      ReportWeighable(g1, -1, bad, layers);
      var l;
      l, a, b := AddHeaviest(c, rng, layers, others, g1, reported);
      ReportedOutcome(g, c.graph.Model(), uw, l, iu, iw, a, b);
      code := 1;
    } else {
      Rejoin(c, u, w, g, g1);
    }
  }

  /** Draw u-w back on a path that is g less u-w up to line order: g comes back up to line order. */
  method Rejoin(c: Canvas, u: Node, w: Node, ghost g: Graph, ghost g1: Graph)
    requires Ready(c) && Valid(g) && c.graph.nodes == g.nodes && u in g.nodes && w in g.nodes && u != w
    requires IsConnected(g, IndexOf(g.nodes, u), IndexOf(g.nodes, w)) && c.edgeDiff < 1 && g1 == Disconnect(g, IndexOf(g.nodes, u), IndexOf(g.nodes, w))
    requires SameGraph(c.graph.Model(), g1)
    modifies c, c.graph
    ensures Ready(c) && c.graph == old(c.graph) && c.graph.nodes == old(c.graph.nodes) && c.layers == old(c.layers)
    ensures SameGraph(c.graph.Model(), g)
  {
    ghost var iu, iw := IndexOf(g.nodes, u), IndexOf(g.nodes, w);
    ghost var cur := c.graph.Model();
    Join(c, u, w);
    ConnectSameGraph(cur, g1, iu, iw);
    DisconnectConnectRoundTrip(g, iu, iw);
    SameGraphTrans(c.graph.Model(), Connect(g1, iu, iw), g);
  }

  /** Draw one of the heaviest lines of others, a part of what problem_edge reported on g1. */
  method AddHeaviest(c: Canvas, rng: Random, layers: seq<Graph>, others: seq<Line>, ghost g1: Graph, ghost bad: seq<Line>)
    returns (l: Line, ghost a: nat, ghost b: nat)
    requires Ready(c) && Valid(g1) && SameGraph(c.graph.Model(), g1) && c.edgeDiff == -1 && EdgeReport(g1, -1, bad)
    requires |others| > 0 && (forall x :: x in others ==> x in bad) && forall x :: x in bad ==> Weighable(layers, g1.nodes, x)
    modifies c, c.graph, rng
    ensures Ready(c) && c.graph == old(c.graph) && c.graph.nodes == old(c.graph.nodes) && c.layers == old(c.layers)
    ensures a < |g1.nodes| && b < |g1.nodes| && a != b && !IsConnected(g1, a, b) && l == LineBetween(g1, a, b)
    ensures HeaviestOf(layers, g1.nodes, others, l) && l in others
    ensures PlanarPath(c.graph.Model()) && SameGraph(c.graph.Model(), Connect(g1, a, b))
  {
    l := Choose(layers, c.graph.nodes, others, rng);
    a, b := AddReported(c, l, g1, bad);
  }

  /** A try of try_edge keeps the path; when it reports a change, the drawn line stays. */
  lemma EdgeTriedKeeps(layers: seq<Graph>, g: Graph, r: Graph, iu: nat, iw: nat, code: int, bad: seq<Line>, a: nat, b: nat)
    requires EdgeTried(layers, g, r, iu, iw, code, bad, a, b) && r.nodes == g.nodes
    ensures Kept(g, r)
    ensures code == 0 ==> SameGraph(r, g)
    ensures code == 1 ==> PlanarPath(r) && IsConnected(r, iu, iw)
  {
    if code == 1 {
      DrawnStays(g, r, iu, iw, a, b);
    }
  }

  /** When the line trimmed after drawing iu-iw is another line, iu-iw stays drawn. */
  lemma DrawnStays(g: Graph, r: Graph, iu: nat, iw: nat, a: nat, b: nat)
    requires AltOutcome(g, r, iu, iw, false, a, b) && a != b && r.nodes == g.nodes
    ensures IsConnected(r, iu, iw)
  {
    var g1 := Connect(g, iu, iw);
    SameLineBetween(g, iu, iw, a, b);
    SetSymAt(g1.adj, a, b, 0, iu, iw);
    SetSymAt(g.adj, iu, iw, 1, iu, iw);
  }

  /** A try of try_del_edge keeps the path; when it reports a change, the deleted line stays out. */
  lemma DelTriedKeeps(layers: seq<Graph>, g: Graph, r: Graph, iu: nat, iw: nat, code: int, bad: seq<Line>, a: nat, b: nat)
    requires DelTried(layers, g, r, iu, iw, code, bad, a, b) && r.nodes == g.nodes
    ensures Kept(g, r)
    ensures code == 0 ==> SameGraph(r, g)
    ensures code == 1 ==> PlanarPath(r) && !IsConnected(r, iu, iw)
  {
    if code == 1 {
      DeletedStaysOut(g, r, iu, iw, a, b);
    }
  }

  /** When the line drawn after deleting iu-iw is another line, iu-iw stays deleted. */
  lemma DeletedStaysOut(g: Graph, r: Graph, iu: nat, iw: nat, a: nat, b: nat)
    requires AllocOutcome(g, r, iu, iw, a, b) && a != b && r.nodes == g.nodes
    ensures !IsConnected(r, iu, iw)
  {
    var g1 := Disconnect(g, iu, iw);
    SameLineBetween(g, iu, iw, a, b);
    SetSymAt(g1.adj, a, b, 1, iu, iw);
    SetSymAt(g.adj, iu, iw, 0, iu, iw);
  }

  /**
    * A try of try_del_edge at iu-iw leaves iu joined to every node other than iw it was joined to:
    * the line drawn instead only adds.
    */
  lemma DelTriedNeighbours(layers: seq<Graph>, g: Graph, r: Graph, iu: nat, iw: nat, code: int, bad: seq<Line>, a: nat, b: nat, x: nat)
    requires DelTried(layers, g, r, iu, iw, code, bad, a, b) && r.nodes == g.nodes && iu != iw
    requires x < |g.nodes| && x != iw && IsConnected(g, iu, x)
    ensures IsConnected(r, iu, x)
  {
    OutcomeKeeps(g, r, iu, iw, a, b, iu, x);
  }

  lemma DelTriedKeepsNeighbours(layers: seq<Graph>, g: Graph, r: Graph, iu: nat, iw: nat, code: int, bad: seq<Line>, a: nat, b: nat)
    requires DelTried(layers, g, r, iu, iw, code, bad, a, b) && r.nodes == g.nodes && iu != iw
    ensures KeepsNeighbours(g, r, iu, iw)
  {
    forall x | 0 <= x < |g.nodes| && x != iw && IsConnected(g, iu, x) ensures IsConnected(r, iu, x) {
      DelTriedNeighbours(layers, g, r, iu, iw, code, bad, a, b, x);
    }
  }

  // ---------------------------------------------------------------- try_all and try_del_all

  /**
    * try_all, which the wrapper always calls with ordered=True: try_edge from current to each
    * node of nodelist in turn, stopping at the first try that reports a change. Code 0: the path
    * is as it was up to line order. Code 1: a planar path in which current is joined to
    * nodelist[k], which it was not before.
    */
  method TryAll(c: Canvas, rng: Random, layers: seq<Graph>, current: Node, nodelist: seq<Node>) returns (code: int, ghost k: nat)
    requires Ready(c) && SpanningSpec(c.graph.Model()) && Peeled(layers, c.graph.nodes)
    requires current in c.graph.nodes && forall v :: v in nodelist ==> v in c.graph.nodes && v != current
    modifies c, c.graph, rng
    ensures Ready(c) && c.graph == old(c.graph) && c.graph.nodes == old(c.graph.nodes) && c.layers == old(c.layers)
    ensures code == 0 || code == 1
    ensures code == 0 ==> SameGraph(c.graph.Model(), old(c.graph.Model()))
    ensures code == 1 ==>
      k < |nodelist| && PlanarPath(c.graph.Model()) &&
      !IsConnected(old(c.graph.Model()), IndexOf(c.graph.nodes, current), IndexOf(c.graph.nodes, nodelist[k])) &&
      IsConnected(c.graph.Model(), IndexOf(c.graph.nodes, current), IndexOf(c.graph.nodes, nodelist[k]))
  {
    ghost var g := c.graph.Model();
    SameGraphRefl(g);
    code, k := 0, 0;
    var m := 0;
    while m < |nodelist|
      invariant m <= |nodelist|
      invariant Ready(c) && c.graph == old(c.graph) && c.graph.nodes == g.nodes && c.layers == old(c.layers)
      invariant SameGraph(c.graph.Model(), g) && code == 0
    {
      ghost var h := c.graph.Model();
      SpanningSpecFrame(g, h);
      assert nodelist[m] in nodelist;
      code := EdgeAt(c, rng, layers, current, nodelist[m]);
      if code == 1 {
        k := m;
        return;
      }
      SameGraphTrans(c.graph.Model(), h, g);
      m := m + 1;
    }
  }

  /**
    * try_del_all with ordered=True: try_del_edge between current and each node of nodelist in
    * turn, stopping at the first try that reports a change. Code 0: the path is as it was up to
    * line order. Code 1: a planar path in which current is no longer joined to nodelist[k].
    */
  method TryDelAll(c: Canvas, rng: Random, layers: seq<Graph>, current: Node, nodelist: seq<Node>) returns (code: int, ghost k: nat)
    requires Ready(c) && SpanningSpec(c.graph.Model()) && Peeled(layers, c.graph.nodes)
    requires current in c.graph.nodes && forall v :: v in nodelist ==> v in c.graph.nodes && v != current
    modifies c, c.graph, rng
    ensures Ready(c) && c.graph == old(c.graph) && c.graph.nodes == old(c.graph.nodes) && c.layers == old(c.layers)
    ensures code == 0 || code == 1
    ensures code == 0 ==> SameGraph(c.graph.Model(), old(c.graph.Model()))
    ensures code == 1 ==>
      k < |nodelist| && PlanarPath(c.graph.Model()) &&
      IsConnected(old(c.graph.Model()), IndexOf(c.graph.nodes, current), IndexOf(c.graph.nodes, nodelist[k])) &&
      !IsConnected(c.graph.Model(), IndexOf(c.graph.nodes, current), IndexOf(c.graph.nodes, nodelist[k]))
  {
    ghost var g := c.graph.Model();
    SameGraphRefl(g);
    code, k := 0, 0;
    var m := 0;
    while m < |nodelist|
      invariant m <= |nodelist|
      invariant Ready(c) && c.graph == old(c.graph) && c.graph.nodes == g.nodes && c.layers == old(c.layers)
      invariant SameGraph(c.graph.Model(), g) && code == 0
    {
      ghost var h := c.graph.Model();
      SpanningSpecFrame(g, h);
      assert nodelist[m] in nodelist;
      code := DelEdgeAt(c, rng, layers, current, nodelist[m]);
      if code == 1 {
        k := m;
        return;
      }
      SameGraphTrans(c.graph.Model(), h, g);
      m := m + 1;
    }
  }

  /** try_edge as try_all sees it: the path as it was up to line order, or u newly joined to w on a planar path. */
  method EdgeAt(c: Canvas, rng: Random, layers: seq<Graph>, u: Node, w: Node) returns (code: int)
    requires Ready(c) && SpanningSpec(c.graph.Model()) && Peeled(layers, c.graph.nodes)
    requires u in c.graph.nodes && w in c.graph.nodes && u != w
    modifies c, c.graph, rng
    ensures Ready(c) && c.graph == old(c.graph) && c.graph.nodes == old(c.graph.nodes) && c.layers == old(c.layers)
    ensures code == 0 || code == 1
    ensures code == 0 ==> SameGraph(c.graph.Model(), old(c.graph.Model()))
    ensures code == 1 ==>
      PlanarPath(c.graph.Model()) &&
      !IsConnected(old(c.graph.Model()), IndexOf(c.graph.nodes, u), IndexOf(c.graph.nodes, w)) &&
      IsConnected(c.graph.Model(), IndexOf(c.graph.nodes, u), IndexOf(c.graph.nodes, w))
  {
    ghost var h := c.graph.Model();
    ghost var iu, iw := IndexOf(h.nodes, u), IndexOf(h.nodes, w);
    ghost var bad, a, b;
    code, bad, a, b := TryEdge(c, rng, layers, u, w);
    if !IsConnected(h, iu, iw) {
      EdgeTriedKeeps(layers, h, c.graph.Model(), iu, iw, code, bad, a, b);
    } else {
      SameGraphRefl(h);
    }
  }

  /** try_del_edge as try_del_all sees it: the path as it was up to line order, or u newly apart from w on a planar path. */
  method DelEdgeAt(c: Canvas, rng: Random, layers: seq<Graph>, u: Node, w: Node) returns (code: int)
    requires Ready(c) && SpanningSpec(c.graph.Model()) && Peeled(layers, c.graph.nodes)
    requires u in c.graph.nodes && w in c.graph.nodes && u != w
    modifies c, c.graph, rng
    ensures Ready(c) && c.graph == old(c.graph) && c.graph.nodes == old(c.graph.nodes) && c.layers == old(c.layers)
    ensures code == 0 || code == 1
    ensures code == 0 ==> SameGraph(c.graph.Model(), old(c.graph.Model()))
    ensures code == 1 ==>
      PlanarPath(c.graph.Model()) &&
      IsConnected(old(c.graph.Model()), IndexOf(c.graph.nodes, u), IndexOf(c.graph.nodes, w)) &&
      !IsConnected(c.graph.Model(), IndexOf(c.graph.nodes, u), IndexOf(c.graph.nodes, w))
  {
    ghost var h := c.graph.Model();
    ghost var iu, iw := IndexOf(h.nodes, u), IndexOf(h.nodes, w);
    ghost var bad, a, b;
    code, bad, a, b := TryDelEdge(c, rng, layers, u, w);
    if IsConnected(h, iu, iw) {
      DelTriedKeeps(layers, h, c.graph.Model(), iu, iw, code, bad, a, b);
    } else {
      SameGraphRefl(h);
    }
  }

  /** What a move keeps from a spanning path is a spanning path. */
  lemma KeptSpans(g: Graph, r: Graph)
    requires Square(g) && SpanningSpec(g) && Kept(g, r)
    ensures SpanningSpec(r)
  {
    if SameGraph(r, g) {
      SpanningSpecFrame(g, r);
    }
  }

  /** Any scan keeps the path as Kept says. */
  lemma ScanKept(g: Graph, r: Graph, code: int)
    requires Square(r) && (code == 0 ==> SameGraph(r, g)) && (code != 0 ==> PlanarPath(r))
    ensures Kept(g, r)
  {
  }

  // ---------------------------------------------------------------- try_node

  /** adj(v) on a loopless path: distinct neighbours of v, none of them v itself. */
  lemma AdjOthers(g: Graph, i: nat)
    requires Valid(g) && Loopless(g) && i < |g.nodes|
    ensures NoDupNodes(AdjNodes(g, i))
    ensures forall v :: v in AdjNodes(g, i) ==> v in g.nodes && v != g.nodes[i] && IsConnected(g, i, IndexOf(g.nodes, v))
  {
    AdjUpToNoDup(g.nodes, g.adj[i], |g.nodes|);
    forall v | v in AdjNodes(g, i) ensures v in g.nodes && v != g.nodes[i] && IsConnected(g, i, IndexOf(g.nodes, v)) {
      AdjNodesIn(g, i, v);
      if v == g.nodes[i] {
        IndexOfAt(g.nodes, i);
      }
    }
  }

  lemma {:induction false} AdjUpToNoDup(nodes: seq<Node>, row: seq<int>, k: nat)
    requires k <= |nodes| && |row| == |nodes| && DistinctCoords(nodes)
    ensures NoDupNodes(AdjUpTo(nodes, row, k))
  {
    if k > 0 {
      var front := AdjUpTo(nodes, row, k - 1);
      AdjUpToNoDup(nodes, row, k - 1);
      if row[k - 1] == 1 {
        forall j | 0 <= j < |front| ensures front[j] != nodes[k - 1] {
          assert front[j] in front;
          var t :| 0 <= t < k - 1 && row[t] == 1 && nodes[t] == front[j];
          CoordsDistinctAt(nodes, t, k - 1);
        }
      }
    }
  }

  /**
    * `if path.deg(start) > 1`: try_del_all from start over its neighbours other than keep.
    */
  method TrimStart(c: Canvas, rng: Random, layers: seq<Graph>, start: Node, keep: Node)
    requires Ready(c) && SpanningSpec(c.graph.Model()) && Peeled(layers, c.graph.nodes) && start in c.graph.nodes
    modifies c, c.graph, rng
    ensures Ready(c) && c.graph == old(c.graph) && c.graph.nodes == old(c.graph.nodes) && c.layers == old(c.layers)
    ensures SpanningSpec(c.graph.Model()) && Kept(old(c.graph.Model()), c.graph.Model())
    ensures PlanarPath(old(c.graph.Model())) ==> PlanarPath(c.graph.Model())
  {
    ghost var g := c.graph.Model();
    SameGraphRefl(g);
    if c.graph.Deg(start) > 1 {
      var startAdj := c.graph.Adj(start);
      AdjOthers(g, IndexOf(g.nodes, start));
      var others := Without(startAdj, [keep]);
      var code, k := TryDelAll(c, rng, layers, start, others);
      ScanKept(g, c.graph.Model(), code);
    }
    KeptSpans(g, c.graph.Model());
    if PlanarPath(g) {
      KeptPlanar(g, c.graph.Model());
    }
  }

  /**
    * try_node: for each neighbour other of node, in shuffled order, delete node-other and draw
    * one of the heaviest lines problem_edge reports instead (or draw node-other back); after a
    * replacement, try_all from current over nodelist, and when that reports a change, order the
    * path and trim the start's extra neighbours (code 1). A replacement whose try_all fails stays.
    */
  method TryNode(c: Canvas, rng: Random, layers: seq<Graph>, current: Node, node: Node, nodelist: seq<Node>, pathStart: Node)
    returns (code: int)
    requires Ready(c) && SpanningSpec(c.graph.Model()) && Peeled(layers, c.graph.nodes)
    requires current in c.graph.nodes && node in c.graph.nodes && pathStart in c.graph.nodes
    requires forall v :: v in nodelist ==> v in c.graph.nodes && v != current
    modifies c, c.graph, rng
    ensures Ready(c) && c.graph == old(c.graph) && c.graph.nodes == old(c.graph.nodes) && c.layers == old(c.layers)
    ensures code == 0 || code == 1
    ensures Kept(old(c.graph.Model()), c.graph.Model())
    ensures code == 1 ==> PlanarPath(c.graph.Model())
  {
    ghost var g := c.graph.Model();
    ghost var iv := IndexOf(g.nodes, node);
    SameGraphRefl(g);
    var adjList := ShuffledNeighbours(c, rng, node);
    var t := 0;
    while t < |adjList|
      invariant t <= |adjList|
      invariant Ready(c) && c.graph == old(c.graph) && c.graph.nodes == g.nodes && c.layers == old(c.layers)
      invariant SpanningSpec(c.graph.Model()) && Kept(g, c.graph.Model())
      invariant NoDupNodes(adjList)
      invariant forall s :: t <= s < |adjList| ==>
        adjList[s] in g.nodes && adjList[s] != node && IsConnected(c.graph.Model(), iv, IndexOf(g.nodes, adjList[s]))
    {
      var other := adjList[t];
      ghost var h := c.graph.Model();
      ghost var io := IndexOf(g.nodes, other);
      code := NodeTry(c, rng, layers, current, node, other, nodelist, pathStart);
      ghost var r := c.graph.Model();
      KeptTrans(g, h, r);
      if code == 1 {
        return;
      }
      KeptSpans(g, r);
      NeighboursLeft(g.nodes, h, r, iv, adjList, t);
      t := t + 1;
    }
    code := 0;
  }

  /** Node i keeps in r every neighbour it has in h, except perhaps the one at o. */
  ghost predicate KeepsNeighbours(h: Graph, r: Graph, i: nat, o: nat)
    requires Square(h) && Square(r) && |r.nodes| == |h.nodes| && i < |h.nodes|
  {
    forall x :: 0 <= x < |h.nodes| && x != o && IsConnected(h, i, x) ==> IsConnected(r, i, x)
  }

  /** After the try at adjList[t] the neighbours still to try are still neighbours. */
  lemma NeighboursLeft(nodes: seq<Node>, h: Graph, r: Graph, iv: nat, adjList: seq<Node>, t: nat)
    requires Square(h) && Square(r) && |h.nodes| == |nodes| && |r.nodes| == |nodes| && iv < |nodes|
    requires t < |adjList| && NoDupNodes(adjList)
    requires forall s :: t <= s < |adjList| ==> adjList[s] in nodes && IsConnected(h, iv, IndexOf(nodes, adjList[s]))
    requires KeepsNeighbours(h, r, iv, IndexOf(nodes, adjList[t]))
    ensures forall s :: t + 1 <= s < |adjList| ==> IsConnected(r, iv, IndexOf(nodes, adjList[s]))
  {
    forall s | t + 1 <= s < |adjList| ensures IsConnected(r, iv, IndexOf(nodes, adjList[s])) {
      var x := IndexOf(nodes, adjList[s]);
      assert nodes[x] == adjList[s] != adjList[t] == nodes[IndexOf(nodes, adjList[t])];
    }
  }

  /** `adj_list = path.adj(node)` then `shuffle(adj_list)`: node's neighbours, each once, in some order. */
  method ShuffledNeighbours(c: Canvas, rng: Random, node: Node) returns (adjList: seq<Node>)
    requires Ready(c) && node in c.graph.nodes
    modifies rng
    ensures NoDupNodes(adjList)
    ensures forall v :: v in adjList <==> v in AdjNodes(c.graph.Model(), IndexOf(c.graph.nodes, node))
    ensures forall v :: v in adjList ==>
      v in c.graph.nodes && v != node && IsConnected(c.graph.Model(), IndexOf(c.graph.nodes, node), IndexOf(c.graph.nodes, v))
  {
    ghost var g := c.graph.Model();
    ghost var iv := IndexOf(g.nodes, node);
    var around := c.graph.Adj(node);
    AdjOthers(g, iv);
    adjList := rng.Shuffle(around);
    ShuffledNoDup(around, adjList);
    forall v ensures v in adjList <==> v in around {
      assert v in adjList <==> multiset(adjList)[v] > 0;
      assert v in around <==> multiset(around)[v] > 0;
    }
  }

  /** One neighbour of try_node's loop. */
  method NodeTry(c: Canvas, rng: Random, layers: seq<Graph>, current: Node, node: Node, other: Node, nodelist: seq<Node>, pathStart: Node)
    returns (code: int)
    requires Ready(c) && SpanningSpec(c.graph.Model()) && Peeled(layers, c.graph.nodes)
    requires current in c.graph.nodes && node in c.graph.nodes && other in c.graph.nodes && pathStart in c.graph.nodes
    requires node != other && IsConnected(c.graph.Model(), IndexOf(c.graph.nodes, node), IndexOf(c.graph.nodes, other))
    requires forall v :: v in nodelist ==> v in c.graph.nodes && v != current
    modifies c, c.graph, rng
    ensures Ready(c) && c.graph == old(c.graph) && c.graph.nodes == old(c.graph.nodes) && c.layers == old(c.layers)
    ensures code == 0 || code == 1
    ensures Kept(old(c.graph.Model()), c.graph.Model())
    ensures code == 1 ==> PlanarPath(c.graph.Model())
    ensures code == 0 ==>
      KeepsNeighbours(old(c.graph.Model()), c.graph.Model(), IndexOf(c.graph.nodes, node), IndexOf(c.graph.nodes, other))
  {
    ghost var h := c.graph.Model();
    var found := Replace(c, rng, layers, node, other);
    ghost var r := c.graph.Model();
    ScanKept(h, r, found);
    code := 0;
    if found == 1 {
      var reached;
      ghost var k;
      reached, k := TryAll(c, rng, layers, current, nodelist);
      ghost var r2 := c.graph.Model();
      ScanKept(r, r2, reached);
      KeptTrans(h, r, r2);
      if reached == 1 {
        ghost var r3 := c.graph.Model();
        Settle(c, rng, layers, pathStart);
        KeptTrans(h, r3, c.graph.Model());
        code := 1;
      }
    }
  }

  /**
    * `delete_edge(node, other)`, then draw one of the heaviest lines problem_edge reports other
    * than node-other (found 1), or draw node-other back (found 0). Node keeps every other neighbour.
    */
  method Replace(c: Canvas, rng: Random, layers: seq<Graph>, node: Node, other: Node) returns (found: int)
    requires Ready(c) && SpanningSpec(c.graph.Model()) && Peeled(layers, c.graph.nodes)
    requires node in c.graph.nodes && other in c.graph.nodes && node != other
    requires IsConnected(c.graph.Model(), IndexOf(c.graph.nodes, node), IndexOf(c.graph.nodes, other))
    modifies c, c.graph, rng
    ensures Ready(c) && c.graph == old(c.graph) && c.graph.nodes == old(c.graph.nodes) && c.layers == old(c.layers)
    ensures found == 0 || found == 1
    ensures found == 0 ==> SameGraph(c.graph.Model(), old(c.graph.Model()))
    ensures found == 1 ==> PlanarPath(c.graph.Model())
    ensures KeepsNeighbours(old(c.graph.Model()), c.graph.Model(), IndexOf(c.graph.nodes, node), IndexOf(c.graph.nodes, other))
  {
    ghost var h := c.graph.Model();
    ghost var iv, io := IndexOf(h.nodes, node), IndexOf(h.nodes, other);
    SpanningLoopless(h);
    EdgeDiffSteps(h, iv, io);
    Unjoin(c, node, other);
    ghost var bad, a, b;
    found, bad, a, b := Refill(c, rng, layers, node, other, h);
    ghost var r := c.graph.Model();
    DelTriedKeeps(layers, h, r, iv, io, found, bad, a, b);
    DelTriedKeepsNeighbours(layers, h, r, iv, io, found, bad, a, b);
  }

  /**
    * After try_node's try_all reports a change: `path_nodes = path.path_node_order()`, then trim
    * the start's neighbours other than path_nodes[1].
    */
  method Settle(c: Canvas, rng: Random, layers: seq<Graph>, pathStart: Node)
    requires Ready(c) && PlanarPath(c.graph.Model()) && Peeled(layers, c.graph.nodes) && pathStart in c.graph.nodes
    modifies c, c.graph, rng
    ensures Ready(c) && c.graph == old(c.graph) && c.graph.nodes == old(c.graph.nodes) && c.layers == old(c.layers)
    ensures PlanarPath(c.graph.Model()) && Kept(old(c.graph.Model()), c.graph.Model())
  {
    var pathNodes := OrderPath(c);
    TrimStart(c, rng, layers, pathStart, pathNodes[1]);
  }

  /**
    * path_node_order on the live canvas: it sets the endpoints, which the canvas's validity does
    * not read, and lists the nodes from start to end along the path.
    */
  method OrderPath(c: Canvas) returns (order: seq<Node>)
    requires Ready(c) && SpanningSpec(c.graph.Model())
    modifies c.graph
    ensures Ready(c) && c.graph.Model() == old(c.graph.Model())
    ensures |order| == |c.graph.nodes| >= 2 && NoDupNodes(order) && forall v :: v in order <==> v in c.graph.nodes
    ensures c.graph.start == Some(order[0]) && c.graph.end == Some(order[|order| - 1])
    ensures order[0] == c.graph.nodes[WithDeg(c.graph.Model(), 1)[0]]
    ensures order[|order| - 1] == c.graph.nodes[WithDeg(c.graph.Model(), 1)[1]]
    ensures Walks(c.graph.Model(), order)
  {
    ghost var g := c.graph.Model();
    order := c.graph.PathNodeOrder();
    assert c.Hist().current.graph == g;
  }

  // ---------------------------------------------------------------- the steps of wrap_path

  /**
    * What the wrapper needs of its angle filter-and-sort of the nodes to be checked: the nodes it
    * returns are drawn from the list it is given.
    */
  ghost predicate AimSpec(aim: (Node, Node, Node, seq<Node>) -> seq<Node>)
  {
    forall a, b, d, s, v :: v in aim(a, b, d, s) ==> v in s
  }

  /** A move of wrap_path: it keeps the path as Kept says, and a spanning path spanning. */
  ghost predicate Moved(g: Graph, r: Graph)
  {
    Square(g) && SpanningSpec(g) && Kept(g, r) && SpanningSpec(r)
  }

  /** Two moves make a move. */
  lemma MovedTrans(g: Graph, m: Graph, r: Graph)
    requires Valid(g) && Moved(g, m) && Moved(m, r)
    ensures Moved(g, r)
  {
    KeptTrans(g, m, r);
  }

  /** A move of wrap_path that leaves the path as it was up to line order. */
  lemma MovedSame(g: Graph, r: Graph)
    requires Square(g) && SpanningSpec(g) && Square(r) && SameGraph(r, g)
    ensures Moved(g, r)
  {
    KeptSpans(g, r);
  }

  /**
    * The loop body of wrap_path_step at one node to be checked: try_node; when it reports no
    * change, try_all from current, and when that reports none either, try_del_all from possible
    * over its neighbours. Done when try_node or try_all reports a change.
    */
  method StepTry(c: Canvas, rng: Random, layers: seq<Graph>, current: Node, possible: Node, checked: seq<Node>, start: Node)
    returns (done: bool)
    requires Ready(c) && SpanningSpec(c.graph.Model()) && Peeled(layers, c.graph.nodes)
    requires current in c.graph.nodes && possible in c.graph.nodes && start in c.graph.nodes
    requires forall v :: v in checked ==> v in c.graph.nodes && v != current
    modifies c, c.graph, rng
    ensures Ready(c) && c.graph == old(c.graph) && c.graph.nodes == old(c.graph.nodes) && c.layers == old(c.layers)
    ensures Moved(old(c.graph.Model()), c.graph.Model())
  {
    ghost var g := c.graph.Model();
    var code := TryNode(c, rng, layers, current, possible, checked, start);
    KeptSpans(g, c.graph.Model());
    done := code == 1;
    if !done {
      ghost var h := c.graph.Model();
      var reached, k := TryAll(c, rng, layers, current, checked);
      ScanKept(h, c.graph.Model(), reached);
      KeptSpans(h, c.graph.Model());
      MovedTrans(g, h, c.graph.Model());
      done := reached == 1;
      if !done {
        ghost var h2 := c.graph.Model();
        var around := c.graph.Adj(possible);
        AdjOthers(h2, IndexOf(h2.nodes, possible));
        var freed, k2 := TryDelAll(c, rng, layers, possible, around);
        ScanKept(h2, c.graph.Model(), freed);
        KeptSpans(h2, c.graph.Model());
        MovedTrans(g, h2, c.graph.Model());
      }
    }
  }

  /**
    * The loop body of wrap_path_step_alt at one node to be checked: try_node; when it reports no
    * change, try_del_all from current over the nodes to be checked, and when that reports none
    * either, try_all from possible over its neighbours (which are all joined to it already).
    */
  method AltStepTry(c: Canvas, rng: Random, layers: seq<Graph>, current: Node, possible: Node, checked: seq<Node>, start: Node)
    returns (done: bool)
    requires Ready(c) && SpanningSpec(c.graph.Model()) && Peeled(layers, c.graph.nodes)
    requires current in c.graph.nodes && possible in c.graph.nodes && start in c.graph.nodes
    requires forall v :: v in checked ==> v in c.graph.nodes && v != current
    modifies c, c.graph, rng
    ensures Ready(c) && c.graph == old(c.graph) && c.graph.nodes == old(c.graph.nodes) && c.layers == old(c.layers)
    ensures Moved(old(c.graph.Model()), c.graph.Model())
  {
    ghost var g := c.graph.Model();
    var code := TryNode(c, rng, layers, current, possible, checked, start);
    KeptSpans(g, c.graph.Model());
    done := code == 1;
    if !done {
      ghost var h := c.graph.Model();
      var freed, k := TryDelAll(c, rng, layers, current, checked);
      ScanKept(h, c.graph.Model(), freed);
      KeptSpans(h, c.graph.Model());
      MovedTrans(g, h, c.graph.Model());
      done := freed == 1;
      if !done {
        ghost var h2 := c.graph.Model();
        var around := c.graph.Adj(possible);
        AdjOthers(h2, IndexOf(h2.nodes, possible));
        var reached, k2 := TryAll(c, rng, layers, possible, around);
        ScanKept(h2, c.graph.Model(), reached);
        KeptSpans(h2, c.graph.Model());
        MovedTrans(g, h2, c.graph.Model());
      }
    }
  }

  /** What a step of wrap_path needs of the two orders and the first position where they differ. */
  ghost predicate StepReady(c: Canvas, layers: seq<Graph>, oldPath: seq<Node>, newPath: seq<Node>, i: nat)
    reads c, c.graph
  {
    Ready(c) && SpanningSpec(c.graph.Model()) && Peeled(layers, c.graph.nodes) &&
    |oldPath| == |newPath| && 1 <= i < |oldPath| &&
    (forall v :: v in oldPath ==> v in c.graph.nodes) && (forall v :: v in newPath ==> v in c.graph.nodes) &&
    newPath[i - 1] !in oldPath[i..]
  }

  /**
    * wrap_path_step: from current = newPath[i-1], scan the nodes to be checked (oldPath[i:],
    * filtered and sorted by angle) with StepTry until one reports a change, then trim the start's
    * neighbours other than oldPath[1].
    */
  method WrapPathStep(c: Canvas, rng: Random, layers: seq<Graph>, aim: (Node, Node, Node, seq<Node>) -> seq<Node>,
                      oldPath: seq<Node>, newPath: seq<Node>, i: nat)
    requires StepReady(c, layers, oldPath, newPath, i) && AimSpec(aim)
    modifies c, c.graph, rng
    ensures Ready(c) && c.graph == old(c.graph) && c.graph.nodes == old(c.graph.nodes) && c.layers == old(c.layers)
    ensures Moved(old(c.graph.Model()), c.graph.Model())
  {
    ghost var g := c.graph.Model();
    var current, toBe, oldNext := newPath[i - 1], newPath[i], oldPath[i];
    var checked := aim(current, toBe, oldNext, oldPath[i..]);
    assert forall v :: v in checked ==> v in oldPath[i..];
    var start := oldPath[0];
    SameGraphRefl(g);
    MovedSame(g, g);
    var m := 0;
    while m < |checked|
      invariant m <= |checked|
      invariant Ready(c) && c.graph == old(c.graph) && c.graph.nodes == g.nodes && c.layers == old(c.layers)
      invariant Moved(g, c.graph.Model())
    {
      ghost var h := c.graph.Model();
      assert checked[m] in checked;
      var done := StepTry(c, rng, layers, current, checked[m], checked, start);
      MovedTrans(g, h, c.graph.Model());
      if done {
        break;
      }
      m := m + 1;
    }
    ghost var h := c.graph.Model();
    TrimStart(c, rng, layers, start, oldPath[1]);
    MovedTrans(g, h, c.graph.Model());
  }

  /**
    * wrap_path_step_alt: first try_all from current over the nodes to be checked; when that
    * reports no change, scan them with AltStepTry until one reports a change, then trim the
    * start's neighbours other than oldPath[1].
    */
  method WrapPathStepAlt(c: Canvas, rng: Random, layers: seq<Graph>, aim: (Node, Node, Node, seq<Node>) -> seq<Node>,
                         oldPath: seq<Node>, newPath: seq<Node>, i: nat)
    requires StepReady(c, layers, oldPath, newPath, i) && AimSpec(aim)
    modifies c, c.graph, rng
    ensures Ready(c) && c.graph == old(c.graph) && c.graph.nodes == old(c.graph.nodes) && c.layers == old(c.layers)
    ensures Moved(old(c.graph.Model()), c.graph.Model())
  {
    ghost var g := c.graph.Model();
    var current, toBe, oldNext := newPath[i - 1], newPath[i], oldPath[i];
    var checked := aim(current, toBe, oldNext, oldPath[i..]);
    assert forall v :: v in checked ==> v in oldPath[i..];
    var start := oldPath[0];
    var reached, k := TryAll(c, rng, layers, current, checked);
    ScanKept(g, c.graph.Model(), reached);
    KeptSpans(g, c.graph.Model());
    if reached != 1 {
      ghost var g1 := c.graph.Model();
      MovedSame(g1, g1) by { SameGraphRefl(g1); }
      var m := 0;
      while m < |checked|
        invariant m <= |checked|
        invariant Ready(c) && c.graph == old(c.graph) && c.graph.nodes == g.nodes && c.layers == old(c.layers)
        invariant Moved(g1, c.graph.Model())
      {
        ghost var h := c.graph.Model();
        assert checked[m] in checked;
        var done := AltStepTry(c, rng, layers, current, checked[m], checked, start);
        MovedTrans(g1, h, c.graph.Model());
        if done {
          break;
        }
        m := m + 1;
      }
      ghost var h := c.graph.Model();
      TrimStart(c, rng, layers, start, oldPath[1]);
      MovedTrans(g1, h, c.graph.Model());
      MovedTrans(g, g1, c.graph.Model());
    }
  }

  /**
    * wrap_path_correction: try_del_all from start over all its neighbours; code 1 exactly when
    * start then has one neighbour.
    */
  method WrapPathCorrection(c: Canvas, rng: Random, layers: seq<Graph>, start: Node) returns (code: int)
    requires Ready(c) && SpanningSpec(c.graph.Model()) && Peeled(layers, c.graph.nodes) && start in c.graph.nodes
    modifies c, c.graph, rng
    ensures Ready(c) && c.graph == old(c.graph) && c.graph.nodes == old(c.graph.nodes) && c.layers == old(c.layers)
    ensures Moved(old(c.graph.Model()), c.graph.Model())
    ensures code == 1 <==> Deg(c.graph.Model(), IndexOf(c.graph.nodes, start)) == 1
    ensures code == 0 || code == 1
  {
    ghost var g := c.graph.Model();
    var nodelist := c.graph.Adj(start);
    AdjOthers(g, IndexOf(g.nodes, start));
    var freed, k := TryDelAll(c, rng, layers, start, nodelist);
    ScanKept(g, c.graph.Model(), freed);
    KeptSpans(g, c.graph.Model());
    code := if c.graph.Deg(start) == 1 then 1 else 0;
  }

  /** del_later: try_del_edge between each pair of neighbours in oldPath[i:]. */
  method DelLater(c: Canvas, rng: Random, layers: seq<Graph>, i: nat, oldPath: seq<Node>)
    requires Ready(c) && SpanningSpec(c.graph.Model()) && Peeled(layers, c.graph.nodes)
    requires i <= |oldPath| && NoDupNodes(oldPath) && forall v :: v in oldPath ==> v in c.graph.nodes
    modifies c, c.graph, rng
    ensures Ready(c) && c.graph == old(c.graph) && c.graph.nodes == old(c.graph.nodes) && c.layers == old(c.layers)
    ensures Moved(old(c.graph.Model()), c.graph.Model())
  {
    ghost var g := c.graph.Model();
    SameGraphRefl(g);
    MovedSame(g, g);
    var nodelist := oldPath[i..];
    var j := 0;
    while j < |nodelist| - 1
      invariant Ready(c) && c.graph == old(c.graph) && c.graph.nodes == g.nodes && c.layers == old(c.layers)
      invariant Moved(g, c.graph.Model())
    {
      ghost var h := c.graph.Model();
      assert nodelist[j] == oldPath[i + j] && nodelist[j + 1] == oldPath[i + j + 1];
      var code := DelEdgeAt(c, rng, layers, nodelist[j], nodelist[j + 1]);
      ScanKept(h, c.graph.Model(), code);
      KeptSpans(h, c.graph.Model());
      MovedTrans(g, h, c.graph.Model());
      j := j + 1;
    }
  }

  /**
    * wrap_path_step_first: partition the path order by layer and, when the second layer holds
    * more than two nodes, compare the turn of the outer layer's first three nodes with the turn
    * into the second layer (try_edge from the outer layer's last node to the second layer's
    * first) and with the turn of the second layer (try_del_edge between the outer layer's last two
    * nodes). Both tests read the partition taken before either move. Crashed when the source's
    * indexing fails: no second layer, or an outer layer of fewer than three nodes.
    */
  method WrapPathStepFirst(c: Canvas, rng: Random, layers: seq<Graph>) returns (crashed: bool, ghost order: seq<Node>)
    requires Ready(c) && SpanningSpec(c.graph.Model()) && Peeled(layers, c.graph.nodes)
    modifies c, c.graph, rng
    ensures Ready(c) && c.graph == old(c.graph) && c.graph.nodes == old(c.graph.nodes) && c.layers == old(c.layers)
    ensures Moved(old(c.graph.Model()), c.graph.Model())
    ensures Traversal(old(c.graph.Model()), order)
    ensures crashed <==>
      |layers| < 2 || (|NodePartition(layers, order)[1]| > 2 && |NodePartition(layers, order)[0]| < 3)
    ensures crashed ==> c.graph.Model() == old(c.graph.Model())
  {
    ghost var g := c.graph.Model();
    SameGraphRefl(g);
    MovedSame(g, g);
    var o := OrderPath(c);
    order := o;
    if |layers| < 2 {
      return true, order;
    }
    var part: seq<seq<Node>> := NodePartition(layers, o);
    var outer: seq<Node>, inner: seq<Node> := part[0], part[1];
    crashed := |inner| > 2 && |outer| < 3;
    if |inner| > 2 && !crashed {
      FirstTargets(layers, g, o);
      var turn := IsClockwise(outer[0].coord, outer[1].coord, outer[2].coord);
      var into := turn != IsClockwise(outer[|outer| - 2].coord, outer[|outer| - 1].coord, inner[0].coord);
      var back := turn != IsClockwise(inner[0].coord, inner[1].coord, inner[2].coord);
      FirstMoves(c, rng, layers, outer[|outer| - 1], outer[|outer| - 2], inner[0], into, back);
    }
  }

  /** The nodes wrap_path_step_first moves between are nodes of g, and the last of the outer layer differs from both others. */
  lemma FirstTargets(layers: seq<Graph>, g: Graph, o: seq<Node>)
    requires Square(g) && Traversal(g, o) && |o| > 0 && |layers| >= 2
    requires |NodePartition(layers, o)[0]| >= 3 && |NodePartition(layers, o)[1]| > 0
    ensures var outer, inner := NodePartition(layers, o)[0], NodePartition(layers, o)[1];
      outer[|outer| - 1] in g.nodes && outer[|outer| - 2] in g.nodes && inner[0] in g.nodes &&
      outer[|outer| - 1] != outer[|outer| - 2] && outer[|outer| - 1] != inner[0]
  {
    var part := NodePartition(layers, o);
    var outer, inner := part[0], part[1];
    assert outer[|outer| - 1] in part[0] && outer[|outer| - 2] in part[0] && inner[0] in part[1];
  }

  /**
    * The two moves of wrap_path_step_first: try_edge u-x when into holds, then try_del_edge u-w
    * when back holds.
    */
  method FirstMoves(c: Canvas, rng: Random, layers: seq<Graph>, u: Node, w: Node, x: Node, into: bool, back: bool)
    requires Ready(c) && SpanningSpec(c.graph.Model()) && Peeled(layers, c.graph.nodes)
    requires u in c.graph.nodes && w in c.graph.nodes && x in c.graph.nodes && u != w && u != x
    modifies c, c.graph, rng
    ensures Ready(c) && c.graph == old(c.graph) && c.graph.nodes == old(c.graph.nodes) && c.layers == old(c.layers)
    ensures Moved(old(c.graph.Model()), c.graph.Model())
  {
    ghost var g := c.graph.Model();
    SameGraphRefl(g);
    MovedSame(g, g);
    if into {
      var code := EdgeAt(c, rng, layers, u, x);
      ScanKept(g, c.graph.Model(), code);
      KeptSpans(g, c.graph.Model());
    }
    if back {
      ghost var h := c.graph.Model();
      var code := DelEdgeAt(c, rng, layers, u, w);
      ScanKept(h, c.graph.Model(), code);
      KeptSpans(h, c.graph.Model());
      MovedTrans(g, h, c.graph.Model());
    }
  }

  // ---------------------------------------------------------------- get_wrapping

  /** A path order of g: every node once, each joined to the one before it. */
  ghost predicate Traversal(g: Graph, order: seq<Node>)
    requires Square(g)
  {
    |order| == |g.nodes| && NoDupNodes(order) && (forall v :: v in order <==> v in g.nodes) && Walks(g, order)
  }

  /** A path order read backwards is a path order. */
  lemma TraversalReversed(g: Graph, o: seq<Node>)
    requires Lockstep(g) && Traversal(g, o)
    ensures Traversal(g, Reverse(o))
  {
    WalksReversed(g, o);
    var r := Reverse(o);
    forall a, b | 0 <= a < b < |r| ensures r[a] != r[b] {
      assert r[a] == o[|o| - 1 - a] && r[b] == o[|o| - 1 - b];
    }
    forall v | v in o ensures v in r {
      var k :| 0 <= k < |o| && o[k] == v;
      assert r[|o| - 1 - k] == v;
    }
  }

  /** Filtering out nodes that are not there changes nothing. */
  lemma {:induction false} WithoutNone(s: seq<Node>, h: seq<Node>)
    requires forall v :: v in s ==> v !in h
    ensures Without(s, h) == s
  {
    if s != [] {
      WithoutNone(s[1..], h);
      assert s == [s[0]] + s[1..];
    }
  }

  /** `[node for node in order[1:] if node != order[1]]` on a list without repeats is order[2:]. */
  lemma WithoutSecond(order: seq<Node>)
    requires |order| >= 2 && NoDupNodes(order)
    ensures Without(order[1..], [order[1]]) == order[2..]
  {
    assert forall v :: v in order[2..] ==> v !in [order[1]];
    WithoutNone(order[2..], [order[1]]);
    assert order[1..][1..] == order[2..];
  }

  /**
    * The list-building part of get_wrapping on a path order that starts on the outer layer: its
    * first node, then the first of the others (the source's `next` tests the first node's layer,
    * which holds for every candidate), then the sort-and-take loop.
    */
  method Wind(order: seq<Node>, arrange: (Node, Node, seq<Node>) -> seq<Node>) returns (w: seq<Node>)
    requires |order| >= 2 && NoDupNodes(order) && ArrangeSpec(arrange)
    ensures w == Wrapping(order, arrange)
  {
    w := [order[0]];
    var others := order[1..];
    var second := others[0];
    w := w + [second];
    others := Without(others, [second]);
    WithoutSecond(order);
    assert w == order[..2];
    while others != []
      invariant |w| >= 2 && Wound(w, others, arrange) == Wrapping(order, arrange)
      decreases |others|
    {
      var sorted := arrange(w[|w| - 2], w[|w| - 1], others);
      assert |sorted| == |others| by {
        assert |multiset(sorted)| == |multiset(others)|;
      }
      w := w + [sorted[0]];
      others := sorted[1..];
    }
  }

  /**
    * get_wrapping: order the path from the given start (which must be one of its ends, else an
    * AssertionError: crashed) and on the outer layer (else crashed), then wind it.
    */
  method GetWrapping(c: Canvas, layers: seq<Graph>, start: Node, arrange: (Node, Node, seq<Node>) -> seq<Node>)
    returns (crashed: bool, w: seq<Node>, ghost order: seq<Node>)
    requires Ready(c) && SpanningSpec(c.graph.Model()) && ArrangeSpec(arrange)
    modifies c.graph
    ensures Ready(c) && c.graph.Model() == old(c.graph.Model())
    ensures Traversal(c.graph.Model(), order)
    ensures c.graph.start == Some(c.graph.nodes[WithDeg(c.graph.Model(), 1)[0]])
    ensures c.graph.end == Some(c.graph.nodes[WithDeg(c.graph.Model(), 1)[1]])
    ensures {order[0], order[|order| - 1]} == {c.graph.start.value, c.graph.end.value}
    ensures crashed <==>
      (start != c.graph.start.value && start != c.graph.end.value) || NodeLayer(layers, start) != Some(0)
    ensures !crashed ==> order[0] == start && w == Wrapping(order, arrange)
  {
    var o := OrderPath(c);
    if start != o[0] && start != o[|o| - 1] {
      return true, [], o;
    }
    if start == o[|o| - 1] {
      TraversalReversed(c.graph.Model(), o);
      o := Reverse(o);
    }
    order := o;
    if NodeLayer(layers, o[0]) != Some(0) {
      return true, [], o;
    }
    crashed := false;
    w := Wind(o, arrange);
  }
}
