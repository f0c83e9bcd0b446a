/**
  * The solver object of Solver.py: the canonical-path test valid_canonical, the reallocation of
  * a line outside the layers (allocate_edge, allocate_non_layer), the two anchor moves with their
  * step record, the bounded main loop solve_to_canonical, and the rebuild of the path on cancel.
  */
module SolverRuns {
  import opened Geometry
  import opened GraphModel
  import opened PathSpec
  import opened PathOrders
  import opened Paths
  import opened Layers
  import opened Canvases
  import opened Solvers
  import opened Randoms
  import opened SolverMoves

  // ---------------------------------------------------------------- valid_canonical

  /** Over peeled layers every line of a loopless path has its two ends on layers, so check_layercross can index it. */
  lemma PeeledClassifiable(layers: seq<Graph>, g: Graph)
    requires Valid(g) && Loopless(g) && Peeled(layers, g.nodes)
    ensures Classifiable(layers, g.nodes, g.lines)
  {
    forall a | 0 <= a < |g.lines| ensures Classified(layers, g.nodes, g.lines[a]) {
      LineClassified(layers, g, a);
    }
  }

  lemma LineClassified(layers: seq<Graph>, g: Graph, a: nat)
    requires Valid(g) && Loopless(g) && Peeled(layers, g.nodes) && a < |g.lines|
    ensures Classified(layers, g.nodes, g.lines[a])
  {
    var i, j := LineEndsConnected(g, a);
    assert i != j;
    var p, q := LineEnds(g, i, j);
    var w := WhichNodes(g.nodes, g.lines[a]);
    assert w[0] in g.nodes && w[1] in g.nodes;
  }

  /**
    * A canonical path: every layer misses its gap of lines (check_if_bound), exactly the
    * neighbouring layers are joined once (check_if_layercross), and FLIP mode accepts it.
    */
  ghost predicate Canonical(layers: seq<Graph>, g: Graph)
  {
    |layers| > 0 && Valid(g) && Classifiable(layers, g.nodes, g.lines) &&
    CheckIfBound(layers, g.lines) && CheckIfLayercross(layers, g.nodes, g.lines) && Healthy(g)
  }

  /** The three tests of valid_canonical spelled out as counts of lines. */
  lemma CanonicalIff(layers: seq<Graph>, g: Graph)
    requires |layers| > 0 && Valid(g) && Classifiable(layers, g.nodes, g.lines)
    ensures Canonical(layers, g) <==>
      Healthy(g) &&
      (forall k :: 0 <= k < |layers| ==> |layers[k].lines| - |OnLayer(layers, g.lines, k)| == Gap(layers, k)) &&
      (forall i, j :: 0 <= i < |layers| && 0 <= j < |layers| ==>
        |Between(CrossPairs(layers, g.nodes, g.lines), i, j)| == if Neighbours(i, j) then 1 else 0)
  {
    CheckIfBoundIff(layers, g.lines);
    CheckIfLayercrossIff(layers, g.nodes, g.lines);
  }

  /** valid_canonical: the two layer tests, then `is_spanning_path() and not crosses()`, left to right. */
  method ValidCanonical(c: Canvas) returns (b: bool)
    requires Ready(c) && Peeled(c.layers, c.graph.nodes) && |c.layers| > 0
    modifies c.graph
    ensures Ready(c) && c.graph.Model() == old(c.graph.Model())
    ensures b <==> Canonical(c.layers, c.graph.Model())
  {
    PeeledClassifiable(c.layers, c.graph.Model());
    b := CheckIfBound(c.layers, c.graph.lines) && CheckIfLayercross(c.layers, c.graph.nodes, c.graph.lines);
    if b {
      b := Accepts(c);
    }
  }

  // ---------------------------------------------------------------- what the moves keep

  /** r is g up to the order of its lines, or a planar path. */
  ghost predicate Kept(g: Graph, r: Graph)
  {
    Square(r) && (SameGraph(r, g) || PlanarPath(r))
  }

  /** Two moves that each keep a spanning path as Kept says keep it together. */
  lemma KeptTrans(g: Graph, m: Graph, r: Graph)
    requires Valid(g) && SpanningSpec(g) && Kept(g, m) && (SpanningSpec(m) ==> Kept(m, r))
    ensures SpanningSpec(m) && Kept(g, r)
  {
    if SameGraph(m, g) {
      SpanningSpecFrame(g, m);
    }
    if SameGraph(r, m) {
      if SameGraph(m, g) {
        SameGraphTrans(r, m, g);
      } else {
        SameGraphSym(r, m);
        PlanarSameGraph(m, r);
      }
    }
  }

  /** Whatever a move keeps, it keeps a planar path planar. */
  lemma KeptPlanar(g: Graph, r: Graph)
    requires Square(g) && PlanarPath(g) && Kept(g, r)
    ensures PlanarPath(r)
  {
    if SameGraph(r, g) {
      SameGraphSym(r, g);
      PlanarSameGraph(g, r);
    }
  }

  /** A move that leaves the lines as they were up to order keeps the path. */
  lemma KeptSame(g: Graph, r: Graph)
    requires Square(r) && SameGraph(r, g)
    ensures Kept(g, r)
  {
  }

  // ---------------------------------------------------------------- allocate_edge

  /**
    * What allocate_edge leaves, from g, taking out the line between nodes p and q: g up to line
    * order (a == b), or a planar path whose lines are g's less p-q plus another line a-b.
    */
  ghost predicate AllocOutcome(g: Graph, r: Graph, p: nat, q: nat, a: nat, b: nat)
  {
    Valid(g) && Square(r) && p < |g.nodes| && q < |g.nodes| &&
    (a == b ==> SameGraph(r, g)) &&
    (a != b ==>
      a < |g.nodes| && b < |g.nodes| && PlanarPath(r) && !IsConnected(Disconnect(g, p, q), a, b) &&
      !SameLine(LineBetween(g, a, b), LineBetween(g, p, q)) && SameGraph(r, Connect(Disconnect(g, p, q), a, b)))
  }

  /** allocate_edge only takes out p-q: every other line of g is still drawn. */
  lemma OutcomeKeeps(g: Graph, r: Graph, p: nat, q: nat, a: nat, b: nat, x: nat, y: nat)
    requires AllocOutcome(g, r, p, q, a, b) && x < |g.nodes| && y < |g.nodes|
    requires !((x == p && y == q) || (x == q && y == p)) && IsConnected(g, x, y)
    ensures r.nodes == g.nodes && IsConnected(r, x, y)
  {
    AllocAdj(g, r, p, q, a, b);
    if a != b {
      ReallocKeeps(g.adj, p, q, a, b, x, y);
    }
  }

  /** The matrix allocate_edge leaves: g's, or g's with p-q cleared and a-b set. */
  lemma AllocAdj(g: Graph, r: Graph, p: nat, q: nat, a: nat, b: nat)
    requires AllocOutcome(g, r, p, q, a, b)
    ensures Square(g) && r.nodes == g.nodes && |r.adj| == |g.adj|
    ensures a == b ==> r.adj == g.adj
    ensures a != b ==> a < |g.nodes| && b < |g.nodes| && r.adj == SetSym(SetSym(g.adj, p, q, 0), a, b, 1)
  {
  }

  /** Clearing the pair p-q and then setting the pair a-b leaves every other set entry set. */
  lemma ReallocKeeps(adj: seq<seq<int>>, p: nat, q: nat, a: nat, b: nat, x: nat, y: nat)
    requires forall k :: 0 <= k < |adj| ==> |adj[k]| == |adj|
    requires p < |adj| && q < |adj| && a < |adj| && b < |adj| && x < |adj| && y < |adj|
    requires !((x == p && y == q) || (x == q && y == p)) && adj[x][y] == 1
    ensures var m := SetSym(adj, p, q, 0);
      |m| == |adj| && (forall k :: 0 <= k < |m| ==> |m[k]| == |adj|) && SetSym(m, a, b, 1)[x][y] == 1
  {
    var m := SetSym(adj, p, q, 0);
    forall k | 0 <= k < |m| ensures |m[k]| == |adj| {
      SetSymAt(adj, p, q, 0, k, 0);
    }
    SetSymAt(adj, p, q, 0, x, y);
    SetSymAt(m, a, b, 1, x, y);
  }

  /** A reported line other than p-q, drawn on g less p-q, gives the second case of AllocOutcome. */
  lemma ReportedOutcome(g: Graph, r: Graph, line: Line, l: Line, p: nat, q: nat, a: nat, b: nat)
    requires Valid(g) && p < |g.nodes| && q < |g.nodes| && p != q && line == LineBetween(g, p, q)
    requires a < |g.nodes| && b < |g.nodes| && a != b && !SameLine(l, line)
    requires l == LineBetween(Disconnect(g, p, q), a, b) && !IsConnected(Disconnect(g, p, q), a, b)
    requires Square(r) && PlanarPath(r) && SameGraph(r, Connect(Disconnect(g, p, q), a, b))
    ensures AllocOutcome(g, r, p, q, a, b)
  {
  }

  /** An allocation keeps the path as Kept says. */
  lemma AllocKept(g: Graph, r: Graph, p: nat, q: nat, a: nat, b: nat)
    requires AllocOutcome(g, r, p, q, a, b)
    ensures Kept(g, r)
  {
  }

  /** An allocation on a spanning path leaves as many lines as before. */
  lemma AllocKeepsCount(g: Graph, r: Graph, p: nat, q: nat, a: nat, b: nat)
    requires AllocOutcome(g, r, p, q, a, b) && SpanningSpec(g) && IsConnected(g, p, q)
    ensures |r.lines| == |g.lines|
  {
    if a != b {
      DisconnectValid(g, p, q);
      ConnectValid(Disconnect(g, p, q), a, b);
    }
  }

  /**
    * allocate_edge: delete the line between p and q through whichNodes, then draw a random line
    * problem_edge reports other than it, or draw it back when there is none. On a spanning path
    * holding the line, the outcome is as AllocOutcome says.
    */
  method AllocateEdge(c: Canvas, rng: Random, line: Line, ghost p: nat, ghost q: nat) returns (ghost a: nat, ghost b: nat)
    requires Ready(c) && p < |c.graph.nodes| && q < |c.graph.nodes| && p != q
    requires line == LineBetween(c.graph.Model(), p, q)
    modifies c, c.graph, rng
    ensures Ready(c) && c.graph == old(c.graph) && c.graph.nodes == old(c.graph.nodes) && c.layers == old(c.layers)
    ensures SpanningSpec(old(c.graph.Model())) && IsConnected(old(c.graph.Model()), p, q) ==>
      AllocOutcome(old(c.graph.Model()), c.graph.Model(), p, q, a, b) && Kept(old(c.graph.Model()), c.graph.Model())
  {
    ghost var g := c.graph.Model();
    EdgeDiffSteps(g, p, q);
    if SpanningSpec(g) {
      SpanningLoopless(g);
    }
    var deleted := DeleteLine(c, line, p, q);
    a, b := AddBack(c, rng, line, p, q, g);
    if SpanningSpec(g) && IsConnected(g, p, q) {
      AllocKept(g, c.graph.Model(), p, q, a, b);
    }
  }

  /**
    * The second half of allocate_edge, after the line p-q of g was deleted: draw a random line
    * problem_edge reports other than it, or draw it back.
    */
  method AddBack(c: Canvas, rng: Random, line: Line, ghost p: nat, ghost q: nat, ghost g: Graph) returns (ghost a: nat, ghost b: nat)
    requires Ready(c) && Valid(g) && p < |g.nodes| && q < |g.nodes| && p != q && c.graph.nodes == g.nodes
    requires line == LineBetween(g, p, q)
    requires SpanningSpec(g) && IsConnected(g, p, q) ==> c.edgeDiff == -1 && c.graph.Model() == Disconnect(g, p, q)
    modifies c, c.graph, rng
    ensures Ready(c) && c.graph == old(c.graph) && c.graph.nodes == old(c.graph.nodes) && c.layers == old(c.layers)
    ensures SpanningSpec(g) && IsConnected(g, p, q) ==> AllocOutcome(g, c.graph.Model(), p, q, a, b)
  {
    ghost var g1 := c.graph.Model();
    SameGraphRefl(g1);
    var reported := Report(c);
    SameGraphEdgeDiff(c.graph.Model(), g1);
    assert EdgeReport(g1, c.edgeDiff, reported);
    var toAdd := Except(reported, line);
    if |toAdd| > 0 {
      a, b := AddOther(c, rng, line, toAdd, reported, p, q, g, g1);
    } else {
      a, b := 0, 0;
      Readd(c, line, p, q, g, g1);
    }
  }

  /** Draw a random one of the reported lines other than p-q. */
  method AddOther(c: Canvas, rng: Random, line: Line, toAdd: seq<Line>, ghost reported: seq<Line>,
                  ghost p: nat, ghost q: nat, ghost g: Graph, ghost g1: Graph) returns (ghost a: nat, ghost b: nat)
    requires Ready(c) && Valid(g) && p < |g.nodes| && q < |g.nodes| && p != q && c.graph.nodes == g.nodes
    requires line == LineBetween(g, p, q) && Valid(g1) && SameGraph(c.graph.Model(), g1)
    requires EdgeReport(g1, c.edgeDiff, reported) && |toAdd| > 0
    requires forall x :: x in toAdd ==> x in reported && !SameLine(x, line)
    requires SpanningSpec(g) && IsConnected(g, p, q) ==> c.edgeDiff == -1 && g1 == Disconnect(g, p, q)
    modifies c, c.graph, rng
    ensures Ready(c) && c.graph == old(c.graph) && c.graph.nodes == old(c.graph.nodes) && c.layers == old(c.layers)
    ensures SpanningSpec(g) && IsConnected(g, p, q) ==> AllocOutcome(g, c.graph.Model(), p, q, a, b)
  {
    var k := PickReported(c, rng, |toAdd|);
    assert toAdd[k] in toAdd;
    a, b := AddReported(c, toAdd[k], g1, reported);
    if SpanningSpec(g) && IsConnected(g, p, q) {
      ReportedOutcome(g, c.graph.Model(), line, toAdd[k], p, q, a, b);
    }
  }

  /**
    * `points = whichNodes(l)` then draw_edge(points[0], points[1]) for a line problem_edge
    * reported; at edge difference -1 the path drawn is a planar path.
    */
  method AddReported(c: Canvas, l: Line, ghost g1: Graph, ghost bad: seq<Line>) returns (ghost a: nat, ghost b: nat)
    requires Ready(c) && Valid(g1) && SameGraph(c.graph.Model(), g1) && EdgeReport(g1, c.edgeDiff, bad) && l in bad
    modifies c, c.graph
    ensures Ready(c) && c.graph == old(c.graph) && c.graph.nodes == old(c.graph.nodes) && c.layers == old(c.layers)
    ensures old(c.edgeDiff) == -1 ==>
      a < |g1.nodes| && b < |g1.nodes| && a != b && l == LineBetween(g1, a, b) && !IsConnected(g1, a, b) &&
      PlanarPath(c.graph.Model()) && SameGraph(c.graph.Model(), Connect(g1, a, b))
  {
    ghost var cur := c.graph.Model();
    ghost var d := c.edgeDiff;
    a, b := ReportedEnds(g1, d, bad, l);
    var accepted := DrawLine(c, l, a, b);
    if d == -1 {
      ghost var h := Connect(g1, a, b);
      ConnectValid(g1, a, b);
      ConnectSameGraph(cur, g1, a, b);
      SameGraphTrans(c.graph.Model(), Connect(cur, a, b), h);
      HealthyPlanar(h);
      SameGraphSym(c.graph.Model(), h);
      PlanarSameGraph(h, c.graph.Model());
    }
  }

  /** Draw the deleted line back when problem_edge names no other: on a spanning path, a full undo. */
  method Readd(c: Canvas, line: Line, ghost p: nat, ghost q: nat, ghost g: Graph, ghost g1: Graph)
    requires Ready(c) && Valid(g) && p < |g.nodes| && q < |g.nodes| && p != q && c.graph.nodes == g.nodes
    requires line == LineBetween(g, p, q) && SameGraph(c.graph.Model(), g1)
    requires SpanningSpec(g) && IsConnected(g, p, q) ==> c.edgeDiff == -1 && g1 == Disconnect(g, p, q)
    modifies c, c.graph
    ensures Ready(c) && c.graph == old(c.graph) && c.graph.nodes == old(c.graph.nodes) && c.layers == old(c.layers)
    ensures SpanningSpec(g) && IsConnected(g, p, q) ==> SameGraph(c.graph.Model(), g)
  {
    ghost var cur := c.graph.Model();
    var drawn := DrawLine(c, line, p, q);
    if SpanningSpec(g) && IsConnected(g, p, q) {
      DisconnectValid(g, p, q);
      ConnectSameGraph(cur, g1, p, q);
      DisconnectConnectRoundTrip(g, p, q);
      SameGraphTrans(c.graph.Model(), Connect(cur, p, q), Connect(g1, p, q));
      SameGraphTrans(c.graph.Model(), Connect(g1, p, q), g);
    }
  }

  // ---------------------------------------------------------------- allocate_non_layer

  /** linelist: the path's lines that lie on no layer, in path order. */
  function NonLayer(layers: seq<Graph>, lines: seq<Line>): (r: seq<Line>)
    ensures forall l :: l in r <==> l in lines && LineLayer(layers, l).None?
    ensures |r| <= |lines|
  {
    if lines == [] then []
    else (if LineLayer(layers, lines[0]).None? then [lines[0]] else []) + NonLayer(layers, lines[1..])
  }

  /** l lies on no layer and its ends lie on layers i and j, either way round. */
  predicate Joins(layers: seq<Graph>, nodes: seq<Node>, l: Line, i: nat, j: nat)
  {
    Classified(layers, nodes, l) && LineLayer(layers, l).None? &&
    (EndLayers(layers, nodes, l) == (i, j) || EndLayers(layers, nodes, l) == (j, i))
  }

  /** possible_line: the lines of ls joining layers i and j, in list order. */
  function Joining(layers: seq<Graph>, nodes: seq<Node>, ls: seq<Line>, i: nat, j: nat): (r: seq<Line>)
    ensures forall l :: l in r <==> l in ls && Joins(layers, nodes, l, i, j)
    decreases |ls|
  {
    if ls == [] then []
    else
      var init := ls[..|ls| - 1];
      var l := ls[|ls| - 1];
      assert forall x :: x in ls <==> x in init || x == l;
      Joining(layers, nodes, init, i, j) + if Joins(layers, nodes, l, i, j) then [l] else []
  }

  /** The loop that builds possible_line. */
  method PossibleLines(layers: seq<Graph>, nodes: seq<Node>, linelist: seq<Line>, i: nat, j: nat) returns (r: seq<Line>)
    ensures r == Joining(layers, nodes, linelist, i, j)
  {
    r := [];
    for k := 0 to |linelist|
      invariant r == Joining(layers, nodes, linelist[..k], i, j)
    {
      assert linelist[..k + 1][..k] == linelist[..k];
      if Joins(layers, nodes, linelist[k], i, j) {
        r := r + [linelist[k]];
      }
    }
    assert linelist[..|linelist|] == linelist;
  }

  /**
    * An entry of the layer-crossing matrix above zero has a line behind it, so possible_line[0]
    * exists whenever allocate_non_layer looks it up.
    */
  lemma JoiningNonEmpty(layers: seq<Graph>, nodes: seq<Node>, lines: seq<Line>, i: nat, j: nat)
    requires Classifiable(layers, nodes, lines) && i < |layers| && j < |layers|
    requires LayerCross(layers, nodes, lines)[i][j] > 0
    ensures |Joining(layers, nodes, NonLayer(layers, lines), i, j)| > 0
  {
    var t := CrossPairs(layers, nodes, lines);
    CrossMatrixCounts(t, |layers|, i, j);
    var k :| k in Between(t, i, j);
    CrossPairsSound(layers, nodes, lines, t[k]);
    var a :| CrossesAs(layers, nodes, lines, a, t[k]);
    var l := lines[a];
    assert l in NonLayer(layers, lines);
    assert l in Joining(layers, nodes, NonLayer(layers, lines), i, j);
  }

  /** diag = arr.diagonal(1): the entries just above the diagonal. */
  function SuperDiagonal(m: seq<seq<int>>, n: nat): (d: seq<int>)
    requires IsMatrix(m, n)
    ensures |d| == (if n == 0 then 0 else n - 1)
    ensures forall k :: 0 <= k < |d| ==> d[k] == m[k][k + 1]
  {
    if n == 0 then [] else seq(n - 1, k requires 0 <= k < n - 1 => m[k][k + 1])
  }

  /** The position of the first entry over x (`diag[diag > x][0]`), or None when np.any finds none. */
  function FirstAbove(d: seq<int>, x: int): (r: Option<nat>)
    ensures r.None? <==> forall k :: 0 <= k < |d| ==> d[k] <= x
    ensures r.Some? ==> r.value < |d| && d[r.value] > x && forall k :: 0 <= k < r.value ==> d[k] <= x
  {
    if d == [] then None
    else if d[0] > x then Some(0)
    else
      match FirstAbove(d[1..], x)
      case None => None
      case Some(k) => Some(k + 1)
  }

  /** The first position of x in s, like list.index, or None. */
  function FirstIndex(s: seq<int>, x: int): (r: Option<nat>)
    ensures r.None? <==> x !in s
    ensures r.Some? ==> r.value < |s| && s[r.value] == x && forall k :: 0 <= k < r.value ==> s[k] != x
  {
    if s == [] then None
    else if s[0] == x then Some(0)
    else
      match FirstIndex(s[1..], x)
      case None => None
      case Some(k) => Some(k + 1)
  }

  /**
    * `np.where(arr == x)` read at [0][0] and [1][0]: the first position holding x in row-major
    * order, from row `from` on.
    */
  function FirstPlace(m: seq<seq<int>>, x: int, from: nat): (r: Option<(nat, nat)>)
    ensures r.None? <==> forall a, b :: from <= a < |m| && 0 <= b < |m[a]| ==> m[a][b] != x
    ensures r.Some? ==> from <= r.value.0 < |m| && r.value.1 < |m[r.value.0]| && m[r.value.0][r.value.1] == x
    ensures r.Some? ==> forall a, b :: from <= a < |m| && 0 <= b < |m[a]| && m[a][b] == x ==>
      r.value.0 < a || (r.value.0 == a && r.value.1 <= b)
    decreases |m| - from
  {
    if from >= |m| then None
    else
      match FirstIndex(m[from], x)
      case Some(b) => Some((from, b))
      case None => FirstPlace(m, x, from + 1)
  }

  /**
    * The layer pair of mode 0 of allocate_non_layer: the first entry above the diagonal of the
    * layer-crossing matrix that is over 1, looked up again in the whole matrix; None when there
    * is no such entry.
    */
  function Crowded(layers: seq<Graph>, nodes: seq<Node>, lines: seq<Line>): (r: Option<(nat, nat)>)
    requires Classifiable(layers, nodes, lines)
    ensures r.None? <==> forall k :: 0 <= k && k + 1 < |layers| ==> LayerCross(layers, nodes, lines)[k][k + 1] <= 1
    ensures r.Some? ==> r.value.0 < |layers| && r.value.1 < |layers| && LayerCross(layers, nodes, lines)[r.value.0][r.value.1] > 1
  {
    var m := LayerCross(layers, nodes, lines);
    var d := SuperDiagonal(m, |layers|);
    match FirstAbove(d, 1)
    case None => None
    case Some(k) =>
      assert m[k][k + 1] == d[k];
      FirstPlace(m, d[k], 0)
  }

  /** A line of a valid loopless path runs between two different joined nodes. */
  lemma PathLineEnds(g: Graph, l: Line) returns (p: nat, q: nat)
    requires Valid(g) && Loopless(g) && l in g.lines
    ensures p < |g.nodes| && q < |g.nodes| && p != q && l == LineBetween(g, p, q) && IsConnected(g, p, q)
  {
    var k :| 0 <= k < |g.lines| && g.lines[k] == l;
    p, q := LineEndsConnected(g, k);
  }

  // ---------------------------------------------------------------- the anchor moves

  /** boundary_alg or boundary_alg_alt raises: no anchor node, or a ring layer on a path that is not spanning. */
  ghost predicate Raises(layers: seq<Graph>, g: Graph, node: Option<Node>)
  {
    node.None? || node.value !in g.nodes ||
    (NodeLayer(layers, node.value).Some? && |layers[NodeLayer(layers, node.value).value].nodes| >= 3 &&
     Square(g) && !SpanningSpec(g))
  }

  /**
    * The scanned neighbours of v on its ring layer are nodes of the path, other than v, that the
    * path does not join to v.
    */
  lemma AroundCandidates(g: Graph, layer: Graph, v: Node)
    requires Valid(g) && Ring(layer) && |layer.nodes| >= 3 && v in layer.nodes
    requires forall w :: w in layer.nodes ==> w in g.nodes
    ensures v in g.nodes && Candidates(g, v, Around(layer, v, g.lines))
  {
    AroundIsRing(layer, v, g.lines);
  }

  /** Scanned neighbours that are all unjoined to v leave every suffix of the order open. */
  lemma CandidatesOpen(g: Graph, v: Node, order: seq<Node>, around: seq<Node>, i: nat)
    requires Square(g) && v in g.nodes && Candidates(g, v, around) && forall w :: w in order ==> w in g.nodes
    ensures OpenFrom(g, v, order, around, i)
  {
    forall k | i <= k < |order| && order[k] in around
      ensures !IsConnected(g, IndexOf(g.nodes, v), IndexOf(g.nodes, order[k]))
    {
    }
  }

  /**
    * The ring branch of boundary_alg: the scanned neighbours of v, the order of the path from v's
    * end (raising when the path is not spanning), then the scan of endpoint flips.
    */
  method RingBoundary(c: Canvas, v: Node, layer: Graph) returns (raised: bool)
    requires Ready(c) && Ring(layer) && |layer.nodes| >= 3 && v in layer.nodes
    requires forall w :: w in layer.nodes ==> w in c.graph.nodes
    modifies c, c.graph
    ensures Ready(c) && c.graph == old(c.graph) && c.graph.nodes == old(c.graph.nodes) && c.layers == old(c.layers)
    ensures raised <==> !SpanningSpec(old(c.graph.Model()))
    ensures raised ==> c.graph.Model() == old(c.graph.Model())
    ensures !raised ==> Kept(old(c.graph.Model()), c.graph.Model())
  {
    var around := Around(layer, v, c.graph.lines);
    var order;
    raised, order := OrderFrom(c, v);
    if raised {
      return;
    }
    AroundCandidates(c.graph.Model(), layer, v);
    var at := RingScan(c, v, order, around);
    if at != -1 {
      HealthyPlanar(c.graph.Model());
    }
  }

  /** The ring branch of boundary_alg_alt: as RingBoundary, with the alternative scan. */
  method RingBoundaryAlt(c: Canvas, rng: Random, v: Node, layer: Graph) returns (raised: bool)
    requires Ready(c) && Ring(layer) && |layer.nodes| >= 3 && v in layer.nodes
    requires forall w :: w in layer.nodes ==> w in c.graph.nodes
    modifies c, c.graph, rng
    ensures Ready(c) && c.graph == old(c.graph) && c.graph.nodes == old(c.graph.nodes) && c.layers == old(c.layers)
    ensures raised <==> !SpanningSpec(old(c.graph.Model()))
    ensures raised ==> c.graph.Model() == old(c.graph.Model())
    ensures !raised ==> Kept(old(c.graph.Model()), c.graph.Model())
  {
    var around := Around(layer, v, c.graph.lines);
    var order;
    raised, order := OrderFrom(c, v);
    if raised {
      return;
    }
    AroundCandidates(c.graph.Model(), layer, v);
    CandidatesOpen(c.graph.Model(), v, order, around, 2);
    AltScan(c, rng, v, order, around);
  }

  // ---------------------------------------------------------------- the record of steps

  /**
    * Graph.__eq__: the same nodes and the same lines, each counted as often (Counter); lines are
    * told apart by their stored endpoint order, as their hash is.
    */
  predicate SameStep(a: Snapshot, b: Snapshot)
  {
    multiset(a.graph.nodes) == multiset(b.graph.nodes) && multiset(a.graph.lines) == multiset(b.graph.lines)
  }

  /** previous_steps after `if not path == previous_steps[-1]: previous_steps.append(deepcopy(path))`. */
  function Recorded(steps: seq<Snapshot>, s: Snapshot): (r: seq<Snapshot>)
    requires |steps| > 0
  {
    if SameStep(s, steps[|steps| - 1]) then steps else steps + [s]
  }

  /** No step of the record repeats the one before it. */
  ghost predicate Stepwise(steps: seq<Snapshot>)
  {
    forall k :: 0 < k < |steps| ==> !SameStep(steps[k - 1], steps[k])
  }

  /** Recording keeps the record free of repeats, ends it with a step equal to s, and only ever appends. */
  lemma RecordedStepwise(steps: seq<Snapshot>, s: Snapshot)
    requires |steps| > 0 && Stepwise(steps)
    ensures var r := Recorded(steps, s); Stepwise(r) && SameStep(r[|r| - 1], s) && steps <= r && |r| <= |steps| + 1
  {
  }

  /** Line lists without repeats that hold each other's lines are equally long. */
  lemma {:induction false} MutualLinesLength(a: seq<Line>, b: seq<Line>)
    requires NoDupLines(a) && NoDupLines(b) && Mutual(a, b)
    ensures |a| == |b|
    decreases |a|
  {
    if a != [] {
      MutualRemoveFirst(a, b);
      MutualLinesLength(RemoveFirst(a, a[0]), RemoveFirst(b, a[0]));
    } else {
      assert |b| > 0 ==> LineIn(b[0], a);
    }
  }

  /** Taking the first line of a out of both lists shortens each by one and keeps them mutual. */
  lemma MutualRemoveFirst(a: seq<Line>, b: seq<Line>)
    requires NoDupLines(a) && NoDupLines(b) && Mutual(a, b) && a != []
    ensures var a', b' := RemoveFirst(a, a[0]), RemoveFirst(b, a[0]);
      |a'| == |a| - 1 && |b'| == |b| - 1 && NoDupLines(a') && NoDupLines(b') && Mutual(a', b')
  {
    RemoveFirstShorter(a, b);
    RemoveKeepsSubset(a, b, a[0]);
    RemoveKeepsSubset(b, a, a[0]);
  }

  /** The first line of a is in both lists, so taking it out shortens each by one. */
  lemma RemoveFirstShorter(a: seq<Line>, b: seq<Line>)
    requires NoDupLines(a) && NoDupLines(b) && (forall k :: 0 <= k < |a| ==> LineIn(a[k], b)) && a != []
    ensures |RemoveFirst(a, a[0])| == |a| - 1 && |RemoveFirst(b, a[0])| == |b| - 1
    ensures NoDupLines(RemoveFirst(a, a[0])) && NoDupLines(RemoveFirst(b, a[0]))
  {
    LineInSelf(a, 0);
    assert LineIn(a[0], b);
    RemoveFirstContents(a, a[0]);
    RemoveFirstContents(b, a[0]);
  }

  /** Each list holds every line of the other. */
  predicate Mutual(a: seq<Line>, b: seq<Line>)
  {
    (forall k :: 0 <= k < |a| ==> LineIn(a[k], b)) && (forall k :: 0 <= k < |b| ==> LineIn(b[k], a))
  }

  /** Two valid graphs on the same node list holding each other's lines are the same graph. */
  lemma SameGraphFromLines(h: Graph, g: Graph)
    requires Valid(h) && Valid(g) && h.nodes == g.nodes && Mutual(h.lines, g.lines)
    ensures SameGraph(h, g)
  {
    MutualLinesLength(h.lines, g.lines);
    forall i | 0 <= i < |g.nodes| ensures h.adj[i] == g.adj[i] {
      forall j | 0 <= j < |g.nodes| ensures h.adj[i][j] == g.adj[i][j] {
        var l := LineBetween(g, i, j);
        if LineIn(l, h.lines) {
          LineInSubset(l, h.lines, g.lines);
        }
        if LineIn(l, g.lines) {
          LineInSubset(l, g.lines, h.lines);
        }
      }
    }
  }

  /** Two steps Graph.__eq__ calls equal, on the same node list, are the same graph. */
  lemma SameStepSameGraph(a: Snapshot, b: Snapshot)
    requires Valid(a.graph) && Valid(b.graph) && a.graph.nodes == b.graph.nodes && SameStep(a, b)
    ensures SameGraph(a.graph, b.graph)
  {
    var x, y := a.graph.lines, b.graph.lines;
    forall k | 0 <= k < |x| ensures LineIn(x[k], y) {
      assert x[k] in multiset(y);
      var m :| 0 <= m < |y| && y[m] == x[k];
      assert SameLine(y[m], x[k]);
    }
    forall k | 0 <= k < |y| ensures LineIn(y[k], x) {
      assert y[k] in multiset(x);
      var m :| 0 <= m < |x| && x[m] == y[k];
      assert SameLine(x[m], y[k]);
    }
    SameGraphFromLines(a.graph, b.graph);
  }

  // ---------------------------------------------------------------- the rebuild on cancel

  /**
    * `Path(Nodes, start, end, Lines=[])`, then connect the two nodes whichNodes finds on every
    * old line, then drawGraph: the same nodes, matrix and lines up to order and endpoint order.
    */
  method Rebuild(c: Canvas)
    requires c.Valid() && Loopless(c.graph.Model())
    modifies c, c.graph
    ensures c.Valid() && fresh(c.graph)
    ensures SameGraph(c.graph.Model(), old(c.graph.Model()))
    ensures c.lastGraphs == old(c.lastGraphs) && c.nextGraphs == old(c.nextGraphs)
    ensures c.layers == old(c.layers) && c.mode == old(c.mode)
    ensures c.edgeDiff == EdgeDiff(c.graph.Model())
  {
    var p := Relinked(c.graph.nodes, c.graph.lines, c.graph.start, c.graph.end, c.graph.Model());
    ghost var g := c.graph.Model();
    Install(c, p);
    ghost var h := p.Model();
    c.DrawGraph();
    SameGraphTrans(c.graph.Model(), h, g);
  }

  /** `self.graph = newgraph`: a valid path put in place of the live one keeps the canvas valid. */
  method Install(c: Canvas, p: Path)
    requires c.Valid() && Valid(p.Model())
    modifies c
    ensures c.Valid() && c.graph == p
    ensures c.lastGraphs == old(c.lastGraphs) && c.nextGraphs == old(c.nextGraphs)
    ensures c.layers == old(c.layers) && c.mode == old(c.mode)
  {
    c.graph := p;
  }

  /** The new path of the rebuild with every old line connected again. */
  method Relinked(nodes: seq<Node>, lines: seq<Line>, s: Option<Node>, e: Option<Node>, ghost g: Graph) returns (p: Path)
    requires Valid(g) && Loopless(g) && nodes == g.nodes && lines == g.lines
    ensures fresh(p) && p.start == s && p.end == e && Valid(p.Model()) && SameGraph(p.Model(), g)
  {
    p := new Path(nodes, s, e);
    EmptyGraphValid(nodes);
    for k := 0 to |lines|
      invariant p.nodes == nodes && p.start == s && p.end == e && Valid(p.Model())
      invariant Mutual(lines[..k], p.lines)
    {
      Relink(p, lines, k, g);
    }
    assert lines[..|lines|] == lines;
    SameGraphFromLines(p.Model(), g);
  }

  /** One round of the rebuild: connect the ends of line k on the new path. */
  method Relink(p: Path, lines: seq<Line>, k: nat, ghost g: Graph)
    requires Valid(g) && Loopless(g) && lines == g.lines && k < |lines| && p.nodes == g.nodes && Valid(p.Model())
    requires Mutual(lines[..k], p.lines)
    modifies p
    ensures p.nodes == old(p.nodes) && p.start == old(p.start) && p.end == old(p.end) && Valid(p.Model())
    ensures Mutual(lines[..k + 1], p.lines)
  {
    ghost var h := p.Model();
    ghost var i, j := PathLineEnds(g, lines[k]);
    ghost var q1, q2 := LineEnds(g, i, j);
    var ends := p.WhichNodes(lines[k]);
    p.Connect(ends[0], ends[1]);
    ConnectValid(h, q1, q2);
    RelinkedLines(h, lines, k, q1, q2);
  }

  /** Connecting the ends of line k adds line k, up to endpoint order, and nothing else. */
  lemma RelinkedLines(h: Graph, lines: seq<Line>, k: nat, q1: nat, q2: nat)
    requires Square(h) && k < |lines| && q1 < |h.nodes| && q2 < |h.nodes|
    requires SameLine(LineBetween(h, q1, q2), lines[k])
    requires Mutual(lines[..k], h.lines)
    ensures Mutual(lines[..k + 1], Connect(h, q1, q2).lines)
  {
    var m := LineBetween(h, q1, q2);
    var r := Connect(h, q1, q2).lines;
    PrefixStep(lines, k);
    var pre, done := lines[..k + 1], lines[..k];
    forall a | 0 <= a < k + 1 ensures LineIn(pre[a], r) {
      if a < k {
        assert done[a] == lines[a];
      }
      if LineIn(m, h.lines) {
        if a == k {
          LineInRespectsSameLine(m, lines[k], h.lines);
        }
      } else {
        LineInAppend(lines[a], h.lines, m);
      }
    }
    forall b | 0 <= b < |r| ensures LineIn(r[b], lines[..k + 1]) {
      LineInAppend(r[b], lines[..k], lines[k]);
      if b < |h.lines| {
        assert r[b] == h.lines[b];
      }
    }
  }
}
