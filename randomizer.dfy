/**
  * The randomizer: shuffle the path's nodes, grow a sample path through them in shuffled order,
  * stopping at the first crossing or failed spanning test, and keep the first ordering whose sample
  * is a full non-crossing spanning path. Orderings that failed before are skipped. A stop request
  * rebuilds the live path from its own lines; a finished search pushes the live path onto the
  * undo stack and installs a copy of the sample. The worker thread and its signals are not part of
  * this model: a stop request is the predicate cancelAt over the randomizer's polls of its flag,
  * and the `while True` search runs on a fuel bound.
  */
module Randomizers {
  import opened Geometry
  import opened GraphModel
  import opened PathSpec
  import opened Paths
  import opened Layers
  import opened Canvases
  import opened Randoms

  // ---------------------------------------------------------------- the sample as a value

  /** is_spanning_path's side effect: passing the degree test records the two degree-1 nodes as the ends. */
  function Checked(s: Snapshot): (r: Snapshot)
    requires Square(s.graph)
    ensures r.graph == s.graph
    ensures s.end.Some? && s.end.value in s.graph.nodes ==> r.end.Some? && r.end.value in r.graph.nodes
  {
    if DegreeShape(s.graph) then
      var w := WithDeg(s.graph, 1);
      Snapshot(s.graph, Some(s.graph.nodes[w[0]]), Some(s.graph.nodes[w[1]]))
    else s
  }

  /** Path([first], first, first): the sample before any node is added. */
  function Seed(nl: seq<Node>): Snapshot
    requires |nl| > 0
  {
    Snapshot(Graph([nl[0]], [], ZeroMatrix(1)), Some(nl[0]), Some(nl[0]))
  }

  /** A sample holding the first i nodes of the ordering, ready to grow. */
  ghost predicate Growing(s: Snapshot, nl: seq<Node>, i: nat)
  {
    0 < i <= |nl| && DistinctCoords(nl) && Valid(s.graph) && s.graph.nodes == nl[..i] &&
    s.end.Some? && s.end.value in s.graph.nodes
  }

  lemma SeedGrowing(nl: seq<Node>)
    requires |nl| > 0 && DistinctCoords(nl)
    ensures Growing(Seed(nl), nl, 1)
  {
    EmptyGraphValid([nl[0]]);
    assert nl[..1] == [nl[0]];
  }

  /** Distinct coordinates keep each node's coordinate out of the ones before it. */
  lemma FreshCoord(nl: seq<Node>, i: nat)
    requires DistinctCoords(nl) && i < |nl|
    ensures nl[i].coord !in Coords(nl[..i])
  {
    forall v | v in nl[..i] ensures v.coord != nl[i].coord {
      var k :| 0 <= k < i && nl[..i][k] == v;
      assert nl[k] == v;
    }
  }

  /**
    * The for-loop over nodelist[1:]: expandPath, then stop at a crossing, or at a failed
    * is_spanning_path (whose start/end update has already happened).
    */
  ghost function Grown(s: Snapshot, nl: seq<Node>, i: nat): (r: Snapshot)
    requires Growing(s, nl, i)
    ensures i <= |r.graph.nodes| && Growing(r, nl, |r.graph.nodes|)
    decreases |nl| - i
  {
    if i == |nl| then s
    else
      GrowingStep(s, nl, i);
      var e := Expanded(s, nl[i]);
      var c := Checked(e);
      if HasCrossing(e.graph.lines) then e
      else if SpanningSpec(c.graph) then Grown(c, nl, i + 1)
      else c
  }

  /** One expandPath keeps the growing shape, before and after the start/end update. */
  lemma GrowingStep(s: Snapshot, nl: seq<Node>, i: nat)
    requires Growing(s, nl, i) && i < |nl|
    ensures Square(s.graph) && Growing(Expanded(s, nl[i]), nl, i + 1)
    ensures Growing(Checked(Expanded(s, nl[i])), nl, i + 1)
    ensures |Expanded(s, nl[i]).graph.nodes| == |Checked(Expanded(s, nl[i])).graph.nodes| == i + 1
  {
    FreshCoord(nl, i);
    ExpandedValid(s, nl[i]);
    PrefixStep(nl, i);
  }

  /** The ordering yields a full, non-crossing spanning path: the test after the for-loop passes. */
  ghost predicate Succeeds(nl: seq<Node>)
  {
    |nl| > 0 && DistinctCoords(nl) &&
    (SeedGrowing(nl);
     var r := Grown(Seed(nl), nl, 1);
     |r.graph.nodes| == |nl| && Healthy(r.graph))
  }

  /** Every ordering met so far failed. */
  ghost predicate AllFail(past: seq<seq<Node>>)
  {
    forall p :: p in past ==> !Succeeds(p)
  }

  /** A successful ordering gives a valid, non-crossing spanning path on exactly its own nodes, in its order. */
  lemma SucceedsShape(nl: seq<Node>)
    requires Succeeds(nl)
    ensures (SeedGrowing(nl);
      var g := Grown(Seed(nl), nl, 1).graph;
      Valid(g) && g.nodes == nl && !HasCrossing(g.lines) && SpanningSpec(g))
  {
    SeedGrowing(nl);
    assert nl[..|nl|] == nl;
  }

  /**
    * A sample without crossings has already had is_spanning_path applied (or has one node), so
    * the second is_spanning_path after the loop changes nothing.
    */
  lemma {:induction false} GrownSettled(s: Snapshot, nl: seq<Node>, i: nat)
    requires Growing(s, nl, i) && Checked(s) == s
    ensures var r := Grown(s, nl, i); !HasCrossing(r.graph.lines) ==> Checked(r) == r
    decreases |nl| - i
  {
    if i < |nl| {
      FreshCoord(nl, i);
      ExpandedValid(s, nl[i]);
      PrefixStep(nl, i);
      var e := Expanded(s, nl[i]);
      if !HasCrossing(e.graph.lines) {
        var c := Checked(e);
        assert Checked(c) == c;
        if SpanningSpec(c.graph) {
          GrownSettled(c, nl, i + 1);
        }
      }
    }
  }

  /** One node has no degree-1 nodes, so the seed passes no degree test. */
  lemma SeedUnchecked(nl: seq<Node>)
    requires |nl| > 0
    ensures Checked(Seed(nl)) == Seed(nl) && !SpanningSpec(Seed(nl).graph)
  {
    var g := Seed(nl).graph;
    assert |WithDeg(g, 1)| <= 1;
  }

  lemma SampleSettled(nl: seq<Node>)
    requires |nl| > 0 && DistinctCoords(nl)
    ensures (SeedGrowing(nl);
      var r := Grown(Seed(nl), nl, 1); !HasCrossing(r.graph.lines) ==> Checked(r) == r)
  {
    SeedGrowing(nl);
    SeedUnchecked(nl);
    GrownSettled(Seed(nl), nl, 1);
  }

  /** A single node is never a spanning path: the randomizer cannot succeed on one node. */
  lemma OneNodeFails(v: Node)
    ensures !Succeeds([v])
  {
    SeedGrowing([v]);
    SeedUnchecked([v]);
  }

  // ---------------------------------------------------------------- permutations keep coordinates apart

  /** Dropping the first node keeps the coordinates apart, and the first coordinate does not recur. */
  lemma DistinctTail(a: seq<Node>)
    requires DistinctCoords(a) && a != []
    ensures DistinctCoords(a[1..]) && a[0].coord !in Coords(a[1..])
  {
    forall x, y | 0 <= x < y < |a[1..]| ensures a[1..][x].coord != a[1..][y].coord {
      assert a[1..][x] == a[x + 1] && a[1..][y] == a[y + 1];
    }
    forall v | v in a[1..] ensures v.coord != a[0].coord {
      var k :| 0 <= k < |a[1..]| && a[1..][k] == v;
      assert a[k + 1] == v;
    }
  }

  /** A shuffled node list keeps the coordinates apart. */
  lemma PermutedDistinct(a: seq<Node>, b: seq<Node>)
    requires DistinctCoords(a) && multiset(a) == multiset(b)
    ensures DistinctCoords(b)
  {
    assert NoDupNodes(a) by {
      forall x, y | 0 <= x < y < |a| ensures a[x] != a[y] {
        assert a[x].coord != a[y].coord;
      }
    }
    ShuffledNoDup(a, b);
    forall x, y | 0 <= x < y < |b| ensures b[x].coord != b[y].coord {
      assert b[x] in multiset(a) && b[y] in multiset(a);
      var i :| 0 <= i < |a| && a[i] == b[x];
      var j :| 0 <= j < |a| && a[j] == b[y];
      CoordsDistinctAt(a, i, j);
    }
  }

  /** A shuffle of one element gives it back. */
  lemma ShuffleOne(v: Node, r: seq<Node>)
    requires |r| == 1 && multiset(r) == multiset([v])
    ensures r == [v]
  {
    assert r[0] in multiset(r);
  }

  // ---------------------------------------------------------------- rebuilding from the lines

  /** A line whose two ends are one point: whichNodes finds one node for it. */
  predicate Loop(l: Line)
  {
    l.p1 == l.p2
  }

  /** Some line of ls is a loop: rebuilding a path with ls makes connect raise. */
  predicate HasLoop(ls: seq<Line>)
  {
    exists m :: 0 <= m < |ls| && Loop(ls[m])
  }

  /** whichNodes finds one node per distinct endpoint that is a node position. */
  lemma {:induction false} WhichCount(nodes: seq<Node>, l: Line)
    requires DistinctCoords(nodes)
    ensures |WhichNodes(nodes, l)| ==
      (if l.p1 in Coords(nodes) then 1 else 0) + (if !Loop(l) && l.p2 in Coords(nodes) then 1 else 0)
  {
    if nodes != [] {
      DistinctTail(nodes);
      WhichCount(nodes[1..], l);
      assert nodes == [nodes[0]] + nodes[1..];
      assert Coords(nodes) == {nodes[0].coord} + Coords(nodes[1..]);
    }
  }

  /** whichNodes on a line between node positions: one node for a loop, otherwise the two ends. */
  lemma WhichPair(nodes: seq<Node>, l: Line)
    requires DistinctCoords(nodes) && l.p1 in Coords(nodes) && l.p2 in Coords(nodes)
    ensures var ws := WhichNodes(nodes, l);
      (Loop(l) ==> |ws| == 1) &&
      (!Loop(l) ==> |ws| == 2 && SameLine(Line(ws[0].coord, ws[1].coord), l))
  {
    var ws := WhichNodes(nodes, l);
    WhichCount(nodes, l);
    if !Loop(l) {
      assert ws[0] in ws && ws[1] in ws;
    }
  }

  /** Two line lists that agree position by position hold the same lines. */
  ghost predicate Pointwise(a: seq<Line>, b: seq<Line>)
  {
    |a| == |b| && forall m :: 0 <= m < |a| ==> SameLine(a[m], b[m])
  }

  lemma PointwiseLineIn(x: Line, a: seq<Line>, b: seq<Line>)
    requires Pointwise(a, b)
    ensures LineIn(x, a) <==> LineIn(x, b)
  {
    if LineIn(x, a) {
      var m :| 0 <= m < |a| && SameLine(a[m], x);
      assert SameLine(b[m], x);
    }
    if LineIn(x, b) {
      var m :| 0 <= m < |b| && SameLine(b[m], x);
      assert SameLine(a[m], x);
    }
  }

  /** Two valid graphs on one node list with pointwise-equal lines are the same graph up to line order. */
  lemma PointwiseSame(g: Graph, h: Graph)
    requires Valid(g) && Valid(h) && g.nodes == h.nodes && Pointwise(h.lines, g.lines)
    ensures SameGraph(h, g)
  {
    forall x ensures LineIn(x, h.lines) <==> LineIn(x, g.lines) {
      PointwiseLineIn(x, h.lines, g.lines);
    }
    forall k | 0 <= k < |h.lines| ensures LineIn(h.lines[k], g.lines) {
      assert SameLine(h.lines[k], h.lines[k]);
    }
    forall k | 0 <= k < |g.lines| ensures LineIn(g.lines[k], h.lines) {
      assert SameLine(g.lines[k], g.lines[k]);
    }
    forall i | 0 <= i < |g.nodes| ensures h.adj[i] == g.adj[i] {
      forall j | 0 <= j < |g.nodes| ensures h.adj[i][j] == g.adj[i][j] {
        assert LineBetween(h, i, j) == LineBetween(g, i, j);
      }
    }
  }

  /** The new line is none of the ones already rebuilt. */
  lemma RebuiltFresh(done: seq<Line>, lines: seq<Line>, k: nat, l: Line)
    requires k < |lines| && NoDupLines(lines) && Pointwise(done, lines[..k]) && SameLine(l, lines[k])
    ensures !LineIn(l, done)
  {
    forall m | 0 <= m < |done| ensures !SameLine(done[m], l) {
      assert SameLine(done[m], lines[..k][m]);
      assert !SameLine(lines[m], lines[k]);
    }
  }

  lemma PointwiseSnoc(a: seq<Line>, b: seq<Line>, x: Line, y: Line)
    requires Pointwise(a, b) && SameLine(x, y)
    ensures Pointwise(a + [x], b + [y])
  {
  }

  /** None of the first k lines is a loop. */
  ghost predicate LoopFree(ls: seq<Line>, k: nat)
  {
    k <= |ls| && forall m :: 0 <= m < k ==> !Loop(ls[m])
  }

  lemma LoopFreeStep(ls: seq<Line>, k: nat)
    requires LoopFree(ls, k) && k < |ls| && !Loop(ls[k])
    ensures LoopFree(ls, k + 1)
  {
  }

  /** One connect of the rebuild: a line that is not a loop is joined between its two end nodes, as the next line. */
  lemma ReconnectJoin(h: Graph, g: Graph, k: nat)
    requires DistinctCoords(g.nodes) && NoDupLines(g.lines) && Closed(g) && k < |g.lines| && !Loop(g.lines[k])
    requires Valid(h) && h.nodes == g.nodes && Pointwise(h.lines, g.lines[..k])
    ensures var ws := WhichNodes(g.nodes, g.lines[k]);
      |ws| == 2 && ws[0] in h.nodes && ws[1] in h.nodes &&
      var h' := Connect(h, IndexOf(h.nodes, ws[0]), IndexOf(h.nodes, ws[1]));
      Valid(h') && h'.nodes == g.nodes && Pointwise(h'.lines, g.lines[..k + 1])
  {
    var l := g.lines[k];
    WhichPair(g.nodes, l);
    var ws := WhichNodes(g.nodes, l);
    assert ws[0] in ws && ws[1] in ws;
    var i, j := IndexOf(h.nodes, ws[0]), IndexOf(h.nodes, ws[1]);
    var lb := LineBetween(h, i, j);
    RebuiltFresh(h.lines, g.lines, k, lb);
    ConnectValid(h, i, j);
    PointwiseSnoc(h.lines, g.lines[..k], lb, l);
    PrefixStep(g.lines, k);
  }

  /**
    * Lines 49-57: a new path on the node list, start and end, then one connect per line between
    * the nodes whichNodes finds. A loop line makes points[1] fail, which ends the thread; what
    * was rebuilt up to there stays. Only the nodes and lines of g are read, not its matrix.
    */
  method Reconnected(g: Graph, s: Option<Node>, e: Option<Node>) returns (p: Path, crashed: bool)
    requires DistinctCoords(g.nodes) && NoDupLines(g.lines) && Closed(g)
    ensures fresh(p) && Valid(p.Model()) && p.nodes == g.nodes && p.start == s && p.end == e
    ensures crashed <==> HasLoop(g.lines)
    ensures !crashed ==> Pointwise(p.lines, g.lines)
  {
    EmptyGraphValid(g.nodes);
    p := new Path(g.nodes, s, e);
    var k := 0;
    crashed := false;
    while k < |g.lines| && !crashed
      invariant fresh(p) && Valid(p.Model()) && p.nodes == g.nodes && p.start == s && p.end == e
      invariant k <= |g.lines| && Pointwise(p.lines, g.lines[..k])
      invariant LoopFree(g.lines, k)
      invariant crashed ==> k < |g.lines| && Loop(g.lines[k])
      decreases |g.lines| - k, !crashed
    {
      WhichPair(g.nodes, g.lines[k]);
      var ws := p.WhichNodes(g.lines[k]);
      if |ws| < 2 {
        crashed := true;
      } else {
        ReconnectJoin(p.Model(), g, k);
        LoopFreeStep(g.lines, k);
        p.Connect(ws[0], ws[1]);
        k := k + 1;
      }
    }
    if !crashed {
      assert g.lines[..k] == g.lines;
    } else {
      assert Loop(g.lines[k]);
    }
  }

  // ---------------------------------------------------------------- the live shuffle, as written

  /** What shuffling the node list that getNodes hands out leaves in the path: its own nodes permuted, lines and matrix as before. */
  function Reordered(g: Graph, ns: seq<Node>): Graph
  {
    Graph(ns, g.lines, g.adj)
  }

  /** Lines 26 and 37 as written: shuffle the list the live path holds. */
  method ShuffleLive(p: Path, rng: Random)
    modifies p, rng
    ensures multiset(p.nodes) == multiset(old(p.nodes))
    ensures p.Model() == Reordered(old(p.Model()), p.nodes)
    ensures p.start == old(p.start) && p.end == old(p.end)
  {
    var ns := rng.Shuffle(p.nodes);
    p.nodes := ns;
  }

  /** The path a-b-c at (0, 0), (1, 0) and (1, 1), drawn as two connects. */
  function ThreePath(): Graph
  {
    var a, b, c := Node(0, Point(0, 0)), Node(1, Point(1, 0)), Node(2, Point(1, 1));
    Connect(Connect(Graph([a, b, c], [], ZeroMatrix(3)), 0, 1), 1, 2)
  }

  lemma ThreePathValid()
    ensures Valid(ThreePath())
  {
    var g0 := Graph([Node(0, Point(0, 0)), Node(1, Point(1, 0)), Node(2, Point(1, 1))], [], ZeroMatrix(3));
    EmptyGraphValid(g0.nodes);
    ConnectValid(g0, 0, 1);
    ConnectValid(Connect(g0, 0, 1), 1, 2);
  }

  lemma ThreePathLines()
    ensures ThreePath().lines == [Line(Point(0, 0), Point(1, 0)), Line(Point(1, 0), Point(1, 1))]
    ensures ThreePath().adj[1][2] == 1
  {
    var g0 := Graph([Node(0, Point(0, 0)), Node(1, Point(1, 0)), Node(2, Point(1, 1))], [], ZeroMatrix(3));
    var g1 := Connect(g0, 0, 1);
    assert g1.lines == [Line(Point(0, 0), Point(1, 0))];
    assert |g1.adj| == 3 && |g1.adj[1]| == 3 && |g1.adj[2]| == 3;
  }

  /**
    * The path a-b-c with its node list shuffled to [b, a, c]: the matrix still joins the second
    * and third positions, now a and c, which no line joins.
    */
  lemma ShuffledLiveCorrupt()
    ensures var g := ThreePath();
      Valid(g) && multiset([g.nodes[1], g.nodes[0], g.nodes[2]]) == multiset(g.nodes) &&
      !Lockstep(Reordered(g, [g.nodes[1], g.nodes[0], g.nodes[2]]))
  {
    ThreePathValid();
    ThreePathLines();
    var g := ThreePath();
    var h := Reordered(g, [g.nodes[1], g.nodes[0], g.nodes[2]]);
    assert LineBetween(h, 1, 2) == Line(Point(0, 0), Point(1, 1));
    assert !LineIn(LineBetween(h, 1, 2), h.lines);
  }

  // ---------------------------------------------------------------- the history a run leaves

  /** A finished run: the old path is pushed, the redo stack is kept (unlike an edit, which drops it). */
  function Randomized(h: History, after: Snapshot): History
  {
    History(after, h.last + [h.current], h.next)
  }

  lemma RandomizedValid(h: History, after: Snapshot)
    requires HistoryValid(h) && Valid(after.graph)
    ensures HistoryValid(Randomized(h, after))
  {
  }

  /** Undo after a finished run brings the old path back and keeps the sample for redo, above the old redo stack. */
  lemma RandomizedThenUndo(h: History, after: Snapshot)
    ensures Undone(Randomized(h, after)) == History(h.current, h.last, h.next + [after])
  {
    assert (h.last + [h.current])[..|h.last|] == h.last;
  }

  /** A forced stop swaps the live path for its rebuild and leaves both stacks. */
  lemma ReplacedValid(h: History, now: Snapshot)
    requires HistoryValid(h) && Valid(now.graph)
    ensures HistoryValid(History(now, h.last, h.next))
  {
  }

  // ---------------------------------------------------------------- the search, with its polls

  /** How a run ends. Dropped: the stop request came after the last sample was judged, so nothing happens. */
  datatype Outcome = Empty | Done | ForcedStop | Crashed | Unfinished | Dropped

  /** Line 62: a full node count, then no crossing, then is_spanning_path. */
  method Judge(s: Path, nl: seq<Node>) returns (ok: bool)
    requires |nl| > 0 && DistinctCoords(nl)
    requires (SeedGrowing(nl); s.Snap() == Grown(Seed(nl), nl, 1))
    modifies s
    ensures s.Snap() == old(s.Snap())
    ensures ok <==> Succeeds(nl)
  {
    SampleSettled(nl);
    if |s.nodes| < |nl| {
      return false;
    }
    var cr := s.Crosses();
    if |cr| > 0 {
      return false;
    }
    ok := s.IsSpanningPath();
  }

  /** Lines 41-47: the sample grown through the ordering. */
  method Sample(nl: seq<Node>) returns (s: Path)
    requires |nl| > 0 && DistinctCoords(nl)
    ensures fresh(s)
    ensures (SeedGrowing(nl); s.Snap() == Grown(Seed(nl), nl, 1))
  {
    SeedGrowing(nl);
    s := new Path([nl[0]], Some(nl[0]), Some(nl[0]));
    var i := 1;
    var done := false;
    while i < |nl| && !done
      invariant fresh(s) && 1 <= i <= |nl|
      invariant !done ==> Growing(s.Snap(), nl, i) && Grown(s.Snap(), nl, i) == Grown(Seed(nl), nl, 1)
      invariant done ==> s.Snap() == Grown(Seed(nl), nl, 1)
      decreases |nl| - i, !done
    {
      ghost var before := s.Snap();
      FreshCoord(nl, i);
      ExpandedValid(before, nl[i]);
      PrefixStep(nl, i);
      s.ExpandPath(nl[i]);
      assert s.Snap() == Expanded(before, nl[i]);
      var cr := s.Crosses();
      if |cr| > 0 {
        done := true;
      } else {
        var sp := s.IsSpanningPath();
        assert s.Snap() == Checked(Expanded(before, nl[i]));
        if !sp {
          done := true;
        } else {
          i := i + 1;
        }
      }
    }
  }

  class Randomizer {
    const canvas: Canvas
    const rng: Random
    /** Whether a stop request has arrived by the randomizer's k-th look at its flag. */
    const cancelAt: nat -> bool
    var polls: nat
    var stopped: bool

    ghost predicate Valid()
      reads this, canvas, canvas.graph
    {
      canvas.Valid()
    }

    constructor (c: Canvas, r: Random, cancel: nat -> bool)
      requires c.Valid()
      ensures Valid() && canvas == c && rng == r && cancelAt == cancel
      ensures stopped && polls == 0
    {
      canvas := c;
      rng := r;
      cancelAt := cancel;
      polls := 0;
      stopped := true;
    }

    /** change_stop */
    method ChangeStop()
      modifies this
      ensures stopped && polls == old(polls)
    {
      stopped := true;
    }

    /** One read of self.stopped, with any stop request that has arrived by then. */
    method Look() returns (halt: bool)
      modifies this
      ensures stopped == (old(stopped) || cancelAt(old(polls))) && halt == stopped
      ensures polls == old(polls) + 1
    {
      if cancelAt(polls) {
        ChangeStop();
      }
      polls := polls + 1;
      halt := stopped;
    }

    /** No stop request has arrived at any look from the from-th up to, not including, the to-th. */
    ghost predicate Unheard(from: nat, to: nat)
    {
      forall k :: from <= k < to ==> !cancelAt(k)
    }

    lemma UnheardStep(from: nat, to: nat)
      requires from <= to && Unheard(from, to) && !cancelAt(to)
      ensures Unheard(from, to + 1)
    {
    }

    lemma UnheardTrans(a: nat, b: nat, c: nat)
      requires a <= b <= c && Unheard(a, b) && Unheard(b, c)
      ensures Unheard(a, c)
    {
    }

    /** Lines 68-70: push the live path, install a copy of the sample, redraw. */
    method Install(s: Path, ghost nl: seq<Node>)
      requires Valid() && Succeeds(nl)
      requires (SeedGrowing(nl); s.Snap() == Grown(Seed(nl), nl, 1))
      modifies canvas, canvas.graph
      ensures Valid() && fresh(canvas.graph)
      ensures canvas.lastGraphs == old(canvas.lastGraphs) + [old(canvas.graph.Snap())]
      ensures canvas.nextGraphs == old(canvas.nextGraphs)
      ensures canvas.graph.Model() == old(s.Model())
    {
      SucceedsShape(nl);
      ghost var h := canvas.Hist();
      RandomizedValid(h, s.Snap());
      canvas.lastGraphs := canvas.lastGraphs + [canvas.graph.Snap()];
      canvas.graph := new Path.Copy(s.Snap());
      assert canvas.Hist() == Randomized(h, s.Snap());
      canvas.DrawGraph();
    }

    /** Lines 49-58: rebuild the live path from its own lines and redraw; a loop line stops the rebuild half-way. */
    method Rebuild() returns (crashed: bool)
      requires Valid()
      modifies canvas, canvas.graph
      ensures Valid() && fresh(canvas.graph)
      ensures canvas.lastGraphs == old(canvas.lastGraphs) && canvas.nextGraphs == old(canvas.nextGraphs)
      ensures crashed <==> HasLoop(old(canvas.graph.lines))
      ensures !crashed ==> SameGraph(canvas.graph.Model(), old(canvas.graph.Model()))
    {
      var g := canvas.graph.Model();
      var p;
      p, crashed := Reconnected(g, canvas.graph.start, canvas.graph.end);
      ghost var h := canvas.Hist();
      ReplacedValid(h, p.Snap());
      canvas.graph := p;
      assert canvas.Hist() == History(p.Snap(), h.last, h.next);
      if !crashed {
        ghost var rebuilt := p.Model();
        PointwiseSame(g, rebuilt);
        canvas.DrawGraph();
        SameGraphTrans(canvas.graph.Model(), rebuilt, g);
      }
    }

    /**
      * Lines 41-64 for an ordering not met before: build the sample, look at the flag (and on a
      * stop request rebuild the live path), otherwise judge the sample.
      */
    method Attempt(nl: seq<Node>) returns (halt: bool, crashed: bool, ok: bool, s: Path)
      requires Valid() && !stopped && |nl| > 0 && DistinctCoords(nl)
      modifies this, canvas, canvas.graph
      ensures Valid() && polls == old(polls) + 1 && halt == stopped && (halt <==> cancelAt(old(polls)))
      ensures canvas.lastGraphs == old(canvas.lastGraphs) && canvas.nextGraphs == old(canvas.nextGraphs)
      ensures !halt ==> canvas.graph == old(canvas.graph) && canvas.graph.Snap() == old(canvas.graph.Snap())
      ensures halt ==> (crashed <==> HasLoop(old(canvas.graph.lines)))
      ensures halt && !crashed ==> SameGraph(canvas.graph.Model(), old(canvas.graph.Model()))
      ensures !halt ==> fresh(s) && (ok <==> Succeeds(nl)) && (SeedGrowing(nl); s.Snap() == Grown(Seed(nl), nl, 1))
    {
      s := Sample(nl);
      halt := Look();
      crashed, ok := false, false;
      if halt {
        crashed := Rebuild();
        return;
      }
      ok := Judge(s, nl);
    }

    /**
      * A skipped ordering: as written nothing happens; with heed, a look at the flag and, on a
      * stop request, the rebuild of lines 49-58.
      */
    method Skipped(heed: bool) returns (halt: bool, crashed: bool)
      requires Valid() && !stopped
      modifies this, canvas, canvas.graph
      ensures Valid() && polls == old(polls) + (if heed then 1 else 0) && halt == stopped
      ensures halt <==> heed && cancelAt(old(polls))
      ensures canvas.lastGraphs == old(canvas.lastGraphs) && canvas.nextGraphs == old(canvas.nextGraphs)
      ensures !halt ==> canvas.graph == old(canvas.graph) && canvas.graph.Snap() == old(canvas.graph.Snap())
      ensures halt ==> (crashed <==> HasLoop(old(canvas.graph.lines)))
      ensures halt && !crashed ==> SameGraph(canvas.graph.Model(), old(canvas.graph.Model()))
    {
      halt, crashed := false, false;
      if heed {
        halt := Look();
        if halt {
          crashed := Rebuild();
        }
      }
    }

    /** Lines 67-70 after a successful sample: one more look at the flag; unless stopped, install the sample. */
    method Finish(s: Path, ghost nl: seq<Node>) returns (dropped: bool)
      requires Valid() && !stopped && Succeeds(nl)
      requires (SeedGrowing(nl); s.Snap() == Grown(Seed(nl), nl, 1))
      modifies this, canvas, canvas.graph
      ensures Valid() && polls == old(polls) + 1 && dropped == stopped && (dropped <==> cancelAt(old(polls)))
      ensures dropped ==>
        canvas.graph == old(canvas.graph) && canvas.graph.Snap() == old(canvas.graph.Snap()) &&
        canvas.lastGraphs == old(canvas.lastGraphs) && canvas.nextGraphs == old(canvas.nextGraphs)
      ensures !dropped ==>
        canvas.lastGraphs == old(canvas.lastGraphs) + [old(canvas.graph.Snap())] &&
        canvas.nextGraphs == old(canvas.nextGraphs) && canvas.graph.Model() == Grown(Seed(nl), nl, 1).graph
    {
      dropped := Look();
      if !dropped {
        Install(s, nl);
      }
    }

    /**
      * run: reset the flag, report an empty path, otherwise search. Two corrections of Randomizer.py
      * are made here: the node list is taken as a copy, and a skipped ordering looks at the flag
      * as well, so a stop request within the first fuel looks always ends the search.
      */
    method Run(fuel: nat) returns (outcome: Outcome, ghost order: seq<Node>)
      requires Valid()
      modifies this, canvas, canvas.graph, rng
      ensures Valid()
      ensures outcome == Empty <==> |old(canvas.graph.nodes)| == 0
      ensures outcome in {Empty, Unfinished, Dropped} ==>
        canvas.graph == old(canvas.graph) && canvas.graph.Snap() == old(canvas.graph.Snap())
      ensures outcome in {Empty, Unfinished, Dropped, ForcedStop, Crashed} ==>
        canvas.lastGraphs == old(canvas.lastGraphs) && canvas.nextGraphs == old(canvas.nextGraphs)
      ensures outcome == Done ==>
        Succeeds(order) && multiset(order) == multiset(old(canvas.graph.nodes)) &&
        (SeedGrowing(order); canvas.graph.Model() == Grown(Seed(order), order, 1).graph) &&
        canvas.lastGraphs == old(canvas.lastGraphs) + [old(canvas.graph.Snap())] &&
        canvas.nextGraphs == old(canvas.nextGraphs) && !stopped
      ensures outcome == ForcedStop ==> SameGraph(canvas.graph.Model(), old(canvas.graph.Model()))
      ensures outcome in {ForcedStop, Crashed} ==>
        (outcome == Crashed <==> HasLoop(old(canvas.graph.lines)))
      ensures outcome in {ForcedStop, Crashed} ==> polls > old(polls) && cancelAt(polls - 1)
      ensures |old(canvas.graph.nodes)| == 1 ==> outcome != Done
      ensures outcome == Unfinished ==> polls >= old(polls) + fuel && Unheard(old(polls), polls)
    {
      var nodelist := canvas.graph.nodes;
      stopped := false;
      order := nodelist;
      if |nodelist| == 0 {
        return Empty, order;
      }
      outcome, order := Search(fuel, nodelist, true);
    }

    /**
      * The `while True` loop of run, on a fuel bound. Each built sample is followed by a look at
      * the flag, and a successful one by one more. An ordering met before is skipped: as written
      * (heed false) without looking at the flag, so on one node, whose only ordering fails,
      * nothing after the first look is ever seen; with heed, after a look at the flag.
      */
    method Search(fuel: nat, nodes: seq<Node>, heed: bool) returns (outcome: Outcome, ghost order: seq<Node>)
      requires Valid() && !stopped && nodes == canvas.graph.nodes && |nodes| > 0
      modifies this, canvas, canvas.graph, rng
      ensures Valid() && outcome != Empty
      ensures outcome in {Unfinished, Dropped} ==>
        canvas.graph == old(canvas.graph) && canvas.graph.Snap() == old(canvas.graph.Snap())
      ensures outcome in {Unfinished, Dropped, ForcedStop, Crashed} ==>
        canvas.lastGraphs == old(canvas.lastGraphs) && canvas.nextGraphs == old(canvas.nextGraphs)
      ensures outcome == Done ==>
        Succeeds(order) && multiset(order) == multiset(nodes) &&
        (SeedGrowing(order); canvas.graph.Model() == Grown(Seed(order), order, 1).graph) &&
        canvas.lastGraphs == old(canvas.lastGraphs) + [old(canvas.graph.Snap())] &&
        canvas.nextGraphs == old(canvas.nextGraphs) && !stopped
      ensures outcome == ForcedStop ==> SameGraph(canvas.graph.Model(), old(canvas.graph.Model()))
      ensures outcome in {ForcedStop, Crashed} ==>
        (outcome == Crashed <==> HasLoop(old(canvas.graph.lines)))
      ensures outcome in {ForcedStop, Crashed} ==> polls > old(polls) && cancelAt(polls - 1)
      ensures |nodes| == 1 ==> outcome != Done
      ensures !heed && |nodes| == 1 ==> polls <= old(polls) + 1
      ensures outcome == Unfinished ==> Unheard(old(polls), polls)
      ensures heed && outcome == Unfinished ==> polls >= old(polls) + fuel
    {
      var nodelist := nodes;
      order := nodes;
      var past: seq<seq<Node>> := [];
      var f := fuel;
      var over := false;
      ghost var path, snap, polls0 := canvas.graph, canvas.graph.Snap(), polls;
      ghost var last, next := canvas.lastGraphs, canvas.nextGraphs;
      while f > 0
        invariant Valid() && canvas.graph == path && canvas.graph.Snap() == snap
        invariant canvas.lastGraphs == last && canvas.nextGraphs == next
        invariant |nodelist| == |nodes| && multiset(nodelist) == multiset(nodes)
        invariant AllFail(past)
        invariant !stopped && polls >= polls0
        invariant Unheard(polls0, polls)
        invariant heed ==> polls >= polls0 + (fuel - f)
        invariant |nodes| == 1 ==> nodelist == nodes && (polls > polls0 ==> nodelist in past)
        invariant !heed && |nodes| == 1 ==> polls <= polls0 + 1
        invariant !over
      {
        f := f - 1;
        nodelist := rng.Shuffle(nodelist);
        if |nodes| == 1 {
          ShuffleOne(nodes[0], nodelist);
          assert nodes == [nodes[0]];
        }
        ghost var before := polls;
        over, outcome, order, past := Round(nodes, nodelist, past, heed);
        if over {
          assert outcome in {ForcedStop, Crashed} ==> cancelAt(polls - 1);
          assert outcome == Done ==> canvas.lastGraphs == last + [snap];
          break;
        }
        UnheardTrans(polls0, before, polls);
      }
      if !over {
        outcome, order := Unfinished, nodes;
      }
    }

    /**
      * One pass of the loop of run on a shuffled ordering: skip it when met before (with heed,
      * after a look at the flag); otherwise build and judge the sample, record a failed
      * ordering, and finish on a successful one. Over when the loop of run ends here.
      */
    method Round(nodes: seq<Node>, nodelist: seq<Node>, past: seq<seq<Node>>, heed: bool)
      returns (over: bool, outcome: Outcome, ghost order: seq<Node>, past2: seq<seq<Node>>)
      requires Valid() && !stopped && nodes == canvas.graph.nodes && |nodes| > 0
      requires |nodelist| == |nodes| && multiset(nodelist) == multiset(nodes)
      requires AllFail(past)
      requires |nodes| == 1 ==> nodelist == nodes
      modifies this, canvas, canvas.graph
      ensures Valid()
      ensures !over ==>
        canvas.graph == old(canvas.graph) && canvas.graph.Snap() == old(canvas.graph.Snap()) &&
        canvas.lastGraphs == old(canvas.lastGraphs) && canvas.nextGraphs == old(canvas.nextGraphs) &&
        !stopped && nodelist in past2 && AllFail(past2) &&
        Unheard(old(polls), polls) &&
        old(polls) + (if heed then 1 else 0) <= polls <= old(polls) + 1 &&
        (!heed && nodelist in past ==> polls == old(polls))
      ensures over ==> outcome in {Done, Dropped, ForcedStop, Crashed}
      ensures outcome == Dropped ==>
        canvas.graph == old(canvas.graph) && canvas.graph.Snap() == old(canvas.graph.Snap())
      ensures outcome in {Dropped, ForcedStop, Crashed} ==>
        canvas.lastGraphs == old(canvas.lastGraphs) && canvas.nextGraphs == old(canvas.nextGraphs)
      ensures over && outcome == Done ==>
        order == nodelist && Succeeds(order) &&
        (SeedGrowing(order); canvas.graph.Model() == Grown(Seed(order), order, 1).graph) &&
        canvas.lastGraphs == old(canvas.lastGraphs) + [old(canvas.graph.Snap())] &&
        canvas.nextGraphs == old(canvas.nextGraphs) && !stopped
      ensures over && outcome == ForcedStop ==> SameGraph(canvas.graph.Model(), old(canvas.graph.Model()))
      ensures over && outcome in {ForcedStop, Crashed} ==>
        (outcome == Crashed <==> HasLoop(old(canvas.graph.lines)))
      ensures over && outcome in {ForcedStop, Crashed} ==> polls > old(polls) && cancelAt(polls - 1)
      ensures over && |nodes| == 1 ==> outcome in {ForcedStop, Crashed}
      ensures over && outcome in {ForcedStop, Crashed} ==> polls == old(polls) + 1
      ensures !heed && nodelist in past ==> !over
    {
      past2, order := past, nodelist;
      over, outcome := false, Unfinished;
      ghost var p0 := polls;
      if nodelist in past {
        var halt, crashed := Skipped(heed);
        if halt {
          over, outcome := true, if crashed then Crashed else ForcedStop;
        } else if heed {
          UnheardStep(p0, p0);
        }
        return;
      }
      PermutedDistinct(nodes, nodelist);
      var halt, crashed, ok, sample := Attempt(nodelist);
      if halt {
        over, outcome := true, if crashed then Crashed else ForcedStop;
        return;
      }
      UnheardStep(p0, p0);
      if !ok {
        past2 := past + [nodelist];
        return;
      }
      if |nodes| == 1 {
        OneNodeFails(nodelist[0]);
      }
      var dropped := Finish(sample, order);
      over, outcome := true, if dropped then Dropped else Done;
    }
  }
}
