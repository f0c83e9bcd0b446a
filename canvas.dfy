/**
  * The editing canvas with its painting stripped away: the live path, the undo and redo stacks
  * of deep copies, the convex layers, the FLIP-mode gate on edge edits through the stored
  * edge difference, and the two diagnostics that name problem nodes and problem edges.
  */
module Canvases {
  import opened Geometry
  import opened GraphModel
  import opened PathSpec
  import opened Paths
  import opened Layers

  /** EDIT mode edits freely; FLIP mode gates edits on the path and the edge difference. */
  datatype Mode = Edit | Flip

  /**
    * The window's switch_flip_mode, which main_mode_change triggers: EDIT goes to FLIP only on a
    * non-crossing spanning path; FLIP goes back to EDIT on an empty path or a non-crossing
    * spanning one.
    */
  ghost function Switched(m: Mode, g: Graph): Mode
    requires Square(g)
  {
    if m == Edit then (if !HasCrossing(g.lines) && SpanningSpec(g) then Flip else Edit)
    else if |g.nodes| > 0 && (HasCrossing(g.lines) || !SpanningSpec(g)) then Flip else Edit
  }

  /** After reset the switch lands in EDIT mode from either mode: the empty path is no spanning path. */
  lemma SwitchedOnEmpty(m: Mode)
    ensures Switched(m, Graph([], [], [])) == Edit
  {
  }

  /** What draw_node did: drew the node, refused it in FLIP mode, or raised inside connect. */
  datatype Drawing = Drawn | Refused | Raised

  /** A non-empty path whose recorded end is missing or no longer one of its nodes. */
  predicate StaleEnd(s: Snapshot)
  {
    |s.graph.nodes| > 0 && (s.end.None? || s.end.value !in s.graph.nodes)
  }

  // ---------------------------------------------------------------- history as values

  /** The live path and the two stacks of copies, top of stack last. */
  datatype History = History(current: Snapshot, last: seq<Snapshot>, next: seq<Snapshot>)

  /** undo: the top of last becomes current and current goes onto next; nothing to undo changes nothing. */
  function Undone(h: History): (r: History)
    ensures h.last == [] ==> r == h
    ensures h.last != [] ==> |r.last| == |h.last| - 1 && |r.next| == |h.next| + 1
  {
    if h.last == [] then h
    else History(h.last[|h.last| - 1], h.last[..|h.last| - 1], h.next + [h.current])
  }

  /** redo: the mirror image of undo. */
  function Redone(h: History): (r: History)
    ensures h.next == [] ==> r == h
    ensures h.next != [] ==> |r.next| == |h.next| - 1 && |r.last| == |h.last| + 1
  {
    if h.next == [] then h
    else History(h.next[|h.next| - 1], h.last + [h.current], h.next[..|h.next| - 1])
  }

  /** An accepted edit: the old path is pushed, redo history is dropped. */
  function Edited(h: History, after: Snapshot): History
  {
    History(after, h.last + [h.current], [])
  }

  /** to_start: undo until there is nothing to undo. */
  function Rewound(h: History): (r: History)
    ensures r.last == []
    decreases |h.last|
  {
    if h.last == [] then h else Rewound(Undone(h))
  }

  /** to_end: redo until there is nothing to redo. */
  function FastForwarded(h: History): (r: History)
    ensures r.next == []
    decreases |h.next|
  {
    if h.next == [] then h else FastForwarded(Redone(h))
  }

  lemma UndoThenRedo(h: History)
    requires h.last != []
    ensures Redone(Undone(h)) == h
  {
    assert h.last[..|h.last| - 1] + [h.last[|h.last| - 1]] == h.last;
  }

  lemma RedoThenUndo(h: History)
    requires h.next != []
    ensures Undone(Redone(h)) == h
  {
    assert h.next[..|h.next| - 1] + [h.next[|h.next| - 1]] == h.next;
  }

  /** An edit followed by undo gives back the old path, with the redo stack now holding the edit. */
  lemma EditThenUndo(h: History, after: Snapshot)
    ensures Undone(Edited(h, after)) == History(h.current, h.last, [after])
  {
    assert (h.last + [h.current])[..|h.last|] == h.last;
  }

  /** to_start moves every copy onto the redo stack, the oldest copy ending up current. */
  lemma {:induction false} ToStartShape(h: History)
    ensures |Rewound(h).next| == |h.next| + |h.last|
    ensures h.last != [] ==> Rewound(h).current == h.last[0]
    decreases |h.last|
  {
    if h.last != [] {
      ToStartShape(Undone(h));
      if |h.last| > 1 {
        assert Undone(h).last[0] == h.last[0];
      }
    }
  }

  /** Undoing one step and then going to the end arrives where going to the end arrives. */
  lemma {:induction false} ToEndAfterUndo(h: History)
    ensures FastForwarded(Undone(h)) == FastForwarded(h)
    decreases |h.next|
  {
    if h.last != [] {
      UndoThenRedo(h);
      assert Undone(h).next != [];
    }
  }

  /** to_start followed by to_end arrives where to_end alone arrives: no copy is lost. */
  lemma {:induction false} ToStartThenToEnd(h: History)
    ensures FastForwarded(Rewound(h)) == FastForwarded(h)
    decreases |h.last|
  {
    if h.last != [] {
      ToStartThenToEnd(Undone(h));
      ToEndAfterUndo(h);
    }
  }

  // ---------------------------------------------------------------- names

  /** max([int(node.get_name()) for node in nodes]) */
  function MaxName(nodes: seq<Node>): int
    requires |nodes| > 0
  {
    if |nodes| == 1 then nodes[0].name
    else
      var m := MaxName(nodes[1..]);
      if nodes[0].name > m then nodes[0].name else m
  }

  /** The maximum bounds every name and is one of them, so i_ = max + 1 is a name not yet used. */
  lemma {:induction false} MaxNameBounds(nodes: seq<Node>)
    requires |nodes| > 0
    ensures forall v :: v in nodes ==> v.name <= MaxName(nodes)
    ensures exists v :: v in nodes && v.name == MaxName(nodes)
  {
    if |nodes| > 1 {
      MaxNameBounds(nodes[1..]);
      assert nodes[1..][0] in nodes;
      forall v | v in nodes ensures v.name <= MaxName(nodes) {
        if v != nodes[0] {
          assert v in nodes[1..];
        }
      }
    } else {
      assert nodes[0] in nodes;
    }
  }

  // ---------------------------------------------------------------- problem_node

  /** The four degree lists problem_node and problem_edge build. */
  datatype DegClass = Isolated | EndNode | Inner | Branch

  predicate InClass(d: int, c: DegClass)
  {
    match c
    case Isolated => d == 0
    case EndNode => d == 1
    case Inner => d == 2
    case Branch => d > 2
  }

  /** [v for v in nodes if deg(v) ...] over the first m nodes, with distinct nodes so that deg(v) is the degree at v's position. */
  function DegNodes(g: Graph, c: DegClass, m: nat): (r: seq<Node>)
    requires Square(g) && m <= |g.nodes|
    ensures |r| <= m
    ensures forall v :: v in r <==> exists i :: 0 <= i < m && g.nodes[i] == v && InClass(Deg(g, i), c)
  {
    if m == 0 then []
    else DegNodes(g, c, m - 1) + (if InClass(Deg(g, m - 1), c) then [g.nodes[m - 1]] else [])
  }

  /** The filter keeps all m nodes exactly when all of them are in the class. */
  lemma {:induction false} DegNodesAll(g: Graph, c: DegClass, m: nat)
    requires Square(g) && m <= |g.nodes|
    ensures |DegNodes(g, c, m)| == m <==> forall i :: 0 <= i < m ==> InClass(Deg(g, i), c)
  {
    if m > 0 {
      DegNodesAll(g, c, m - 1);
    }
  }

  function ProblemNodes(g: Graph): seq<Node>
    requires Square(g)
  {
    var n := |g.nodes|;
    if |DegNodes(g, Inner, n)| == n then []
    else DegNodes(g, Isolated, n) + (if |DegNodes(g, Branch, n)| > 0 then DegNodes(g, Branch, n) else DegNodes(g, EndNode, n))
  }

  /** With distinct nodes, a node is kept by a degree filter exactly when its own degree passes. */
  lemma DegNodesAt(g: Graph, c: DegClass, i: nat)
    requires Square(g) && DistinctCoords(g.nodes) && i < |g.nodes|
    ensures g.nodes[i] in DegNodes(g, c, |g.nodes|) <==> InClass(Deg(g, i), c)
  {
    forall k | 0 <= k < |g.nodes| && g.nodes[k] == g.nodes[i] ensures k == i {
      CoordsDistinctAt(g.nodes, k, i);
    }
  }

  ghost predicate AllInner(g: Graph)
    requires Square(g)
  {
    forall i :: 0 <= i < |g.nodes| ==> Deg(g, i) == 2
  }

  ghost predicate SomeBranch(g: Graph)
    requires Square(g)
  {
    exists i :: 0 <= i < |g.nodes| && Deg(g, i) > 2
  }

  /**
    * problem_node names a node exactly when not every node has degree 2 and the node has degree
    * 0, or degree above 2 when some node has one, or else degree 1.
    */
  lemma ProblemNodesMembers(g: Graph)
    requires Square(g) && DistinctCoords(g.nodes)
    ensures forall v :: v in ProblemNodes(g) ==> v in g.nodes
    ensures forall i :: 0 <= i < |g.nodes| ==>
      (g.nodes[i] in ProblemNodes(g) <==>
        !AllInner(g) && (Deg(g, i) == 0 || if SomeBranch(g) then Deg(g, i) > 2 else Deg(g, i) == 1))
  {
    var n := |g.nodes|;
    var iso, ends, branch := DegNodes(g, Isolated, n), DegNodes(g, EndNode, n), DegNodes(g, Branch, n);
    DegNodesAll(g, Inner, n);
    assert |DegNodes(g, Inner, n)| == n <==> AllInner(g);
    assert |branch| > 0 <==> SomeBranch(g) by {
      if SomeBranch(g) {
        var b :| 0 <= b < n && Deg(g, b) > 2;
        DegNodesAt(g, Branch, b);
      }
      if |branch| > 0 {
        assert branch[0] in branch;
      }
    }
    forall i | 0 <= i < n
      ensures g.nodes[i] in iso <==> Deg(g, i) == 0
      ensures g.nodes[i] in ends <==> Deg(g, i) == 1
      ensures g.nodes[i] in branch <==> Deg(g, i) > 2
    {
      DegNodesAt(g, Isolated, i);
      DegNodesAt(g, EndNode, i);
      DegNodesAt(g, Branch, i);
    }
  }

  /** problem_node names nothing exactly when every node has degree 2. */
  lemma ProblemNodesEmpty(g: Graph)
    requires Lockstep(g) && DistinctCoords(g.nodes)
    ensures ProblemNodes(g) == [] <==> AllInner(g)
  {
    ProblemNodesMembers(g);
    DegNodesAll(g, Inner, |g.nodes|);
    if !AllInner(g) {
      var i :| 0 <= i < |g.nodes| && Deg(g, i) != 2;
      RowSumCountsOnes(g.adj[i]);
      if SomeBranch(g) {
        var b :| 0 <= b < |g.nodes| && Deg(g, b) > 2;
        assert g.nodes[b] in ProblemNodes(g);
      } else {
        assert g.nodes[i] in ProblemNodes(g);
      }
    }
  }

  // ---------------------------------------------------------------- edge difference and history validity

  /** edge_diff as draw_edge, delete_edge and delete_node recompute it. */
  function EdgeDiff(g: Graph): int
  {
    |g.lines| + 1 - |g.nodes|
  }

  /** Paths equal up to line order have the same edge difference. */
  lemma SameGraphEdgeDiff(g: Graph, h: Graph)
    requires SameGraph(g, h)
    ensures EdgeDiff(g) == EdgeDiff(h)
  {
  }

  /** Every path the canvas can bring back (the live one and both stacks) keeps the lockstep invariant. */
  ghost predicate HistoryValid(h: History)
  {
    Valid(h.current.graph) &&
    (forall k :: 0 <= k < |h.last| ==> Valid(h.last[k].graph)) &&
    (forall k :: 0 <= k < |h.next| ==> Valid(h.next[k].graph))
  }

  lemma UndoValid(h: History)
    requires HistoryValid(h)
    ensures HistoryValid(Undone(h))
  {
    if h.last != [] {
      assert Valid(h.last[|h.last| - 1].graph);
    }
  }

  lemma RedoValid(h: History)
    requires HistoryValid(h)
    ensures HistoryValid(Redone(h))
  {
    if h.next != [] {
      assert Valid(h.next[|h.next| - 1].graph);
    }
  }

  lemma EditedValid(h: History, after: Snapshot)
    requires HistoryValid(h) && Valid(after.graph)
    ensures HistoryValid(Edited(h, after))
  {
  }

  /** Going back to the start only ever brings back valid paths. */
  lemma {:induction false} ToStartValid(h: History)
    requires HistoryValid(h)
    ensures HistoryValid(Rewound(h))
    decreases |h.last|
  {
    if h.last != [] {
      UndoValid(h);
      ToStartValid(Undone(h));
    }
  }

  /** Going forward to the end only ever brings back valid paths. */
  lemma {:induction false} ToEndValid(h: History)
    requires HistoryValid(h)
    ensures HistoryValid(FastForwarded(h))
    decreases |h.next|
  {
    if h.next != [] {
      RedoValid(h);
      ToEndValid(Redone(h));
    }
  }

  // ---------------------------------------------------------------- expandPath as a value

  /** The path with its current end joined to a new end v; on an empty path v is both ends. */
  function Expanded(s: Snapshot, v: Node): Snapshot
    requires Square(s.graph)
    requires |s.graph.nodes| > 0 ==> s.end.Some? && s.end.value in s.graph.nodes
  {
    var grown := GraphModel.AddNode(s.graph, v);
    if |s.graph.nodes| == 0 then Snapshot(grown, Some(v), Some(v))
    else Snapshot(Connect(grown, IndexOf(grown.nodes, s.end.value), IndexOf(grown.nodes, v)), s.start, Some(v))
  }

  /**
    * Growing a valid path at a fresh coordinate keeps it valid, appends the node, joins it to the
    * old end and adds exactly one line, so edge_diff does not move.
    */
  lemma ExpandedValid(s: Snapshot, v: Node)
    requires Valid(s.graph) && v.coord !in Coords(s.graph.nodes)
    requires |s.graph.nodes| > 0 ==> s.end.Some? && s.end.value in s.graph.nodes
    ensures Valid(Expanded(s, v).graph)
    ensures Expanded(s, v).graph.nodes == s.graph.nodes + [v] && Expanded(s, v).end == Some(v)
    ensures |s.graph.nodes| == 0 ==> Expanded(s, v).graph.lines == s.graph.lines && Expanded(s, v).start == Some(v)
    ensures |s.graph.nodes| > 0 ==>
      (var e := Expanded(s, v).graph;
       IsConnected(e, IndexOf(s.graph.nodes, s.end.value), |s.graph.nodes|) &&
       EdgeDiff(e) == EdgeDiff(s.graph))
  {
    var g := s.graph;
    var n := |g.nodes|;
    assert v !in g.nodes;
    AddNodeValid(g, v);
    AddNodeGrows(g, v);
    var grown := GraphModel.AddNode(g, v);
    if n > 0 {
      var i := IndexOf(grown.nodes, s.end.value);
      var j := IndexOf(grown.nodes, v);
      assert grown.nodes[n] == v;
      assert IndexOf(grown.nodes, s.end.value) == IndexOf(g.nodes, s.end.value);
      assert j == n;
      assert !IsConnected(grown, i, j);
      ConnectValid(grown, i, j);
    }
  }

  // ---------------------------------------------------------------- what problem_edge looks for

  /** Some ordering of the lines, without repeats, has no crossing. */
  ghost predicate NonCrossingUpToOrder(ls: seq<Line>)
  {
    exists ms :: SameLineSet(ms, ls) && NoDupLines(ms) && !HasCrossing(ms)
  }

  /** Equal line sets have their endpoints in the same places. */
  lemma EndsInSameLineSet(a: seq<Line>, b: seq<Line>, ps: set<Point>)
    requires SameLineSet(a, b) && EndsIn(b, ps)
    ensures EndsIn(a, ps)
  {
    forall k | 0 <= k < |a| ensures a[k].p1 in ps && a[k].p2 in ps {
      var m :| 0 <= m < |b| && SameLine(b[m], a[k]);
    }
  }

  /**
    * With no three node coordinates on a line, the crossing test does not depend on line order,
    * so "some ordering has no crossing" is just "no crossing".
    */
  lemma NonCrossingInGeneralPosition(ls: seq<Line>, ps: set<Point>)
    requires NoDupLines(ls) && GeneralPosition(ps) && EndsIn(ls, ps)
    ensures NonCrossingUpToOrder(ls) <==> !HasCrossing(ls)
  {
    if NonCrossingUpToOrder(ls) {
      var ms :| SameLineSet(ms, ls) && NoDupLines(ms) && !HasCrossing(ms);
      EndsInSameLineSet(ms, ls, ps);
      HasCrossingSameLineSet(ms, ls, ps);
    }
    if !HasCrossing(ls) {
      forall k | 0 <= k < |ls| ensures LineIn(ls[k], ls) { LineInSelf(ls, k); }
      assert SameLineSet(ls, ls);
    }
  }

  /** Taking out the present line between positions i and j leaves a non-crossing spanning path. */
  ghost predicate RemovalFixesAt(g: Graph, i: nat, j: nat)
    requires Square(g) && i < |g.nodes| && j < |g.nodes|
  {
    IsConnected(g, i, j) && SpanningSpec(Disconnect(g, i, j)) && NonCrossingUpToOrder(Disconnect(g, i, j).lines)
  }

  /** l is a present line whose removal leaves a non-crossing spanning path. */
  ghost predicate RemovalFixes(g: Graph, l: Line)
    requires Square(g)
  {
    exists i, j {:trigger RemovalFixesAt(g, i, j)} ::
      0 <= i < |g.nodes| && 0 <= j < |g.nodes| && RemovalFixesAt(g, i, j) && l == LineBetween(g, i, j)
  }

  /** An absent line whose addition gives a non-crossing spanning path, between positions i and j. */
  ghost predicate AddFixesAt(g: Graph, i: nat, j: nat)
    requires Square(g) && i < |g.nodes| && j < |g.nodes|
  {
    !IsConnected(g, i, j) && SpanningSpec(Connect(g, i, j)) && !HasCrossing(Connect(g, i, j).lines)
  }

  /** l is an absent line whose addition gives a non-crossing spanning path. */
  ghost predicate AdditionFixes(g: Graph, l: Line)
    requires Square(g)
  {
    exists i, j {:trigger AddFixesAt(g, i, j)} ::
      0 <= i < |g.nodes| && 0 <= j < |g.nodes| && AddFixesAt(g, i, j) && l == LineBetween(g, i, j)
  }

  /**
    * A removal found on a reordered copy of g (same nodes, same matrix, same line set) is a
    * removal that fixes g itself.
    */
  lemma RemovalFound(g: Graph, cur: Graph, i: nat, j: nat)
    requires Valid(g) && Valid(cur) && SameGraph(cur, g) && i < |g.nodes| && j < |g.nodes|
    requires IsConnected(g, i, j)
    requires SpanningSpec(Disconnect(cur, i, j)) && !HasCrossing(Disconnect(cur, i, j).lines)
    ensures RemovalFixes(g, LineBetween(g, i, j))
  {
    DisconnectSameGraph(cur, g, i, j);
    DisconnectValid(cur, i, j);
    SpanningSpecFrame(Disconnect(cur, i, j), Disconnect(g, i, j));
    assert NonCrossingUpToOrder(Disconnect(g, i, j).lines);
    assert RemovalFixesAt(g, i, j);
  }

  /** [w for w in nodes if not w in adj(v)] over the first k nodes, v at position i. */
  function Unlinked(g: Graph, i: nat, k: nat): (r: seq<Node>)
    requires Square(g) && i < |g.nodes| && k <= |g.nodes|
    ensures forall w :: w in r <==> w in g.nodes[..k] && w !in AdjNodes(g, i)
  {
    if k == 0 then []
    else
      assert g.nodes[..k] == g.nodes[..k - 1] + [g.nodes[k - 1]];
      Unlinked(g, i, k - 1) + (if g.nodes[k - 1] !in AdjNodes(g, i) then [g.nodes[k - 1]] else [])
  }

  /** With distinct nodes, the node at position j is offered for addition exactly when it is not joined to i. */
  lemma UnlinkedAt(g: Graph, i: nat, j: nat)
    requires Square(g) && DistinctCoords(g.nodes) && i < |g.nodes| && j < |g.nodes|
    ensures g.nodes[j] in Unlinked(g, i, |g.nodes|) <==> g.adj[i][j] != 1
  {
    AdjNodesAt(g, i, j);
    assert g.nodes[..|g.nodes|] == g.nodes;
  }

  // ---------------------------------------------------------------- delete_node as a value

  /** The disconnect loop of delete_node: disconnect position i from each node of ws in turn. */
  function Isolate(g: Graph, i: nat, ws: seq<Node>): (r: Graph)
    requires Valid(g) && i < |g.nodes| && forall w :: w in ws ==> w in g.nodes
    ensures Valid(r) && r.nodes == g.nodes
  {
    if ws == [] then g
    else
      var prev := Isolate(g, i, ws[..|ws| - 1]);
      DisconnectValid(prev, i, IndexOf(g.nodes, ws[|ws| - 1]));
      Disconnect(prev, i, IndexOf(g.nodes, ws[|ws| - 1]))
  }

  /** After the loop, the pairs (i, w) for w in ws are cleared and every other entry is kept. */
  lemma {:induction false} IsolateEntries(g: Graph, i: nat, ws: seq<Node>)
    requires Valid(g) && i < |g.nodes| && forall w :: w in ws ==> w in g.nodes
    ensures forall a, b :: 0 <= a < |g.nodes| && 0 <= b < |g.nodes| ==>
      Isolate(g, i, ws).adj[a][b] ==
        if (a == i && g.nodes[b] in ws) || (b == i && g.nodes[a] in ws) then 0 else g.adj[a][b]
  {
    if ws != [] {
      var front := ws[..|ws| - 1];
      var last := ws[|ws| - 1];
      assert ws == front + [last];
      IsolateEntries(g, i, front);
      forall a, b | 0 <= a < |g.nodes| && 0 <= b < |g.nodes|
        ensures Isolate(g, i, ws).adj[a][b] ==
          if (a == i && g.nodes[b] in ws) || (b == i && g.nodes[a] in ws) then 0 else g.adj[a][b]
      {
        IsolateEntry(g, i, ws, a, b);
      }
    }
  }

  /** One more disconnect of the loop, at one entry: it is cleared when it pairs i with the last node. */
  lemma IsolateEntry(g: Graph, i: nat, ws: seq<Node>, a: nat, b: nat)
    requires Valid(g) && i < |g.nodes| && (forall w :: w in ws ==> w in g.nodes) && ws != []
    requires a < |g.nodes| && b < |g.nodes|
    requires var front := ws[..|ws| - 1];
      Isolate(g, i, front).adj[a][b] ==
        if (a == i && g.nodes[b] in front) || (b == i && g.nodes[a] in front) then 0 else g.adj[a][b]
    ensures Isolate(g, i, ws).adj[a][b] ==
      if (a == i && g.nodes[b] in ws) || (b == i && g.nodes[a] in ws) then 0 else g.adj[a][b]
  {
    var front, last := ws[..|ws| - 1], ws[|ws| - 1];
    InFrontOrLast(ws, g.nodes[a]);
    InFrontOrLast(ws, g.nodes[b]);
    var prev := Isolate(g, i, front);
    var j := IndexOf(g.nodes, last);
    assert Isolate(g, i, ws).adj == SetSym(prev.adj, i, j, 0);
    SetSymAt(prev.adj, i, j, 0, a, b);
    CoordsDistinctAt(g.nodes, b, j);
    CoordsDistinctAt(g.nodes, a, j);
    assert g.nodes[b] in ws <==> g.nodes[b] in front || b == j;
    assert g.nodes[a] in ws <==> g.nodes[a] in front || a == j;
  }

  lemma InFrontOrLast<T>(s: seq<T>, x: T)
    requires s != []
    ensures x in s <==> x in s[..|s| - 1] || x == s[|s| - 1]
  {
    assert s == s[..|s| - 1] + [s[|s| - 1]];
  }

  /** delete_node on a valid path at position i, as a value. */
  function DeleteNodeAt(g: Graph, i: nat): Graph
    requires Valid(g) && i < |g.nodes|
  {
    var ws := AdjNodes(g, i);
    RemoveNode(Isolate(g, i, ws), i)
  }

  /**
    * delete_node removes the node and every line at it: the result is valid, the node list loses
    * exactly position i, and every other matrix entry keeps its value.
    */
  lemma DeleteNodeSpec(g: Graph, i: nat)
    requires Valid(g) && i < |g.nodes|
    ensures var h := DeleteNodeAt(g, i);
      Valid(h) && h.nodes == g.nodes[..i] + g.nodes[i + 1..] &&
      forall a, b :: 0 <= a < |h.nodes| && 0 <= b < |h.nodes| ==> h.adj[a][b] == g.adj[Skip(a, i)][Skip(b, i)]
  {
    DeleteNodeValid(g, i);
    DeleteNodeEntries(g, i);
  }

  lemma DeleteNodeValid(g: Graph, i: nat)
    requires Valid(g) && i < |g.nodes|
    ensures Valid(DeleteNodeAt(g, i)) && DeleteNodeAt(g, i).nodes == g.nodes[..i] + g.nodes[i + 1..]
  {
    var ws := AdjNodes(g, i);
    var iso := Isolate(g, i, ws);
    IsolateEntries(g, i, ws);
    forall j | 0 <= j < |g.nodes| ensures iso.adj[i][j] == 0 {
      AdjNodesAt(g, i, j);
    }
    RemoveNodeValid(iso, i);
  }

  lemma DeleteNodeEntries(g: Graph, i: nat)
    requires Valid(g) && i < |g.nodes|
    ensures var h := DeleteNodeAt(g, i);
      |h.nodes| == |g.nodes| - 1 && Square(h) &&
      forall a, b :: 0 <= a < |h.nodes| && 0 <= b < |h.nodes| ==> h.adj[a][b] == g.adj[Skip(a, i)][Skip(b, i)]
  {
    var ws := AdjNodes(g, i);
    var iso := Isolate(g, i, ws);
    IsolateEntries(g, i, ws);
    RemoveNodeKeeps(iso, i);
  }

  // ---------------------------------------------------------------- problem_edge, step by step

  /**
    * One tentative removal of problem_edge on a reordered copy of g: disconnect, test, connect
    * back. The line goes to the end of the list, so the path keeps g's matrix and line set.
    */
  method TryRemoval(p: Path, g: Graph, v: Node, w: Node) returns (fixes: bool)
    requires p.Valid() && Valid(g) && SameGraph(p.Model(), g) && v in g.nodes && w in g.nodes
    requires IsConnected(g, IndexOf(g.nodes, v), IndexOf(g.nodes, w))
    modifies p
    ensures p.Valid() && SameGraph(p.Model(), g)
    ensures fixes ==> RemovalFixes(g, Line(v.coord, w.coord))
  {
    var cur := p.Model();
    var i, j := IndexOf(p.nodes, v), IndexOf(p.nodes, w);
    DisconnectValid(cur, i, j);
    p.Disconnect(v, w);
    var crossing := p.Crosses();
    fixes := false;
    if |crossing| == 0 {
      fixes := p.IsSpanningPath();
    }
    if fixes {
      RemovalFound(g, cur, i, j);
    }
    ConnectValid(Disconnect(cur, i, j), i, j);
    p.Connect(v, w);
    DisconnectConnectRoundTrip(cur, i, j);
    SameGraphTrans(p.Model(), cur, g);
  }

  /** One tentative addition of problem_edge: connect, test, disconnect. The path comes back exactly. */
  method TryAddition(p: Path, v: Node, w: Node) returns (fixes: bool)
    requires p.Valid() && v in p.nodes && w in p.nodes
    requires !IsConnected(p.Model(), IndexOf(p.nodes, v), IndexOf(p.nodes, w))
    modifies p
    ensures p.Model() == old(p.Model())
    ensures fixes <==> AddFixesAt(old(p.Model()), IndexOf(old(p.nodes), v), IndexOf(old(p.nodes), w))
  {
    var g := p.Model();
    var i, j := IndexOf(p.nodes, v), IndexOf(p.nodes, w);
    ConnectValid(g, i, j);
    p.Connect(v, w);
    var crossing := p.Crosses();
    fixes := false;
    if |crossing| == 0 {
      fixes := p.IsSpanningPath();
    }
    p.Disconnect(v, w);
    ConnectDisconnectRoundTrip(g, i, j);
  }

  /** Every reported line is one whose removal fixes g. */
  ghost predicate AllRemovalsFix(g: Graph, r: seq<Line>)
    requires Square(g)
  {
    forall k :: 0 <= k < |r| ==> RemovalFixes(g, r[k])
  }

  lemma AllRemovalsFixAppend(g: Graph, r: seq<Line>, s: seq<Line>)
    requires Square(g) && AllRemovalsFix(g, r) && AllRemovalsFix(g, s)
    ensures AllRemovalsFix(g, r + s)
  {
    forall k | 0 <= k < |r + s| ensures RemovalFixes(g, (r + s)[k]) {
      if k >= |r| { assert (r + s)[k] == s[k - |r|]; }
    }
  }

  lemma AllRemovalsFixSnoc(g: Graph, r: seq<Line>, l: Line)
    requires Square(g) && AllRemovalsFix(g, r) && RemovalFixes(g, l)
    ensures AllRemovalsFix(g, r + [l])
  {
    forall k | 0 <= k < |r + [l]| ensures RemovalFixes(g, (r + [l])[k]) {
      if k == |r| { assert (r + [l])[k] == l; } else { assert (r + [l])[k] == r[k]; }
    }
  }

  /** The inner loop of the edge_diff == 1 branch: try each neighbour of v in turn. */
  method RemovalsAt(p: Path, g: Graph, v: Node) returns (found: seq<Line>)
    requires p.Valid() && Valid(g) && SameGraph(p.Model(), g) && v in g.nodes
    modifies p
    ensures p.Valid() && SameGraph(p.Model(), g)
    ensures AllRemovalsFix(g, found)
  {
    var i := IndexOf(g.nodes, v);
    var ws := AdjNodes(g, i);
    found := [];
    var b := 0;
    while b < |ws|
      invariant b <= |ws| && p.Valid() && SameGraph(p.Model(), g)
      invariant AllRemovalsFix(g, found)
    {
      var w := ws[b];
      AdjNodesIn(g, i, w);
      var fixes := TryRemoval(p, g, v, w);
      if fixes {
        AllRemovalsFixSnoc(g, found, Line(v.coord, w.coord));
        found := found + [Line(v.coord, w.coord)];
      }
      b := b + 1;
    }
  }

  /**
    * The edge_diff == 1 branch of problem_edge: for every node of degree 2 or more and every
    * neighbour, report the line if taking it out leaves a non-crossing spanning path.
    */
  method RemovalCandidates(p: Path) returns (r: seq<Line>)
    requires p.Valid()
    modifies p
    ensures p.Valid() && SameGraph(p.Model(), old(p.Model()))
    ensures AllRemovalsFix(old(p.Model()), r)
  {
    var g := p.Model();
    var n := |p.nodes|;
    var vs := DegNodes(g, Inner, n) + DegNodes(g, Branch, n);
    r := [];
    var a := 0;
    while a < |vs|
      invariant a <= |vs| && p.Valid() && SameGraph(p.Model(), g)
      invariant AllRemovalsFix(g, r)
    {
      assert vs[a] in DegNodes(g, Inner, n) || vs[a] in DegNodes(g, Branch, n);
      var found := RemovalsAt(p, g, vs[a]);
      AllRemovalsFixAppend(g, r, found);
      r := r + found;
      a := a + 1;
    }
  }

  /** Every reported line is one whose addition fixes g. */
  ghost predicate AllAdditionsFix(g: Graph, r: seq<Line>)
    requires Square(g)
  {
    forall k :: 0 <= k < |r| ==> AdditionFixes(g, r[k])
  }

  lemma AllAdditionsFixSnoc(g: Graph, r: seq<Line>, l: Line)
    requires Square(g) && AllAdditionsFix(g, r) && AdditionFixes(g, l)
    ensures AllAdditionsFix(g, r + [l])
  {
    forall k | 0 <= k < |r + [l]| ensures AdditionFixes(g, (r + [l])[k]) {
      if k == |r| { assert (r + [l])[k] == l; } else { assert (r + [l])[k] == r[k]; }
    }
  }

  lemma AllAdditionsFixAppend(g: Graph, r: seq<Line>, s: seq<Line>)
    requires Square(g) && AllAdditionsFix(g, r) && AllAdditionsFix(g, s)
    ensures AllAdditionsFix(g, r + s)
  {
    forall k | 0 <= k < |r + s| ensures AdditionFixes(g, (r + s)[k]) {
      if k >= |r| { assert (r + s)[k] == s[k - |r|]; } else { assert (r + s)[k] == r[k]; }
    }
  }

  /** Every fixing addition from position i towards a node of ws is reported in r. */
  ghost predicate AdditionsCovered(g: Graph, i: nat, ws: seq<Node>, r: seq<Line>)
    requires Square(g) && i < |g.nodes|
  {
    forall j {:trigger AddFixesAt(g, i, j)} ::
      0 <= j < |g.nodes| && g.nodes[j] in ws && AddFixesAt(g, i, j) ==> LineBetween(g, i, j) in r
  }

  /** Trying w next, and reporting its line when it fixes g, covers one more node. */
  lemma CoveredExtend(g: Graph, i: nat, ws: seq<Node>, w: Node, r: seq<Line>, r': seq<Line>)
    requires Valid(g) && i < |g.nodes| && w in g.nodes && AdditionsCovered(g, i, ws, r)
    requires forall x :: x in r ==> x in r'
    requires AddFixesAt(g, i, IndexOf(g.nodes, w)) ==> LineBetween(g, i, IndexOf(g.nodes, w)) in r'
    ensures AdditionsCovered(g, i, ws + [w], r')
  {
    forall j | 0 <= j < |g.nodes| && g.nodes[j] in ws + [w] && AddFixesAt(g, i, j)
      ensures LineBetween(g, i, j) in r'
    {
      if g.nodes[j] !in ws {
        IndexOfAt(g.nodes, j);
      }
    }
  }

  /** Every node among the first positions of vs has all its fixing additions reported in r. */
  ghost predicate AllCovered(g: Graph, vs: seq<Node>, r: seq<Line>)
    requires Square(g)
  {
    forall i {:trigger AdditionsCovered(g, i, g.nodes, r)} ::
      0 <= i < |g.nodes| && g.nodes[i] in vs ==> AdditionsCovered(g, i, g.nodes, r)
  }

  lemma AllCoveredExtend(g: Graph, vs: seq<Node>, v: Node, r: seq<Line>, found: seq<Line>)
    requires Valid(g) && v in g.nodes && AllCovered(g, vs, r)
    requires AdditionsCovered(g, IndexOf(g.nodes, v), g.nodes, found)
    ensures AllCovered(g, vs + [v], r + found)
  {
    forall i | 0 <= i < |g.nodes| && g.nodes[i] in vs + [v] ensures AdditionsCovered(g, i, g.nodes, r + found) {
      if g.nodes[i] in vs {
        assert AdditionsCovered(g, i, g.nodes, r);
      } else {
        IndexOfAt(g.nodes, i);
      }
    }
  }

  /** The inner loop of the edge_diff == -1 branch: try each node not joined to v in turn. */
  method AdditionsAt(p: Path, g: Graph, v: Node) returns (found: seq<Line>)
    requires p.Valid() && p.Model() == g && v in g.nodes
    modifies p
    ensures p.Model() == g
    ensures AllAdditionsFix(g, found)
    ensures AdditionsCovered(g, IndexOf(g.nodes, v), g.nodes, found)
  {
    var i := IndexOf(g.nodes, v);
    var ws := Unlinked(g, i, |g.nodes|);
    found := [];
    var b := 0;
    while b < |ws|
      invariant b <= |ws| && p.Model() == g
      invariant AllAdditionsFix(g, found)
      invariant AdditionsCovered(g, i, ws[..b], found)
    {
      var w := ws[b];
      assert g.nodes[..|g.nodes|] == g.nodes;
      var j := IndexOf(g.nodes, w);
      AdjNodesAt(g, i, j);
      var fixes := TryAddition(p, v, w);
      ghost var before := found;
      if fixes {
        AllAdditionsFixSnoc(g, found, Line(v.coord, w.coord));
        found := found + [Line(v.coord, w.coord)];
      }
      PrefixStep(ws, b);
      CoveredExtend(g, i, ws[..b], w, before, found);
      b := b + 1;
    }
    assert ws[..|ws|] == ws;
    CoveredUnlinked(g, i, found);
  }

  /** Only nodes not joined to i can give a fixing addition, so covering them covers every node. */
  lemma CoveredUnlinked(g: Graph, i: nat, r: seq<Line>)
    requires Valid(g) && i < |g.nodes| && AdditionsCovered(g, i, Unlinked(g, i, |g.nodes|), r)
    ensures AdditionsCovered(g, i, g.nodes, r)
  {
    forall j | 0 <= j < |g.nodes| && g.nodes[j] in g.nodes && AddFixesAt(g, i, j)
      ensures LineBetween(g, i, j) in r
    {
      UnlinkedAt(g, i, j);
    }
  }

  /**
    * The edge_diff == -1 branch of problem_edge: for every node of degree 1 or 2 and every node not
    * joined to it, report the line if putting it in gives a non-crossing spanning path.
    */
  method AdditionCandidates(p: Path) returns (r: seq<Line>)
    requires p.Valid()
    modifies p
    ensures p.Model() == old(p.Model())
    ensures AllAdditionsFix(old(p.Model()), r)
    ensures forall i :: 0 <= i < |p.nodes| && (Deg(p.Model(), i) == 1 || Deg(p.Model(), i) == 2) ==>
      AdditionsCovered(p.Model(), i, p.nodes, r)
  {
    var g := p.Model();
    var n := |p.nodes|;
    var vs := DegNodes(g, Inner, n) + DegNodes(g, EndNode, n);
    r := [];
    var a := 0;
    while a < |vs|
      invariant a <= |vs| && p.Model() == g
      invariant AllAdditionsFix(g, r)
      invariant AllCovered(g, vs[..a], r)
    {
      var v := vs[a];
      assert v in DegNodes(g, Inner, n) || v in DegNodes(g, EndNode, n);
      var found := AdditionsAt(p, g, v);
      AllAdditionsFixAppend(g, r, found);
      PrefixStep(vs, a);
      AllCoveredExtend(g, vs[..a], v, r, found);
      r := r + found;
      a := a + 1;
    }
    assert vs[..|vs|] == vs;
    CoveredByDegree(g, r);
  }

  /** The nodes tried are exactly those of degree 1 or 2. */
  lemma CoveredByDegree(g: Graph, r: seq<Line>)
    requires Valid(g)
    requires AllCovered(g, DegNodes(g, Inner, |g.nodes|) + DegNodes(g, EndNode, |g.nodes|), r)
    ensures forall i :: 0 <= i < |g.nodes| && (Deg(g, i) == 1 || Deg(g, i) == 2) ==>
      AdditionsCovered(g, i, g.nodes, r)
  {
    forall i | 0 <= i < |g.nodes| && (Deg(g, i) == 1 || Deg(g, i) == 2)
      ensures AdditionsCovered(g, i, g.nodes, r)
    {
      DegNodesAt(g, Inner, i);
      DegNodesAt(g, EndNode, i);
    }
  }

  // ---------------------------------------------------------------- what identify_problems records

  /** A path FLIP mode accepts: a spanning path without crossing lines. */
  ghost predicate Healthy(g: Graph)
    requires Square(g)
  {
    !HasCrossing(g.lines) && SpanningSpec(g)
  }

  /** crosses(): every reported line crosses another line of ls, and every such line is reported. */
  ghost predicate CrossingReport(ls: seq<Line>, r: seq<Line>)
  {
    (forall k :: 0 <= k < |r| ==> exists a :: 0 <= a < |ls| && CrossesOther(ls, a) && SameLine(ls[a], r[k])) &&
    (forall a :: 0 <= a < |ls| && CrossesOther(ls, a) ==> LineIn(ls[a], r)) &&
    (|r| == 0 <==> !HasCrossing(ls))
  }

  /**
    * What problem_edge reports for the path g at edge difference d: at 1 only lines whose removal
    * fixes the path, at -1 exactly the additions that fix it from a degree-1 or degree-2 node, at 0
    * the crossing lines, and otherwise nothing.
    */
  ghost predicate EdgeReport(g: Graph, d: int, r: seq<Line>)
    requires Square(g)
  {
    (d == 1 ==> AllRemovalsFix(g, r)) &&
    (d == -1 ==>
      AllAdditionsFix(g, r) &&
      forall i :: 0 <= i < |g.nodes| && (Deg(g, i) == 1 || Deg(g, i) == 2) ==> AdditionsCovered(g, i, g.nodes, r)) &&
    (d == 0 ==> CrossingReport(g.lines, r)) &&
    (d < -1 || d > 1 ==> r == [])
  }

  /** The report of each branch of problem_edge, one edge difference at a time. */
  lemma EdgeReportRemovals(g: Graph, r: seq<Line>)
    requires Square(g) && AllRemovalsFix(g, r)
    ensures EdgeReport(g, 1, r)
  {
  }

  lemma EdgeReportAdditions(g: Graph, r: seq<Line>)
    requires Square(g) && AllAdditionsFix(g, r)
    requires forall i :: 0 <= i < |g.nodes| && (Deg(g, i) == 1 || Deg(g, i) == 2) ==> AdditionsCovered(g, i, g.nodes, r)
    ensures EdgeReport(g, -1, r)
  {
  }

  lemma EdgeReportCrossings(g: Graph, r: seq<Line>)
    requires Square(g) && CrossingReport(g.lines, r)
    ensures EdgeReport(g, 0, r)
  {
  }

  /**
    * identify_problems: nothing in EDIT mode or on a healthy path; otherwise the problem nodes and
    * the edge report replace bad_node and bad_edge.
    */
  ghost predicate Diagnosis(m: Mode, g: Graph, d: int, node0: seq<Node>, edge0: seq<Line>, node: seq<Node>, edge: seq<Line>)
    requires Square(g)
  {
    if m == Edit || Healthy(g) then node == node0 && edge == edge0
    else node == ProblemNodes(g) && EdgeReport(g, d, edge)
  }

  /** The edge_diff == 0 branch of problem_edge: the crossing lines, [] when there are none. */
  method CrossingLines(p: Path) returns (r: seq<Line>)
    ensures CrossingReport(p.lines, r)
  {
    r := p.Crosses();
  }

  /** problem_edge on a path at edge difference d; the tentative edits leave the same graph behind. */
  method ProblemEdges(p: Path, d: int) returns (r: seq<Line>)
    requires p.Valid()
    modifies p
    ensures p.Valid() && SameGraph(p.Model(), old(p.Model()))
    ensures d != 1 ==> p.Model() == old(p.Model())
    ensures EdgeReport(old(p.Model()), d, r)
  {
    ghost var g := p.Model();
    if d == 1 {
      r := RemovalCandidates(p);
      EdgeReportRemovals(g, r);
    } else if d == -1 {
      r := AdditionCandidates(p);
      EdgeReportAdditions(g, r);
      SameGraphRefl(g);
    } else if d == 0 {
      r := CrossingLines(p);
      EdgeReportCrossings(g, r);
      SameGraphRefl(g);
    } else {
      r := [];
      SameGraphRefl(g);
    }
  }

  // ---------------------------------------------------------------- the canvas

  /**
    * `not crosses() and is_spanning_path()`: the test FLIP mode applies before drawing a node and
    * before marking problems. Passing it records the two degree-1 nodes as start and end.
    */
  method FlipReady(p: Path) returns (ok: bool)
    requires p.Valid()
    modifies p
    ensures p.Model() == old(p.Model()) && p.Valid()
    ensures ok <==> !HasCrossing(p.lines) && SpanningSpec(p.Model())
    ensures ok ==> p.start.Some? && p.start.value in p.nodes && p.end.Some? && p.end.value in p.nodes
    ensures HasCrossing(p.lines) ==> p.start == old(p.start) && p.end == old(p.end)
  {
    var crossing := p.Crosses();
    if |crossing| > 0 {
      return false;
    }
    ok := p.IsSpanningPath();
    if ok {
      DegreeShapeDegrees(p.Model());
    }
  }

  /** The loop of delete_node: disconnect v from each of its neighbours in turn. */
  method Unlink(p: Path, v: Node)
    requires p.Valid() && v in p.nodes
    modifies p
    ensures p.Model() == Isolate(old(p.Model()), IndexOf(old(p.nodes), v), AdjNodes(old(p.Model()), IndexOf(old(p.nodes), v)))
    ensures p.start == old(p.start) && p.end == old(p.end)
  {
    var g := p.Model();
    var i := IndexOf(p.nodes, v);
    var ws := p.Adj(v);
    forall w | w in ws ensures w in g.nodes { AdjNodesIn(g, i, w); }
    var k := 0;
    while k < |ws|
      invariant k <= |ws| && p.Model() == Isolate(g, i, ws[..k])
      invariant p.start == old(p.start) && p.end == old(p.end)
    {
      AdjNodesIn(g, i, ws[k]);
      PrefixStep(ws, k);
      p.Disconnect(v, ws[k]);
      k := k + 1;
    }
    assert ws[..|ws|] == ws;
  }

  class Canvas {
    var graph: Path
    var lastGraphs: seq<Snapshot>
    var nextGraphs: seq<Snapshot>
    var layers: seq<Graph>
    var mode: Mode
    /** i_: the name the next drawn node gets. */
    var counter: int
    var edgeDiff: int
    var badNode: seq<Node>
    var badEdge: seq<Line>

    /** The live path and both stacks, as values. */
    function Hist(): History
      reads this, graph
    {
      History(graph.Snap(), lastGraphs, nextGraphs)
    }

    ghost predicate Valid()
      reads this, graph
    {
      HistoryValid(Hist())
    }

    /** A fresh canvas: an empty path, empty history, EDIT mode. */
    constructor ()
      ensures Valid() && fresh(graph)
      ensures Hist() == History(Snapshot(Graph([], [], []), None, None), [], [])
      ensures layers == [] && mode == Edit && counter == 0 && edgeDiff == 0 && badNode == [] && badEdge == []
    {
      graph := new Path([], None, None);
      lastGraphs, nextGraphs, layers := [], [], [];
      mode, counter, edgeDiff := Edit, 0, 0;
      badNode, badEdge := [], [];
      EmptyGraphValid([]);
    }

    /**
      * draw_node: in EDIT mode always, in FLIP mode only on a non-crossing spanning path, push a
      * copy, drop the redo stack and the layers, grow the path at its end by a node named i_, and
      * set i_ past the largest name. edge_diff is not recomputed. In EDIT mode an end that is no
      * longer on the path (delete_node leaves start and end alone) makes connect raise after the
      * copy is pushed and the new node is added: the node stays, unjoined, and i_ stays.
      */
    method DrawNode(p: Point) returns (outcome: Drawing)
      requires Valid() && p !in Coords(graph.nodes)
      modifies this, graph
      ensures Valid() && graph == old(graph) && mode == old(mode) && edgeDiff == old(edgeDiff)
      ensures badNode == old(badNode) && badEdge == old(badEdge)
      ensures outcome == Refused <==> old(mode) == Flip && (HasCrossing(old(graph.lines)) || !SpanningSpec(old(graph.Model())))
      ensures outcome == Raised <==> old(mode) == Edit && StaleEnd(old(graph.Snap()))
      ensures outcome == Drawn ==>
        |lastGraphs| == |old(lastGraphs)| + 1 && lastGraphs[..|old(lastGraphs)|] == old(lastGraphs) &&
        (var pushed := lastGraphs[|old(lastGraphs)|];
         pushed.graph == old(graph.Model()) && GraphModel.Valid(pushed.graph) && nextGraphs == [] && layers == [] &&
         (|pushed.graph.nodes| > 0 ==> pushed.end.Some? && pushed.end.value in pushed.graph.nodes) &&
         graph.Snap() == Expanded(pushed, Node(old(counter), p)) &&
         counter == MaxName(graph.nodes) + 1)
      ensures outcome == Drawn && old(mode) == Edit ==> Hist() == Edited(old(Hist()), graph.Snap())
      ensures outcome == Drawn && old(mode) == Flip ==> EdgeDiff(graph.Model()) == EdgeDiff(old(graph.Model()))
      ensures outcome == Raised ==>
        Hist() == Edited(old(Hist()), Snapshot(GraphModel.AddNode(old(graph.Model()), Node(old(counter), p)), old(graph.start), old(graph.end))) &&
        graph.nodes == old(graph.nodes) + [Node(old(counter), p)] && graph.lines == old(graph.lines) &&
        layers == [] && counter == old(counter)
      ensures outcome == Refused ==>
        graph.Model() == old(graph.Model()) && lastGraphs == old(lastGraphs) && nextGraphs == old(nextGraphs) &&
        layers == old(layers) && counter == old(counter)
    {
      if mode == Flip {
        var ready := FlipReady(graph);
        if !ready {
          return Refused;
        }
      } else if StaleEnd(graph.Snap()) {
        var v := Node(counter, p);
        var g := graph.Model();
        AddNodeValid(g, v);
        AddNodeGrows(g, v);
        Push();
        layers := [];
        graph.AddNode(v);
        EditedValid(old(Hist()), graph.Snap());
        return Raised;
      }
      Grow(p);
      outcome := Drawn;
    }

    /**
      * The accepting half of draw_node: push a copy of the path, drop the redo stack and the
      * layers, grow the path at its end by a node named i_, and move i_ past the largest name.
      */
    method Grow(p: Point)
      requires Valid() && p !in Coords(graph.nodes)
      requires |graph.nodes| > 0 ==> graph.end.Some? && graph.end.value in graph.nodes
      modifies this, graph
      ensures Valid() && graph == old(graph) && mode == old(mode) && edgeDiff == old(edgeDiff)
      ensures badNode == old(badNode) && badEdge == old(badEdge) && layers == []
      ensures Hist() == Edited(old(Hist()), Expanded(old(graph.Snap()), Node(old(counter), p)))
      ensures |graph.nodes| > 0 && counter == MaxName(graph.nodes) + 1
      ensures |old(graph.nodes)| > 0 ==> EdgeDiff(graph.Model()) == EdgeDiff(old(graph.Model()))
    {
      var v := Node(counter, p);
      var snap := graph.Snap();
      ExpandedValid(snap, v);
      Push();
      layers := [];
      graph.ExpandPath(v);
      assert graph.Snap() == Expanded(snap, v);
      EditedValid(old(Hist()), graph.Snap());
      var ns := graph.nodes;
      counter := MaxName(ns) + 1;
    }

    /** The first steps of every edit: a copy of the live path onto the undo stack, the redo stack dropped. */
    method Push()
      requires Valid()
      modifies this
      ensures Valid() && Hist() == Edited(old(Hist()), graph.Snap())
      ensures graph == old(graph) && mode == old(mode) && layers == old(layers) && counter == old(counter)
      ensures edgeDiff == old(edgeDiff) && badNode == old(badNode) && badEdge == old(badEdge)
    {
      EditedValid(Hist(), graph.Snap());
      lastGraphs := lastGraphs + [graph.Snap()];
      nextGraphs := [];
    }

    /** The last step of an edit that may change the number of lines: edge_diff recomputed. */
    method Recount()
      modifies this
      ensures edgeDiff == EdgeDiff(graph.Model())
      ensures graph == old(graph) && lastGraphs == old(lastGraphs) && nextGraphs == old(nextGraphs)
      ensures mode == old(mode) && layers == old(layers) && counter == old(counter)
      ensures badNode == old(badNode) && badEdge == old(badEdge)
    {
      edgeDiff := EdgeDiff(graph.Model());
    }

    /**
      * draw_edge: in EDIT mode always, in FLIP mode only while edge_diff < 1, push a copy, drop the
      * redo stack, connect the two nodes unless they already are, and recompute edge_diff.
      */
    method DrawEdge(u: Node, w: Node) returns (accepted: bool)
      requires Valid() && u in graph.nodes && w in graph.nodes
      modifies this, graph
      ensures Valid() && graph == old(graph) && mode == old(mode) && layers == old(layers) && counter == old(counter)
      ensures badNode == old(badNode) && badEdge == old(badEdge)
      ensures accepted <==> mode == Edit || old(edgeDiff) < 1
      ensures accepted ==>
        (var g, i, j := old(graph.Model()), IndexOf(old(graph.nodes), u), IndexOf(old(graph.nodes), w);
         graph.Model() == (if IsConnected(g, i, j) then g else Connect(g, i, j)) &&
         graph.start == old(graph.start) && graph.end == old(graph.end) &&
         Hist() == Edited(old(Hist()), graph.Snap()) && edgeDiff == EdgeDiff(graph.Model()))
      ensures !accepted ==> Hist() == old(Hist()) && edgeDiff == old(edgeDiff)
    {
      if mode == Flip && edgeDiff >= 1 {
        return false;
      }
      var g := graph.Model();
      Push();
      if !graph.IsConnected(u, w) {
        ConnectValid(g, IndexOf(g.nodes, u), IndexOf(g.nodes, w));
        graph.Connect(u, w);
      }
      Recount();
      accepted := true;
    }

    /**
      * delete_edge: in EDIT mode always, in FLIP mode only while edge_diff > -1, push a copy, drop
      * the redo stack, disconnect the two nodes if they are joined, and recompute edge_diff.
      */
    method DeleteEdge(u: Node, w: Node) returns (accepted: bool)
      requires Valid() && u in graph.nodes && w in graph.nodes
      modifies this, graph
      ensures Valid() && graph == old(graph) && mode == old(mode) && layers == old(layers) && counter == old(counter)
      ensures badNode == old(badNode) && badEdge == old(badEdge)
      ensures accepted <==> mode == Edit || old(edgeDiff) > -1
      ensures accepted ==>
        (var g, i, j := old(graph.Model()), IndexOf(old(graph.nodes), u), IndexOf(old(graph.nodes), w);
         graph.Model() == (if IsConnected(g, i, j) then Disconnect(g, i, j) else g) &&
         graph.start == old(graph.start) && graph.end == old(graph.end) &&
         Hist() == Edited(old(Hist()), graph.Snap()) && edgeDiff == EdgeDiff(graph.Model()))
      ensures !accepted ==> Hist() == old(Hist()) && edgeDiff == old(edgeDiff)
    {
      if mode == Flip && edgeDiff <= -1 {
        return false;
      }
      var g := graph.Model();
      Push();
      if graph.IsConnected(u, w) {
        DisconnectValid(g, IndexOf(g.nodes, u), IndexOf(g.nodes, w));
        graph.Disconnect(u, w);
      }
      Recount();
      accepted := true;
    }

    /**
      * delete_node: EDIT mode only. Push a copy, drop the redo stack and the layers, disconnect the
      * node from each of its neighbours, remove it, and recompute edge_diff.
      */
    method DeleteNode(v: Node) returns (accepted: bool)
      requires Valid() && v in graph.nodes
      modifies this, graph
      ensures Valid() && graph == old(graph) && mode == old(mode) && counter == old(counter)
      ensures badNode == old(badNode) && badEdge == old(badEdge)
      ensures accepted <==> mode == Edit
      ensures accepted ==>
        graph.Model() == DeleteNodeAt(old(graph.Model()), IndexOf(old(graph.nodes), v)) &&
        graph.start == old(graph.start) && graph.end == old(graph.end) &&
        Hist() == Edited(old(Hist()), graph.Snap()) && layers == [] && edgeDiff == EdgeDiff(graph.Model())
      ensures !accepted ==> Hist() == old(Hist()) && layers == old(layers) && edgeDiff == old(edgeDiff)
    {
      if mode != Edit {
        return false;
      }
      var g := graph.Model();
      var i := IndexOf(graph.nodes, v);
      Push();
      layers := [];
      Unlink(graph, v);
      DeleteNodeSpec(g, i);
      graph.RemoveNode(v);
      Recount();
      accepted := true;
    }

    /**
      * reset: push a copy, drop the redo stack, and start over from an empty path; the
      * main_mode_change it emits runs the window's mode switch on that empty path. From FLIP
      * mode the switch succeeds and ends in drawGraph, which recounts edge_diff on the empty
      * path as 0 + 1 - 0; from EDIT mode it is refused and nothing is redrawn.
      */
    method Reset()
      requires Valid()
      modifies this
      ensures Valid() && fresh(graph) && mode == Switched(old(mode), Graph([], [], [])) && mode == Edit
      ensures Hist() == Edited(old(Hist()), Snapshot(Graph([], [], []), None, None))
      ensures layers == [] && counter == 0
      ensures edgeDiff == (if old(mode) == Flip then 1 else 0)
      ensures badNode == old(badNode) && badEdge == old(badEdge)
    {
      ghost var h := Hist();
      ghost var empty := Snapshot(Graph([], [], []), None, None);
      EmptyGraphValid([]);
      EditedValid(h, empty);
      lastGraphs := lastGraphs + [graph.Snap()];
      nextGraphs := [];
      graph := new Path([], None, None);
      assert Hist() == Edited(h, empty);
      layers := [];
      counter := 0;
      edgeDiff := 0;
      SwitchedOnEmpty(mode);
      if mode == Flip {
        LeaveFlip();
      }
    }

    /**
      * switch_flip_mode from FLIP mode on a path it lets go (an empty one, or a non-crossing
      * spanning one): EDIT mode, then drawGraph, whose diagnosis in EDIT mode paints nothing.
      */
    method LeaveFlip()
      requires Valid() && mode == Flip && Switched(Flip, graph.Model()) == Edit
      modifies this, graph
      ensures Valid() && mode == Edit && graph == old(graph) && Hist() == old(Hist())
      ensures layers == old(layers) && badNode == old(badNode) && badEdge == old(badEdge)
      ensures counter == (if |graph.nodes| == 0 then 0 else MaxName(graph.nodes))
      ensures edgeDiff == EdgeDiff(graph.Model())
    {
      mode := Edit;
      DrawGraph();
    }

    /** compute_ch: replace the layers by the peeling of the current node list. */
    method ComputeCh(hull: seq<Node> -> seq<Node>)
      requires Valid() && HullSpec(hull)
      modifies this
      ensures Hist() == old(Hist()) && graph == old(graph) && mode == old(mode)
      ensures counter == old(counter) && edgeDiff == old(edgeDiff) && badNode == old(badNode) && badEdge == old(badEdge)
      ensures |layers| <= |graph.nodes|
      ensures forall k :: 0 <= k < |layers| ==> LayerShape(layers[k])
      ensures forall k, v :: 0 <= k < |layers| && v in layers[k].nodes ==> v in graph.nodes
      ensures forall v :: v in graph.nodes ==> exists k :: 0 <= k < |layers| && v in layers[k].nodes
      ensures forall k, m, v :: 0 <= k < m < |layers| && v in layers[k].nodes ==> v !in layers[m].nodes
    {
      layers := ComputeLayers(graph.nodes, hull);
    }

    /** problem_edge: dispatch on edge_diff; the tentative edits leave the same graph behind. */
    method ProblemEdge() returns (r: seq<Line>)
      requires Valid()
      modifies graph
      ensures Valid() && SameGraph(graph.Model(), old(graph.Model()))
      ensures edgeDiff != 1 ==> graph.Model() == old(graph.Model())
      ensures EdgeReport(old(graph.Model()), edgeDiff, r)
    {
      r := ProblemEdges(graph, edgeDiff);
    }

    /** identify_problems, without the painting. */
    method IdentifyProblems()
      requires Valid()
      modifies this, graph
      ensures Valid() && graph == old(graph) && lastGraphs == old(lastGraphs) && nextGraphs == old(nextGraphs)
      ensures layers == old(layers) && mode == old(mode) && counter == old(counter) && edgeDiff == old(edgeDiff)
      ensures SameGraph(graph.Model(), old(graph.Model()))
      ensures mode == Edit ==> graph.Snap() == old(graph.Snap())
      ensures mode == Edit || Healthy(old(graph.Model())) ==> graph.Model() == old(graph.Model())
      ensures Diagnosis(mode, old(graph.Model()), edgeDiff, old(badNode), old(badEdge), badNode, badEdge)
    {
      if mode == Edit {
        SameGraphRefl(graph.Model());
        return;
      }
      var ready := FlipReady(graph);
      if ready {
        SameGraphRefl(graph.Model());
        return;
      }
      Diagnose();
    }

    /** The diagnosis proper: problem_nodes, then problem_edge. */
    method Diagnose()
      requires Valid()
      modifies this, graph
      ensures Valid() && graph == old(graph) && lastGraphs == old(lastGraphs) && nextGraphs == old(nextGraphs)
      ensures layers == old(layers) && mode == old(mode) && counter == old(counter) && edgeDiff == old(edgeDiff)
      ensures SameGraph(graph.Model(), old(graph.Model()))
      ensures badNode == ProblemNodes(old(graph.Model())) && EdgeReport(old(graph.Model()), edgeDiff, badEdge)
    {
      badNode := ProblemNodes(graph.Model());
      badEdge := ProblemEdge();
    }

    /** drawGraph: i_ becomes the largest name (0 on an empty path), edge_diff is recomputed, then identify_problems. */
    method DrawGraph()
      requires Valid()
      modifies this, graph
      ensures Valid() && graph == old(graph) && lastGraphs == old(lastGraphs) && nextGraphs == old(nextGraphs)
      ensures layers == old(layers) && mode == old(mode)
      ensures SameGraph(graph.Model(), old(graph.Model()))
      ensures mode == Edit ==> graph.Snap() == old(graph.Snap())
      ensures mode == Edit || Healthy(old(graph.Model())) ==> graph.Model() == old(graph.Model())
      ensures counter == (if |graph.nodes| == 0 then 0 else MaxName(graph.nodes))
      ensures edgeDiff == EdgeDiff(old(graph.Model())) && edgeDiff == EdgeDiff(graph.Model())
      ensures Diagnosis(mode, old(graph.Model()), edgeDiff, old(badNode), old(badEdge), badNode, badEdge)
    {
      var ns := graph.nodes;
      counter := if |ns| == 0 then 0 else MaxName(ns);
      edgeDiff := EdgeDiff(graph.Model());
      IdentifyProblems();
    }

    /** `i_` one past the largest name on a path with nodes, and the recount of `edge_diff`. */
    method Renumber()
      requires Valid() && |graph.nodes| > 0
      modifies this
      ensures Valid() && Hist() == old(Hist()) && graph == old(graph) && graph.Model() == old(graph.Model())
      ensures layers == old(layers) && mode == old(mode) && badNode == old(badNode) && badEdge == old(badEdge)
      ensures lastGraphs == old(lastGraphs) && nextGraphs == old(nextGraphs)
      ensures counter == MaxName(graph.nodes) + 1 && edgeDiff == EdgeDiff(graph.Model())
    {
      var ns := graph.nodes;
      counter := MaxName(ns) + 1;
      edgeDiff := EdgeDiff(graph.Model());
    }

    /** The common tail of undo, redo, to_start and to_end after the live path was replaced. */
    method Redraw()
      requires Valid()
      modifies this, graph
      ensures Valid() && graph == old(graph) && lastGraphs == old(lastGraphs) && nextGraphs == old(nextGraphs)
      ensures layers == old(layers) && mode == old(mode)
      ensures SameGraph(graph.Model(), old(graph.Model()))
      ensures mode == Edit ==> graph.Snap() == old(graph.Snap()) && badNode == old(badNode) && badEdge == old(badEdge)
      ensures counter == (if |graph.nodes| == 0 then 0 else MaxName(graph.nodes) + 1)
      ensures edgeDiff == EdgeDiff(graph.Model())
    {
      ghost var g0 := graph.Model();
      DrawGraph();
      ghost var g1 := graph.Model();
      if |graph.nodes| > 0 {
        Renumber();
        assert graph.Model() == g1 && edgeDiff == EdgeDiff(g1);
        IdentifyProblems();
        SameGraphEdgeDiff(graph.Model(), g1);
        SameGraphTrans(graph.Model(), g1, g0);
      }
    }

    /** One step back: a copy of the top of the undo stack goes live, the live path onto the redo stack. */
    method PopUndo()
      requires Valid() && |lastGraphs| > 0
      modifies this
      ensures Valid() && fresh(graph) && Hist() == Undone(old(Hist()))
      ensures mode == old(mode) && layers == old(layers) && counter == old(counter) && edgeDiff == old(edgeDiff)
      ensures badNode == old(badNode) && badEdge == old(badEdge)
    {
      UndoValid(Hist());
      var top := lastGraphs[|lastGraphs| - 1];
      lastGraphs := lastGraphs[..|lastGraphs| - 1];
      nextGraphs := nextGraphs + [graph.Snap()];
      graph := new Path.Copy(top);
    }

    /** One step forward: the mirror image of PopUndo. */
    method PopRedo()
      requires Valid() && |nextGraphs| > 0
      modifies this
      ensures Valid() && fresh(graph) && Hist() == Redone(old(Hist()))
      ensures mode == old(mode) && layers == old(layers) && counter == old(counter) && edgeDiff == old(edgeDiff)
      ensures badNode == old(badNode) && badEdge == old(badEdge)
    {
      RedoValid(Hist());
      var top := nextGraphs[|nextGraphs| - 1];
      nextGraphs := nextGraphs[..|nextGraphs| - 1];
      lastGraphs := lastGraphs + [graph.Snap()];
      graph := new Path.Copy(top);
    }

    /**
      * undo: pop the last copy, push a copy of the live path onto the redo stack, make a copy of
      * the popped one live and redraw. With nothing to undo nothing changes.
      */
    method Undo()
      requires Valid()
      modifies this
      ensures Valid() && mode == old(mode) && layers == old(layers)
      ensures old(lastGraphs) == [] ==>
        graph == old(graph) && Hist() == old(Hist()) && counter == old(counter) && edgeDiff == old(edgeDiff) &&
        badNode == old(badNode) && badEdge == old(badEdge)
      ensures old(lastGraphs) != [] ==>
        (var h := Undone(old(Hist()));
         fresh(graph) && lastGraphs == h.last && nextGraphs == h.next && SameGraph(graph.Model(), h.current.graph) &&
         counter == (if |graph.nodes| == 0 then 0 else MaxName(graph.nodes) + 1) && edgeDiff == EdgeDiff(graph.Model()) &&
         (mode == Edit ==> Hist() == h && badNode == old(badNode) && badEdge == old(badEdge)))
    {
      if |lastGraphs| == 0 {
        return;
      }
      PopUndo();
      Redraw();
    }

    /** redo: the mirror image of undo. */
    method Redo()
      requires Valid()
      modifies this
      ensures Valid() && mode == old(mode) && layers == old(layers)
      ensures old(nextGraphs) == [] ==>
        graph == old(graph) && Hist() == old(Hist()) && counter == old(counter) && edgeDiff == old(edgeDiff) &&
        badNode == old(badNode) && badEdge == old(badEdge)
      ensures old(nextGraphs) != [] ==>
        (var h := Redone(old(Hist()));
         fresh(graph) && lastGraphs == h.last && nextGraphs == h.next && SameGraph(graph.Model(), h.current.graph) &&
         counter == (if |graph.nodes| == 0 then 0 else MaxName(graph.nodes) + 1) && edgeDiff == EdgeDiff(graph.Model()) &&
         (mode == Edit ==> Hist() == h && badNode == old(badNode) && badEdge == old(badEdge)))
    {
      if |nextGraphs| == 0 {
        return;
      }
      PopRedo();
      Redraw();
    }

    /** to_start: undo until the undo stack is empty, then redraw once. */
    method ToStart()
      requires Valid()
      modifies this
      ensures Valid() && mode == old(mode) && layers == old(layers)
      ensures old(lastGraphs) == [] ==>
        graph == old(graph) && Hist() == old(Hist()) && counter == old(counter) && edgeDiff == old(edgeDiff) &&
        badNode == old(badNode) && badEdge == old(badEdge)
      ensures old(lastGraphs) != [] ==>
        (var h := Rewound(old(Hist()));
         fresh(graph) && lastGraphs == [] && nextGraphs == h.next && SameGraph(graph.Model(), h.current.graph) &&
         counter == (if |graph.nodes| == 0 then 0 else MaxName(graph.nodes) + 1) && edgeDiff == EdgeDiff(graph.Model()) &&
         (mode == Edit ==> Hist() == h && badNode == old(badNode) && badEdge == old(badEdge)))
    {
      if |lastGraphs| == 0 {
        return;
      }
      ghost var h0 := Hist();
      while |lastGraphs| > 0
        invariant HistoryValid(Hist()) && Rewound(Hist()) == Rewound(h0)
        invariant |lastGraphs| < |old(lastGraphs)| ==> fresh(graph)
        invariant mode == old(mode) && layers == old(layers) && counter == old(counter) && edgeDiff == old(edgeDiff)
        invariant badNode == old(badNode) && badEdge == old(badEdge)
        decreases |lastGraphs|
      {
        PopUndo();
      }
      Redraw();
    }

    /** to_end: redo until the redo stack is empty, then redraw once. */
    method ToEnd()
      requires Valid()
      modifies this
      ensures Valid() && mode == old(mode) && layers == old(layers)
      ensures old(nextGraphs) == [] ==>
        graph == old(graph) && Hist() == old(Hist()) && counter == old(counter) && edgeDiff == old(edgeDiff) &&
        badNode == old(badNode) && badEdge == old(badEdge)
      ensures old(nextGraphs) != [] ==>
        (var h := FastForwarded(old(Hist()));
         fresh(graph) && nextGraphs == [] && lastGraphs == h.last && SameGraph(graph.Model(), h.current.graph) &&
         counter == (if |graph.nodes| == 0 then 0 else MaxName(graph.nodes) + 1) && edgeDiff == EdgeDiff(graph.Model()) &&
         (mode == Edit ==> Hist() == h && badNode == old(badNode) && badEdge == old(badEdge)))
    {
      if |nextGraphs| == 0 {
        return;
      }
      ghost var h0 := Hist();
      while |nextGraphs| > 0
        invariant HistoryValid(Hist()) && FastForwarded(Hist()) == FastForwarded(h0)
        invariant |nextGraphs| < |old(nextGraphs)| ==> fresh(graph)
        invariant mode == old(mode) && layers == old(layers) && counter == old(counter) && edgeDiff == old(edgeDiff)
        invariant badNode == old(badNode) && badEdge == old(badEdge)
        decreases |nextGraphs|
      {
        PopRedo();
      }
      Redraw();
    }
  }
}
