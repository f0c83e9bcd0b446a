/**
  * The state of the source's Graph as a value: an order-significant node list, a line list
  * and a 0/1 adjacency matrix indexed by node position, with the operations that change it.
  * The Path class (module Paths) updates its fields in place exactly as these functions say;
  * the history stacks of the canvas hold Snapshot values (deep copies).
  */
module GraphModel {
  import opened Geometry

  datatype Option<T> = None | Some(value: T)

  /** A vertex: its name (the source's decimal string, kept as the integer it encodes) and position. */
  datatype Node = Node(name: int, coord: Point)

  datatype Graph = Graph(nodes: seq<Node>, lines: seq<Line>, adj: seq<seq<int>>)

  /** What a deep copy of a Path holds. */
  datatype Snapshot = Snapshot(graph: Graph, start: Option<Node>, end: Option<Node>)

  /** A prefix one element longer: the step every loop over a sequence takes. */
  lemma PrefixStep<T>(s: seq<T>, k: nat)
    requires k < |s|
    ensures s[..k + 1] == s[..k] + [s[k]]
  {
  }

  function Coords(nodes: seq<Node>): set<Point>
  {
    set v | v in nodes :: v.coord
  }

  /** Position of the first occurrence, as list.index. */
  function IndexOf(nodes: seq<Node>, v: Node): (i: nat)
    requires v in nodes
    ensures i < |nodes| && nodes[i] == v
    ensures forall k :: 0 <= k < i ==> nodes[k] != v
  {
    if nodes[0] == v then 0 else 1 + IndexOf(nodes[1..], v)
  }

  /** `l in lines` with the source's unordered line equality. */
  predicate LineIn(l: Line, lines: seq<Line>)
  {
    exists k :: 0 <= k < |lines| && SameLine(lines[k], l)
  }

  /** list.remove: drop the first element equal to l (unordered), if any. */
  function RemoveFirst(lines: seq<Line>, l: Line): seq<Line>
  {
    if lines == [] then []
    else if SameLine(lines[0], l) then lines[1..]
    else [lines[0]] + RemoveFirst(lines[1..], l)
  }

  /** np.sum of a matrix row. */
  function RowSum(r: seq<int>): int
  {
    if r == [] then 0 else RowSum(r[..|r| - 1]) + r[|r| - 1]
  }

  function Zeros(n: nat): (r: seq<int>)
    ensures |r| == n && forall k :: 0 <= k < n ==> r[k] == 0
  {
    seq(n, _ => 0)
  }
  /** The n-by-n zero matrix of a graph without lines. */
  function ZeroMatrix(n: nat): (m: seq<seq<int>>)
    ensures |m| == n && forall k :: 0 <= k < n ==> m[k] == Zeros(n)
  {
    seq(n, k => Zeros(n))
  }


  // ---------------------------------------------------------------- invariants

  predicate Square(g: Graph)
  {
    |g.adj| == |g.nodes| && forall i :: 0 <= i < |g.adj| ==> |g.adj[i]| == |g.nodes|
  }

  predicate ZeroOne(g: Graph)
    requires Square(g)
  {
    forall i, j :: 0 <= i < |g.nodes| && 0 <= j < |g.nodes| ==> g.adj[i][j] == 0 || g.adj[i][j] == 1
  }

  function LineBetween(g: Graph, i: nat, j: nat): Line
    requires i < |g.nodes| && j < |g.nodes|
  {
    Line(g.nodes[i].coord, g.nodes[j].coord)
  }

  /** The matrix and the line list describe the same edges. */
  predicate Lockstep(g: Graph)
  {
    Square(g) && ZeroOne(g) &&
    forall i, j :: 0 <= i < |g.nodes| && 0 <= j < |g.nodes| ==>
      (g.adj[i][j] == 1 <==> LineIn(LineBetween(g, i, j), g.lines))
  }

  predicate DistinctCoords(nodes: seq<Node>)
  {
    forall i, j :: 0 <= i < j < |nodes| ==> nodes[i].coord != nodes[j].coord
  }

  predicate NoDupLines(lines: seq<Line>)
  {
    forall a, b :: 0 <= a < b < |lines| ==> !SameLine(lines[a], lines[b])
  }

  /** Every line ends at node positions. */
  predicate Closed(g: Graph)
  {
    forall k :: 0 <= k < |g.lines| ==> g.lines[k].p1 in Coords(g.nodes) && g.lines[k].p2 in Coords(g.nodes)
  }

  predicate Valid(g: Graph)
  {
    Lockstep(g) && DistinctCoords(g.nodes) && NoDupLines(g.lines) && Closed(g)
  }

  /** Two line lists hold the same lines up to order and endpoint order. */
  predicate SameLineSet(a: seq<Line>, b: seq<Line>)
  {
    |a| == |b| && (forall k :: 0 <= k < |a| ==> LineIn(a[k], b)) && (forall k :: 0 <= k < |b| ==> LineIn(b[k], a))
  }

  /** Same nodes and matrix, same lines up to order: what a tentative change-and-undo leaves. */
  predicate SameGraph(g: Graph, h: Graph)
  {
    g.nodes == h.nodes && g.adj == h.adj && SameLineSet(g.lines, h.lines)
  }

  // ---------------------------------------------------------------- queries

  predicate IsConnected(g: Graph, i: nat, j: nat)
    requires Square(g) && i < |g.nodes| && j < |g.nodes|
  {
    g.adj[i][j] == 1
  }

  function Deg(g: Graph, i: nat): int
    requires Square(g) && i < |g.nodes|
  {
    RowSum(g.adj[i])
  }

  /** adj(v): the nodes whose matrix entry in v's row is 1, in node-list order. */
  function AdjNodes(g: Graph, i: nat): (r: seq<Node>)
    requires Square(g) && i < |g.nodes|
  {
    AdjUpTo(g.nodes, g.adj[i], |g.nodes|)
  }

  function AdjUpTo(nodes: seq<Node>, row: seq<int>, k: nat): (r: seq<Node>)
    requires k <= |nodes| && |row| == |nodes|
    ensures forall v :: v in r <==> exists j :: 0 <= j < k && row[j] == 1 && nodes[j] == v
  {
    if k == 0 then [] else AdjUpTo(nodes, row, k - 1) + (if row[k - 1] == 1 then [nodes[k - 1]] else [])
  }

  /** whichNodes(line): the nodes at either endpoint of the line, in node-list order. */
  function WhichNodes(nodes: seq<Node>, l: Line): (r: seq<Node>)
    ensures forall v :: v in r <==> v in nodes && (v.coord == l.p1 || v.coord == l.p2)
    ensures DistinctCoords(nodes) ==> DistinctCoords(r)
  {
    if nodes == [] then []
    else
      var rest := WhichNodes(nodes[1..], l);
      assert DistinctCoords(nodes) ==> DistinctCoords(nodes[1..]) && forall v :: v in rest ==> v.coord != nodes[0].coord by {
        if DistinctCoords(nodes) {
          forall a, b | 0 <= a < b < |nodes[1..]| ensures nodes[1..][a].coord != nodes[1..][b].coord {
            assert nodes[1..][a] == nodes[a + 1] && nodes[1..][b] == nodes[b + 1];
          }
          forall v | v in rest ensures v.coord != nodes[0].coord {
            var k :| 0 <= k < |nodes[1..]| && nodes[1..][k] == v;
            assert nodes[k + 1] == v;
          }
        }
      }
      (if nodes[0].coord == l.p1 || nodes[0].coord == l.p2 then [nodes[0]] else []) + rest
  }

  // ---------------------------------------------------------------- operations

  /** Set entries [i][j] and [j][i] to x. */
  function SetSym(adj: seq<seq<int>>, i: nat, j: nat, x: int): seq<seq<int>>
    requires i < |adj| && j < |adj| && j < |adj[i]| && i < |adj[j]|
  {
    var a := adj[i := adj[i][j := x]];
    a[j := a[j][i := x]]
  }

  /** connect: append the line if it is not there yet, then set both matrix entries to 1. */
  function Connect(g: Graph, i: nat, j: nat): Graph
    requires Square(g) && i < |g.nodes| && j < |g.nodes|
  {
    var l := LineBetween(g, i, j);
    Graph(g.nodes, if LineIn(l, g.lines) then g.lines else g.lines + [l], SetSym(g.adj, i, j, 1))
  }

  /** disconnect: remove the line if it is there, then set both matrix entries to 0. */
  function Disconnect(g: Graph, i: nat, j: nat): Graph
    requires Square(g) && i < |g.nodes| && j < |g.nodes|
  {
    var l := LineBetween(g, i, j);
    Graph(g.nodes, if LineIn(l, g.lines) then RemoveFirst(g.lines, l) else g.lines, SetSym(g.adj, i, j, 0))
  }

  /** The matrix grown by one zero column and one zero row. */
  function Grow(adj: seq<seq<int>>): seq<seq<int>>
  {
    seq(|adj|, k requires 0 <= k < |adj| => adj[k] + [0]) + [Zeros(|adj| + 1)]
  }

  /** addNode: a node not yet present is appended and the matrix grows; otherwise nothing changes. */
  function AddNode(g: Graph, v: Node): Graph
  {
    if v in g.nodes then g else Graph(g.nodes + [v], g.lines, Grow(g.adj))
  }

  function Skip(k: nat, i: nat): nat
  {
    if k < i then k else k + 1
  }

  /** The matrix without row i and column i. */
  function DropRowCol(adj: seq<seq<int>>, i: nat): seq<seq<int>>
    requires i < |adj| && forall r :: 0 <= r < |adj| ==> |adj[r]| == |adj|
  {
    seq(|adj| - 1, a requires 0 <= a < |adj| - 1 =>
      seq(|adj| - 1, b requires 0 <= b < |adj| - 1 => adj[Skip(a, i)][Skip(b, i)]))
  }

  /** removeNode: delete the node, its row and its column; the line list is not touched. */
  function RemoveNode(g: Graph, i: nat): Graph
    requires Square(g) && i < |g.nodes|
  {
    Graph(g.nodes[..i] + g.nodes[i + 1..], g.lines, DropRowCol(g.adj, i))
  }

  // ---------------------------------------------------------------- lemmas: lines

  lemma LineInAppend(x: Line, lines: seq<Line>, l: Line)
    ensures LineIn(x, lines + [l]) <==> LineIn(x, lines) || SameLine(l, x)
  {
    var s := lines + [l];
    if LineIn(x, s) && !SameLine(l, x) {
      var k :| 0 <= k < |s| && SameLine(s[k], x);
      assert k < |lines| && lines[k] == s[k];
    }
    if LineIn(x, lines) {
      var k :| 0 <= k < |lines| && SameLine(lines[k], x);
      assert s[k] == lines[k];
    }
    if SameLine(l, x) { assert s[|lines|] == l; }
  }

  lemma LineInCons(x: Line, h: Line, t: seq<Line>)
    ensures LineIn(x, [h] + t) <==> SameLine(h, x) || LineIn(x, t)
  {
    var s := [h] + t;
    if LineIn(x, s) && !SameLine(h, x) {
      var k :| 0 <= k < |s| && SameLine(s[k], x);
      assert k > 0 && t[k - 1] == s[k];
    }
    if LineIn(x, t) {
      var k :| 0 <= k < |t| && SameLine(t[k], x);
      assert s[k + 1] == t[k];
    }
    if SameLine(h, x) { assert s[0] == h; }
  }

  lemma LineInRespectsSameLine(x: Line, y: Line, lines: seq<Line>)
    requires SameLine(x, y)
    ensures LineIn(x, lines) <==> LineIn(y, lines)
  {
    if LineIn(x, lines) {
      var k :| 0 <= k < |lines| && SameLine(lines[k], x);
      SameLineTransitive(lines[k], x, y);
    }
    if LineIn(y, lines) {
      var k :| 0 <= k < |lines| && SameLine(lines[k], y);
      SameLineTransitive(lines[k], y, x);
    }
  }

  lemma LineInSelf(lines: seq<Line>, k: nat)
    requires k < |lines|
    ensures LineIn(lines[k], lines)
  {
    assert SameLine(lines[k], lines[k]);
  }

  lemma NoDupPair(lines: seq<Line>, a: nat, b: nat)
    requires NoDupLines(lines) && a < |lines| && b < |lines| && a != b
    ensures !SameLine(lines[a], lines[b])
  {
    if a < b { } else { }
  }

  /** Position of the first element equal to l, or the length when there is none. */
  function FirstMatch(lines: seq<Line>, l: Line): (k: nat)
    ensures k <= |lines|
    ensures k < |lines| ==> SameLine(lines[k], l)
    ensures forall m :: 0 <= m < k ==> !SameLine(lines[m], l)
  {
    if lines == [] then 0
    else if SameLine(lines[0], l) then 0
    else 1 + FirstMatch(lines[1..], l)
  }

  lemma FirstMatchFound(lines: seq<Line>, l: Line)
    ensures FirstMatch(lines, l) < |lines| <==> LineIn(l, lines)
  {
  }

  /** list.remove deletes the first equal element, or nothing when there is none. */
  lemma {:induction false} RemoveFirstShape(lines: seq<Line>, l: Line)
    ensures var k := FirstMatch(lines, l);
      RemoveFirst(lines, l) == if k < |lines| then lines[..k] + lines[k + 1..] else lines
  {
    if lines == [] {
    } else if SameLine(lines[0], l) {
      assert lines[..0] + lines[1..] == lines[1..];
    } else {
      var t := lines[1..];
      RemoveFirstShape(t, l);
      var k := FirstMatch(t, l);
      assert FirstMatch(lines, l) == k + 1;
      assert RemoveFirst(lines, l) == [lines[0]] + RemoveFirst(t, l);
      ConsDelete(lines, k, RemoveFirst(t, l));
    }
  }

  /** Deleting position k + 1 of s (or nothing, when k + 1 is past its end) is s[0] followed by s[1..] so treated at k. */
  lemma ConsDelete<T>(s: seq<T>, k: nat, r: seq<T>)
    requires |s| > 0
    requires r == if k < |s| - 1 then s[1..][..k] + s[1..][k + 1..] else s[1..]
    ensures [s[0]] + r == if k + 1 < |s| then s[..k + 1] + s[k + 2..] else s
  {
    if k < |s| - 1 {
      ConsSplice(s[0], s[1..], k);
      assert [s[0]] + s[1..] == s;
    } else {
      assert [s[0]] + s[1..] == s;
    }
  }

  /** Deleting position k + 1 of x :: t is x followed by t with position k deleted. */
  lemma ConsSplice<T>(x: T, t: seq<T>, k: nat)
    requires k < |t|
    ensures [x] + (t[..k] + t[k + 1..]) == ([x] + t)[..k + 1] + ([x] + t)[k + 2..]
  {
    assert ([x] + t)[..k + 1] == [x] + t[..k];
    assert ([x] + t)[k + 2..] == t[k + 1..];
  }

  lemma DeleteAtIndex(lines: seq<Line>, k: nat)
    requires k < |lines|
    ensures |lines[..k] + lines[k + 1..]| == |lines| - 1
    ensures forall p :: 0 <= p < |lines| - 1 ==> (lines[..k] + lines[k + 1..])[p] == lines[Skip(p, k)]
  {
  }

  /** Deleting position k of a list without duplicates removes exactly the lines equal to lines[k]. */
  lemma DeleteAtContents(lines: seq<Line>, k: nat)
    requires NoDupLines(lines) && k < |lines|
    ensures NoDupLines(lines[..k] + lines[k + 1..])
    ensures forall x :: LineIn(x, lines[..k] + lines[k + 1..]) <==> LineIn(x, lines) && !SameLine(x, lines[k])
  {
    var r := lines[..k] + lines[k + 1..];
    DeleteAtIndex(lines, k);
    forall x ensures LineIn(x, r) ==> LineIn(x, lines) && !SameLine(x, lines[k]) {
      if LineIn(x, r) {
        var p :| 0 <= p < |r| && SameLine(r[p], x);
        NoDupPair(lines, Skip(p, k), k);
      }
    }
    forall x ensures LineIn(x, lines) && !SameLine(x, lines[k]) ==> LineIn(x, r) {
      if LineIn(x, lines) && !SameLine(x, lines[k]) {
        var m :| 0 <= m < |lines| && SameLine(lines[m], x);
        var p := if m < k then m else m - 1;
        assert r[p] == lines[m];
      }
    }
    forall a, b | 0 <= a < b < |r| ensures !SameLine(r[a], r[b]) {
      NoDupPair(lines, Skip(a, k), Skip(b, k));
    }
  }

  /** With no duplicates, removing the first equal element removes exactly that line. */
  lemma RemoveFirstContents(lines: seq<Line>, l: Line)
    requires NoDupLines(lines)
    ensures |RemoveFirst(lines, l)| == if LineIn(l, lines) then |lines| - 1 else |lines|
    ensures NoDupLines(RemoveFirst(lines, l))
    ensures forall x :: LineIn(x, RemoveFirst(lines, l)) <==> LineIn(x, lines) && !SameLine(x, l)
  {
    RemoveFirstShape(lines, l);
    FirstMatchFound(lines, l);
    var k := FirstMatch(lines, l);
    if k < |lines| {
      DeleteAtIndex(lines, k);
      DeleteAtContents(lines, k);
      assert forall x :: SameLine(x, lines[k]) <==> SameLine(x, l);
    } else {
      forall x | LineIn(x, lines) ensures !SameLine(x, l) {
        var m :| 0 <= m < |lines| && SameLine(lines[m], x);
        assert !SameLine(lines[m], l);
      }
    }
  }

  /** Removing the appended line when no earlier element equals it gives back the list. */
  lemma {:induction false} RemoveFirstPast(lines: seq<Line>, l: Line)
    requires !LineIn(l, lines)
    ensures RemoveFirst(lines + [l], l) == lines
  {
    if lines == [] {
      assert [] + [l] == [l];
    } else {
      var t := lines[1..];
      assert (lines + [l])[1..] == t + [l];
      assert !LineIn(l, t) by {
        forall k | 0 <= k < |t| ensures !SameLine(t[k], l) { assert t[k] == lines[k + 1]; }
      }
      RemoveFirstPast(t, l);
      assert lines == [lines[0]] + t;
    }
  }

  /** Taking a line out and appending it again leaves the same set of lines. */
  lemma RemoveThenAppend(lines: seq<Line>, l: Line)
    requires NoDupLines(lines) && LineIn(l, lines)
    ensures SameLineSet(RemoveFirst(lines, l) + [l], lines)
  {
    RemoveFirstContents(lines, l);
    var h := RemoveFirst(lines, l) + [l];
    forall x ensures LineIn(x, h) <==> LineIn(x, lines) {
      LineInAppend(x, RemoveFirst(lines, l), l);
      if SameLine(l, x) { LineInRespectsSameLine(l, x, lines); }
    }
    forall k | 0 <= k < |h| ensures LineIn(h[k], lines) { LineInSelf(h, k); }
    forall k | 0 <= k < |lines| ensures LineIn(lines[k], h) { LineInSelf(lines, k); }
  }

  // ---------------------------------------------------------------- lemmas: connect / disconnect

  lemma CoordsDistinctAt(nodes: seq<Node>, p: nat, q: nat)
    requires DistinctCoords(nodes) && p < |nodes| && q < |nodes|
    ensures nodes[p].coord == nodes[q].coord <==> p == q
  {
    if p < q { } else if q < p { }
  }

  /** With distinct coordinates, nodes.index(nodes[i]) is i. */
  lemma IndexOfAt(nodes: seq<Node>, i: nat)
    requires DistinctCoords(nodes) && i < |nodes|
    ensures IndexOf(nodes, nodes[i]) == i
  {
    CoordsDistinctAt(nodes, IndexOf(nodes, nodes[i]), i);
  }

  /** With distinct coordinates, the node at position j is in adj(nodes[i]) exactly when the entry is 1. */
  lemma AdjNodesAt(g: Graph, i: nat, j: nat)
    requires Square(g) && DistinctCoords(g.nodes) && i < |g.nodes| && j < |g.nodes|
    ensures g.nodes[j] in AdjNodes(g, i) <==> g.adj[i][j] == 1
  {
    forall k | 0 <= k < |g.nodes| && g.nodes[k] == g.nodes[j] ensures k == j {
      CoordsDistinctAt(g.nodes, k, j);
    }
  }

  /** Every node of adj(nodes[i]) is a node joined to position i. */
  lemma AdjNodesIn(g: Graph, i: nat, w: Node)
    requires Square(g) && DistinctCoords(g.nodes) && i < |g.nodes| && w in AdjNodes(g, i)
    ensures w in g.nodes && IsConnected(g, i, IndexOf(g.nodes, w))
  {
    var k :| 0 <= k < |g.nodes| && g.adj[i][k] == 1 && g.nodes[k] == w;
    IndexOfAt(g.nodes, k);
  }

  lemma SameLineBetween(g: Graph, i: nat, j: nat, a: nat, b: nat)
    requires DistinctCoords(g.nodes) && i < |g.nodes| && j < |g.nodes| && a < |g.nodes| && b < |g.nodes|
    ensures SameLine(LineBetween(g, i, j), LineBetween(g, a, b)) <==> (a == i && b == j) || (a == j && b == i)
  {
    CoordsDistinctAt(g.nodes, i, a);
    CoordsDistinctAt(g.nodes, i, b);
    CoordsDistinctAt(g.nodes, j, a);
    CoordsDistinctAt(g.nodes, j, b);
  }

  /** The matrix entries of a valid graph are symmetric. */
  lemma Symmetric(g: Graph, i: nat, j: nat)
    requires Lockstep(g) && i < |g.nodes| && j < |g.nodes|
    ensures g.adj[i][j] == g.adj[j][i]
  {
    LineInRespectsSameLine(LineBetween(g, i, j), LineBetween(g, j, i), g.lines);
  }

  lemma SetSymAt(adj: seq<seq<int>>, i: nat, j: nat, x: int, a: nat, b: nat)
    requires i < |adj| && j < |adj| && j < |adj[i]| && i < |adj[j]|
    requires a < |adj| && b < |adj[a]|
    ensures |SetSym(adj, i, j, x)| == |adj| && |SetSym(adj, i, j, x)[a]| == |adj[a]|
    ensures SetSym(adj, i, j, x)[a][b] == if (a == i && b == j) || (a == j && b == i) then x else adj[a][b]
  {
  }

  /** Setting a pair twice keeps only the second value. */
  lemma SetSymTwice(adj: seq<seq<int>>, i: nat, j: nat, x: int, y: int)
    requires i < |adj| && j < |adj| && j < |adj[i]| && i < |adj[j]|
    ensures SetSym(SetSym(adj, i, j, x), i, j, y) == SetSym(adj, i, j, y)
  {
    var s, t := SetSym(SetSym(adj, i, j, x), i, j, y), SetSym(adj, i, j, y);
    forall a | 0 <= a < |adj| ensures s[a] == t[a] {
      forall b | 0 <= b < |adj[a]| ensures s[a][b] == t[a][b] {
        SetSymAt(adj, i, j, x, a, b);
        SetSymAt(SetSym(adj, i, j, x), i, j, y, a, b);
        SetSymAt(adj, i, j, y, a, b);
      }
    }
  }

  /** Setting a symmetric pair to the value it holds changes nothing. */
  lemma SetSymSame(adj: seq<seq<int>>, i: nat, j: nat)
    requires i < |adj| && j < |adj| && j < |adj[i]| && i < |adj[j]| && adj[i][j] == adj[j][i]
    ensures SetSym(adj, i, j, adj[i][j]) == adj
  {
    var s := SetSym(adj, i, j, adj[i][j]);
    forall a | 0 <= a < |adj| ensures s[a] == adj[a] {
      forall b | 0 <= b < |adj[a]| ensures s[a][b] == adj[a][b] {
        SetSymAt(adj, i, j, adj[i][j], a, b);
      }
    }
  }

  /** connect keeps the matrix and the line list in lockstep and adds no duplicate line. */
  lemma ConnectValid(g: Graph, i: nat, j: nat)
    requires Valid(g) && i < |g.nodes| && j < |g.nodes|
    ensures Valid(Connect(g, i, j))
    ensures IsConnected(Connect(g, i, j), i, j) && IsConnected(Connect(g, i, j), j, i)
    ensures |Connect(g, i, j).lines| == if IsConnected(g, i, j) then |g.lines| else |g.lines| + 1
  {
    var h := Connect(g, i, j);
    var l := LineBetween(g, i, j);
    forall a, b | 0 <= a < |g.nodes| && 0 <= b < |g.nodes|
      ensures h.adj[a][b] == 1 <==> LineIn(LineBetween(h, a, b), h.lines)
      ensures h.adj[a][b] == 0 || h.adj[a][b] == 1
    {
      SetSymAt(g.adj, i, j, 1, a, b);
      SameLineBetween(g, i, j, a, b);
      if !LineIn(l, g.lines) {
        LineInAppend(LineBetween(g, a, b), g.lines, l);
      } else if (a == i && b == j) || (a == j && b == i) {
        LineInRespectsSameLine(l, LineBetween(g, a, b), g.lines);
      }
    }
    if !LineIn(l, g.lines) {
      assert NoDupLines(h.lines) by {
        forall a, b | 0 <= a < b < |h.lines| ensures !SameLine(h.lines[a], h.lines[b]) {
          if b < |g.lines| { NoDupPair(g.lines, a, b); }
        }
      }
    }
  }

  lemma DisconnectValid(g: Graph, i: nat, j: nat)
    requires Valid(g) && i < |g.nodes| && j < |g.nodes|
    ensures Valid(Disconnect(g, i, j))
    ensures !IsConnected(Disconnect(g, i, j), i, j) && !IsConnected(Disconnect(g, i, j), j, i)
    ensures |Disconnect(g, i, j).lines| == if IsConnected(g, i, j) then |g.lines| - 1 else |g.lines|
  {
    var h := Disconnect(g, i, j);
    RemoveFirstContents(g.lines, LineBetween(g, i, j));
    DisconnectLockstep(g, i, j);
    DisconnectClosed(g, i, j);
  }

  lemma DisconnectLockstep(g: Graph, i: nat, j: nat)
    requires Valid(g) && i < |g.nodes| && j < |g.nodes|
    ensures Lockstep(Disconnect(g, i, j))
  {
    var h := Disconnect(g, i, j);
    var l := LineBetween(g, i, j);
    RemoveFirstContents(g.lines, l);
    forall a, b | 0 <= a < |g.nodes| && 0 <= b < |g.nodes|
      ensures h.adj[a][b] == 1 <==> LineIn(LineBetween(h, a, b), h.lines)
      ensures h.adj[a][b] == 0 || h.adj[a][b] == 1
    {
      SetSymAt(g.adj, i, j, 0, a, b);
      SameLineBetween(g, i, j, a, b);
    }
  }

  lemma DisconnectClosed(g: Graph, i: nat, j: nat)
    requires Valid(g) && i < |g.nodes| && j < |g.nodes|
    ensures Closed(Disconnect(g, i, j))
  {
    var h := Disconnect(g, i, j);
    RemoveFirstContents(g.lines, LineBetween(g, i, j));
    forall k | 0 <= k < |h.lines| ensures h.lines[k].p1 in Coords(h.nodes) && h.lines[k].p2 in Coords(h.nodes) {
      LineInSelf(h.lines, k);
      var m :| 0 <= m < |g.lines| && SameLine(g.lines[m], h.lines[k]);
    }
  }

  /** Connecting a pair that is not connected and disconnecting it again restores the graph exactly. */
  lemma ConnectDisconnectRoundTrip(g: Graph, i: nat, j: nat)
    requires Valid(g) && i < |g.nodes| && j < |g.nodes|
    requires !IsConnected(g, i, j)
    ensures Disconnect(Connect(g, i, j), i, j) == g
  {
    var l := LineBetween(g, i, j);
    RemoveFirstPast(g.lines, l);
    LineInAppend(l, g.lines, l);
    Symmetric(g, i, j);
    SetSymTwice(g.adj, i, j, 1, 0);
    SetSymSame(g.adj, i, j);
  }

  /** Disconnecting a pair that is not connected changes nothing. */
  lemma DisconnectUnconnected(g: Graph, i: nat, j: nat)
    requires Valid(g) && i < |g.nodes| && j < |g.nodes|
    requires !IsConnected(g, i, j)
    ensures Disconnect(g, i, j) == g
  {
    Symmetric(g, i, j);
    SetSymSame(g.adj, i, j);
  }

  /** Connecting an already connected pair changes nothing: the line is never duplicated. */
  lemma ConnectConnected(g: Graph, i: nat, j: nat)
    requires Valid(g) && i < |g.nodes| && j < |g.nodes|
    requires IsConnected(g, i, j)
    ensures Connect(g, i, j) == g
  {
    Symmetric(g, i, j);
    SetSymSame(g.adj, i, j);
  }

  /**
    * Disconnecting a connected pair and connecting it again gives back the same nodes and
    * matrix and the same lines; only the line's place in the list (and its endpoint order) may move.
    */
  lemma DisconnectConnectRoundTrip(g: Graph, i: nat, j: nat)
    requires Valid(g) && i < |g.nodes| && j < |g.nodes|
    requires IsConnected(g, i, j)
    ensures SameGraph(Connect(Disconnect(g, i, j), i, j), g)
  {
    var l := LineBetween(g, i, j);
    var d := Disconnect(g, i, j);
    RemoveFirstContents(g.lines, l);
    assert !LineIn(l, d.lines);
    assert LineBetween(d, i, j) == l;
    Symmetric(g, i, j);
    SetSymTwice(g.adj, i, j, 0, 1);
    SetSymSame(g.adj, i, j);
    RemoveThenAppend(g.lines, l);
  }

  /** A list that holds every line of another holds every line equal to one of them. */
  lemma LineInSubset(x: Line, a: seq<Line>, b: seq<Line>)
    requires forall k :: 0 <= k < |a| ==> LineIn(a[k], b)
    requires LineIn(x, a)
    ensures LineIn(x, b)
  {
    var k :| 0 <= k < |a| && SameLine(a[k], x);
    LineInRespectsSameLine(a[k], x, b);
  }

  /** Two line lists with the same lines are interchangeable for membership. */
  lemma SameLineSetMembers(a: seq<Line>, b: seq<Line>)
    requires SameLineSet(a, b)
    ensures forall x :: LineIn(x, a) <==> LineIn(x, b)
  {
    forall x ensures LineIn(x, a) <==> LineIn(x, b) {
      if LineIn(x, a) { LineInSubset(x, a, b); }
      if LineIn(x, b) { LineInSubset(x, b, a); }
    }
  }

  /** Every graph is the same graph as itself. */
  lemma SameGraphRefl(g: Graph)
    ensures SameGraph(g, g)
  {
    forall k | 0 <= k < |g.lines| ensures LineIn(g.lines[k], g.lines) {
      assert SameLine(g.lines[k], g.lines[k]);
    }
  }

  lemma SameGraphTrans(f: Graph, g: Graph, h: Graph)
    requires SameGraph(f, g) && SameGraph(g, h)
    ensures SameGraph(f, h)
  {
    SameLineSetMembers(f.lines, g.lines);
    SameLineSetMembers(g.lines, h.lines);
    forall k | 0 <= k < |f.lines| ensures LineIn(f.lines[k], h.lines) { LineInSelf(f.lines, k); }
    forall k | 0 <= k < |h.lines| ensures LineIn(h.lines[k], f.lines) { LineInSelf(h.lines, k); }
  }

  lemma SameGraphSym(g: Graph, h: Graph)
    requires SameGraph(g, h)
    ensures SameGraph(h, g)
  {
  }

  /** Lists with the same lines, appended a line or not according to the same membership test, still agree. */
  lemma SameLineSetAppend(a: seq<Line>, b: seq<Line>, l: Line)
    requires SameLineSet(a, b)
    ensures SameLineSet(if LineIn(l, a) then a else a + [l], if LineIn(l, b) then b else b + [l])
  {
    SameLineSetMembers(a, b);
    if !LineIn(l, a) {
      var a', b' := a + [l], b + [l];
      forall x ensures LineIn(x, a') <==> LineIn(x, b') {
        LineInAppend(x, a, l);
        LineInAppend(x, b, l);
      }
      forall k | 0 <= k < |a'| ensures LineIn(a'[k], b') { LineInSelf(a', k); }
      forall k | 0 <= k < |b'| ensures LineIn(b'[k], a') { LineInSelf(b', k); }
    }
  }

  /** Removing the same line from two lists keeps the first list's lines inside the second. */
  lemma RemoveKeepsSubset(a: seq<Line>, b: seq<Line>, l: Line)
    requires NoDupLines(a) && NoDupLines(b) && forall k :: 0 <= k < |a| ==> LineIn(a[k], b)
    ensures forall k :: 0 <= k < |RemoveFirst(a, l)| ==> LineIn(RemoveFirst(a, l)[k], RemoveFirst(b, l))
  {
    RemoveFirstContents(a, l);
    RemoveFirstContents(b, l);
    var a' := RemoveFirst(a, l);
    forall k | 0 <= k < |a'| ensures LineIn(a'[k], RemoveFirst(b, l)) {
      LineInSelf(a', k);
      assert LineIn(a'[k], a) && !SameLine(a'[k], l);
      LineInSubset(a'[k], a, b);
    }
  }

  /** Removing the same line from two lists with the same lines leaves lists with the same lines. */
  lemma SameLineSetRemove(a: seq<Line>, b: seq<Line>, l: Line)
    requires SameLineSet(a, b) && NoDupLines(a) && NoDupLines(b)
    ensures SameLineSet(RemoveFirst(a, l), RemoveFirst(b, l))
  {
    RemoveKeepsSubset(a, b, l);
    RemoveKeepsSubset(b, a, l);
    RemoveFirstContents(a, l);
    RemoveFirstContents(b, l);
    assert LineIn(l, a) <==> LineIn(l, b) by {
      if LineIn(l, a) { LineInSubset(l, a, b); }
      if LineIn(l, b) { LineInSubset(l, b, a); }
    }
  }

  /** connect treats graphs that differ only in line order alike. */
  lemma ConnectSameGraph(g: Graph, h: Graph, i: nat, j: nat)
    requires SameGraph(g, h) && Square(g) && i < |g.nodes| && j < |g.nodes|
    ensures SameGraph(Connect(g, i, j), Connect(h, i, j))
  {
    SameLineSetAppend(g.lines, h.lines, LineBetween(g, i, j));
  }

  /** disconnect treats graphs that differ only in line order alike. */
  lemma DisconnectSameGraph(g: Graph, h: Graph, i: nat, j: nat)
    requires SameGraph(g, h) && Valid(g) && Valid(h) && i < |g.nodes| && j < |g.nodes|
    ensures SameGraph(Disconnect(g, i, j), Disconnect(h, i, j))
  {
    var l := LineBetween(g, i, j);
    SameLineSetMembers(g.lines, h.lines);
    if LineIn(l, g.lines) {
      SameLineSetRemove(g.lines, h.lines, l);
    }
  }

  /** Distinct points and no lines make a valid graph. */
  lemma EmptyGraphValid(ns: seq<Node>)
    requires DistinctCoords(ns)
    ensures Valid(Graph(ns, [], ZeroMatrix(|ns|)))
  {
    var g := Graph(ns, [], ZeroMatrix(|ns|));
    forall i, j | 0 <= i < |ns| && 0 <= j < |ns| ensures g.adj[i][j] == 0 && !LineIn(LineBetween(g, i, j), g.lines) {
    }
  }

  // ---------------------------------------------------------------- lemmas: nodes

  /**
    * addNode of a new node appends it and grows the matrix by a zero row and column, keeping
    * every old entry.
    */
  lemma AddNodeGrows(g: Graph, v: Node)
    requires Square(g) && v !in g.nodes
    ensures var h := AddNode(g, v);
      h.nodes == g.nodes + [v] && h.lines == g.lines && Square(h) &&
      (forall a, b :: 0 <= a < |g.nodes| && 0 <= b < |g.nodes| ==> h.adj[a][b] == g.adj[a][b]) &&
      (forall k :: 0 <= k <= |g.nodes| ==> h.adj[|g.nodes|][k] == 0 && h.adj[k][|g.nodes|] == 0)
  {
  }

  /** A node at a new position can be added without breaking the invariant. */
  lemma AddNodeValid(g: Graph, v: Node)
    requires Valid(g) && v.coord !in Coords(g.nodes)
    ensures Valid(AddNode(g, v))
  {
    assert v !in g.nodes;
    var h := AddNode(g, v);
    AddNodeGrows(g, v);
    var n := |g.nodes|;
    forall a, b | 0 <= a < |h.nodes| && 0 <= b < |h.nodes|
      ensures h.adj[a][b] == 1 <==> LineIn(LineBetween(h, a, b), h.lines)
    {
      if a < n && b < n {
        assert LineBetween(h, a, b) == LineBetween(g, a, b);
      } else {
        forall k | 0 <= k < |g.lines| ensures !SameLine(g.lines[k], LineBetween(h, a, b)) {
          assert g.lines[k].p1 != v.coord && g.lines[k].p2 != v.coord;
        }
      }
    }
    assert Coords(g.nodes) <= Coords(h.nodes);
  }

  lemma AddNodePresent(g: Graph, v: Node)
    requires v in g.nodes
    ensures AddNode(g, v) == g
  {
  }

  /** removeNode deletes row i and column i and keeps every other entry in place. */
  lemma RemoveNodeKeeps(g: Graph, i: nat)
    requires Square(g) && i < |g.nodes|
    ensures var h := RemoveNode(g, i);
      Square(h) && |h.nodes| == |g.nodes| - 1 && h.lines == g.lines &&
      forall a, b :: 0 <= a < |h.nodes| && 0 <= b < |h.nodes| ==>
        h.nodes[a] == g.nodes[Skip(a, i)] && h.adj[a][b] == g.adj[Skip(a, i)][Skip(b, i)]
  {
  }

  lemma RemoveNodeLockstep(g: Graph, i: nat)
    requires Lockstep(g) && i < |g.nodes|
    ensures Lockstep(RemoveNode(g, i))
  {
    var h := RemoveNode(g, i);
    RemoveNodeKeeps(g, i);
    forall a, b | 0 <= a < |h.nodes| && 0 <= b < |h.nodes|
      ensures h.adj[a][b] == 1 <==> LineIn(LineBetween(h, a, b), h.lines)
    {
      assert LineBetween(h, a, b) == LineBetween(g, Skip(a, i), Skip(b, i));
    }
  }

  lemma RemoveNodeDistinct(g: Graph, i: nat)
    requires Square(g) && DistinctCoords(g.nodes) && i < |g.nodes|
    ensures DistinctCoords(RemoveNode(g, i).nodes)
  {
    var h := RemoveNode(g, i);
    RemoveNodeKeeps(g, i);
    forall a, b | 0 <= a < b < |h.nodes| ensures h.nodes[a].coord != h.nodes[b].coord {
      assert Skip(a, i) < Skip(b, i);
    }
  }

  /** A line of a valid graph runs between two nodes that the matrix connects. */
  /** Conversely, a set matrix entry names a listed line. */
  lemma LineOfEdge(g: Graph, i: nat, j: nat) returns (k: nat)
    requires Lockstep(g) && i < |g.nodes| && j < |g.nodes| && g.adj[i][j] == 1
    ensures k < |g.lines| && SameLine(g.lines[k], LineBetween(g, i, j))
  {
    assert LineIn(LineBetween(g, i, j), g.lines);
    k :| 0 <= k < |g.lines| && SameLine(g.lines[k], LineBetween(g, i, j));
  }

  lemma LineEndsConnected(g: Graph, k: nat) returns (a: nat, b: nat)
    requires Valid(g) && k < |g.lines|
    ensures a < |g.nodes| && b < |g.nodes| && g.lines[k] == LineBetween(g, a, b)
    ensures g.adj[a][b] == 1 && g.adj[b][a] == 1
  {
    var l := g.lines[k];
    var u :| u in g.nodes && u.coord == l.p1;
    var w :| w in g.nodes && w.coord == l.p2;
    a, b := IndexOf(g.nodes, u), IndexOf(g.nodes, w);
    LineInSelf(g.lines, k);
    Symmetric(g, a, b);
  }

  lemma RemoveNodeClosed(g: Graph, i: nat)
    requires Valid(g) && i < |g.nodes|
    requires forall j :: 0 <= j < |g.nodes| ==> g.adj[i][j] == 0
    ensures Closed(RemoveNode(g, i))
  {
    var h := RemoveNode(g, i);
    RemoveNodeKeeps(g, i);
    forall k | 0 <= k < |h.lines| ensures h.lines[k].p1 in Coords(h.nodes) && h.lines[k].p2 in Coords(h.nodes) {
      var a, b := LineEndsConnected(g, k);
      assert a != i && b != i;
      var a', b' := if a < i then a else a - 1, if b < i then b else b - 1;
      assert h.nodes[a'] == g.nodes[a] && h.nodes[b'] == g.nodes[b];
    }
  }

  /** A node with no incident edge can be removed without breaking the invariant. */
  lemma RemoveNodeValid(g: Graph, i: nat)
    requires Valid(g) && i < |g.nodes|
    requires forall j :: 0 <= j < |g.nodes| ==> g.adj[i][j] == 0
    ensures Valid(RemoveNode(g, i))
  {
    RemoveNodeLockstep(g, i);
    RemoveNodeDistinct(g, i);
    RemoveNodeClosed(g, i);
  }
}
