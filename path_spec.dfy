/**
  * What it means for a graph to be a spanning path and for its lines to cross: the
  * specifications that the breadth-first checks and the crossing scan of the Path class
  * are proved against.
  */
module PathSpec {
  import opened Geometry
  import opened GraphModel

  // ---------------------------------------------------------------- degrees

  /** Positions of a matrix row that hold a 1. */
  function Ones(r: seq<int>): set<nat>
  {
    set k: nat | k < |r| && r[k] == 1
  }

  /** For a 0/1 row, the row sum (the source's degree) counts the neighbours. */
  lemma {:induction false} RowSumCountsOnes(r: seq<int>)
    requires forall k :: 0 <= k < |r| ==> r[k] == 0 || r[k] == 1
    ensures RowSum(r) == |Ones(r)|
  {
    if r != [] {
      var p := r[..|r| - 1];
      RowSumCountsOnes(p);
      assert Ones(r) == Ones(p) + (if r[|r| - 1] == 1 then {|r| - 1} else {});
    }
  }

  /** Positions among the first m nodes whose degree is d, in node-list order. */
  function DegIdx(g: Graph, d: int, m: nat): (r: seq<nat>)
    requires Square(g) && m <= |g.nodes|
    ensures |r| <= m
    ensures forall k :: 0 <= k < |r| ==> r[k] < m && Deg(g, r[k]) == d
    ensures forall i :: 0 <= i < m && Deg(g, i) == d ==> i in r
    ensures forall a, b :: 0 <= a < b < |r| ==> r[a] < r[b]
  {
    if m == 0 then [] else DegIdx(g, d, m - 1) + (if Deg(g, m - 1) == d then [m - 1] else [])
  }

  /** The source's `[v for v in nodes if deg(v) == d]`, as positions. */
  function WithDeg(g: Graph, d: int): seq<nat>
    requires Square(g)
  {
    DegIdx(g, d, |g.nodes|)
  }

  /** The degree test of is_spanning_path: two nodes of degree 1, all the others of degree 2. */
  predicate DegreeShape(g: Graph)
    requires Square(g)
  {
    |WithDeg(g, 1)| == 2 && |WithDeg(g, 2)| == |g.nodes| - 2
  }

  lemma {:induction false} DegreeCountBound(g: Graph, m: nat)
    requires Square(g) && m <= |g.nodes|
    ensures |DegIdx(g, 1, m)| + |DegIdx(g, 2, m)| <= m
    ensures |DegIdx(g, 1, m)| + |DegIdx(g, 2, m)| == m ==> forall i :: 0 <= i < m ==> Deg(g, i) == 1 || Deg(g, i) == 2
  {
    if m > 0 {
      DegreeCountBound(g, m - 1);
    }
  }

  /** Passing the degree test means at least two nodes, each of degree 1 or 2. */
  lemma DegreeShapeDegrees(g: Graph)
    requires Square(g) && DegreeShape(g)
    ensures |g.nodes| >= 2
    ensures forall i :: 0 <= i < |g.nodes| ==> Deg(g, i) == 1 || Deg(g, i) == 2
    ensures WithDeg(g, 1)[0] < WithDeg(g, 1)[1] < |g.nodes|
  {
    DegreeCountBound(g, |g.nodes|);
  }

  // ---------------------------------------------------------------- reachability

  /** A sequence of node positions in which each is connected to the next. */
  ghost predicate IsWalk(g: Graph, w: seq<nat>)
    requires Square(g)
  {
    |w| > 0 && (forall k :: 0 <= k < |w| ==> w[k] < |g.nodes|) &&
    forall k :: 0 < k < |w| ==> g.adj[w[k - 1]][w[k]] == 1
  }

  ghost predicate Reachable(g: Graph, s: nat, t: nat)
    requires Square(g)
  {
    exists w :: IsWalk(g, w) && w[0] == s && w[|w| - 1] == t
  }

  lemma ReachableSelf(g: Graph, s: nat)
    requires Square(g) && s < |g.nodes|
    ensures Reachable(g, s, s)
  {
    assert IsWalk(g, [s]);
  }

  lemma ReachableStep(g: Graph, s: nat, x: nat, y: nat)
    requires Square(g) && Reachable(g, s, x) && x < |g.nodes| && y < |g.nodes| && g.adj[x][y] == 1
    ensures Reachable(g, s, y)
  {
    var w :| IsWalk(g, w) && w[0] == s && w[|w| - 1] == x;
    assert IsWalk(g, w + [y]);
    assert (w + [y])[0] == s;
  }

  /** Every position of a walk that starts in a set closed under the matrix lies in that set. */
  lemma {:induction false} WalkStaysInClosed(g: Graph, w: seq<nat>, e: set<nat>)
    requires Square(g) && IsWalk(g, w) && w[0] in e
    requires forall x, y :: x in e && x < |g.nodes| && 0 <= y < |g.nodes| && g.adj[x][y] == 1 ==> y in e
    ensures w[|w| - 1] in e
  {
    if |w| > 1 {
      var p := w[..|w| - 1];
      assert IsWalk(g, p);
      WalkStaysInClosed(g, p, e);
      assert w[|w| - 2] == p[|p| - 1];
    }
  }

  lemma ClosedHoldsReachable(g: Graph, s: nat, e: set<nat>, t: nat)
    requires Square(g) && s in e && Reachable(g, s, t)
    requires forall x, y :: x in e && x < |g.nodes| && 0 <= y < |g.nodes| && g.adj[x][y] == 1 ==> y in e
    ensures t in e
  {
    var w :| IsWalk(g, w) && w[0] == s && w[|w| - 1] == t;
    WalkStaysInClosed(g, w, e);
  }

  /**
    * What is_spanning_path decides: the degree test holds and every node can be reached
    * from the first node of degree 1.
    */
  ghost predicate SpanningSpec(g: Graph)
    requires Square(g)
  {
    DegreeShape(g) && forall t :: 0 <= t < |g.nodes| ==> Reachable(g, WithDeg(g, 1)[0], t)
  }

  /** The degree lists read only the node list and the matrix. */
  lemma {:induction false} DegIdxFrame(g: Graph, h: Graph, d: int, m: nat)
    requires Square(g) && g.nodes == h.nodes && g.adj == h.adj && m <= |g.nodes|
    ensures DegIdx(g, d, m) == DegIdx(h, d, m)
  {
    if m > 0 {
      DegIdxFrame(g, h, d, m - 1);
      assert Deg(g, m - 1) == Deg(h, m - 1);
    }
  }

  /** is_spanning_path reads only the node list and the matrix, never the line list. */
  lemma SpanningSpecFrame(g: Graph, h: Graph)
    requires Square(g) && g.nodes == h.nodes && g.adj == h.adj
    ensures SpanningSpec(g) <==> SpanningSpec(h)
  {
    DegIdxFrame(g, h, 1, |g.nodes|);
    DegIdxFrame(g, h, 2, |g.nodes|);
    forall s, t ensures Reachable(g, s, t) <==> Reachable(h, s, t) {
      if Reachable(g, s, t) {
        var w :| IsWalk(g, w) && w[0] == s && w[|w| - 1] == t;
        assert IsWalk(h, w);
      }
      if Reachable(h, s, t) {
        var w :| IsWalk(h, w) && w[0] == s && w[|w| - 1] == t;
        assert IsWalk(g, w);
      }
    }
  }

  // ---------------------------------------------------------------- counting distinct positions

  predicate Distinct(s: seq<nat>)
  {
    forall a, b :: 0 <= a < b < |s| ==> s[a] != s[b]
  }

  function Range(n: nat): (r: set<nat>)
    ensures forall k: nat :: k in r <==> k < n
  {
    if n == 0 then {} else Range(n - 1) + {n - 1}
  }

  lemma {:induction false} RangeCard(n: nat)
    ensures |Range(n)| == n
  {
    if n == 0 {
      assert Range(n) == {};
    } else {
      var r := Range(n - 1);
      RangeCard(n - 1);
      assert n - 1 !in r;
      CardAddOne(r, n - 1);
      assert Range(n) == r + {n - 1};
    }
  }

  lemma CardAddOne(s: set<nat>, x: nat)
    requires x !in s
    ensures |s + {x}| == |s| + 1
  {
  }

  function Elems(s: seq<nat>): set<nat>
  {
    set k | k in s
  }

  lemma {:induction false} DistinctCard(s: seq<nat>)
    requires Distinct(s)
    ensures |Elems(s)| == |s|
  {
    if s != [] {
      var p := s[..|s| - 1];
      assert Distinct(p);
      DistinctCard(p);
      assert Elems(s) == Elems(p) + {s[|s| - 1]};
      assert s[|s| - 1] !in Elems(p);
    }
  }

  lemma SubsetCard(a: set<nat>, b: set<nat>)
    requires a <= b
    ensures |a| <= |b|
    ensures |a| == |b| ==> a == b
  {
    assert b == a + (b - a);
    if |a| == |b| {
      assert |b - a| == 0;
    }
  }

  /**
    * Distinct positions below n number at most n, and exactly n of them cover every position.
    */
  lemma DistinctPositions(s: seq<nat>, n: nat)
    requires Distinct(s) && forall k :: 0 <= k < |s| ==> s[k] < n
    ensures |s| <= n
    ensures |s| == n <==> forall t :: 0 <= t < n ==> t in s
  {
    var e := Elems(s);
    DistinctCard(s);
    RangeCard(n);
    assert e <= Range(n);
    SubsetCard(e, Range(n));
    if forall t :: 0 <= t < n ==> t in s {
      CoveringIsRange(s, n);
    }
    if |s| == n {
      forall t | 0 <= t < n ensures t in s {
        assert t in Range(n);
        assert t in e;
      }
    }
  }

  lemma CoveringIsRange(s: seq<nat>, n: nat)
    requires forall k :: 0 <= k < |s| ==> s[k] < n
    requires forall t :: 0 <= t < n ==> t in s
    ensures Elems(s) == Range(n)
  {
    forall t | t in Range(n) ensures t in Elems(s) {
      assert t in s;
    }
  }

  // ---------------------------------------------------------------- crossings

  /** Some two lines of the list cross. */
  predicate HasCrossing(lines: seq<Line>)
  {
    exists a, b :: 0 <= a < b < |lines| && Intersect(lines[a], lines[b])
  }

  /** The line at position k crosses another line of the list. */
  predicate CrossesOther(lines: seq<Line>, k: nat)
    requires k < |lines|
  {
    exists m :: 0 <= m < |lines| && m != k && Intersect(lines[k], lines[m])
  }

  /** Two different positions whose lines cross witness a crossing, in either order. */
  lemma CrossingAt(lines: seq<Line>, k: nat, m: nat)
    requires k < |lines| && m < |lines| && k != m && Intersect(lines[k], lines[m])
    ensures HasCrossing(lines)
  {
    IntersectSymmetric(lines[k], lines[m]);
    if k < m {
      assert Intersect(lines[k], lines[m]);
    } else {
      assert Intersect(lines[m], lines[k]);
    }
  }

  lemma HasCrossingWitness(lines: seq<Line>, k: nat)
    requires k < |lines| && CrossesOther(lines, k)
    ensures HasCrossing(lines)
  {
    var m :| 0 <= m < |lines| && m != k && Intersect(lines[k], lines[m]);
    CrossingAt(lines, k, m);
  }

  /** Every line ends at a point of ps. */
  predicate EndsIn(lines: seq<Line>, ps: set<Point>)
  {
    forall k :: 0 <= k < |lines| ==> lines[k].p1 in ps && lines[k].p2 in ps
  }

  /** In general position, the crossing test sees lines only up to endpoint order. */
  lemma IntersectUpToSameLine(l1: Line, l2: Line, m1: Line, m2: Line, ps: set<Point>)
    requires SameLine(l1, l2) && SameLine(m1, m2) && GeneralPosition(ps)
    requires l1.p1 in ps && l1.p2 in ps && m1.p1 in ps && m1.p2 in ps
    ensures Intersect(l1, m1) == Intersect(l2, m2)
  {
    GeneralPositionSubset(ps, {l1.p1, l1.p2, m1.p1, m1.p2});
    IntersectSameLine(l1, l2, m1);
    assert {l2.p1, l2.p2, m1.p1, m1.p2} == {l1.p1, l1.p2, m1.p1, m1.p2};
    IntersectSameLineSecond(l2, m1, m2);
  }

  lemma MatchesDiffer(x: Line, y: Line, u: Line, v: Line)
    requires SameLine(x, u) && SameLine(y, v) && !SameLine(x, y)
    ensures u != v
  {
  }

  /** A line of one list has an equal line in a list holding the same lines. */
  lemma MatchIn(a: seq<Line>, b: seq<Line>, k: nat) returns (k': nat)
    requires SameLineSet(a, b) && k < |a|
    ensures k' < |b| && SameLine(a[k], b[k'])
  {
    k' :| 0 <= k' < |b| && SameLine(b[k'], a[k]);
  }

  lemma HasCrossingTransfer(a: seq<Line>, b: seq<Line>, ps: set<Point>)
    requires SameLineSet(a, b) && NoDupLines(a)
    requires GeneralPosition(ps) && EndsIn(a, ps)
    requires HasCrossing(a)
    ensures HasCrossing(b)
  {
    var p, q :| 0 <= p < q < |a| && Intersect(a[p], a[q]);
    var p' := MatchIn(a, b, p);
    var q' := MatchIn(a, b, q);
    NoDupPair(a, p, q);
    MatchesDiffer(a[p], a[q], b[p'], b[q']);
    IntersectUpToSameLine(a[p], b[p'], a[q], b[q'], ps);
    CrossingAt(b, p', q');
  }

  /**
    * With the points in general position, whether some lines cross does not depend on the
    * order of the list or on the order in which each line stores its endpoints.
    */
  lemma HasCrossingSameLineSet(a: seq<Line>, b: seq<Line>, ps: set<Point>)
    requires SameLineSet(a, b) && NoDupLines(a) && NoDupLines(b)
    requires GeneralPosition(ps) && EndsIn(a, ps) && EndsIn(b, ps)
    ensures HasCrossing(a) <==> HasCrossing(b)
  {
    if HasCrossing(a) {
      HasCrossingTransfer(a, b, ps);
    }
    if HasCrossing(b) {
      HasCrossingTransfer(b, a, ps);
    }
  }
}
