/**
  * Spanning paths described by the order in which they visit the nodes, and the endpoint move of
  * the canonical-path solver: removing the edge (v[i-1], v[i]) and adding (v[0], v[i]) reverses
  * the prefix v[0..i-1] and leaves a spanning path.
  */
module PathOrders {
  import opened Geometry
  import opened GraphModel
  import opened PathSpec

  predicate Consecutive(a: int, b: int)
  {
    a == b + 1 || b == a + 1
  }

  /** o lists each of the positions 0..n-1 exactly once. */
  ghost predicate IsOrder(o: seq<nat>, n: nat)
  {
    |o| == n && Distinct(o) && forall k :: 0 <= k < |o| ==> o[k] < n
  }

  /** The matrix of g joins exactly the consecutive entries of the order o: g is the path o. */
  ghost predicate IsPathOf(g: Graph, o: seq<nat>)
    requires Square(g)
  {
    |g.nodes| >= 2 && IsOrder(o, |g.nodes|) &&
    forall a, b :: 0 <= a < |o| && 0 <= b < |o| ==> (g.adj[o[a]][o[b]] == 1 <==> Consecutive(a, b))
  }

  /** The entries next to entry k of o. */
  function Nbrs(o: seq<nat>, k: nat): set<nat>
    requires k < |o|
  {
    (if k > 0 then {o[k - 1]} else {}) + (if k + 1 < |o| then {o[k + 1]} else {})
  }

  /** The order walked from its far end. */
  function Rev(o: seq<nat>): (r: seq<nat>)
    ensures |r| == |o| && forall a :: 0 <= a < |o| ==> r[a] == o[|o| - 1 - a]
  {
    seq(|o|, a requires 0 <= a < |o| => o[|o| - 1 - a])
  }

  /** Position a of the order after the prefix o[0..i-1] is reversed. */
  function Flip(i: nat, a: nat): nat
    requires a < i || i <= a
  {
    if a < i then i - 1 - a else a
  }

  /** The prefix o[0..i-1] reversed, followed by o[i..]. */
  function Flipped(o: seq<nat>, i: nat): (r: seq<nat>)
    requires i <= |o|
    ensures |r| == |o| && forall a :: 0 <= a < |o| ==> r[a] == o[Flip(i, a)]
  {
    seq(|o|, a requires 0 <= a < |o| => o[Flip(i, a)])
  }

  // ---------------------------------------------------------------- orders

  lemma OrderCovers(o: seq<nat>, n: nat)
    requires IsOrder(o, n)
    ensures forall t :: 0 <= t < n ==> t in o
  {
    DistinctPositions(o, n);
  }

  /** The entry of the order that holds position x. */
  lemma PositionOf(o: seq<nat>, n: nat, x: nat) returns (b: nat)
    requires IsOrder(o, n) && x < n
    ensures b < |o| && o[b] == x
  {
    OrderCovers(o, n);
    assert x in o;
    b :| 0 <= b < |o| && o[b] == x;
  }

  lemma NbrsMember(o: seq<nat>, k: nat, b: nat)
    requires Distinct(o) && k < |o| && b < |o|
    ensures o[b] in Nbrs(o, k) <==> Consecutive(k, b)
  {
  }

  lemma NbrsCard(o: seq<nat>, k: nat)
    requires Distinct(o) && k < |o|
    ensures |Nbrs(o, k)| == (if k > 0 then 1 else 0) + (if k + 1 < |o| then 1 else 0)
  {
    if k > 0 && k + 1 < |o| {
      assert o[k - 1] != o[k + 1];
    }
  }

  /** In the path o, the row of o[k] holds a 1 exactly at the entries next to o[k]. */
  lemma RowIsNbrs(g: Graph, o: seq<nat>, k: nat)
    requires Square(g) && IsPathOf(g, o) && k < |o|
    ensures Ones(g.adj[o[k]]) == Nbrs(o, k)
  {
    forall x ensures x in Ones(g.adj[o[k]]) <==> x in Nbrs(o, k) {
      if x in Ones(g.adj[o[k]]) {
        var b := PositionOf(o, |g.nodes|, x);
        NbrsMember(o, k, b);
      }
      if x in Nbrs(o, k) {
        if k > 0 && x == o[k - 1] {
          assert g.adj[o[k]][o[k - 1]] == 1;
        } else {
          assert g.adj[o[k]][o[k + 1]] == 1;
        }
      }
    }
  }

  /** The two ends of the path o have degree 1 and every other node degree 2. */
  lemma PathDegree(g: Graph, o: seq<nat>, k: nat)
    requires Square(g) && ZeroOne(g) && IsPathOf(g, o) && k < |o|
    ensures Deg(g, o[k]) == if k == 0 || k == |o| - 1 then 1 else 2
  {
    RowSumCountsOnes(g.adj[o[k]]);
    RowIsNbrs(g, o, k);
    NbrsCard(o, k);
  }

  lemma SortedDistinct(r: seq<nat>)
    requires forall a, b :: 0 <= a < b < |r| ==> r[a] < r[b]
    ensures Distinct(r)
  {
  }

  lemma {:induction false} ReachForward(g: Graph, o: seq<nat>, k: nat)
    requires Square(g) && IsPathOf(g, o) && k < |o|
    ensures Reachable(g, o[0], o[k])
  {
    if k == 0 {
      ReachableSelf(g, o[0]);
    } else {
      ReachForward(g, o, k - 1);
      ReachableStep(g, o[0], o[k - 1], o[k]);
    }
  }

  lemma {:induction false} ReachBackward(g: Graph, o: seq<nat>, k: nat)
    requires Square(g) && IsPathOf(g, o) && k < |o|
    ensures Reachable(g, o[|o| - 1], o[k])
    decreases |o| - k
  {
    if k == |o| - 1 {
      ReachableSelf(g, o[k]);
    } else {
      ReachBackward(g, o, k + 1);
      ReachableStep(g, o[|o| - 1], o[k + 1], o[k]);
    }
  }

  /** The degree-1 nodes of the path o are its two ends. */
  lemma PathEnds(g: Graph, o: seq<nat>)
    requires Square(g) && ZeroOne(g) && IsPathOf(g, o)
    ensures Elems(WithDeg(g, 1)) == {o[0], o[|o| - 1]}
    ensures |WithDeg(g, 1)| == 2
  {
    var n := |o|;
    var w1 := WithDeg(g, 1);
    forall x ensures x in Elems(w1) <==> x == o[0] || x == o[n - 1] {
      if x in w1 {
        DegreeOneEnd(g, o, x);
      }
      if x == o[0] || x == o[n - 1] {
        PathDegree(g, o, 0);
        PathDegree(g, o, n - 1);
      }
    }
    SortedDistinct(w1);
    DistinctCard(w1);
    assert |{o[0], o[n - 1]}| == 2;
  }

  lemma DegreeOneEnd(g: Graph, o: seq<nat>, x: nat)
    requires Square(g) && ZeroOne(g) && IsPathOf(g, o) && x in WithDeg(g, 1)
    ensures x == o[0] || x == o[|o| - 1]
  {
    var w1 := WithDeg(g, 1);
    var j :| 0 <= j < |w1| && w1[j] == x;
    var b := PositionOf(o, |o|, x);
    PathDegree(g, o, b);
  }

  /** The degree-2 nodes of the path o are its inner entries. */
  lemma PathInner(g: Graph, o: seq<nat>)
    requires Square(g) && ZeroOne(g) && IsPathOf(g, o)
    ensures |WithDeg(g, 2)| == |g.nodes| - 2
  {
    var n := |o|;
    var w2 := WithDeg(g, 2);
    var inner := o[1..n - 1];
    forall x ensures x in Elems(w2) <==> x in Elems(inner) {
      if x in w2 {
        var j :| 0 <= j < |w2| && w2[j] == x;
        var b := PositionOf(o, n, x);
        PathDegree(g, o, b);
        assert inner[b - 1] == x;
      }
      if x in inner {
        var b :| 0 <= b < |inner| && inner[b] == x;
        PathDegree(g, o, b + 1);
      }
    }
    SortedDistinct(w2);
    DistinctCard(w2);
    assert Distinct(inner);
    DistinctCard(inner);
    assert Elems(w2) == Elems(inner);
  }

  /**
    * A path in the sense of an order passes is_spanning_path: its degree-1 nodes are the two ends
    * of the order, and every node is reached from either end.
    */
  lemma PathOfSpanning(g: Graph, o: seq<nat>)
    requires Square(g) && ZeroOne(g) && IsPathOf(g, o)
    ensures SpanningSpec(g)
    ensures Elems(WithDeg(g, 1)) == {o[0], o[|o| - 1]}
  {
    var n := |o|;
    PathEnds(g, o);
    PathInner(g, o);
    var w1 := WithDeg(g, 1);
    forall t | 0 <= t < n ensures Reachable(g, w1[0], t) {
      var b := PositionOf(o, n, t);
      assert w1[0] in Elems(w1);
      if w1[0] == o[0] {
        ReachForward(g, o, b);
      } else {
        ReachBackward(g, o, b);
      }
    }
  }

  /** A path read from its far end is still the same path. */
  lemma RevIsPath(g: Graph, o: seq<nat>)
    requires Square(g) && IsPathOf(g, o)
    ensures IsPathOf(g, Rev(o))
  {
    var r := Rev(o);
    var n := |o|;
    forall a, b | 0 <= a < n && 0 <= b < n ensures (g.adj[r[a]][r[b]] == 1 <==> Consecutive(a, b)) {
      assert g.adj[o[n - 1 - a]][o[n - 1 - b]] == 1 <==> Consecutive(n - 1 - a, n - 1 - b);
    }
  }

  // ---------------------------------------------------------------- from a search order to a path

  /** The entries next to o[k] are connected to it. */
  lemma NbrsConnected(g: Graph, o: seq<nat>, k: nat)
    requires Lockstep(g) && Distinct(o) && (forall m :: 0 <= m < |o| ==> o[m] < |g.nodes|) && k < |o|
    requires forall m :: 0 < m < |o| ==> g.adj[o[m - 1]][o[m]] == 1
    ensures Nbrs(o, k) <= Ones(g.adj[o[k]])
  {
    if k > 0 {
      Symmetric(g, o[k - 1], o[k]);
    }
    if k + 1 < |o| {
      assert g.adj[o[k]][o[k + 1]] == 1;
    }
  }

  /** A node whose degree is no larger than the number of its order neighbours has no other neighbour. */
  lemma RowExactly(g: Graph, o: seq<nat>, k: nat)
    requires Lockstep(g) && Distinct(o) && (forall m :: 0 <= m < |o| ==> o[m] < |g.nodes|) && k < |o|
    requires forall m :: 0 < m < |o| ==> g.adj[o[m - 1]][o[m]] == 1
    requires Deg(g, o[k]) <= |Nbrs(o, k)|
    ensures Ones(g.adj[o[k]]) == Nbrs(o, k)
  {
    NbrsConnected(g, o, k);
    RowSumCountsOnes(g.adj[o[k]]);
    SubsetCard(Nbrs(o, k), Ones(g.adj[o[k]]));
  }

  /** An order whose every row holds exactly its order neighbours is the path it lists. */
  lemma RowsGivePath(g: Graph, o: seq<nat>)
    requires Square(g) && |g.nodes| >= 2 && IsOrder(o, |g.nodes|)
    requires forall k :: 0 <= k < |o| ==> Ones(g.adj[o[k]]) == Nbrs(o, k)
    ensures IsPathOf(g, o)
  {
    forall a, c | 0 <= a < |o| && 0 <= c < |o| ensures (g.adj[o[a]][o[c]] == 1 <==> Consecutive(a, c)) {
      NbrsMember(o, a, c);
      assert o[c] in Ones(g.adj[o[a]]) <==> g.adj[o[a]][o[c]] == 1;
    }
  }

  /** In a chain started at the first degree-1 node, every entry but the last has only its order neighbours. */
  lemma ChainRowInner(g: Graph, o: seq<nat>, k: nat)
    requires Lockstep(g) && SpanningSpec(g) && IsOrder(o, |g.nodes|)
    requires forall m :: 0 < m < |o| ==> g.adj[o[m - 1]][o[m]] == 1
    requires |o| > 0 && o[0] == WithDeg(g, 1)[0] && k + 1 < |o|
    ensures Ones(g.adj[o[k]]) == Nbrs(o, k)
  {
    DegreeShapeDegrees(g);
    NbrsCard(o, k);
    RowExactly(g, o, k);
  }

  /** The second degree-1 node can only be the last entry of such a chain, so the last row is exact too. */
  lemma ChainRowLast(g: Graph, o: seq<nat>)
    requires Lockstep(g) && SpanningSpec(g) && IsOrder(o, |g.nodes|)
    requires forall m :: 0 < m < |o| ==> g.adj[o[m - 1]][o[m]] == 1
    requires |o| > 0 && o[0] == WithDeg(g, 1)[0]
    ensures Ones(g.adj[o[|o| - 1]]) == Nbrs(o, |o| - 1)
  {
    var n := |o|;
    DegreeShapeDegrees(g);
    var b := PositionOf(o, n, WithDeg(g, 1)[1]);
    SecondEndLast(g, o, b);
    NbrsCard(o, n - 1);
    RowExactly(g, o, n - 1);
  }

  /** In such a chain the second degree-1 node sits at the last entry. */
  lemma SecondEndLast(g: Graph, o: seq<nat>, b: nat)
    requires Lockstep(g) && SpanningSpec(g) && IsOrder(o, |g.nodes|)
    requires forall m :: 0 < m < |o| ==> g.adj[o[m - 1]][o[m]] == 1
    requires |o| > 0 && o[0] == WithDeg(g, 1)[0]
    requires b < |o| && |WithDeg(g, 1)| == 2 && o[b] == WithDeg(g, 1)[1]
    ensures b == |o| - 1
  {
    DegreeShapeDegrees(g);
    if b < |o| - 1 {
      ChainRowInner(g, o, b);
      RowSumCountsOnes(g.adj[o[b]]);
      NbrsCard(o, b);
    }
  }

  /**
    * path_node_order's result makes the graph the path it lists: a node list of a spanning path
    * in which each node is connected to the one before it, started at the first degree-1 node,
    * has no other edges.
    */
  lemma ChainIsPath(g: Graph, o: seq<nat>)
    requires Lockstep(g) && SpanningSpec(g) && IsOrder(o, |g.nodes|)
    requires forall m :: 0 < m < |o| ==> g.adj[o[m - 1]][o[m]] == 1
    requires |o| > 0 && o[0] == WithDeg(g, 1)[0]
    ensures IsPathOf(g, o)
  {
    DegreeShapeDegrees(g);
    forall k | 0 <= k < |o| ensures Ones(g.adj[o[k]]) == Nbrs(o, k) {
      if k + 1 < |o| {
        ChainRowInner(g, o, k);
      } else {
        ChainRowLast(g, o);
      }
    }
    RowsGivePath(g, o);
  }

  // ---------------------------------------------------------------- every spanning graph is a path

  /**
    * A walk from the first degree-1 node along which every node but the last has exactly its walk
    * neighbours: the state of following a spanning path from its first end.
    */
  ghost predicate Walked(g: Graph, o: seq<nat>)
    requires Square(g)
  {
    |o| > 0 && Distinct(o) && (forall k :: 0 <= k < |o| ==> o[k] < |g.nodes|) &&
    (forall m :: 0 < m < |o| ==> g.adj[o[m - 1]][o[m]] == 1) &&
    forall k :: 0 <= k < |o| - 1 ==> Ones(g.adj[o[k]]) == Nbrs(o, k)
  }

  /** The nodes of a walk whose last node has no new neighbour are closed under the matrix. */
  lemma WalkSetClosed(g: Graph, o: seq<nat>)
    requires Square(g) && |o| > 0 && forall k :: 0 <= k < |o| ==> o[k] < |g.nodes|
    requires forall k :: 0 <= k < |o| - 1 ==> Ones(g.adj[o[k]]) == Nbrs(o, k)
    requires forall y :: 0 <= y < |g.nodes| && g.adj[o[|o| - 1]][y] == 1 ==> y in o
    ensures forall x, y :: x in Elems(o) && x < |g.nodes| && 0 <= y < |g.nodes| && g.adj[x][y] == 1 ==> y in Elems(o)
  {
    forall x, y | x in Elems(o) && x < |g.nodes| && 0 <= y < |g.nodes| && g.adj[x][y] == 1 ensures y in Elems(o) {
      var k :| 0 <= k < |o| && o[k] == x;
      if k < |o| - 1 {
        assert y in Ones(g.adj[o[k]]);
        assert y in Nbrs(o, k);
        if k > 0 && y == o[k - 1] {
          assert o[k - 1] in o;
        } else {
          assert y == o[k + 1];
          assert o[k + 1] in o;
        }
      }
      assert y in o;
    }
  }

  /** Such a walk from the first degree-1 node of a spanning graph holds every node. */
  lemma WalkClosed(g: Graph, o: seq<nat>)
    requires Square(g) && SpanningSpec(g) && Walked(g, o) && o[0] == WithDeg(g, 1)[0]
    requires forall y :: 0 <= y < |g.nodes| && g.adj[o[|o| - 1]][y] == 1 ==> y in o
    ensures |o| == |g.nodes|
  {
    var n := |g.nodes|;
    var e := Elems(o);
    WalkSetClosed(g, o);
    forall t | 0 <= t < n ensures t in o {
      ClosedHoldsReachable(g, o[0], e, t);
    }
    DistinctPositions(o, n);
  }

  /** Appending a new entry keeps the entries distinct and the rows before the old last one exact. */
  lemma WalkedPrefix(g: Graph, o: seq<nat>, y: nat)
    requires Square(g) && Walked(g, o) && y < |g.nodes| && g.adj[o[|o| - 1]][y] == 1 && y !in o
    ensures Distinct(o + [y]) && (forall k :: 0 <= k < |o + [y]| ==> (o + [y])[k] < |g.nodes|)
    ensures forall m :: 0 < m < |o + [y]| ==> g.adj[(o + [y])[m - 1]][(o + [y])[m]] == 1
    ensures forall k :: 0 <= k < |o| - 1 ==> Ones(g.adj[(o + [y])[k]]) == Nbrs(o + [y], k)
  {
    SnocDistinct(o, y);
    SnocBelow(o, y, |g.nodes|);
    SnocSteps(g, o, y);
    SnocRows(g, o, y);
  }

  lemma SnocBelow(o: seq<nat>, y: nat, n: nat)
    requires (forall k :: 0 <= k < |o| ==> o[k] < n) && y < n
    ensures forall k :: 0 <= k < |o + [y]| ==> (o + [y])[k] < n
  {
    var o' := o + [y];
    forall k | 0 <= k < |o'| ensures o'[k] < n {
      if k < |o| { assert o'[k] == o[k]; }
    }
  }

  lemma SnocSteps(g: Graph, o: seq<nat>, y: nat)
    requires Square(g) && |o| > 0 && (forall k :: 0 <= k < |o| ==> o[k] < |g.nodes|) && y < |g.nodes|
    requires (forall m :: 0 < m < |o| ==> g.adj[o[m - 1]][o[m]] == 1) && g.adj[o[|o| - 1]][y] == 1
    ensures forall m :: 0 < m < |o + [y]| ==> g.adj[(o + [y])[m - 1]][(o + [y])[m]] == 1
  {
    var o' := o + [y];
    forall m | 0 < m < |o'| ensures g.adj[o'[m - 1]][o'[m]] == 1 {
      if m < |o| { assert o'[m - 1] == o[m - 1] && o'[m] == o[m]; }
    }
  }

  lemma SnocRows(g: Graph, o: seq<nat>, y: nat)
    requires Square(g) && (forall k :: 0 <= k < |o| ==> o[k] < |g.nodes|)
    requires forall k :: 0 <= k < |o| - 1 ==> Ones(g.adj[o[k]]) == Nbrs(o, k)
    ensures forall k :: 0 <= k < |o| - 1 ==> Ones(g.adj[(o + [y])[k]]) == Nbrs(o + [y], k)
  {
    forall k | 0 <= k < |o| - 1 ensures Ones(g.adj[(o + [y])[k]]) == Nbrs(o + [y], k) {
      SnocNbrs(o, y, k);
    }
  }

  lemma SnocDistinct(o: seq<nat>, y: nat)
    requires Distinct(o) && y !in o
    ensures Distinct(o + [y])
  {
    var o' := o + [y];
    forall a, b | 0 <= a < b < |o'| ensures o'[a] != o'[b] {
      if b < |o| { assert o'[a] == o[a] && o'[b] == o[b]; }
    }
  }

  /** Appending leaves the neighbours of every entry but the last two as they were. */
  lemma SnocNbrs(o: seq<nat>, y: nat, k: nat)
    requires k + 1 < |o|
    ensures (o + [y])[k] == o[k] && Nbrs(o + [y], k) == Nbrs(o, k)
  {
    var o' := o + [y];
    assert o'[k] == o[k] && o'[k + 1] == o[k + 1];
    if k > 0 { assert o'[k - 1] == o[k - 1]; }
  }

  /** Extending a walk by a new neighbour of its last node keeps it a walk. */
  lemma WalkedSnoc(g: Graph, o: seq<nat>, y: nat)
    requires Lockstep(g) && SpanningSpec(g) && Walked(g, o) && o[0] == WithDeg(g, 1)[0]
    requires y < |g.nodes| && g.adj[o[|o| - 1]][y] == 1 && y !in o
    ensures Walked(g, o + [y])
  {
    var o' := o + [y];
    var last := |o| - 1;
    WalkedPrefix(g, o, y);
    DegreeShapeDegrees(g);
    NbrsCard(o', last);
    if last == 0 {
      assert Deg(g, o[0]) == 1;
    }
    RowExactly(g, o', last);
  }

  /** Following the path from o to its far end. */
  lemma {:induction false} WalkOn(g: Graph, o: seq<nat>) returns (p: seq<nat>)
    requires Lockstep(g) && SpanningSpec(g) && Walked(g, o) && o[0] == WithDeg(g, 1)[0]
    ensures IsPathOf(g, p) && p[0] == o[0]
    decreases |g.nodes| - |o|
  {
    var done, y := WalkNext(g, o);
    if done {
      p := o;
    } else {
      p := WalkOn(g, o + [y]);
    }
  }

  /** Either the walk o already is the whole path, or it extends by a new neighbour y of its last node. */
  lemma WalkNext(g: Graph, o: seq<nat>) returns (done: bool, y: nat)
    requires Lockstep(g) && SpanningSpec(g) && Walked(g, o) && o[0] == WithDeg(g, 1)[0]
    ensures done ==> IsPathOf(g, o)
    ensures !done ==> |o| < |g.nodes| && Walked(g, o + [y]) && (o + [y])[0] == o[0]
  {
    var n := |g.nodes|;
    DistinctPositions(o, n);
    var v := o[|o| - 1];
    if forall y :: 0 <= y < n && g.adj[v][y] == 1 ==> y in o {
      WalkClosed(g, o);
      ChainIsPath(g, o);
      done, y := true, 0;
    } else {
      y :| 0 <= y < n && g.adj[v][y] == 1 && y !in o;
      WalkedSnoc(g, o, y);
      DistinctPositions(o + [y], n);
      done := false;
    }
  }

  /**
    * The converse of PathOfSpanning: a graph that is_spanning_path accepts is the path of some
    * order of its nodes, starting at its first degree-1 node.
    */
  lemma SpanningIsPath(g: Graph) returns (o: seq<nat>)
    requires Lockstep(g) && SpanningSpec(g)
    ensures IsPathOf(g, o) && o[0] == WithDeg(g, 1)[0]
  {
    DegreeShapeDegrees(g);
    var s := WithDeg(g, 1)[0];
    assert Walked(g, [s]);
    o := WalkOn(g, [s]);
  }

  /** A path has no loop at any node. */
  lemma PathNoLoop(g: Graph, o: seq<nat>, i: nat)
    requires Square(g) && ZeroOne(g) && IsPathOf(g, o) && i < |g.nodes|
    ensures g.adj[i][i] == 0
  {
    var b := PositionOf(o, |g.nodes|, i);
    assert g.adj[o[b]][o[b]] == 1 <==> Consecutive(b, b);
  }

  // ---------------------------------------------------------------- the endpoint move

  /** The matrix entry between entries a and b of the flipped order. */
  lemma FlippedEntry(g: Graph, o: seq<nat>, i: nat, a: nat, b: nat)
    requires Square(g) && IsPathOf(g, o) && 2 <= i < |o| && a < |o| && b < |o|
    ensures
      var adj := SetSym(SetSym(g.adj, o[i - 1], o[i], 0), o[0], o[i], 1);
      var r := Flipped(o, i);
      adj[r[a]][r[b]] == 1 <==> Consecutive(a, b)
  {
    var adj0 := SetSym(g.adj, o[i - 1], o[i], 0);
    var r := Flipped(o, i);
    var p, q := Flip(i, a), Flip(i, b);
    SetSymAt(g.adj, o[i - 1], o[i], 0, o[p], o[q]);
    SetSymAt(adj0, o[0], o[i], 1, o[p], o[q]);
    assert o[p] == o[0] <==> p == 0;
    assert o[q] == o[0] <==> q == 0;
    assert o[p] == o[i] <==> p == i;
    assert o[q] == o[i] <==> q == i;
    assert o[p] == o[i - 1] <==> p == i - 1;
    assert o[q] == o[i - 1] <==> q == i - 1;
    assert g.adj[o[p]][o[q]] == 1 <==> Consecutive(p, q);
  }

  /**
    * boundary_alg's swap on the path v[0..n-1] from its anchor end v[0]: disconnecting v[i-1] from
    * v[i] and connecting v[0] to v[i] gives the path v[i-1], ..., v[0], v[i], ..., v[n-1].
    */
  lemma ReversalIsPath(g: Graph, o: seq<nat>, i: nat)
    requires Square(g) && IsPathOf(g, o) && 2 <= i < |o|
    ensures Square(Connect(Disconnect(g, o[i - 1], o[i]), o[0], o[i]))
    ensures IsPathOf(Connect(Disconnect(g, o[i - 1], o[i]), o[0], o[i]), Flipped(o, i))
  {
    var h := Connect(Disconnect(g, o[i - 1], o[i]), o[0], o[i]);
    var r := Flipped(o, i);
    var n := |o|;
    assert h.adj == SetSym(SetSym(g.adj, o[i - 1], o[i], 0), o[0], o[i], 1);
    forall a, b | 0 <= a < n && 0 <= b < n ensures (h.adj[r[a]][r[b]] == 1 <==> Consecutive(a, b)) {
      FlippedEntry(g, o, i, a, b);
    }
    forall a, b | 0 <= a < b < n ensures r[a] != r[b] {
      assert Flip(i, a) != Flip(i, b);
    }
  }

  /** Hence the swap from the anchor end always leaves a spanning path; only a crossing can make it revert. */
  lemma BoundarySwapSpans(g: Graph, o: seq<nat>, i: nat)
    requires Square(g) && ZeroOne(g) && IsPathOf(g, o) && 2 <= i < |o|
    ensures Square(Connect(Disconnect(g, o[i - 1], o[i]), o[0], o[i]))
    ensures SpanningSpec(Connect(Disconnect(g, o[i - 1], o[i]), o[0], o[i]))
  {
    var h := Connect(Disconnect(g, o[i - 1], o[i]), o[0], o[i]);
    ReversalIsPath(g, o, i);
    forall x, y | 0 <= x < |h.nodes| && 0 <= y < |h.nodes| ensures h.adj[x][y] == 0 || h.adj[x][y] == 1 {
      SetSymAt(g.adj, o[i - 1], o[i], 0, x, y);
      SetSymAt(SetSym(g.adj, o[i - 1], o[i], 0), o[0], o[i], 1, x, y);
    }
    PathOfSpanning(h, Flipped(o, i));
  }

  // ---------------------------------------------------------------- the number of lines

  /** Line a of a valid path lies between consecutive entries k, k+1 of its order. */
  lemma SlotOf(g: Graph, o: seq<nat>, a: nat) returns (k: nat)
    requires Valid(g) && IsPathOf(g, o) && a < |g.lines|
    ensures k + 1 < |o| && SameLine(g.lines[a], LineBetween(g, o[k], o[k + 1]))
  {
    var x, y := LineEndsConnected(g, a);
    var p := PositionOf(o, |g.nodes|, x);
    var q := PositionOf(o, |g.nodes|, y);
    assert Consecutive(p, q);
    k := if p < q then p else q;
  }

  /** Two lines between consecutive pairs of a path are the same line only for the same pair. */
  lemma SlotUnique(g: Graph, o: seq<nat>, k: nat, m: nat)
    requires Valid(g) && IsPathOf(g, o) && k + 1 < |o| && m + 1 < |o|
    requires SameLine(LineBetween(g, o[k], o[k + 1]), LineBetween(g, o[m], o[m + 1]))
    ensures k == m
  {
    SameLineBetween(g, o[k], o[k + 1], o[m], o[m + 1]);
  }

  /** Entry a of s is the slot of line a: line a lies between entries s[a] and s[a] + 1 of o. */
  ghost predicate Slotted(g: Graph, o: seq<nat>, s: seq<nat>)
  {
    |s| <= |g.lines| &&
    forall a :: 0 <= a < |s| ==>
      s[a] + 1 < |o| && o[s[a]] < |g.nodes| && o[s[a] + 1] < |g.nodes| &&
      SameLine(g.lines[a], LineBetween(g, o[s[a]], o[s[a] + 1]))
  }

  lemma SlottedSnoc(g: Graph, o: seq<nat>, p: seq<nat>, k: nat)
    requires Slotted(g, o, p) && |p| < |g.lines| && k + 1 < |o| && o[k] < |g.nodes| && o[k + 1] < |g.nodes|
    requires SameLine(g.lines[|p|], LineBetween(g, o[k], o[k + 1]))
    ensures Slotted(g, o, p + [k])
  {
    var s := p + [k];
    forall a | 0 <= a < |s|
      ensures s[a] + 1 < |o| && o[s[a]] < |g.nodes| && o[s[a] + 1] < |g.nodes|
      ensures SameLine(g.lines[a], LineBetween(g, o[s[a]], o[s[a] + 1]))
    {
      if a < |p| { assert s[a] == p[a]; }
    }
  }

  /** The slots of the first m lines, one per line. */
  lemma {:induction false} SlotsOf(g: Graph, o: seq<nat>, m: nat) returns (s: seq<nat>)
    requires Valid(g) && IsPathOf(g, o) && m <= |g.lines|
    ensures |s| == m && Slotted(g, o, s)
  {
    if m == 0 {
      s := [];
    } else {
      var p := SlotsOf(g, o, m - 1);
      var k := SlotOf(g, o, m - 1);
      SlottedSnoc(g, o, p, k);
      s := p + [k];
    }
  }

  /** Different lines have different slots. */
  lemma SlotsDistinct(g: Graph, o: seq<nat>, s: seq<nat>)
    requires Valid(g) && IsPathOf(g, o) && |s| == |g.lines| && Slotted(g, o, s)
    ensures Distinct(s)
  {
    forall a, b | 0 <= a < b < |s| ensures s[a] != s[b] {
      if s[a] == s[b] {
        var lb := LineBetween(g, o[s[a]], o[s[a] + 1]);
        SameLineUnordered(lb.p1, lb.p2, g.lines[b], lb);
        SameLineTransitive(g.lines[a], lb, g.lines[b]);
        assert false;
      }
    }
  }

  /** Every consecutive pair of the path is the slot of some line. */
  lemma SlotsCover(g: Graph, o: seq<nat>, s: seq<nat>, k: nat)
    requires Valid(g) && IsPathOf(g, o) && |s| == |g.lines| && k + 1 < |o| && Slotted(g, o, s)
    ensures k in s
  {
    assert g.adj[o[k]][o[k + 1]] == 1;
    var a := LineOfEdge(g, o[k], o[k + 1]);
    SlotsMatch(g, o, s[a], k, g.lines[a]);
  }

  /** A line between two consecutive pairs of a path fixes the pair. */
  lemma SlotsMatch(g: Graph, o: seq<nat>, m: nat, k: nat, l: Line)
    requires Valid(g) && IsPathOf(g, o) && k + 1 < |o| && m + 1 < |o|
    requires SameLine(l, LineBetween(g, o[m], o[m + 1])) && SameLine(l, LineBetween(g, o[k], o[k + 1]))
    ensures k == m
  {
    var lm := LineBetween(g, o[m], o[m + 1]);
    SameLineUnordered(lm.p1, lm.p2, l, lm);
    SameLineTransitive(lm, l, LineBetween(g, o[k], o[k + 1]));
    SlotUnique(g, o, m, k);
  }

  /** A valid path on n nodes has n - 1 lines, so its edge difference |lines| + 1 - |nodes| is 0. */
  lemma PathLineCount(g: Graph, o: seq<nat>)
    requires Valid(g) && IsPathOf(g, o)
    ensures |g.lines| == |g.nodes| - 1
  {
    var n := |g.nodes|;
    var s := SlotsOf(g, o, |g.lines|);
    SlotsDistinct(g, o, s);
    forall k | 0 <= k < n - 1 ensures k in s {
      SlotsCover(g, o, s, k);
    }
    DistinctPositions(s, n - 1);
  }

  /** So a valid graph that is_spanning_path accepts has |nodes| - 1 lines and no loop. */
  lemma SpanningShape(g: Graph)
    requires Valid(g) && SpanningSpec(g)
    ensures |g.lines| == |g.nodes| - 1
    ensures forall i :: 0 <= i < |g.nodes| ==> g.adj[i][i] == 0
  {
    var o := SpanningIsPath(g);
    PathLineCount(g, o);
    forall i | 0 <= i < |g.nodes| ensures g.adj[i][i] == 0 {
      PathNoLoop(g, o, i);
    }
  }
}
