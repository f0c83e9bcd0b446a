/**
  * Convex-layer peeling (compute_ch): the node list is peeled hull by hull, each hull becoming
  * a layer graph whose lines join consecutive hull nodes and close the ring. The Graham scan
  * itself works on floating-point angles and is a parameter here: any function that returns a
  * non-empty list of distinct nodes drawn from its input.
  */
module Layers {
  import opened Geometry
  import opened GraphModel

  // ---------------------------------------------------------------- node lists

  predicate NoDupNodes(h: seq<Node>)
  {
    forall a, b :: 0 <= a < b < |h| ==> h[a] != h[b]
  }

  /** A reordering of a list without repeats has no repeats. */
  lemma ShuffledNoDup(s: seq<Node>, r: seq<Node>)
    requires NoDupNodes(s) && multiset(r) == multiset(s)
    ensures NoDupNodes(r)
  {
    forall v ensures multiset(s)[v] <= 1 {
      CountAtMostOne(s, v);
    }
    forall a, b | 0 <= a < b < |r| ensures r[a] != r[b] {
      RepeatCount(r, a, b);
    }
  }

  /** An element at two positions is counted at least twice. */
  lemma RepeatCount(r: seq<Node>, a: nat, b: nat)
    requires a < b < |r|
    ensures r[a] == r[b] ==> multiset(r)[r[a]] >= 2
  {
    assert r == r[..b] + r[b..];
    assert r[a] in r[..b] && r[b] in r[b..];
    assert multiset(r) == multiset(r[..b]) + multiset(r[b..]);
  }

  lemma {:induction false} CountAtMostOne(s: seq<Node>, v: Node)
    requires NoDupNodes(s)
    ensures multiset(s)[v] <= 1
  {
    if s != [] {
      assert s == [s[0]] + s[1..];
      assert NoDupNodes(s[1..]) by {
        forall a, b | 0 <= a < b < |s[1..]| ensures s[1..][a] != s[1..][b] {
          assert s[1..][a] == s[a + 1] && s[1..][b] == s[b + 1];
        }
      }
      CountAtMostOne(s[1..], v);
      if v == s[0] {
        assert v !in s[1..] by {
          forall j | 0 <= j < |s[1..]| ensures s[1..][j] != v {
            assert s[1..][j] == s[j + 1];
          }
        }
      }
    }
  }

  /** What the peeling needs of the hull of ns. */
  ghost predicate HullOk(ns: seq<Node>, h: seq<Node>)
  {
    |h| > 0 && NoDupNodes(h) && forall v :: v in h ==> v in ns
  }

  /** The hull is only asked for lists of three or more nodes. */
  ghost predicate HullSpec(hull: seq<Node> -> seq<Node>)
  {
    forall ns :: |ns| >= 3 ==> HullOk(ns, hull(ns))
  }

  /** [node for node in s if not node in h] */
  function Without(s: seq<Node>, h: seq<Node>): (r: seq<Node>)
    ensures forall v :: v in r <==> v in s && v !in h
    ensures |r| <= |s|
    ensures NoDupNodes(s) ==> NoDupNodes(r)
  {
    if s == [] then []
    else
      var rest := Without(s[1..], h);
      assert NoDupNodes(s) ==> s[0] !in s[1..] by {
        if NoDupNodes(s) {
          forall k | 0 <= k < |s[1..]| ensures s[1..][k] != s[0] {
            assert s[1..][k] == s[k + 1];
          }
        }
      }
      assert NoDupNodes(s) ==> NoDupNodes(s[1..]) by {
        if NoDupNodes(s) {
          forall a, b | 0 <= a < b < |s[1..]| ensures s[1..][a] != s[1..][b] {
            assert s[1..][a] == s[a + 1] && s[1..][b] == s[b + 1];
          }
        }
      }
      if s[0] in h then rest else [s[0]] + rest
  }

  /** Filtering out a list that shares a node with s leaves fewer nodes. */
  lemma {:induction false} WithoutShrinks(s: seq<Node>, h: seq<Node>, v: Node)
    requires v in s && v in h
    ensures |Without(s, h)| < |s|
  {
    if s[0] != v {
      WithoutShrinks(s[1..], h, v);
    }
  }

  /** Distinct nodes drawn from a list with distinct coordinates have distinct coordinates. */
  lemma DistinctDrawn(ns: seq<Node>, h: seq<Node>)
    requires DistinctCoords(ns) && NoDupNodes(h) && forall v :: v in h ==> v in ns
    ensures DistinctCoords(h)
  {
    forall a, b | 0 <= a < b < |h| ensures h[a].coord != h[b].coord {
      var p := IndexOf(ns, h[a]);
      var q := IndexOf(ns, h[b]);
      CoordsDistinctAt(ns, p, q);
    }
  }

  // ---------------------------------------------------------------- one layer

  /** Positions a and b are next to each other on the closed ring of n hull nodes. */
  predicate RingPair(n: nat, a: nat, b: nat)
  {
    a + 1 == b || b + 1 == a || (a == 0 && b == n - 1) || (b == 0 && a == n - 1)
  }

  /** Positions a and b are next to each other among the first i + 1 hull nodes. */
  predicate ChainPair(i: nat, a: nat, b: nat)
  {
    (a + 1 == b && b <= i) || (b + 1 == a && a <= i)
  }

  /**
    * A hull layer: consecutive hull nodes are joined and the last is joined back to the first,
    * and nothing else; with three or more nodes that is one line per node, with fewer the ring
    * has a single line (for one node, a line from the node to itself).
    */
  ghost predicate Ring(layer: Graph)
  {
    var n := |layer.nodes|;
    Valid(layer) && n > 0 &&
    |layer.lines| == (if n >= 3 then n else 1) &&
    forall a, b :: 0 <= a < n && 0 <= b < n ==> (IsConnected(layer, a, b) <==> RingPair(n, a, b))
  }

  /** Every layer compute_ch builds: a lone remaining node with no line, or a ring. */
  ghost predicate LayerShape(layer: Graph)
  {
    (Valid(layer) && |layer.nodes| == 1 && layer.lines == [] && layer.adj == [[0]]) || Ring(layer)
  }

  /**
    * The hull branch of compute_ch: connect hull node i to node i + 1 for every i, then the first
    * node to the last. With distinct nodes a node's position in the list is its index, which is
    * what connect looks up.
    */
  method RingLayer(h: seq<Node>) returns (layer: Graph)
    requires |h| > 0 && DistinctCoords(h)
    ensures layer.nodes == h && Ring(layer)
  {
    var n := |h|;
    layer := Graph(h, [], ZeroMatrix(n));
    EmptyGraphValid(h);
    var i := 0;
    while i < n - 1
      invariant 0 <= i <= n - 1 && Chained(layer, h, i)
    {
      ChainStep(layer, h, i);
      layer := Connect(layer, i, i + 1);
      i := i + 1;
    }
    RingClose(layer, h);
    layer := Connect(layer, 0, n - 1);
  }

  /** The layer of RingLayer after its first i lines: positions i apart in the hull are joined. */
  ghost predicate Chained(layer: Graph, h: seq<Node>, i: nat)
  {
    var n := |h|;
    layer.nodes == h && Valid(layer) && |layer.lines| == i &&
    forall a, b :: 0 <= a < n && 0 <= b < n ==> (layer.adj[a][b] == 1 <==> ChainPair(i, a, b))
  }

  /** Joining hull node i to node i + 1 extends the chain by one line. */
  lemma ChainStep(layer: Graph, h: seq<Node>, i: nat)
    requires i + 1 < |h| && Chained(layer, h, i)
    ensures Chained(Connect(layer, i, i + 1), h, i + 1)
  {
    var n := |h|;
    ConnectValid(layer, i, i + 1);
    assert !IsConnected(layer, i, i + 1);
    var next := Connect(layer, i, i + 1);
    forall a, b | 0 <= a < n && 0 <= b < n ensures next.adj[a][b] == 1 <==> ChainPair(i + 1, a, b) {
      SetSymAt(layer.adj, i, i + 1, 1, a, b);
    }
  }

  /** Joining the last hull node back to the first closes the chain into the ring. */
  lemma RingClose(layer: Graph, h: seq<Node>)
    requires |h| > 0 && Chained(layer, h, |h| - 1)
    ensures Ring(Connect(layer, 0, |h| - 1)) && Connect(layer, 0, |h| - 1).nodes == h
  {
    var n := |h|;
    ConnectValid(layer, 0, n - 1);
    var closed := Connect(layer, 0, n - 1);
    forall a, b | 0 <= a < n && 0 <= b < n ensures closed.adj[a][b] == 1 <==> RingPair(n, a, b) {
      SetSymAt(layer.adj, 0, n - 1, 1, a, b);
    }
    assert layer.adj[0][n - 1] == 1 <==> ChainPair(n - 1, 0, n - 1);
    assert IsConnected(layer, 0, n - 1) <==> n == 2;
  }

  /**
    * The layer compute_ch peels from the remaining nodes: a lone node alone, two nodes joined,
    * otherwise the ring through the hull.
    */
  method PeelOne(rest: seq<Node>, hull: seq<Node> -> seq<Node>) returns (layer: Graph)
    requires |rest| > 0 && NoDupNodes(rest) && DistinctCoords(rest) && HullSpec(hull)
    ensures LayerShape(layer) && HullOk(rest, layer.nodes)
    ensures |rest| <= 2 ==> layer.nodes == rest
  {
    if |rest| == 1 {
      layer := Graph(rest, [], ZeroMatrix(1));
      EmptyGraphValid(rest);
      assert Zeros(1) == [0];
    } else if |rest| == 2 {
      layer := RingLayer(rest);
    } else {
      assert HullOk(rest, hull(rest));
      DistinctDrawn(rest, hull(rest));
      layer := RingLayer(hull(rest));
    }
  }

  // ---------------------------------------------------------------- peeling

  /**
    * compute_ch: peel layers until no node is left. Each node lands in exactly one layer, and
    * every layer is drawn from the nodes.
    */
  method ComputeLayers(nodes: seq<Node>, hull: seq<Node> -> seq<Node>) returns (layers: seq<Graph>)
    requires DistinctCoords(nodes) && HullSpec(hull)
    ensures |layers| <= |nodes|
    ensures forall k :: 0 <= k < |layers| ==> LayerShape(layers[k])
    ensures forall k, v :: 0 <= k < |layers| && v in layers[k].nodes ==> v in nodes
    ensures forall v :: v in nodes ==> exists k :: 0 <= k < |layers| && v in layers[k].nodes
    ensures forall k, m, v :: 0 <= k < m < |layers| && v in layers[k].nodes ==> v !in layers[m].nodes
  {
    layers := [];
    var rest := nodes;
    assert NoDupNodes(nodes) by {
      forall a, b | 0 <= a < b < |nodes| ensures nodes[a] != nodes[b] {
        assert nodes[a].coord != nodes[b].coord;
      }
    }
    while |rest| > 0
      invariant Peeling(nodes, layers, rest)
      decreases |rest|
    {
      var layer := PeelOne(rest, hull);
      PeelingStep(nodes, layers, rest, layer);
      layers := layers + [layer];
      rest := Without(rest, layer.nodes);
    }
  }

  /** The loop of compute_ch between two layers: the layers so far and the nodes still to peel. */
  ghost predicate Peeling(nodes: seq<Node>, layers: seq<Graph>, rest: seq<Node>)
  {
    NoDupNodes(rest) && DistinctCoords(rest) && |layers| + |rest| <= |nodes| &&
    (forall v :: v in rest ==> v in nodes) &&
    (forall k :: 0 <= k < |layers| ==> LayerShape(layers[k])) &&
    (forall k, v :: 0 <= k < |layers| && v in layers[k].nodes ==> v in nodes && v !in rest) &&
    (forall v :: v in nodes ==> v in rest || exists k :: 0 <= k < |layers| && v in layers[k].nodes) &&
    (forall k, m, v :: 0 <= k < m < |layers| && v in layers[k].nodes ==> v !in layers[m].nodes)
  }

  /** Peeling one more layer off the rest keeps the loop's bookkeeping and shortens the rest. */
  lemma PeelingStep(nodes: seq<Node>, layers: seq<Graph>, rest: seq<Node>, layer: Graph)
    requires Peeling(nodes, layers, rest) && |rest| > 0 && LayerShape(layer) && HullOk(rest, layer.nodes)
    ensures Peeling(nodes, layers + [layer], Without(rest, layer.nodes))
    ensures |Without(rest, layer.nodes)| < |rest|
  {
    WithoutShrinks(rest, layer.nodes, layer.nodes[0]);
    var rest' := Without(rest, layer.nodes);
    var layers' := layers + [layer];
    DistinctDrawn(rest, rest');
    forall v | v in nodes ensures v in rest' || exists k :: 0 <= k < |layers'| && v in layers'[k].nodes {
      if v !in rest' && v in rest {
        assert v in layers'[|layers|].nodes;
      } else if v !in rest' {
        var k :| 0 <= k < |layers| && v in layers[k].nodes;
        assert v in layers'[k].nodes;
      }
    }
  }

  // ---------------------------------------------------------------- lookups

  /** NodeWhichlayer, as the position of the first layer holding v. */
  function NodeLayer(layers: seq<Graph>, v: Node): (r: Option<nat>)
    ensures r.Some? <==> exists k :: 0 <= k < |layers| && v in layers[k].nodes
    ensures r.Some? ==> (r.value < |layers| && v in layers[r.value].nodes &&
      forall k :: 0 <= k < r.value ==> v !in layers[k].nodes)
  {
    if layers == [] then None
    else if v in layers[0].nodes then Some(0)
    else
      match NodeLayer(layers[1..], v)
      case None => None
      case Some(k) => Some(k + 1)
  }

  /** LineWhichlayer, as the position of the first layer holding a line equal to l. */
  function LineLayer(layers: seq<Graph>, l: Line): (r: Option<nat>)
    ensures r.Some? <==> exists k :: 0 <= k < |layers| && LineIn(l, layers[k].lines)
    ensures r.Some? ==> (r.value < |layers| && LineIn(l, layers[r.value].lines) &&
      forall k :: 0 <= k < r.value ==> !LineIn(l, layers[k].lines))
  {
    if layers == [] then None
    else if LineIn(l, layers[0].lines) then Some(0)
    else
      match LineLayer(layers[1..], l)
      case None => None
      case Some(k) => Some(k + 1)
  }

  /** In peeled layers, a node's layer is the one layer that holds it. */
  lemma NodeLayerUnique(layers: seq<Graph>, v: Node, k: nat)
    requires forall a, m, w :: 0 <= a < m < |layers| && w in layers[a].nodes ==> w !in layers[m].nodes
    requires k < |layers| && v in layers[k].nodes
    ensures NodeLayer(layers, v) == Some(k)
  {
  }
}
