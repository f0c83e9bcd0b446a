/**
  * The orders the Wrapper works with, as values: the path order split by layer (node_partition),
  * the wrapping order built from a path order (get_wrapping), and the weight by which a reported
  * line is preferred (the `comp` key of try_edge, try_del_edge and try_node).
  *
  * get_wrapping sorts the nodes left by an angle computed in floating point from the last two
  * nodes placed; that sort is a parameter here: any function that returns its list reordered.
  */
module WrapOrders {
  import opened Geometry
  import opened GraphModel
  import opened Layers
  import opened SolverMoves

  // ---------------------------------------------------------------- node_partition

  /** `[node for node in order if layers.index(NodeWhichlayer(layers, node)) == i]` */
  function OnLayer(layers: seq<Graph>, order: seq<Node>, i: nat): (r: seq<Node>)
    ensures forall v :: v in r <==> v in order && NodeLayer(layers, v) == Some(i)
    ensures NoDupNodes(order) ==> NoDupNodes(r)
  {
    if order == [] then []
    else
      var rest := OnLayer(layers, order[1..], i);
      assert NoDupNodes(order) ==> order[0] !in order[1..] && NoDupNodes(order[1..]) by {
        if NoDupNodes(order) {
          forall k | 0 <= k < |order[1..]| ensures order[1..][k] != order[0] {
            assert order[1..][k] == order[k + 1];
          }
          forall a, b | 0 <= a < b < |order[1..]| ensures order[1..][a] != order[1..][b] {
            assert order[1..][a] == order[a + 1] && order[1..][b] == order[b + 1];
          }
        }
      }
      (if NodeLayer(layers, order[0]) == Some(i) then [order[0]] else []) + rest
  }

  /** The path order read from its end in the outermost layer: reversed when its first node is not there. */
  function Oriented(layers: seq<Graph>, order: seq<Node>): (r: seq<Node>)
    requires |order| > 0
    ensures |r| == |order| && forall v :: v in r <==> v in order
    ensures NoDupNodes(order) ==> NoDupNodes(r)
  {
    if NodeLayer(layers, order[0]) == Some(0) then order
    else
      var o := Reverse(order);
      assert forall v :: v in order ==> v in o by {
        forall v | v in order ensures v in o {
          var k :| 0 <= k < |order| && order[k] == v;
          assert o[|order| - 1 - k] == v;
        }
      }
      assert NoDupNodes(order) ==> NoDupNodes(o) by {
        if NoDupNodes(order) {
          forall a, b | 0 <= a < b < |o| ensures o[a] != o[b] {
            assert o[a] == order[|o| - 1 - a] && o[b] == order[|o| - 1 - b];
          }
        }
      }
      o
  }

  /**
    * node_partition: the path order, turned to start in the outermost layer, split into one list
    * per layer.
    */
  function NodePartition(layers: seq<Graph>, order: seq<Node>): (r: seq<seq<Node>>)
    requires |order| > 0
    ensures |r| == |layers|
    ensures forall i, v :: 0 <= i < |layers| ==> (v in r[i] <==> v in order && NodeLayer(layers, v) == Some(i))
    ensures NoDupNodes(order) ==> forall i :: 0 <= i < |layers| ==> NoDupNodes(r[i])
  {
    var o := Oriented(layers, order);
    seq(|layers|, i requires 0 <= i < |layers| => OnLayer(layers, o, i))
  }

  /** Where v first occurs in s. */
  function Position(s: seq<Node>, v: Node): (k: nat)
    requires v in s
    ensures k < |s| && s[k] == v && v !in s[..k]
  {
    if s[0] == v then 0 else 1 + Position(s[1..], v)
  }

  /** Past the first node, a node's position is one more than in the rest of the list. */
  lemma PositionTail(s: seq<Node>, v: Node)
    requires NoDupNodes(s) && |s| > 0 && v in s[1..]
    ensures Position(s, v) == 1 + Position(s[1..], v)
  {
    var k :| 0 <= k < |s[1..]| && s[1..][k] == v;
    assert s[k + 1] == v;
  }

  /** The nodes of r come in the order in which they occur in s. */
  ghost predicate InOrderOf(s: seq<Node>, r: seq<Node>)
  {
    (forall v :: v in r ==> v in s) &&
    forall a, b :: 0 <= a < b < |r| ==> Position(s, r[a]) < Position(s, r[b])
  }

  /** Each part of the partition lists its nodes in the order the path visits them. */
  lemma {:induction false} OnLayerInOrder(layers: seq<Graph>, order: seq<Node>, i: nat)
    requires NoDupNodes(order)
    ensures InOrderOf(order, OnLayer(layers, order, i))
  {
    if order != [] {
      var t := order[1..];
      var rest := OnLayer(layers, t, i);
      assert NoDupNodes(t) by {
        forall a, b | 0 <= a < b < |t| ensures t[a] != t[b] {
          assert t[a] == order[a + 1] && t[b] == order[b + 1];
        }
      }
      OnLayerInOrder(layers, t, i);
      InOrderTail(order, rest);
      if NodeLayer(layers, order[0]) == Some(i) {
        InOrderFront(order, rest);
      }
    }
  }

  /** Order along the tail of a list is order along the list, past its first node. */
  lemma InOrderTail(order: seq<Node>, rest: seq<Node>)
    requires |order| > 0 && NoDupNodes(order) && InOrderOf(order[1..], rest)
    ensures InOrderOf(order, rest)
    ensures forall v :: v in rest ==> v in order && Position(order, v) > 0
  {
    forall v | v in rest ensures v in order && Position(order, v) == 1 + Position(order[1..], v) {
      PositionTail(order, v);
    }
    forall a, b | 0 <= a < b < |rest| ensures Position(order, rest[a]) < Position(order, rest[b]) {
      assert Position(order[1..], rest[a]) < Position(order[1..], rest[b]);
    }
  }

  /** The first node of a list goes in front of any list in order behind it. */
  lemma InOrderFront(order: seq<Node>, rest: seq<Node>)
    requires |order| > 0 && InOrderOf(order, rest)
    requires forall v :: v in rest ==> v in order && Position(order, v) > 0
    ensures InOrderOf(order, [order[0]] + rest)
  {
    var r := [order[0]] + rest;
    assert Position(order, order[0]) == 0;
    forall a, b | 0 <= a < b < |r| ensures Position(order, r[a]) < Position(order, r[b]) {
      var y := rest[b - 1];
      assert r[b] == y && y in rest;
      if a > 0 {
        var x := rest[a - 1];
        assert r[a] == x;
        assert Position(order, x) < Position(order, y);
      } else {
        assert r[a] == order[0];
      }
    }
  }

  /** Every part of the partition follows the path from its end in the outermost layer. */
  lemma PartitionInOrder(layers: seq<Graph>, order: seq<Node>)
    requires |order| > 0 && NoDupNodes(order)
    ensures forall i :: 0 <= i < |layers| ==> InOrderOf(Oriented(layers, order), NodePartition(layers, order)[i])
  {
    forall i | 0 <= i < |layers| ensures InOrderOf(Oriented(layers, order), NodePartition(layers, order)[i]) {
      OnLayerInOrder(layers, Oriented(layers, order), i);
    }
  }

  /** When the path starts in the outermost layer, the outermost part starts with the path's first node. */
  lemma OuterPartStartsPath(layers: seq<Graph>, order: seq<Node>)
    requires |order| > 0 && |layers| > 0 && NodeLayer(layers, order[0]) == Some(0)
    ensures |NodePartition(layers, order)[0]| > 0 && NodePartition(layers, order)[0][0] == order[0]
  {
    assert Oriented(layers, order) == order;
    var o := order;
    assert OnLayer(layers, o, 0) == [o[0]] + OnLayer(layers, o[1..], 0);
  }

  // ---------------------------------------------------------------- get_wrapping

  /** The sort of get_wrapping reorders the nodes it is given: the same nodes, as often as before. */
  ghost predicate ArrangeSpec(arrange: (Node, Node, seq<Node>) -> seq<Node>)
  {
    forall a, b, s :: multiset(arrange(a, b, s)) == multiset(s)
  }

  /**
    * The loop of get_wrapping: sort the nodes left by their angle to the last two placed, move the
    * first of them to the placed list, until none is left.
    */
  function Wound(placed: seq<Node>, others: seq<Node>, arrange: (Node, Node, seq<Node>) -> seq<Node>): seq<Node>
    requires |placed| >= 2 && ArrangeSpec(arrange)
    decreases |others|
  {
    if others == [] then placed
    else
      var s := arrange(placed[|placed| - 2], placed[|placed| - 1], others);
      assert |s| == |others| by {
        assert |multiset(s)| == |multiset(others)|;
      }
      Wound(placed + [s[0]], s[1..], arrange)
  }

  /** get_wrapping from a path order: its first two nodes, then the loop over the rest. */
  function Wrapping(order: seq<Node>, arrange: (Node, Node, seq<Node>) -> seq<Node>): seq<Node>
    requires |order| >= 2 && ArrangeSpec(arrange)
  {
    Wound(order[..2], order[2..], arrange)
  }

  /** The loop keeps what was placed in front and places every other node once. */
  lemma {:induction false} WoundPermutes(placed: seq<Node>, others: seq<Node>, arrange: (Node, Node, seq<Node>) -> seq<Node>)
    requires |placed| >= 2 && ArrangeSpec(arrange)
    ensures var w := Wound(placed, others, arrange);
      |w| == |placed| + |others| && w[..|placed|] == placed &&
      multiset(w) == multiset(placed) + multiset(others)
    decreases |others|
  {
    if others != [] {
      var s := arrange(placed[|placed| - 2], placed[|placed| - 1], others);
      assert multiset(s) == multiset(others);
      assert |s| == |others| by {
        assert |multiset(s)| == |multiset(others)|;
      }
      var p := placed + [s[0]];
      WoundPermutes(p, s[1..], arrange);
      var w := Wound(p, s[1..], arrange);
      assert w[..|placed|] == p[..|placed|];
      assert p[..|placed|] == placed;
      assert s == [s[0]] + s[1..];
      assert multiset(p) + multiset(s[1..]) == multiset(placed) + multiset(s);
    }
  }

  /**
    * The wrapping order lists the nodes of the path order, each as often as there, and keeps the
    * path order's first two nodes.
    */
  lemma WrappingPermutes(order: seq<Node>, arrange: (Node, Node, seq<Node>) -> seq<Node>)
    requires |order| >= 2 && ArrangeSpec(arrange)
    ensures var w := Wrapping(order, arrange);
      |w| == |order| && w[0] == order[0] && w[1] == order[1] && multiset(w) == multiset(order)
  {
    WoundPermutes(order[..2], order[2..], arrange);
    assert order[..2] + order[2..] == order;
  }

  // ---------------------------------------------------------------- the weight of a reported line

  /** whichNodes finds two nodes on l, each on a layer. */
  predicate Weighable(layers: seq<Graph>, nodes: seq<Node>, l: Line)
  {
    var w := WhichNodes(nodes, l);
    |w| >= 2 && NodeLayer(layers, w[0]).Some? && NodeLayer(layers, w[1]).Some?
  }

  /** comp(line): the layer positions of the first two nodes whichNodes finds on the line, added. */
  function Weight(layers: seq<Graph>, nodes: seq<Node>, l: Line): nat
    requires Weighable(layers, nodes, l)
  {
    var w := WhichNodes(nodes, l);
    NodeLayer(layers, w[0]).value + NodeLayer(layers, w[1]).value
  }

  /** `comp(bad_edges[0])` after the descending sort: the greatest weight of the list. */
  function Top(layers: seq<Graph>, nodes: seq<Node>, ls: seq<Line>): (m: nat)
    requires |ls| > 0 && forall l :: l in ls ==> Weighable(layers, nodes, l)
    ensures exists l :: l in ls && Weight(layers, nodes, l) == m
    ensures forall l :: l in ls ==> Weight(layers, nodes, l) <= m
    decreases |ls|
  {
    var w := Weight(layers, nodes, ls[0]);
    SplitFirst(ls);
    if |ls| == 1 then
      w
    else
      var rest := Top(layers, nodes, ls[1..]);
      if w >= rest then w else rest
  }

  /** A list holds its first element and what its tail holds, and nothing else. */
  lemma SplitFirst<T>(s: seq<T>)
    requires |s| > 0
    ensures forall x :: x in s <==> x == s[0] || x in s[1..]
  {
    assert s == [s[0]] + s[1..];
  }

  /** `[line for line in bad_edges if comp(line) == val]` */
  function Heaviest(layers: seq<Graph>, nodes: seq<Node>, ls: seq<Line>, m: nat): (r: seq<Line>)
    requires forall l :: l in ls ==> Weighable(layers, nodes, l)
    ensures forall l :: l in r <==> l in ls && Weight(layers, nodes, l) == m
  {
    if ls == [] then []
    else (if Weight(layers, nodes, ls[0]) == m then [ls[0]] else []) + Heaviest(layers, nodes, ls[1..], m)
  }

  /** l is a line of ls of the greatest weight there. */
  ghost predicate HeaviestOf(layers: seq<Graph>, nodes: seq<Node>, ls: seq<Line>, l: Line)
  {
    l in ls && (forall x :: x in ls ==> Weighable(layers, nodes, x)) &&
    forall x :: x in ls ==> Weight(layers, nodes, x) <= Weight(layers, nodes, l)
  }

  /** The lines of the greatest weight: never none, and each outweighs or equals every line of the list. */
  lemma HeaviestAreTop(layers: seq<Graph>, nodes: seq<Node>, ls: seq<Line>)
    requires |ls| > 0 && forall l :: l in ls ==> Weighable(layers, nodes, l)
    ensures var h := Heaviest(layers, nodes, ls, Top(layers, nodes, ls));
      |h| > 0 && forall l :: l in h ==> HeaviestOf(layers, nodes, ls, l)
  {
    var m := Top(layers, nodes, ls);
    var l :| l in ls && Weight(layers, nodes, l) == m;
    assert l in Heaviest(layers, nodes, ls, m);
  }
}
