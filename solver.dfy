/**
  * The canonical-path solver: the counting checks that decide whether a path is canonical with
  * respect to the convex layers, the endpoint flip that moves the path towards that shape, the
  * edge reallocation, and the skeleton of the bounded main loop.
  */
module Solvers {
  import opened Geometry
  import opened GraphModel
  import opened PathSpec
  import opened Paths
  import opened Layers
  import opened Canvases

  // ---------------------------------------------------------------- layer edge vector

  /** check_bound: for each layer, how many path lines lie on it (the first layer holding the line). */
  function CheckBound(layers: seq<Graph>, lines: seq<Line>): (r: seq<int>)
    ensures |r| == |layers|
    decreases |lines|
  {
    if lines == [] then seq(|layers|, _ => 0)
    else
      var r := CheckBound(layers, lines[..|lines| - 1]);
      match LineLayer(layers, lines[|lines| - 1])
      case None => r
      case Some(k) => r[k := r[k] + 1]
  }

  /** The positions of the lines whose first layer is k. */
  function OnLayer(layers: seq<Graph>, lines: seq<Line>, k: nat): set<nat>
  {
    set a | 0 <= a < |lines| && LineLayer(layers, lines[a]) == Some(k)
  }

  /** Entry k of the layer edge vector counts exactly the lines whose first layer is k. */
  lemma {:induction false} CheckBoundCounts(layers: seq<Graph>, lines: seq<Line>, k: nat)
    requires k < |layers|
    ensures CheckBound(layers, lines)[k] == |OnLayer(layers, lines, k)|
    decreases |lines|
  {
    if lines != [] {
      var init := lines[..|lines| - 1];
      var n := |init|;
      CheckBoundCounts(layers, init, k);
      OnLayerSnoc(layers, lines, k);
    }
  }

  lemma OnLayerSnoc(layers: seq<Graph>, lines: seq<Line>, k: nat)
    requires lines != []
    ensures OnLayer(layers, lines, k) ==
      OnLayer(layers, lines[..|lines| - 1], k) + if LineLayer(layers, lines[|lines| - 1]) == Some(k) then {|lines| - 1} else {}
  {
    var init := lines[..|lines| - 1];
    forall a | 0 <= a < |init| ensures init[a] == lines[a] { }
  }

  /** A line in no layer is not counted anywhere. */
  lemma CheckBoundSkipsNonLayer(layers: seq<Graph>, lines: seq<Line>, k: nat, a: nat)
    requires k < |layers| && a < |lines| && LineLayer(layers, lines[a]).None?
    ensures a !in OnLayer(layers, lines, k)
  {
  }

  // ---------------------------------------------------------------- check_if_bound

  /** all([x - y == 1 for x, y in zip(xs, ys)]) */
  function AllOneMore(xs: seq<int>, ys: seq<int>): bool
  {
    if xs == [] || ys == [] then true else xs[0] - ys[0] == 1 && AllOneMore(xs[1..], ys[1..])
  }

  lemma {:induction false} AllOneMoreIff(xs: seq<int>, ys: seq<int>)
    requires |xs| == |ys|
    ensures AllOneMore(xs, ys) <==> forall k :: 0 <= k < |xs| ==> xs[k] - ys[k] == 1
  {
    if xs != [] {
      AllOneMoreIff(xs[1..], ys[1..]);
      if AllOneMore(xs, ys) {
        forall k | 0 <= k < |xs| ensures xs[k] - ys[k] == 1 {
          if k > 0 {
            assert xs[1..][k - 1] == xs[k] && ys[1..][k - 1] == ys[k];
          }
        }
      }
      if forall k :: 0 <= k < |xs| ==> xs[k] - ys[k] == 1 {
        forall k | 0 <= k < |xs[1..]| ensures xs[1..][k] - ys[1..][k] == 1 {
          assert xs[1..][k] == xs[k + 1] && ys[1..][k] == ys[k + 1];
        }
      }
    }
  }

  /** The number of lines each layer has. */
  function LayerLines(layers: seq<Graph>): (r: seq<int>)
    ensures |r| == |layers| && forall k :: 0 <= k < |layers| ==> r[k] == |layers[k].lines|
  {
    seq(|layers|, k requires 0 <= k < |layers| => |layers[k].lines|)
  }

  /** A last layer of one or two nodes is a point or a segment, which a canonical path uses whole. */
  predicate SmallLast(layers: seq<Graph>)
    requires |layers| > 0
  {
    |layers[|layers| - 1].nodes| == 1 || |layers[|layers| - 1].nodes| == 2
  }

  /**
    * check_if_bound: every layer has one line more than the path uses on it, except a last layer
    * of one or two nodes, whose counts must agree.
    */
  function CheckIfBound(layers: seq<Graph>, lines: seq<Line>): bool
    requires |layers| > 0
  {
    var have := LayerLines(layers);
    var used := CheckBound(layers, lines);
    var n := |layers|;
    if SmallLast(layers) then AllOneMore(have[..n - 1], used[..n - 1]) && have[n - 1] == used[n - 1]
    else AllOneMore(have, used)
  }

  /** How many lines of layer k a canonical path leaves out. */
  function Gap(layers: seq<Graph>, k: nat): int
    requires k < |layers|
  {
    if k == |layers| - 1 && SmallLast(layers) then 0 else 1
  }

  /** check_if_bound holds iff every layer misses exactly its gap of lines, counting lines by first layer. */
  lemma CheckIfBoundIff(layers: seq<Graph>, lines: seq<Line>)
    requires |layers| > 0
    ensures CheckIfBound(layers, lines) <==>
      forall k :: 0 <= k < |layers| ==> |layers[k].lines| - |OnLayer(layers, lines, k)| == Gap(layers, k)
  {
    var have := LayerLines(layers);
    var used := CheckBound(layers, lines);
    var n := |layers|;
    var small := SmallLast(layers);
    GapsIff(have, used, small);
    forall k | 0 <= k < n
      ensures have[k] - used[k] == |layers[k].lines| - |OnLayer(layers, lines, k)|
      ensures Gap(layers, k) == if k == n - 1 && small then 0 else 1
    {
      CheckBoundCounts(layers, lines, k);
    }
  }

  /** The two arms of check_if_bound, stated position by position. */
  lemma GapsIff(have: seq<int>, used: seq<int>, small: bool)
    requires |have| == |used| > 0
    ensures var n := |have|;
      (if small then AllOneMore(have[..n - 1], used[..n - 1]) && have[n - 1] == used[n - 1]
       else AllOneMore(have, used)) <==>
      forall k :: 0 <= k < n ==> have[k] - used[k] == if k == n - 1 && small then 0 else 1
  {
    var n := |have|;
    if small {
      AllOneMoreIff(have[..n - 1], used[..n - 1]);
      assert forall k :: 0 <= k < n - 1 ==> have[..n - 1][k] == have[k] && used[..n - 1][k] == used[k];
    } else {
      AllOneMoreIff(have, used);
    }
  }

  // ---------------------------------------------------------------- layer-crossing matrix

  /** A line lies on a layer, or has two end nodes that each lie on a layer: what check_layercross indexes by. */
  predicate Classified(layers: seq<Graph>, nodes: seq<Node>, l: Line)
  {
    LineLayer(layers, l).Some? ||
    (|WhichNodes(nodes, l)| >= 2 &&
     NodeLayer(layers, WhichNodes(nodes, l)[0]).Some? && NodeLayer(layers, WhichNodes(nodes, l)[1]).Some?)
  }

  predicate Classifiable(layers: seq<Graph>, nodes: seq<Node>, lines: seq<Line>)
  {
    forall a :: 0 <= a < |lines| ==> Classified(layers, nodes, lines[a])
  }

  /** The layers of the two end nodes of a line in no layer. */
  function EndLayers(layers: seq<Graph>, nodes: seq<Node>, l: Line): (r: (nat, nat))
    requires Classified(layers, nodes, l) && LineLayer(layers, l).None?
    ensures r.0 < |layers| && r.1 < |layers|
  {
    (NodeLayer(layers, WhichNodes(nodes, l)[0]).value, NodeLayer(layers, WhichNodes(nodes, l)[1]).value)
  }

  predicate IsMatrix(m: seq<seq<int>>, n: nat)
  {
    |m| == n && forall i :: 0 <= i < n ==> |m[i]| == n
  }

  /** arr[i][j] += 1 and then arr[j][i] += 1: twice the same entry when i == j. */
  function Bump(m: seq<seq<int>>, i: nat, j: nat): (r: seq<seq<int>>)
    requires IsMatrix(m, |m|) && i < |m| && j < |m|
    ensures IsMatrix(r, |m|)
  {
    var m1 := m[i := m[i][j := m[i][j] + 1]];
    m1[j := m1[j][i := m1[j][i] + 1]]
  }

  lemma BumpAt(m: seq<seq<int>>, i: nat, j: nat, a: nat, b: nat)
    requires IsMatrix(m, |m|) && i < |m| && j < |m| && a < |m| && b < |m|
    ensures Bump(m, i, j)[a][b] ==
      m[a][b] + (if a == i && b == j then 1 else 0) + (if a == j && b == i then 1 else 0)
  {
  }

  /**
    * The filtered linelist of check_layercross, each line in no layer given as the layers of its
    * two end nodes (whichNodes order), in line order.
    */
  function CrossPairs(layers: seq<Graph>, nodes: seq<Node>, lines: seq<Line>): (t: seq<(nat, nat)>)
    requires Classifiable(layers, nodes, lines)
    ensures forall k :: 0 <= k < |t| ==> t[k].0 < |layers| && t[k].1 < |layers|
    decreases |lines|
  {
    if lines == [] then []
    else
      var init := lines[..|lines| - 1];
      var l := lines[|lines| - 1];
      assert Classifiable(layers, nodes, init) by {
        forall a | 0 <= a < |init| ensures init[a] == lines[a] { }
      }
      CrossPairs(layers, nodes, init) + if LineLayer(layers, l).None? then [EndLayers(layers, nodes, l)] else []
  }

  /** The counting loop of check_layercross over the pairs. */
  function CrossMatrix(t: seq<(nat, nat)>, n: nat): (m: seq<seq<int>>)
    requires forall k :: 0 <= k < |t| ==> t[k].0 < n && t[k].1 < n
    ensures IsMatrix(m, n)
    decreases |t|
  {
    if t == [] then ZeroMatrix(n)
    else Bump(CrossMatrix(t[..|t| - 1], n), t[|t| - 1].0, t[|t| - 1].1)
  }

  /** check_layercross: for each line in no layer, one more at [i][j] and at [j][i] for the layers of its ends. */
  function LayerCross(layers: seq<Graph>, nodes: seq<Node>, lines: seq<Line>): (m: seq<seq<int>>)
    requires Classifiable(layers, nodes, lines)
    ensures IsMatrix(m, |layers|)
  {
    CrossMatrix(CrossPairs(layers, nodes, lines), |layers|)
  }

  /** The positions of the pairs joining layers i and j, either way round. */
  function Between(t: seq<(nat, nat)>, i: nat, j: nat): set<nat>
  {
    set a | 0 <= a < |t| && (t[a] == (i, j) || t[a] == (j, i))
  }

  lemma BetweenSnoc(t: seq<(nat, nat)>, i: nat, j: nat)
    requires t != []
    ensures Between(t, i, j) ==
      Between(t[..|t| - 1], i, j) + if t[|t| - 1] == (i, j) || t[|t| - 1] == (j, i) then {|t| - 1} else {}
  {
    var init := t[..|t| - 1];
    forall a | 0 <= a < |init| ensures init[a] == t[a] { }
  }

  lemma CardAddOne(s: set<nat>, x: nat)
    requires x !in s
    ensures |s + {x}| == |s| + 1
  {
  }

  /**
    * Entry [i][j] counts the pairs joining layers i and j; a pair with both ends in layer i counts
    * twice on the diagonal.
    */
  lemma {:induction false} CrossMatrixCounts(t: seq<(nat, nat)>, n: nat, i: nat, j: nat)
    requires forall k :: 0 <= k < |t| ==> t[k].0 < n && t[k].1 < n
    requires i < n && j < n
    ensures CrossMatrix(t, n)[i][j] == (if i == j then 2 else 1) * |Between(t, i, j)|
    decreases |t|
  {
    if t == [] {
      assert Between(t, i, j) == {};
    } else {
      var init := t[..|t| - 1];
      var e := t[|t| - 1];
      CrossMatrixCounts(init, n, i, j);
      BetweenSnoc(t, i, j);
      BumpAt(CrossMatrix(init, n), e.0, e.1, i, j);
      if e == (i, j) || e == (j, i) {
        CardAddOne(Between(init, i, j), |init|);
      }
    }
  }

  /** The layer-crossing matrix is symmetric. */
  lemma LayerCrossSymmetric(layers: seq<Graph>, nodes: seq<Node>, lines: seq<Line>, i: nat, j: nat)
    requires Classifiable(layers, nodes, lines) && i < |layers| && j < |layers|
    ensures LayerCross(layers, nodes, lines)[i][j] == LayerCross(layers, nodes, lines)[j][i]
  {
    var t := CrossPairs(layers, nodes, lines);
    CrossMatrixCounts(t, |layers|, i, j);
    CrossMatrixCounts(t, |layers|, j, i);
    assert Between(t, i, j) == Between(t, j, i);
  }

  /** Line a lies in no layer and its ends lie in the layers e. */
  predicate CrossesAs(layers: seq<Graph>, nodes: seq<Node>, lines: seq<Line>, a: int, e: (nat, nat))
    requires Classifiable(layers, nodes, lines)
  {
    0 <= a < |lines| && LineLayer(layers, lines[a]).None? && EndLayers(layers, nodes, lines[a]) == e
  }

  lemma CrossesAsInit(layers: seq<Graph>, nodes: seq<Node>, lines: seq<Line>, a: int, e: (nat, nat))
    requires Classifiable(layers, nodes, lines) && lines != [] && 0 <= a < |lines| - 1
    ensures Classifiable(layers, nodes, lines[..|lines| - 1])
    ensures CrossesAs(layers, nodes, lines[..|lines| - 1], a, e) == CrossesAs(layers, nodes, lines, a, e)
  {
    ClassifiableInit(layers, nodes, lines);
    assert lines[..|lines| - 1][a] == lines[a];
  }

  /** Every pair comes from a line in no layer (soundness of the filter). */
  lemma {:induction false} CrossPairsSound(layers: seq<Graph>, nodes: seq<Node>, lines: seq<Line>, e: (nat, nat))
    requires Classifiable(layers, nodes, lines) && e in CrossPairs(layers, nodes, lines)
    ensures exists a :: CrossesAs(layers, nodes, lines, a, e)
    decreases |lines|
  {
    var init := lines[..|lines| - 1];
    CrossPairsLast(layers, nodes, lines);
    if e in CrossPairs(layers, nodes, init) {
      CrossPairsSound(layers, nodes, init, e);
      var a :| CrossesAs(layers, nodes, init, a, e);
      CrossesAsInit(layers, nodes, lines, a, e);
    } else {
      assert CrossesAs(layers, nodes, lines, |init|, e);
    }
  }

  /** CrossPairs grows at the back: the pairs of all lines but the last, then the last's. */
  lemma CrossPairsLast(layers: seq<Graph>, nodes: seq<Node>, lines: seq<Line>)
    requires Classifiable(layers, nodes, lines) && lines != []
    ensures Classifiable(layers, nodes, lines[..|lines| - 1])
    ensures CrossPairs(layers, nodes, lines) ==
      CrossPairs(layers, nodes, lines[..|lines| - 1]) +
      if LineLayer(layers, lines[|lines| - 1]).None? then [EndLayers(layers, nodes, lines[|lines| - 1])] else []
  {
    ClassifiableInit(layers, nodes, lines);
  }

  /** Every line in no layer contributes its pair (completeness of the filter). */
  lemma {:induction false} CrossPairsComplete(layers: seq<Graph>, nodes: seq<Node>, lines: seq<Line>, a: int, e: (nat, nat))
    requires Classifiable(layers, nodes, lines) && CrossesAs(layers, nodes, lines, a, e)
    ensures e in CrossPairs(layers, nodes, lines)
    decreases |lines|
  {
    var init := lines[..|lines| - 1];
    CrossPairsLast(layers, nodes, lines);
    if a < |init| {
      CrossesAsInit(layers, nodes, lines, a, e);
      CrossPairsComplete(layers, nodes, init, a, e);
      InFront(e, CrossPairs(layers, nodes, init),
        if LineLayer(layers, lines[|lines| - 1]).None? then [EndLayers(layers, nodes, lines[|lines| - 1])] else []);
    } else {
      assert lines[a] == lines[|lines| - 1];
      InLast(e, CrossPairs(layers, nodes, init));
    }
  }

  lemma InFront<T>(x: T, s: seq<T>, t: seq<T>)
    requires x in s
    ensures x in s + t
  {
    var k :| 0 <= k < |s| && s[k] == x;
    assert (s + t)[k] == x;
  }

  lemma InLast<T>(x: T, s: seq<T>)
    ensures x in s + [x]
  {
    assert (s + [x])[|s|] == x;
  }

  lemma ClassifiableInit(layers: seq<Graph>, nodes: seq<Node>, lines: seq<Line>)
    requires Classifiable(layers, nodes, lines) && lines != []
    ensures Classifiable(layers, nodes, lines[..|lines| - 1])
  {
    var init := lines[..|lines| - 1];
    forall a | 0 <= a < |init| ensures init[a] == lines[a] { }
  }

  // ---------------------------------------------------------------- check_if_layercross

  /** np.eye(n, k=1) + np.eye(n, k=-1): ones exactly next to the diagonal. */
  function Band(n: nat): (m: seq<seq<int>>)
    ensures IsMatrix(m, n)
  {
    seq(n, i requires 0 <= i < n => seq(n, j requires 0 <= j < n => if i + 1 == j || j + 1 == i then 1 else 0))
  }

  /** check_if_layercross: the matrix equals the band. */
  function CheckIfLayercross(layers: seq<Graph>, nodes: seq<Node>, lines: seq<Line>): bool
    requires Classifiable(layers, nodes, lines)
  {
    LayerCross(layers, nodes, lines) == Band(|layers|)
  }

  /** Adjacent layers. */
  predicate Neighbours(i: nat, j: nat)
  {
    i + 1 == j || j + 1 == i
  }

  /**
    * check_if_layercross holds iff exactly one line outside the layers joins each pair of adjacent
    * layers and no such line joins any other pair of layers, or a layer to itself.
    */
  lemma CheckIfLayercrossIff(layers: seq<Graph>, nodes: seq<Node>, lines: seq<Line>)
    requires Classifiable(layers, nodes, lines)
    ensures CheckIfLayercross(layers, nodes, lines) <==>
      forall i, j :: 0 <= i < |layers| && 0 <= j < |layers| ==>
        |Between(CrossPairs(layers, nodes, lines), i, j)| == if Neighbours(i, j) then 1 else 0
  {
    var t := CrossPairs(layers, nodes, lines);
    var m := LayerCross(layers, nodes, lines);
    var b := Band(|layers|);
    forall i, j | 0 <= i < |layers| && 0 <= j < |layers|
      ensures m[i][j] == b[i][j] <==> |Between(t, i, j)| == if Neighbours(i, j) then 1 else 0
    {
      CrossMatrixCounts(t, |layers|, i, j);
    }
    if forall i, j :: 0 <= i < |layers| && 0 <= j < |layers| ==> m[i][j] == b[i][j] {
      assert m == b by {
        forall i | 0 <= i < |layers| ensures m[i] == b[i] {
          assert forall j :: 0 <= j < |layers| ==> m[i][j] == b[i][j];
        }
      }
    }
  }
}
