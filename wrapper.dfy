/**
  * The Wrapper object of Wrapper.py as a class: its stop flag and wrap_path, the bounded loop
  * that reshapes a solved (canonical) path, step by step, into the path that winds around the
  * layers in the order get_wrapping computes.
  *
  * Two floating-point computations are parameters, fixed when the wrapper is made: `arrange`, the
  * angle sort of get_wrapping (any reordering), and `aim`, the angle filter-and-sort of the nodes a
  * step checks (any choice from the list it is given). The interface thread's change_stop is the
  * parameter cancelAt, as for the solver.
  */
module Wrappers {
  import opened Geometry
  import opened GraphModel
  import opened PathSpec
  import opened Paths
  import opened Layers
  import opened Canvases
  import opened Solvers
  import opened Randoms
  import opened SolverMoves
  import opened SolverRuns
  import opened WrapOrders
  import opened WrapMoves

  /** How wrap_path ends. */
  datatype WrapOutcome =
    | NoLayers            // compute_ch found no layer: only the message is sent
    | NotSolved           // neither end of the path is on the outer layer: "Try SOLVE it first"
    | Wrapped             // the path runs in its wrapping order: "Success"
    | Abandoned(invalid: bool) // the path is rebuilt from its lines; invalid when neither end of the
                          // last path order is on the outer layer, else a forced stop
    | Stale               // a correction left the two orders out of step: the next round would start at
                          // index 0 and read new_path[-1]; it is not modelled
    | Crashed             // an exception escapes

  /** The state of the two orders after a round. */
  datatype Realigned =
    | InStep   // both orders taken afresh and started at the same outer node
    | OutOfStep // no end on the outer layer; the corrections asked to go on
    | GaveUp   // no end on the outer layer; the second correction failed: the loop breaks
    | Failed   // an exception escaped the step

  /** The moves a round of wrap_path makes, in the order it makes them. */
  datatype Move =
    | FirstStep  // wrap_path_step_first
    | Step       // wrap_path_step
    | AltStep    // wrap_path_step_alt
    | Later      // del_later

  /**
    * The schedule of round `steps`: the first-layer step when the node before the first
    * difference is on the outer layer, then the step on even rounds or the alternative step on
    * odd ones, then del_later on every tenth round.
    */
  function Schedule(steps: nat, first: bool): seq<Move>
  {
    (if first then [FirstStep] else []) + [if steps % 2 == 0 then Step else AltStep] +
    (if steps % 10 == 0 then [Later] else [])
  }

  /** Exactly one of the two steps runs in a round, by parity, and del_later runs on every tenth round, after the even step. */
  lemma ScheduleParity(steps: nat, first: bool)
    ensures Step in Schedule(steps, first) <==> steps % 2 == 0
    ensures AltStep in Schedule(steps, first) <==> steps % 2 == 1
    ensures Later in Schedule(steps, first) <==> steps % 10 == 0
    ensures FirstStep in Schedule(steps, first) <==> first
    ensures Later in Schedule(steps, first) ==> Step in Schedule(steps, first)
    ensures |Schedule(steps, first)| <= 3
  {
    var s := Schedule(steps, first);
    var a, b, c := (if first then [FirstStep] else []), [if steps % 2 == 0 then Step else AltStep],
      (if steps % 10 == 0 then [Later] else []);
    assert s == a + b + c;
    forall x: Move
      ensures x in s <==> x in a || x in b || x in c
    {
    }
  }

  /** `layers.index(self.NodeWhichlayer(layers, node)) == 0`: None when that raises (no node, no layer). */
  function OnOuter(layers: seq<Graph>, node: Option<Node>): (r: Option<bool>)
    ensures r.None? <==> node.None? || NodeLayer(layers, node.value).None?
    ensures r == Some(true) <==> node.Some? && NodeLayer(layers, node.value) == Some(0)
  {
    match node
    case None => None
    case Some(v) => if NodeLayer(layers, v).None? then None else Some(NodeLayer(layers, v) == Some(0))
  }

  /** `next(j for j in range(len(a)) if a[j] != b[j])`: the first place two orders differ. */
  function FirstDiff(a: seq<Node>, b: seq<Node>): (i: nat)
    requires |a| == |b| && a != b
    ensures i < |a| && a[i] != b[i] && a[..i] == b[..i]
  {
    if a[0] != b[0] then 0
    else
      assert a[1..] != b[1..] by {
        assert a == [a[0]] + a[1..] && b == [b[0]] + b[1..];
      }
      1 + FirstDiff(a[1..], b[1..])
  }

  /**
    * Whether a round on two differing orders of equal length opens with the first-layer step:
    * the node of the new order before the first difference is on the outer layer.
    */
  predicate FirstOnOuter(layers: seq<Graph>, oldPath: seq<Node>, newPath: seq<Node>)
  {
    |oldPath| == |newPath| && oldPath != newPath && 0 < FirstDiff(oldPath, newPath) &&
    NodeLayer(layers, newPath[FirstDiff(oldPath, newPath) - 1]) == Some(0)
  }

  /**
    * The orders in step: oldPath the path read from its outer end, newPath the wrapping of the
    * path order `order`, which starts on the outer layer, both starting at the same node.
    */
  ghost predicate InStepOrders(g: Graph, layers: seq<Graph>, arrange: (Node, Node, seq<Node>) -> seq<Node>,
                               oldPath: seq<Node>, newPath: seq<Node>, order: seq<Node>)
    requires Square(g)
  {
    ArrangeSpec(arrange) && Traversal(g, oldPath) && Traversal(g, order) && |order| >= 2 &&
    NodeLayer(layers, order[0]) == Some(0) && newPath == Wrapping(order, arrange) &&
    |newPath| == |oldPath| && (forall v :: v in newPath ==> v in g.nodes) && oldPath[0] == newPath[0]
  }

  /**
    * The orders out of step: the path order has no end on the outer layer, while the last
    * wrapping starts there.
    */
  ghost predicate OutOfStepOrders(g: Graph, layers: seq<Graph>, oldPath: seq<Node>, newPath: seq<Node>)
  {
    |oldPath| == |newPath| == |g.nodes| >= 2 &&
    NodeLayer(layers, oldPath[0]) != Some(0) && NodeLayer(layers, oldPath[|oldPath| - 1]) != Some(0) &&
    NodeLayer(layers, newPath[0]) == Some(0)
  }

  /**
    * Orders out of step differ already at their first node, so the round that follows them takes
    * i = 0: current is new_path[-1], the last node of the wrapping, and the nodes to be checked are
    * the whole of old_path.
    */
  lemma OutOfStepDiff(g: Graph, layers: seq<Graph>, oldPath: seq<Node>, newPath: seq<Node>)
    requires OutOfStepOrders(g, layers, oldPath, newPath)
    ensures oldPath != newPath && FirstDiff(oldPath, newPath) == 0 && oldPath[0..] == oldPath
  {
    assert oldPath[0] != newPath[0];
  }

  /** Orders in step start on the outer layer, at the first node of the path order wound. */
  lemma InStepHasEnds(g: Graph, layers: seq<Graph>, arrange: (Node, Node, seq<Node>) -> seq<Node>,
                      oldPath: seq<Node>, newPath: seq<Node>, order: seq<Node>)
    requires Square(g) && InStepOrders(g, layers, arrange, oldPath, newPath, order)
    ensures NodeLayer(layers, oldPath[0]) == Some(0) && newPath[0] == order[0]
  {
    WrappingPermutes(order, arrange);
  }

  /** Orders in step that are equal: the path runs in the wrapping order of one of its path orders. */
  lemma InStepWrapped(g: Graph, layers: seq<Graph>, arrange: (Node, Node, seq<Node>) -> seq<Node>,
                      oldPath: seq<Node>, newPath: seq<Node>, order: seq<Node>)
    requires Square(g) && InStepOrders(g, layers, arrange, oldPath, newPath, order) && oldPath == newPath
    ensures WrappedBy(g, layers, arrange, order)
  {
  }

  /** The first difference of orders in step is past the start, and the node before it is not later in oldPath. */
  lemma InStepDiff(g: Graph, layers: seq<Graph>, arrange: (Node, Node, seq<Node>) -> seq<Node>,
                   oldPath: seq<Node>, newPath: seq<Node>, order: seq<Node>)
    requires Square(g) && InStepOrders(g, layers, arrange, oldPath, newPath, order) && oldPath != newPath
    ensures var i := FirstDiff(oldPath, newPath);
      1 <= i < |oldPath| && newPath[i - 1] == oldPath[i - 1] && newPath[i - 1] !in oldPath[i..]
  {
    var i := FirstDiff(oldPath, newPath);
    assert oldPath[..i][i - 1] == oldPath[i - 1] by { assert i >= 1; }
    assert newPath[..i][i - 1] == newPath[i - 1];
    forall k | i <= k < |oldPath| ensures oldPath[k] != oldPath[i - 1] {
    }
  }

  /**
    * `if old_path[0] != new_path[0]: old_path.reverse()`, for a wrapping that starts at an end of
    * the path order: the orders are then in step.
    */
  method Align(ghost g: Graph, ghost layers: seq<Graph>, ghost arrange: (Node, Node, seq<Node>) -> seq<Node>,
               oldPath: seq<Node>, newPath: seq<Node>, ghost order: seq<Node>) returns (r: seq<Node>)
    requires Valid(g) && ArrangeSpec(arrange) && Traversal(g, oldPath) && Traversal(g, order) && |order| >= 2
    requires NodeLayer(layers, order[0]) == Some(0) && newPath == Wrapping(order, arrange)
    requires order[0] == oldPath[0] || order[0] == oldPath[|oldPath| - 1]
    ensures InStepOrders(g, layers, arrange, r, newPath, order)
    ensures r == oldPath || r == Reverse(oldPath)
  {
    WrappingPermutes(order, arrange);
    assert forall v :: v in newPath ==> v in multiset(order);
    r := oldPath;
    if oldPath[0] != newPath[0] {
      TraversalReversed(g, oldPath);
      r := Reverse(oldPath);
    }
  }

  /**
    * The path runs in a wrapping order: order is a path order of g from an outer node, and the
    * path order winding it is a path order of g as well.
    */
  ghost predicate WrappedBy(g: Graph, layers: seq<Graph>, arrange: (Node, Node, seq<Node>) -> seq<Node>, order: seq<Node>)
    requires Square(g)
  {
    Traversal(g, order) && |order| >= 2 && NodeLayer(layers, order[0]) == Some(0) &&
    ArrangeSpec(arrange) && Traversal(g, Wrapping(order, arrange))
  }

  /** A node of the path lies on some layer once the layers split the node list. */
  lemma OnSomeLayer(layers: seq<Graph>, nodes: seq<Node>, v: Node)
    requires Peeled(layers, nodes) && v in nodes
    ensures NodeLayer(layers, v).Some?
  {
  }

  class Wrapper {
    const canvas: Canvas
    const rng: Random
    const cancelAt: nat -> bool
    const arrange: (Node, Node, seq<Node>) -> seq<Node>
    const aim: (Node, Node, Node, seq<Node>) -> seq<Node>
    /** How often the wrapper has looked at its flag. */
    var polls: nat
    var stopped: bool

    ghost predicate Valid()
      reads this, canvas, canvas.graph
    {
      canvas.Valid() && ArrangeSpec(arrange) && AimSpec(aim)
    }

    /** A stopped wrapper on the canvas. */
    constructor (c: Canvas, r: Random, cancel: nat -> bool,
                 sortByAngle: (Node, Node, seq<Node>) -> seq<Node>,
                 pickByAngle: (Node, Node, Node, seq<Node>) -> seq<Node>)
      requires c.Valid() && ArrangeSpec(sortByAngle) && AimSpec(pickByAngle)
      ensures Valid() && canvas == c && rng == r && cancelAt == cancel
      ensures arrange == sortByAngle && aim == pickByAngle
      ensures stopped && polls == 0
    {
      canvas := c;
      rng := r;
      cancelAt := cancel;
      arrange := sortByAngle;
      aim := pickByAngle;
      polls := 0;
      stopped := true;
    }

    /** change_stop. */
    method ChangeStop()
      modifies this
      ensures stopped && polls == old(polls)
    {
      stopped := true;
    }

    /** A look at the flag, after whatever cancel the interface thread has sent by now. */
    method Look() returns (halt: bool)
      modifies this
      ensures stopped == (old(stopped) || cancelAt(old(polls))) && halt == stopped
      ensures polls == old(polls) + 1
    {
      if cancelAt(polls) {
        ChangeStop();
      }
      polls := polls + 1;
      halt := stopped;
    }

    /**
      * wrap_path: compute the layers; with none, only a message. Otherwise lower the flag; with
      * neither recorded end of the path on the outer layer ask for a solve; else wrap from the
      * first end that is, round by round, at most 100 rounds. Equal orders: wrapped. Otherwise
      * the path is rebuilt from its lines. The flag goes up again unless an exception escaped.
      */
    method WrapPath(hull: seq<Node> -> seq<Node>) returns (outcome: WrapOutcome, steps: nat, ghost order: seq<Node>)
      requires Valid() && Ready(canvas) && HullSpec(hull)
      modifies this, canvas, canvas.graph, rng
      ensures Valid() && Ready(canvas) && canvas.graph.nodes == old(canvas.graph.nodes)
      ensures outcome == NoLayers <==> canvas.layers == []
      ensures outcome == NoLayers ==> canvas.Hist() == old(canvas.Hist()) && stopped == old(stopped)
      ensures outcome == NotSolved ==>
        stopped && canvas.graph.Model() == old(canvas.graph.Model()) &&
        OnOuter(canvas.layers, old(canvas.graph.start)) == Some(false) &&
        OnOuter(canvas.layers, old(canvas.graph.end)) == Some(false)
      ensures outcome == Wrapped ==> stopped && WrappedBy(canvas.graph.Model(), canvas.layers, arrange, order)
      ensures outcome.Abandoned? ==> stopped && fresh(canvas.graph)
      ensures outcome == Abandoned(false) ==> steps == 101 || (polls > 0 && cancelAt(polls - 1))
      ensures outcome in {Wrapped, Abandoned(false), Abandoned(true), Stale} ==>
        Moved(old(canvas.graph.Model()), canvas.graph.Model())
      ensures SpanningSpec(old(canvas.graph.Model())) ==> Kept(old(canvas.graph.Model()), canvas.graph.Model())
    {
      canvas.ComputeCh(hull);
      if |canvas.layers| == 0 {
        return NoLayers, 0, [];
      }
      outcome, steps, order := WrapOnLayers();
    }

    /**
      * wrap_path once the layers are there: lower the flag, find the end of the path to wrap
      * from, and wrap from it.
      */
    method WrapOnLayers() returns (outcome: WrapOutcome, steps: nat, ghost order: seq<Node>)
      requires Valid() && Ready(canvas) && Peeled(canvas.layers, canvas.graph.nodes) && |canvas.layers| > 0
      modifies this, canvas, canvas.graph, rng
      ensures Valid() && Ready(canvas) && canvas.graph.nodes == old(canvas.graph.nodes) && canvas.layers == old(canvas.layers)
      ensures outcome != NoLayers
      ensures outcome == NotSolved ==>
        stopped && canvas.graph.Model() == old(canvas.graph.Model()) &&
        OnOuter(canvas.layers, old(canvas.graph.start)) == Some(false) &&
        OnOuter(canvas.layers, old(canvas.graph.end)) == Some(false)
      ensures outcome == Wrapped ==> stopped && WrappedBy(canvas.graph.Model(), canvas.layers, arrange, order)
      ensures outcome.Abandoned? ==> stopped && fresh(canvas.graph)
      ensures outcome == Abandoned(false) ==> steps == 101 || (polls > 0 && cancelAt(polls - 1))
      ensures outcome in {Wrapped, Abandoned(false), Abandoned(true), Stale} ==>
        Moved(old(canvas.graph.Model()), canvas.graph.Model())
      ensures SpanningSpec(old(canvas.graph.Model())) ==> Kept(old(canvas.graph.Model()), canvas.graph.Model())
    {
      SameGraphRefl(canvas.graph.Model());
      order := [];
      steps := 0;
      stopped := false;
      var atStart := OnOuter(canvas.layers, canvas.graph.start);
      var atEnd := OnOuter(canvas.layers, canvas.graph.end);
      if atStart.None? || atEnd.None? {
        return Crashed, 0, [];
      }
      if !atStart.value && !atEnd.value {
        stopped := true;
        return NotSolved, 0, [];
      }
      var start := if atStart.value then canvas.graph.start.value else canvas.graph.end.value;
      outcome, steps, order := WrapFrom(start);
    }

    /** The else branch of wrap_path: the orders from `start`, then the rounds and what follows. */
    method WrapFrom(start: Node) returns (outcome: WrapOutcome, steps: nat, ghost order: seq<Node>)
      requires Valid() && Ready(canvas) && Peeled(canvas.layers, canvas.graph.nodes) && |canvas.layers| > 0 && !stopped
      modifies this, canvas, canvas.graph, rng
      ensures Valid() && Ready(canvas) && canvas.graph.nodes == old(canvas.graph.nodes) && canvas.layers == old(canvas.layers)
      ensures outcome in {Wrapped, Abandoned(false), Abandoned(true), Stale, Crashed}
      ensures outcome == Wrapped ==> stopped && WrappedBy(canvas.graph.Model(), canvas.layers, arrange, order)
      ensures outcome.Abandoned? ==> stopped && fresh(canvas.graph)
      ensures outcome == Abandoned(false) ==> steps == 101 || (polls > 0 && cancelAt(polls - 1))
      ensures outcome != Crashed ==> Moved(old(canvas.graph.Model()), canvas.graph.Model())
      ensures SpanningSpec(old(canvas.graph.Model())) ==> Kept(old(canvas.graph.Model()), canvas.graph.Model())
    {
      SameGraphRefl(canvas.graph.Model());
      var crashed, oldPath, newPath;
      crashed, oldPath, newPath, order := Prepare(start);
      if crashed {
        return Crashed, 0, order;
      }
      outcome, steps, order := Wind(oldPath, newPath, order);
    }

    /**
      * The start of wrap_path's else branch: the path order (an AssertionError when the path is
      * not spanning: crashed), the wrapping from start (which get_wrapping asserts is an end of the
      * path on the outer layer), and the path order reversed when it starts at the other end.
      */
    method Prepare(start: Node) returns (crashed: bool, oldPath: seq<Node>, newPath: seq<Node>, ghost order: seq<Node>)
      requires Valid() && Ready(canvas) && Peeled(canvas.layers, canvas.graph.nodes) && |canvas.layers| > 0
      modifies canvas.graph
      ensures Valid() && Ready(canvas) && canvas.graph.Model() == old(canvas.graph.Model())
      ensures !crashed <==>
        SpanningSpec(canvas.graph.Model()) && canvas.graph.start.Some? && canvas.graph.end.Some? &&
        (start == canvas.graph.start.value || start == canvas.graph.end.value) && NodeLayer(canvas.layers, start) == Some(0)
      ensures !crashed ==> InStepOrders(canvas.graph.Model(), canvas.layers, arrange, oldPath, newPath, order) && order[0] == start
    {
      var spanning := canvas.graph.IsSpanningPath();
      assert canvas.Hist().current.graph == old(canvas.graph.Model());
      if !spanning {
        return true, [], [], [];
      }
      oldPath := OrderPath(canvas);
      crashed, newPath, order := GetWrapping(canvas, canvas.layers, start, arrange);
      if crashed {
        return;
      }
      oldPath := Align(canvas.graph.Model(), canvas.layers, arrange, oldPath, newPath, order);
    }

    /**
      * What follows the loop of wrap_path: equal orders are wrapped; otherwise the path is
      * rebuilt from its lines, and the message says whether the path order lost its outer end.
      * The flag goes up. A crash or a stale round skips it.
      */
    method Wind(oldPath: seq<Node>, newPath: seq<Node>, ghost order: seq<Node>)
      returns (outcome: WrapOutcome, steps: nat, ghost finalOrder: seq<Node>)
      requires Valid() && Ready(canvas) && Peeled(canvas.layers, canvas.graph.nodes) && |canvas.layers| > 0
      requires SpanningSpec(canvas.graph.Model()) && !stopped
      requires InStepOrders(canvas.graph.Model(), canvas.layers, arrange, oldPath, newPath, order)
      modifies this, canvas, canvas.graph, rng
      ensures Valid() && Ready(canvas) && canvas.graph.nodes == old(canvas.graph.nodes) && canvas.layers == old(canvas.layers)
      ensures outcome in {Wrapped, Abandoned(false), Abandoned(true), Stale, Crashed}
      ensures outcome == Wrapped ==> stopped && WrappedBy(canvas.graph.Model(), canvas.layers, arrange, finalOrder)
      ensures outcome.Abandoned? ==> stopped && fresh(canvas.graph)
      ensures outcome == Abandoned(false) ==> steps == 101 || (polls > 0 && cancelAt(polls - 1))
      ensures Moved(old(canvas.graph.Model()), canvas.graph.Model())
    {
      ghost var g := canvas.graph.Model();
      var state, o, n, stale;
      state, o, n, steps, finalOrder, stale := Rounds(oldPath, newPath, order);
      outcome := Conclude(g, o, n, state, steps, finalOrder, stale);
    }

    /**
      * After the loop: a stale round (the next would start at index 0) or a crash ends it as it
      * is; equal orders are wrapped, otherwise the path is abandoned; the flag goes up.
      */
    method Conclude(ghost g: Graph, o: seq<Node>, n: seq<Node>, state: Realigned, steps: nat, ghost order: seq<Node>, stale: bool)
      returns (outcome: WrapOutcome)
      requires Valid() && Ready(canvas) && GraphModel.Valid(g) && Moved(g, canvas.graph.Model())
      requires state == InStep ==> InStepOrders(canvas.graph.Model(), canvas.layers, arrange, o, n, order)
      requires state == OutOfStep || state == GaveUp ==> OutOfStepOrders(canvas.graph.Model(), canvas.layers, o, n)
      requires state == InStep && o != n ==> steps == 101 || (polls > 0 && cancelAt(polls - 1))
      requires stale ==> state == OutOfStep
      modifies this, canvas, canvas.graph
      ensures Valid() && Ready(canvas) && canvas.graph.nodes == old(canvas.graph.nodes) && canvas.layers == old(canvas.layers)
      ensures outcome in {Wrapped, Abandoned(false), Abandoned(true), Stale, Crashed}
      ensures outcome == Stale <==> stale
      ensures outcome == Stale ==> o != n && FirstDiff(o, n) == 0
      ensures outcome == Crashed <==> !stale && state == Failed
      ensures outcome == Wrapped ==> WrappedBy(canvas.graph.Model(), canvas.layers, arrange, order)
      ensures outcome.Abandoned? ==> fresh(canvas.graph)
      ensures outcome == Abandoned(false) ==> steps == 101 || (polls > 0 && cancelAt(polls - 1))
      ensures Moved(g, canvas.graph.Model())
      ensures outcome != Stale && outcome != Crashed ==> stopped
      ensures polls == old(polls)
    {
      if stale {
        OutOfStepDiff(canvas.graph.Model(), canvas.layers, o, n);
        return Stale;
      }
      if state == Failed {
        return Crashed;
      }
      ghost var m := canvas.graph.Model();
      if o == n {
        InStepWrapped(canvas.graph.Model(), canvas.layers, arrange, o, n, order);
        SameGraphRefl(canvas.graph.Model());
        MovedSame(canvas.graph.Model(), canvas.graph.Model());
        outcome := Wrapped;
      } else {
        var invalid := Abandon(o, n, state, order);
        outcome := Abandoned(invalid);
      }
      MovedTrans(g, m, canvas.graph.Model());
      ChangeStop();
    }

    /**
      * The else branch after the loop: rebuild the path from its lines; invalid (the message
      * "Path invalid") when neither end of the last path order is on the outer layer, which never
      * holds of orders in step.
      */
    method Abandon(o: seq<Node>, n: seq<Node>, state: Realigned, ghost order: seq<Node>) returns (invalid: bool)
      requires Valid() && Ready(canvas) && SpanningSpec(canvas.graph.Model()) && o != n
      requires state == InStep ==> InStepOrders(canvas.graph.Model(), canvas.layers, arrange, o, n, order)
      requires state != InStep ==> OutOfStepOrders(canvas.graph.Model(), canvas.layers, o, n)
      modifies canvas, canvas.graph
      ensures Valid() && Ready(canvas) && fresh(canvas.graph)
      ensures canvas.graph.nodes == old(canvas.graph.nodes) && canvas.layers == old(canvas.layers)
      ensures Moved(old(canvas.graph.Model()), canvas.graph.Model())
      ensures !invalid ==> state == InStep
    {
      ghost var m := canvas.graph.Model();
      invalid := NodeLayer(canvas.layers, o[0]) != Some(0) && NodeLayer(canvas.layers, o[|o| - 1]) != Some(0);
      if state == InStep {
        InStepHasEnds(m, canvas.layers, arrange, o, n, order);
      }
      Rebuild(canvas);
      MovedSame(m, canvas.graph.Model());
    }

    /** The two orders as a round leaves them: in step, or out of step after a correction. */
    ghost predicate Aligned(state: Realigned, o: seq<Node>, n: seq<Node>, order: seq<Node>)
      reads this, canvas, canvas.graph
    {
      Square(canvas.graph.Model()) &&
      (state == InStep ==> InStepOrders(canvas.graph.Model(), canvas.layers, arrange, o, n, order)) &&
      (state == OutOfStep || state == GaveUp ==> OutOfStepOrders(canvas.graph.Model(), canvas.layers, o, n))
    }

    /**
      * The loop of wrap_path: while the orders differ, count the round (break after round 100),
      * look at the flag (break when up), run a round; the loop breaks when a correction gives up.
      * A round that would start from orders out of step ends the model: stale.
      */
    method Rounds(oldPath: seq<Node>, newPath: seq<Node>, ghost order: seq<Node>)
      returns (state: Realigned, o: seq<Node>, n: seq<Node>, steps: nat, ghost finalOrder: seq<Node>, stale: bool)
      requires Valid() && Ready(canvas) && Peeled(canvas.layers, canvas.graph.nodes) && |canvas.layers| > 0
      requires SpanningSpec(canvas.graph.Model()) && !stopped
      requires InStepOrders(canvas.graph.Model(), canvas.layers, arrange, oldPath, newPath, order)
      modifies this, canvas, canvas.graph, rng
      ensures Valid() && Ready(canvas) && canvas.graph == old(canvas.graph)
      ensures canvas.graph.nodes == old(canvas.graph.nodes) && canvas.layers == old(canvas.layers)
      ensures Moved(old(canvas.graph.Model()), canvas.graph.Model())
      ensures Aligned(state, o, n, finalOrder)
      ensures state == InStep && o != n ==> steps == 101 || (polls > 0 && cancelAt(polls - 1))
      ensures steps <= 101
      ensures stale ==> state == OutOfStep
    {
      ghost var g := canvas.graph.Model();
      ghost var path, layers := canvas.graph, canvas.layers;
      SameGraphRefl(g);
      MovedSame(g, g);
      o, n := oldPath, newPath;
      finalOrder := order;
      state := InStep;
      steps, stale := 0, false;
      while o != n && steps <= 100
        invariant Valid() && Ready(canvas) && canvas.graph == path
        invariant canvas.graph.nodes == g.nodes && canvas.layers == layers
        invariant Moved(g, canvas.graph.Model()) && !stopped && !stale
        invariant steps <= 101
        invariant (state == InStep || state == OutOfStep) && Aligned(state, o, n, finalOrder)
        decreases 101 - steps
      {
        var halt;
        ghost var ran;
        steps, halt, stale, state, o, n, finalOrder, ran := Turn(g, steps, state, o, n, finalOrder);
        if halt || stale || state == Failed || state == GaveUp {
          break;
        }
      }
    }

    /**
      * A round of the loop of wrap_path once counted: look at the flag (halt when up); orders
      * out of step end the model (stale); otherwise run the round.
      */
    method Turn(ghost g: Graph, count: nat, state: Realigned, o: seq<Node>, n: seq<Node>, ghost order: seq<Node>)
      returns (steps: nat, halt: bool, stale: bool, state2: Realigned, o2: seq<Node>, n2: seq<Node>,
               ghost order2: seq<Node>, ghost ran: seq<Move>)
      requires Valid() && Ready(canvas) && Peeled(canvas.layers, canvas.graph.nodes) && |canvas.layers| > 0
      requires GraphModel.Valid(g) && Moved(g, canvas.graph.Model()) && !stopped && o != n && count <= 100
      requires (state == InStep || state == OutOfStep) && Aligned(state, o, n, order)
      modifies this, canvas, canvas.graph, rng
      ensures Valid() && Ready(canvas) && canvas.graph == old(canvas.graph)
      ensures canvas.graph.nodes == old(canvas.graph.nodes) && canvas.layers == old(canvas.layers)
      ensures Moved(g, canvas.graph.Model()) && Aligned(state2, o2, n2, order2)
      ensures steps == count + 1
      ensures steps == 101 ==> !halt && !stale && state2 == state && o2 == o && n2 == n && ran == []
      ensures halt ==> state2 == state && o2 == o && n2 == n && polls > 0 && cancelAt(polls - 1) && ran == []
      ensures !halt ==> !stopped
      ensures stale ==> !halt && state2 == OutOfStep && ran == []
      ensures steps <= 100 && !halt && !stale ==> state == InStep
      ensures steps <= 100 && !halt && !stale && state2 != Failed ==>
        ran == Schedule(steps, FirstOnOuter(old(canvas.layers), o, n))
    {
      state2, o2, n2, order2, ran := state, o, n, order, [];
      steps, halt, stale := count + 1, false, false;
      if steps > 100 {
        return;
      }
      ghost var p0 := polls;
      halt := Look();
      if halt {
        assert polls - 1 == p0 && cancelAt(p0);
        return;
      }
      if state == OutOfStep {
        stale := true;
        return;
      }
      ghost var m := canvas.graph.Model();
      state2, o2, n2, order2, ran := Round(steps, o, n, order);
      MovedTrans(g, m, canvas.graph.Model());
    }

    /**
      * One round of wrap_path on orders in step: at the first place they differ, the first-layer
      * step when the node before it is on the outer layer, the step (even rounds) or the
      * alternative step (odd rounds), del_later every tenth round, and the orders taken afresh.
      */
    method Round(steps: nat, oldPath: seq<Node>, newPath: seq<Node>, ghost order: seq<Node>)
      returns (state: Realigned, o: seq<Node>, n: seq<Node>, ghost nextOrder: seq<Node>, ghost ran: seq<Move>)
      requires Valid() && Ready(canvas) && Peeled(canvas.layers, canvas.graph.nodes) && |canvas.layers| > 0
      requires SpanningSpec(canvas.graph.Model()) && oldPath != newPath
      requires InStepOrders(canvas.graph.Model(), canvas.layers, arrange, oldPath, newPath, order)
      modifies canvas, canvas.graph, rng
      ensures Valid() && Ready(canvas) && canvas.graph == old(canvas.graph)
      ensures canvas.graph.nodes == old(canvas.graph.nodes) && canvas.layers == old(canvas.layers)
      ensures Moved(old(canvas.graph.Model()), canvas.graph.Model())
      ensures Aligned(state, o, n, nextOrder)
      ensures state == Failed ==> ran == [FirstStep]
      ensures state != Failed ==> ran == Schedule(steps, FirstOnOuter(canvas.layers, oldPath, newPath))
    {
      ghost var g := canvas.graph.Model();
      InStepHasEnds(g, canvas.layers, arrange, oldPath, newPath, order);
      var crashed;
      crashed, ran := Advance(steps, oldPath, newPath, order);
      o, n, nextOrder := oldPath, newPath, order;
      if crashed {
        state := Failed;
        return;
      }
      ghost var m := canvas.graph.Model();
      state, o, n, nextOrder := Realign(newPath);
      MovedTrans(g, m, canvas.graph.Model());
    }

    /** The moves of a round: first-layer step, step or alternative step, del_later. */
    method Advance(steps: nat, oldPath: seq<Node>, newPath: seq<Node>, ghost order: seq<Node>)
      returns (crashed: bool, ghost ran: seq<Move>)
      requires Valid() && Ready(canvas) && Peeled(canvas.layers, canvas.graph.nodes) && |canvas.layers| > 0
      requires SpanningSpec(canvas.graph.Model()) && oldPath != newPath
      requires InStepOrders(canvas.graph.Model(), canvas.layers, arrange, oldPath, newPath, order)
      modifies canvas, canvas.graph, rng
      ensures Valid() && Ready(canvas) && canvas.graph == old(canvas.graph)
      ensures canvas.graph.nodes == old(canvas.graph.nodes) && canvas.layers == old(canvas.layers)
      ensures Moved(old(canvas.graph.Model()), canvas.graph.Model())
      ensures crashed ==> ran == [FirstStep]
      ensures !crashed ==> ran == Schedule(steps, FirstOnOuter(old(canvas.layers), oldPath, newPath))
    {
      ghost var g := canvas.graph.Model();
      SameGraphRefl(g);
      MovedSame(g, g);
      InStepDiff(g, canvas.layers, arrange, oldPath, newPath, order);
      var i := FirstDiff(oldPath, newPath);
      ghost var first := FirstOnOuter(canvas.layers, oldPath, newPath);
      assert first <==> NodeLayer(canvas.layers, newPath[i - 1]) == Some(0);
      ghost var head: seq<Move> := [];
      ghost var step := Step;
      ghost var later: seq<Move> := [];
      crashed := false;
      if NodeLayer(canvas.layers, newPath[i - 1]) == Some(0) {
        ghost var seen;
        crashed, seen := WrapPathStepFirst(canvas, rng, canvas.layers);
        head := [FirstStep];
        if crashed {
          ran := head;
          return;
        }
      }
      ghost var m := canvas.graph.Model();
      if steps % 2 == 0 {
        WrapPathStep(canvas, rng, canvas.layers, aim, oldPath, newPath, i);
      } else {
        WrapPathStepAlt(canvas, rng, canvas.layers, aim, oldPath, newPath, i);
        step := AltStep;
      }
      MovedTrans(g, m, canvas.graph.Model());
      if steps % 10 == 0 {
        ghost var m2 := canvas.graph.Model();
        DelLater(canvas, rng, canvas.layers, i, oldPath);
        MovedTrans(g, m2, canvas.graph.Model());
        later := [Later];
      }
      ran := head + [step] + later;
    }

    /**
      * The end of a round: the path order afresh and the first of its ends on the outer layer;
      * its wrapping, with the path order reversed to start where the wrapping does. With no end
      * on the outer layer (the IndexError the source catches), wrap_path_correction at the
      * order's first node and, when that leaves it an end, at its second: on again when both
      * do, give up when only the first does, on again (out of step) when the first does not.
      */
    method Realign(prevNew: seq<Node>) returns (state: Realigned, o: seq<Node>, n: seq<Node>, ghost nextOrder: seq<Node>)
      requires Valid() && Ready(canvas) && Peeled(canvas.layers, canvas.graph.nodes) && |canvas.layers| > 0
      requires SpanningSpec(canvas.graph.Model())
      requires |prevNew| == |canvas.graph.nodes| && |prevNew| > 0 && NodeLayer(canvas.layers, prevNew[0]) == Some(0)
      modifies canvas, canvas.graph, rng
      ensures Valid() && Ready(canvas) && canvas.graph == old(canvas.graph)
      ensures canvas.graph.nodes == old(canvas.graph.nodes) && canvas.layers == old(canvas.layers)
      ensures Moved(old(canvas.graph.Model()), canvas.graph.Model())
      ensures state != Failed
      ensures Aligned(state, o, n, nextOrder)
    {
      ghost var g := canvas.graph.Model();
      SameGraphRefl(g);
      MovedSame(g, g);
      o := OrderPath(canvas);
      var first := NodeLayer(canvas.layers, o[0]) == Some(0);
      var last := NodeLayer(canvas.layers, o[|o| - 1]) == Some(0);
      if first || last {
        var start := if first then o[0] else o[|o| - 1];
        var crashed;
        crashed, n, nextOrder := GetWrapping(canvas, canvas.layers, start, arrange);
        assert !crashed;
        o := Align(canvas.graph.Model(), canvas.layers, arrange, o, n, nextOrder);
        return InStep, o, n, nextOrder;
      }
      n, nextOrder := prevNew, [];
      var code := WrapPathCorrection(canvas, rng, canvas.layers, o[0]);
      state := OutOfStep;
      if code == 1 {
        ghost var m := canvas.graph.Model();
        code := WrapPathCorrection(canvas, rng, canvas.layers, o[1]);
        MovedTrans(g, m, canvas.graph.Model());
        if code != 1 {
          state := GaveUp;
        }
      }
    }
  }
}
