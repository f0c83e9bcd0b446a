/**
  * The Solver object of Solver.py as a class: its stop flag, its record of the steps taken, the
  * two anchor moves and allocate_non_layer as they act on the canvas and the record, and
  * solve_to_canonical, the bounded loop that drives them.
  *
  * The interface thread's change_stop is a parameter: cancelAt(n) says whether a cancel has been
  * delivered by the n-th time the solver looks at its flag.
  */
module SolveLoop {
  import opened Geometry
  import opened GraphModel
  import opened PathSpec
  import opened Paths
  import opened Layers
  import opened Canvases
  import opened Solvers
  import opened SolverMoves
  import opened Randoms
  import opened SolverRuns

  /** How solve_to_canonical ends. */
  datatype Outcome =
    | NoLayers    // compute_ch found no layer: only the message is sent
    | Solved      // the path is canonical
    | ForcedStop  // more than 1000 rounds
    | Cancelled   // change_stop arrived: the path is rebuilt from its lines
    | Crashed     // allocate_non_layer found no line off the layers (an IndexError escapes)

  /** A record of steps: not empty, every step a valid graph, no step equal to the one before. */
  ghost predicate StepsValid(steps: seq<Snapshot>)
  {
    |steps| > 0 && Stepwise(steps) && forall k :: 0 <= k < |steps| ==> Valid(steps[k].graph)
  }

  class Solver {
    const canvas: Canvas
    const rng: Random
    const cancelAt: nat -> bool
    /** How often the solver has looked at its flag. */
    var polls: nat
    var stopped: bool
    var previousSteps: seq<Snapshot>

    ghost predicate Valid()
      reads this, canvas, canvas.graph
    {
      canvas.Valid() && StepsValid(previousSteps)
    }

    /** A stopped solver whose record holds a copy of the canvas's path. */
    constructor (c: Canvas, r: Random, cancel: nat -> bool)
      requires c.Valid()
      ensures Valid() && canvas == c && rng == r && cancelAt == cancel
      ensures stopped && polls == 0 && previousSteps == [c.graph.Snap()]
    {
      canvas := c;
      rng := r;
      cancelAt := cancel;
      polls := 0;
      stopped := true;
      previousSteps := [c.graph.Snap()];
    }

    /** change_stop. */
    method ChangeStop()
      modifies this
      ensures stopped && polls == old(polls) && previousSteps == old(previousSteps)
    {
      stopped := true;
    }

    /** A look at the flag, after whatever cancel the interface thread has sent by now. */
    method Look() returns (halt: bool)
      modifies this
      ensures stopped == (old(stopped) || cancelAt(old(polls))) && halt == stopped
      ensures polls == old(polls) + 1 && previousSteps == old(previousSteps)
    {
      if cancelAt(polls) {
        ChangeStop();
      }
      polls := polls + 1;
      halt := stopped;
    }

    /** `if not path == previous_steps[-1]: previous_steps.append(deepcopy(path))`. */
    method Record()
      requires Valid()
      modifies this
      ensures Valid() && previousSteps == Recorded(old(previousSteps), canvas.graph.Snap())
      ensures stopped == old(stopped) && polls == old(polls)
    {
      RecordedStepwise(previousSteps, canvas.graph.Snap());
      if !SameStep(canvas.graph.Snap(), previousSteps[|previousSteps| - 1]) {
        previousSteps := previousSteps + [canvas.graph.Snap()];
      }
    }

    /**
      * boundary_alg at node: assert the node is on the path, clear the flag, then by the size of
      * its layer scan the ring for a flip, join the pair, or do nothing; record the step.
      */
    method BoundaryAlg(node: Option<Node>) returns (raised: bool)
      requires Valid() && Ready(canvas) && Peeled(canvas.layers, canvas.graph.nodes)
      modifies this, canvas, canvas.graph, rng
      ensures Valid() && Ready(canvas) && canvas.graph == old(canvas.graph)
      ensures canvas.graph.nodes == old(canvas.graph.nodes) && canvas.layers == old(canvas.layers)
      ensures raised <==> Raises(canvas.layers, old(canvas.graph.Model()), node)
      ensures raised ==> canvas.graph.Model() == old(canvas.graph.Model()) && previousSteps == old(previousSteps)
      ensures !raised ==> previousSteps == Recorded(old(previousSteps), canvas.graph.Snap())
      ensures stopped == (if node.None? || node.value !in canvas.graph.nodes then old(stopped) else false)
      ensures SpanningSpec(old(canvas.graph.Model())) ==> Kept(old(canvas.graph.Model()), canvas.graph.Model())
      ensures polls == old(polls)
    {
      ghost var g := canvas.graph.Model();
      SameGraphRefl(g);
      if node.None? || node.value !in canvas.graph.nodes {
        return true;
      }
      var v := node.value;
      stopped := false;
      var layer := canvas.layers[NodeLayer(canvas.layers, v).value];
      raised := false;
      if |layer.nodes| != 1 && |layer.nodes| != 2 {
        raised := RingBoundary(canvas, v, layer);
        if raised {
          return;
        }
      } else if |layer.nodes| == 2 {
        PairStep(canvas, rng, layer.nodes[0], layer.nodes[1]);
      }
      Record();
    }

    /** boundary_alg_alt: boundary_alg with the alternative scan on a ring layer. */
    method BoundaryAlgAlt(node: Option<Node>) returns (raised: bool)
      requires Valid() && Ready(canvas) && Peeled(canvas.layers, canvas.graph.nodes)
      modifies this, canvas, canvas.graph, rng
      ensures Valid() && Ready(canvas) && canvas.graph == old(canvas.graph)
      ensures canvas.graph.nodes == old(canvas.graph.nodes) && canvas.layers == old(canvas.layers)
      ensures raised <==> Raises(canvas.layers, old(canvas.graph.Model()), node)
      ensures raised ==> canvas.graph.Model() == old(canvas.graph.Model()) && previousSteps == old(previousSteps)
      ensures !raised ==> previousSteps == Recorded(old(previousSteps), canvas.graph.Snap())
      ensures stopped == (if node.None? || node.value !in canvas.graph.nodes then old(stopped) else false)
      ensures SpanningSpec(old(canvas.graph.Model())) ==> Kept(old(canvas.graph.Model()), canvas.graph.Model())
      ensures polls == old(polls)
    {
      ghost var g := canvas.graph.Model();
      SameGraphRefl(g);
      if node.None? || node.value !in canvas.graph.nodes {
        return true;
      }
      var v := node.value;
      stopped := false;
      var layer := canvas.layers[NodeLayer(canvas.layers, v).value];
      raised := false;
      if |layer.nodes| != 1 && |layer.nodes| != 2 {
        raised := RingBoundaryAlt(canvas, rng, v, layer);
        if raised {
          return;
        }
      } else if |layer.nodes| == 2 {
        PairStep(canvas, rng, layer.nodes[0], layer.nodes[1]);
      }
      Record();
    }

    /**
      * allocate_non_layer: pick a line of the path that lies on no layer (ChooseLine) and
      * reallocate it with allocate_edge, then record the step. With no such line the source's
      * `linelist[0]` fails: crashed.
      */
    method AllocateNonLayer(mode: int) returns (crashed: bool, ghost line: Line, ghost p: nat, ghost q: nat, ghost a: nat, ghost b: nat)
      requires Valid() && Ready(canvas) && Peeled(canvas.layers, canvas.graph.nodes)
      modifies this, canvas, canvas.graph, rng
      ensures Valid() && Ready(canvas) && canvas.graph == old(canvas.graph)
      ensures canvas.graph.nodes == old(canvas.graph.nodes) && canvas.layers == old(canvas.layers)
      ensures crashed <==> NonLayer(canvas.layers, old(canvas.graph.Model()).lines) == []
      ensures crashed ==> canvas.graph.Model() == old(canvas.graph.Model()) && previousSteps == old(previousSteps)
      ensures !crashed ==> previousSteps == Recorded(old(previousSteps), canvas.graph.Snap())
      ensures !crashed ==> Reallocated(canvas.layers, old(canvas.graph.Model()), canvas.graph.Model(), mode, line, p, q, a, b)
      ensures SpanningSpec(old(canvas.graph.Model())) ==> Kept(old(canvas.graph.Model()), canvas.graph.Model())
      ensures stopped == old(stopped) && polls == old(polls)
    {
      assert this as object != rng && this as object != canvas && this as object != canvas.graph;
      crashed, line, p, q, a, b := AllocateOffLayers(canvas, rng, mode);
      if !crashed {
        Record();
      }
    }

    /**
      * One turn of the anchor loop: break when the path is canonical or the flag is up, else run
      * boundary_alg (boundary_alg_alt every fifth round) at the anchor; the AssertionError either
      * raises is caught and the loop goes on.
      */
    method AnchorStep(anchor: Option<Node>, alt: bool) returns (finish: bool)
      requires Valid() && Ready(canvas) && Peeled(canvas.layers, canvas.graph.nodes) && |canvas.layers| > 0
      modifies this, canvas, canvas.graph, rng
      ensures Valid() && Ready(canvas) && canvas.graph == old(canvas.graph)
      ensures canvas.graph.nodes == old(canvas.graph.nodes) && canvas.layers == old(canvas.layers)
      ensures finish <==> Canonical(canvas.layers, old(canvas.graph.Model())) || stopped
      ensures finish ==> canvas.graph.Model() == old(canvas.graph.Model()) && previousSteps == old(previousSteps)
      ensures old(previousSteps) <= previousSteps
      ensures SpanningSpec(old(canvas.graph.Model())) ==> Kept(old(canvas.graph.Model()), canvas.graph.Model())
      ensures polls >= old(polls)
    {
      SameGraphRefl(canvas.graph.Model());
      finish := Finished();
      if !finish {
        Anchor(anchor, alt);
      }
    }

    /** `if valid_canonical(path, layers): break` then `if self.stopped: break`. */
    method Finished() returns (finish: bool)
      requires Valid() && Ready(canvas) && Peeled(canvas.layers, canvas.graph.nodes) && |canvas.layers| > 0
      modifies this, canvas.graph
      ensures Valid() && Ready(canvas) && canvas.graph.Model() == old(canvas.graph.Model())
      ensures finish <==> Canonical(canvas.layers, canvas.graph.Model()) || stopped
      ensures previousSteps == old(previousSteps) && (stopped ==> finish) && polls >= old(polls)
    {
      finish := ValidCanonical(canvas);
      if !finish {
        finish := Look();
      }
    }

    /** `try: boundary_alg_alt(...) / boundary_alg(...) except AssertionError: continue`. */
    method Anchor(anchor: Option<Node>, alt: bool)
      requires Valid() && Ready(canvas) && Peeled(canvas.layers, canvas.graph.nodes)
      modifies this, canvas, canvas.graph, rng
      ensures Valid() && Ready(canvas) && canvas.graph == old(canvas.graph)
      ensures canvas.graph.nodes == old(canvas.graph.nodes) && canvas.layers == old(canvas.layers)
      ensures old(previousSteps) <= previousSteps && (stopped ==> old(stopped)) && polls == old(polls)
      ensures SpanningSpec(old(canvas.graph.Model())) ==> Kept(old(canvas.graph.Model()), canvas.graph.Model())
    {
      var raised;
      if alt {
        raised := BoundaryAlgAlt(anchor);
      } else {
        raised := BoundaryAlg(anchor);
      }
    }

    /** `for anchor_node in [path.getStart(), path.getEnd()]`: an anchor step at each end in turn. */
    method AnchorPass(steps: nat)
      requires Valid() && Ready(canvas) && Peeled(canvas.layers, canvas.graph.nodes) && |canvas.layers| > 0
      modifies this, canvas, canvas.graph, rng
      ensures Valid() && Ready(canvas) && canvas.graph == old(canvas.graph)
      ensures canvas.graph.nodes == old(canvas.graph.nodes) && canvas.layers == old(canvas.layers)
      ensures old(previousSteps) <= previousSteps && polls >= old(polls)
      ensures SpanningSpec(old(canvas.graph.Model())) ==> Kept(old(canvas.graph.Model()), canvas.graph.Model())
    {
      ghost var g := canvas.graph.Model();
      SameGraphRefl(g);
      var candidates := [canvas.graph.start, canvas.graph.end];
      for k := 0 to 2
        invariant Valid() && Ready(canvas) && canvas.graph == old(canvas.graph)
        invariant canvas.graph.nodes == old(canvas.graph.nodes) && canvas.layers == old(canvas.layers)
        invariant old(previousSteps) <= previousSteps && polls >= old(polls)
        invariant SpanningSpec(g) ==> Kept(g, canvas.graph.Model())
      {
        ghost var m := canvas.graph.Model();
        var finish := AnchorStep(candidates[k], steps % 5 == 0);
        if SpanningSpec(g) {
          KeptTrans(g, m, canvas.graph.Model());
        }
        if finish {
          break;
        }
      }
    }

    /**
      * A round of solve_to_canonical after its two checks: the anchor pass, then, when the round
      * number is rand modulo 5, allocate_non_layer (mode 0 between rounds 6 and 49, mode 1
      * otherwise) and the next rand.
      */
    method Round(steps: nat, rand: int) returns (crashed: bool, next: int)
      requires Valid() && Ready(canvas) && Peeled(canvas.layers, canvas.graph.nodes) && |canvas.layers| > 0
      modifies this, canvas, canvas.graph, rng
      ensures Valid() && Ready(canvas) && canvas.graph == old(canvas.graph)
      ensures canvas.graph.nodes == old(canvas.graph.nodes) && canvas.layers == old(canvas.layers)
      ensures old(previousSteps) <= previousSteps
      ensures SpanningSpec(old(canvas.graph.Model())) ==> Kept(old(canvas.graph.Model()), canvas.graph.Model())
      ensures crashed ==> steps % 5 == rand && NonLayer(canvas.layers, canvas.graph.lines) == []
      ensures steps % 5 != rand ==> next == rand
      ensures steps % 5 == rand && !crashed ==>
        if 5 < steps < 50 || 50 < steps < 800 then 2 <= next <= 3 else next == 1
    {
      ghost var g := canvas.graph.Model();
      SameGraphRefl(g);
      AnchorPass(steps);
      crashed, next := false, rand;
      if steps % 5 == rand {
        ghost var m := canvas.graph.Model();
        crashed := Reallocate(if 5 < steps < 50 then 0 else 1);
        if SpanningSpec(g) {
          KeptTrans(g, m, canvas.graph.Model());
        }
        if !crashed {
          next := NextRand(steps);
        }
      }
    }

    /** allocate_non_layer in the given mode, with only what the main loop needs of it. */
    method Reallocate(mode: int) returns (crashed: bool)
      requires Valid() && Ready(canvas) && Peeled(canvas.layers, canvas.graph.nodes)
      modifies this, canvas, canvas.graph, rng
      ensures Valid() && Ready(canvas) && canvas.graph == old(canvas.graph)
      ensures canvas.graph.nodes == old(canvas.graph.nodes) && canvas.layers == old(canvas.layers)
      ensures old(previousSteps) <= previousSteps
      ensures SpanningSpec(old(canvas.graph.Model())) ==> Kept(old(canvas.graph.Model()), canvas.graph.Model())
      ensures crashed ==> NonLayer(canvas.layers, canvas.graph.lines) == []
    {
      ghost var line, p, q, a, b;
      ghost var steps0, lines0 := previousSteps, canvas.graph.lines;
      crashed, line, p, q, a, b := AllocateNonLayer(mode);
      if crashed {
        assert canvas.graph.lines == lines0;
      } else {
        RecordedStepwise(steps0, canvas.graph.Snap());
      }
    }

    /** `rand = randint(2, 3)` in the first two step ranges, `rand = 1` after them. */
    method NextRand(steps: nat) returns (next: int)
      modifies rng
      ensures if 5 < steps < 50 || 50 < steps < 800 then 2 <= next <= 3 else next == 1
    {
      if 5 < steps < 50 || 50 < steps < 800 {
        next := rng.Between(2, 3);
      } else {
        next := 1;
      }
    }

    /**
      * The loop of solve_to_canonical: while the path is not canonical and the flag is down, run
      * a round; stop after round 1000. An IndexError from allocate_non_layer ends it: crashed.
      */
    method Search() returns (crashed: bool, steps: nat)
      requires Valid() && Ready(canvas) && Peeled(canvas.layers, canvas.graph.nodes) && |canvas.layers| > 0
      modifies this, canvas, canvas.graph, rng
      ensures Valid() && Ready(canvas) && canvas.graph == old(canvas.graph)
      ensures canvas.graph.nodes == old(canvas.graph.nodes) && canvas.layers == old(canvas.layers)
      ensures old(previousSteps) <= previousSteps && steps <= 1001
      ensures SpanningSpec(old(canvas.graph.Model())) ==> Kept(old(canvas.graph.Model()), canvas.graph.Model())
      ensures crashed ==> NonLayer(canvas.layers, canvas.graph.lines) == []
      ensures !crashed ==> Canonical(canvas.layers, canvas.graph.Model()) || stopped || steps == 1001
    {
      ghost var g := canvas.graph.Model();
      SameGraphRefl(g);
      var rand := 3;
      crashed, steps := false, 0;
      while true
        invariant Valid() && Ready(canvas) && canvas.graph == old(canvas.graph)
        invariant canvas.graph.nodes == old(canvas.graph.nodes) && canvas.layers == old(canvas.layers)
        invariant old(previousSteps) <= previousSteps && steps <= 1000 && !crashed
        invariant SpanningSpec(g) ==> Kept(g, canvas.graph.Model())
        decreases 1000 - steps
      {
        var finish := Finished();
        if finish {
          return;
        }
        steps := steps + 1;
        ghost var m := canvas.graph.Model();
        crashed, rand := Round(steps, rand);
        if SpanningSpec(g) {
          KeptTrans(g, m, canvas.graph.Model());
        }
        if crashed || steps > 1000 {
          return;
        }
      }
    }

    /**
      * solve_to_canonical: compute the layers, then search; a path left canonical is solved, a
      * cancelled one is rebuilt from its lines, and otherwise the round limit stopped it. The
      * record becomes the canvas's undo list and the flag goes up again. With no layers only a
      * message is sent; a crash skips everything after the loop.
      */
    method SolveToCanonical(hull: seq<Node> -> seq<Node>) returns (outcome: Outcome, steps: nat)
      requires Valid() && Ready(canvas) && HullSpec(hull)
      modifies this, canvas, canvas.graph, rng
      ensures Valid() && Ready(canvas) && canvas.graph.nodes == old(canvas.graph.nodes)
      ensures outcome == NoLayers <==> canvas.layers == []
      ensures outcome == NoLayers ==>
        canvas.Hist() == old(canvas.Hist()) && stopped == old(stopped) && previousSteps == old(previousSteps) && steps == 0
      ensures outcome == Solved ==> Canonical(canvas.layers, canvas.graph.Model())
      ensures outcome == ForcedStop ==> !Canonical(canvas.layers, canvas.graph.Model()) && steps == 1001
      ensures outcome == Cancelled ==> fresh(canvas.graph)
      ensures outcome == Crashed ==> NonLayer(canvas.layers, canvas.graph.lines) == []
      ensures outcome in {Solved, ForcedStop, Cancelled} ==> stopped && canvas.lastGraphs == previousSteps
      ensures old(previousSteps) <= previousSteps && steps <= 1001
      ensures SpanningSpec(old(canvas.graph.Model())) ==> Kept(old(canvas.graph.Model()), canvas.graph.Model())
    {
      ghost var g := canvas.graph.Model();
      SameGraphRefl(g);
      canvas.ComputeCh(hull);
      if |canvas.layers| == 0 {
        return NoLayers, 0;
      }
      outcome, steps := Solve();
    }

    /** The else branch of solve_to_canonical: lower the flag, search, and finish unless it crashed. */
    method Solve() returns (outcome: Outcome, steps: nat)
      requires Valid() && Ready(canvas) && Peeled(canvas.layers, canvas.graph.nodes) && |canvas.layers| > 0
      modifies this, canvas, canvas.graph, rng
      ensures Valid() && Ready(canvas) && canvas.graph.nodes == old(canvas.graph.nodes) && canvas.layers == old(canvas.layers)
      ensures outcome != NoLayers
      ensures outcome == Solved ==> Canonical(canvas.layers, canvas.graph.Model())
      ensures outcome == ForcedStop ==> !Canonical(canvas.layers, canvas.graph.Model()) && steps == 1001
      ensures outcome == Cancelled ==> fresh(canvas.graph)
      ensures outcome == Crashed ==> NonLayer(canvas.layers, canvas.graph.lines) == []
      ensures outcome in {Solved, ForcedStop, Cancelled} ==> stopped && canvas.lastGraphs == previousSteps
      ensures old(previousSteps) <= previousSteps && steps <= 1001
      ensures SpanningSpec(old(canvas.graph.Model())) ==> Kept(old(canvas.graph.Model()), canvas.graph.Model())
    {
      ghost var g := canvas.graph.Model();
      stopped := false;
      var crashed;
      crashed, steps := Search();
      if crashed {
        return Crashed, steps;
      }
      ghost var m := canvas.graph.Model();
      SameGraphRefl(m);
      outcome := Finish(steps);
      if SpanningSpec(g) {
        KeptTrans(g, m, canvas.graph.Model());
      }
    }

    /** What solve_to_canonical does after its loop. */
    method Finish(steps: nat) returns (outcome: Outcome)
      requires Valid() && Ready(canvas) && Peeled(canvas.layers, canvas.graph.nodes) && |canvas.layers| > 0
      requires Canonical(canvas.layers, canvas.graph.Model()) || stopped || steps == 1001
      modifies this, canvas, canvas.graph
      ensures Valid() && Ready(canvas) && canvas.graph.nodes == old(canvas.graph.nodes) && canvas.layers == old(canvas.layers)
      ensures outcome in {Solved, ForcedStop, Cancelled}
      ensures outcome == Solved <==> Canonical(canvas.layers, old(canvas.graph.Model()))
      ensures outcome == Solved ==> canvas.graph.Model() == old(canvas.graph.Model())
      ensures outcome == ForcedStop ==> !Canonical(canvas.layers, canvas.graph.Model()) && steps == 1001
      ensures outcome == ForcedStop ==> canvas.graph.Model() == old(canvas.graph.Model())
      ensures outcome == Cancelled ==> old(stopped) && fresh(canvas.graph) && SameGraph(canvas.graph.Model(), old(canvas.graph.Model()))
      ensures stopped && canvas.lastGraphs == previousSteps && previousSteps == old(previousSteps)
    {
      outcome := Conclude(steps);
      Publish();
    }

    /**
      * `if valid_canonical: solved / elif self.stopped: rebuild the path / else` (the round limit
      * was hit).
      */
    method Conclude(steps: nat) returns (outcome: Outcome)
      requires Valid() && Ready(canvas) && Peeled(canvas.layers, canvas.graph.nodes) && |canvas.layers| > 0
      requires Canonical(canvas.layers, canvas.graph.Model()) || stopped || steps == 1001
      modifies canvas, canvas.graph
      ensures Valid() && Ready(canvas) && canvas.graph.nodes == old(canvas.graph.nodes) && canvas.layers == old(canvas.layers)
      ensures outcome in {Solved, ForcedStop, Cancelled}
      ensures outcome == Solved <==> Canonical(canvas.layers, old(canvas.graph.Model()))
      ensures outcome != Cancelled ==> canvas.graph.Model() == old(canvas.graph.Model())
      ensures outcome == ForcedStop ==> steps == 1001
      ensures outcome == Cancelled ==> stopped && fresh(canvas.graph) && SameGraph(canvas.graph.Model(), old(canvas.graph.Model()))
    {
      var done := ValidCanonical(canvas);
      if done {
        outcome := Solved;
      } else if stopped {
        Rebuild(canvas);
        outcome := Cancelled;
      } else {
        outcome := ForcedStop;
      }
    }

    /** `self._canvas.last_graphs = self.previous_steps` and `self.stopped = True`. */
    method Publish()
      requires Valid() && Ready(canvas)
      modifies this, canvas
      ensures Valid() && Ready(canvas) && canvas.graph == old(canvas.graph) && canvas.layers == old(canvas.layers)
      ensures stopped && canvas.lastGraphs == previousSteps && previousSteps == old(previousSteps)
    {
      canvas.lastGraphs := previousSteps;
      stopped := true;
    }
  }

  /**
    * The path's part of allocate_non_layer: the line ChooseLine picks is reallocated with
    * allocate_edge; with no line off the layers nothing changes.
    */
  method AllocateOffLayers(c: Canvas, rng: Random, mode: int)
    returns (crashed: bool, ghost line: Line, ghost p: nat, ghost q: nat, ghost a: nat, ghost b: nat)
    requires Ready(c) && Peeled(c.layers, c.graph.nodes)
    modifies c, c.graph, rng
    ensures Ready(c) && c.graph == old(c.graph) && c.graph.nodes == old(c.graph.nodes) && c.layers == old(c.layers)
    ensures crashed <==> NonLayer(c.layers, old(c.graph.Model()).lines) == []
    ensures crashed ==> c.graph.Model() == old(c.graph.Model())
    ensures !crashed ==> Reallocated(c.layers, old(c.graph.Model()), c.graph.Model(), mode, line, p, q, a, b)
    ensures SpanningSpec(old(c.graph.Model())) ==> Kept(old(c.graph.Model()), c.graph.Model())
  {
    ghost var g := c.graph.Model();
    SameGraphRefl(g);
    var l;
    crashed, l := PickLine(c, rng, mode);
    line := l;
    if crashed {
      p, q, a, b := 0, 0, 0, 0;
      return;
    }
    p, q, a, b := AllocateLine(c, rng, l, g, mode);
  }

  /** ChooseLine on the canvas's path and layers, which it leaves as they are. */
  method PickLine(c: Canvas, rng: Random, mode: int) returns (crashed: bool, l: Line)
    requires Ready(c) && Peeled(c.layers, c.graph.nodes)
    modifies rng
    ensures Ready(c) && c.graph.Model() == old(c.graph.Model())
    ensures crashed <==> NonLayer(c.layers, c.graph.lines) == []
    ensures !crashed ==> Chosen(c.layers, c.graph.Model(), mode, l)
  {
    crashed, l := ChooseLine(c.layers, c.graph.nodes, c.graph.lines, mode, rng, c.graph.Model());
  }

  /** allocate_edge on a line of the path, with the ends it joins. */
  method AllocateLine(c: Canvas, rng: Random, l: Line, ghost g: Graph, ghost mode: int)
    returns (ghost p: nat, ghost q: nat, ghost a: nat, ghost b: nat)
    requires Ready(c) && g == c.graph.Model() && Chosen(c.layers, g, mode, l)
    modifies c, c.graph, rng
    ensures Ready(c) && c.graph == old(c.graph) && c.graph.nodes == old(c.graph.nodes) && c.layers == old(c.layers)
    ensures Reallocated(c.layers, g, c.graph.Model(), mode, l, p, q, a, b)
    ensures SpanningSpec(g) ==> Kept(g, c.graph.Model())
  {
    p, q := PathLineEnds(g, l);
    a, b := AllocateEdge(c, rng, l, p, q);
  }

  /**
    * The line allocate_non_layer takes out: one lying on no layer, and in mode 0, when some entry
    * just above the diagonal of the layer-crossing matrix is over 1, one joining the pair of
    * layers Crowded finds.
    */
  ghost predicate Chosen(layers: seq<Graph>, g: Graph, mode: int, l: Line)
  {
    l in NonLayer(layers, g.lines) &&
    (mode != 1 && Classifiable(layers, g.nodes, g.lines) && Crowded(layers, g.nodes, g.lines).Some? ==>
      Joins(layers, g.nodes, l, Crowded(layers, g.nodes, g.lines).value.0, Crowded(layers, g.nodes, g.lines).value.1))
  }

  /**
    * What allocate_non_layer did when it did not crash: the line it took is the one ChooseLine
    * picks, it joins the nodes at `p` and `q`, and on a spanning path allocate_edge's outcome.
    */
  ghost predicate Reallocated(layers: seq<Graph>, g: Graph, h: Graph, mode: int, l: Line, p: nat, q: nat, a: nat, b: nat)
  {
    Valid(g) && Chosen(layers, g, mode, l) && p < |g.nodes| && q < |g.nodes| && l == LineBetween(g, p, q) &&
    (SpanningSpec(g) ==> AllocOutcome(g, h, p, q, a, b))
  }

  /**
    * The choice of the line in allocate_non_layer: `linelist` in mode 1 or with no crowded pair
    * shuffled and its head taken, else the head of `possible_line`; crashed when the list it
    * indexes is empty.
    */
  method ChooseLine(layers: seq<Graph>, nodes: seq<Node>, lines: seq<Line>, mode: int, rng: Random, ghost g: Graph)
    returns (crashed: bool, l: Line)
    requires Valid(g) && Loopless(g) && Peeled(layers, g.nodes) && nodes == g.nodes && lines == g.lines
    modifies rng
    ensures crashed <==> NonLayer(layers, lines) == []
    ensures !crashed ==> Chosen(layers, g, mode, l)
  {
    var linelist := NonLayer(layers, lines);
    PeeledClassifiable(layers, g);
    var pair := if mode == 1 then None else Crowded(layers, nodes, lines);
    if pair.Some? {
      JoiningNonEmpty(layers, nodes, lines, pair.value.0, pair.value.1);
      var possible := PossibleLines(layers, nodes, linelist, pair.value.0, pair.value.1);
      crashed, l := false, possible[0];
      assert l in possible;
    } else if |linelist| == 0 {
      crashed, l := true, Line(Point(0, 0), Point(0, 0));
    } else {
      var shuffled := rng.Shuffle(linelist);
      crashed, l := false, shuffled[0];
      assert l in multiset(linelist);
    }
  }
}
