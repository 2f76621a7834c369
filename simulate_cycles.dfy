/**
 * simulateCycles.py: building a toy graph with embedded cycles, and the
 * synchronous threshold activation of its nodes over discrete steps.
 * The random draws of the source (cycle lengths, node samples, the initial
 * active nodes) are inputs here.
 */
module SimulateCycles {
  import opened Graphs
  import opened Outcomes
  import AnalysisTools

  // ---------------------------------------------------------------------------
  // build_toy_brain

  /** `range(n)`: the identifiers 0 .. n-1, none when n <= 0. */
  function Range(n: int): (r: seq<Node>)
    ensures |r| == if n < 0 then 0 else n
    ensures forall i :: 0 <= i < |r| ==> r[i] == i
  {
    if n <= 0 then [] else Range(n - 1) + [n - 1]
  }

  /** What `random.sample(range(n), length)` can return: `length` distinct identifiers below `n`. */
  predicate IsSample(s: seq<Node>, length: int, n: int) {
    |s| == length && Distinct(s) && forall i :: 0 <= i < |s| ==> 0 <= s[i] < n
  }

  /** The edges closing the node list `c` into a ring: c[i] -> c[(i + 1) mod |c|], in order. */
  function RingEdges(c: seq<Node>): (es: seq<(Node, Node)>)
  {
    seq(|c|, i requires 0 <= i < |c| => (c[i], c[(i + 1) % |c|]))
  }

  /** `u -> v` is an edge of the ring embedded in one of the first `rounds` rounds. */
  ghost predicate Embedded(samples: seq<seq<Node>>, rounds: int, u: Node, v: Node) {
    exists k :: 0 <= k < rounds && k < |samples| && (u, v) in RingEdges(samples[k])
  }

  datatype BuildError =
    /** `random.sample` raises ValueError when asked for more nodes than the population holds. */
    SampleLargerThanPopulation(round: nat)

  /**
   * `build_toy_brain(n_nodes, n_cycles)` with `n_cycles == |lengths|`: round k
   * draws `lengths[k]` (from `random.randint(3, 6)`) and, when that many nodes
   * exist, the node list `samples[k]` (from `random.sample`), and closes the
   * list into a directed ring of edges.
   */
  method BuildToyBrain(nNodes: int, lengths: seq<int>, samples: seq<seq<Node>>)
    returns (r: Result<Graph, BuildError>)
    requires |lengths| == |samples|
    requires forall k :: 0 <= k < |lengths| ==> 3 <= lengths[k] <= 6
    requires forall k :: 0 <= k < |lengths| && lengths[k] <= nNodes ==> IsSample(samples[k], lengths[k], nNodes)
    ensures r.Err? <==> exists k :: 0 <= k < |lengths| && lengths[k] > nNodes
    ensures r.Err? ==> var k := r.error.round;
      k < |lengths| && lengths[k] > nNodes && forall k' :: 0 <= k' < k ==> lengths[k'] <= nNodes
    ensures r.Ok? ==> Valid(r.value) && r.value.nodes == Range(nNodes)
    ensures r.Ok? ==> forall u, v :: HasEdge(r.value, u, v) <==> Embedded(samples, |samples|, u, v)
  {
    var nodes := Range(nNodes);
    var g := Isolated(nodes);
    forall x | 0 <= x < nNodes ensures x in g.succ {
      assert nodes[x] == x;
      assert x in NodeSet(g);
    }
    for k := 0 to |lengths|
      invariant Valid(g) && g.nodes == nodes && g.succ.Keys == NodeSet(g)
      invariant forall x :: 0 <= x < nNodes ==> x in g.succ
      invariant forall k' :: 0 <= k' < k ==> lengths[k'] <= nNodes
      invariant forall u, v :: HasEdge(g, u, v) <==> Embedded(samples, k, u, v)
    {
      var cycleLength := lengths[k];
      if cycleLength > nNodes {
        return Err(SampleLargerThanPopulation(k));
      }
      var cycleNodes := samples[k];
      assert IsSample(cycleNodes, cycleLength, nNodes);
      g := AddRing(g, cycleNodes);
      EmbeddedNextRound(samples, k);
    }
    return Ok(g);
  }

  lemma EmbeddedNextRound(samples: seq<seq<Node>>, k: nat)
    requires k < |samples|
    ensures forall u, v :: Embedded(samples, k + 1, u, v) <==> Embedded(samples, k, u, v) || (u, v) in RingEdges(samples[k])
  {
  }

  /** One embedding round: `G.add_edge(c[i], c[(i + 1) % len(c)])` for each position i of `c`. */
  method AddRing(g: Graph, c: seq<Node>) returns (h: Graph)
    requires Valid(g) && c != []
    requires forall i :: 0 <= i < |c| ==> c[i] in g.succ
    ensures Valid(h) && h.nodes == g.nodes && h.succ.Keys == g.succ.Keys
    ensures forall u, v :: HasEdge(h, u, v) <==> HasEdge(g, u, v) || (u, v) in RingEdges(c)
  {
    var ring := RingEdges(c);
    h := g;
    for i := 0 to |c|
      invariant Valid(h) && h.nodes == g.nodes && h.succ.Keys == g.succ.Keys
      invariant forall u, v :: HasEdge(h, u, v) <==> HasEdge(g, u, v) || (u, v) in ring[..i]
    {
      var u, v := c[i], c[(i + 1) % |c|];
      assert ring[..i + 1] == ring[..i] + [(u, v)];
      h := AddEdge(h, u, v);
    }
    assert ring[..|c|] == ring;
  }

  /**
   * Every sampled node list closed up is a bounded cycle of the built graph:
   * the rounds really embed cycles of 3 to 6 distinct nodes.
   */
  lemma EmbeddedRingIsCycle(g: Graph, samples: seq<seq<Node>>, k: nat)
    requires k < |samples| && 3 <= |samples[k]| && Distinct(samples[k])
    requires forall u, v :: HasEdge(g, u, v) <==> Embedded(samples, |samples|, u, v)
    ensures AnalysisTools.IsBoundedCycle(g, samples[k] + [samples[k][0]], |samples[k]|)
  {
    var s := samples[k];
    var c := s + [s[0]];
    forall i | 0 <= i < |c| - 1 ensures HasEdge(g, c[i], c[i + 1]) {
      assert c[i] == s[i] && c[i + 1] == s[(i + 1) % |s|];
      assert RingEdges(s)[i] == (c[i], c[i + 1]);
      assert Embedded(samples, |samples|, c[i], c[i + 1]);
    }
    assert c[..|c| - 1] == s;
    assert HasEdge(g, c[0], c[1]);
  }

  // ---------------------------------------------------------------------------
  // activate_cycles

  /** The predecessors of `node` that are on in `active`. */
  function ActivePredecessors(g: Graph, active: map<Node, bool>, node: Node): (preds: set<Node>) {
    set u | u in g.succ && node in g.succ[u] && u in active && active[u]
  }

  /**
   * One synchronous step: afterwards a node is on iff it was on, or at least
   * `threshold` of its predecessors were on at the start of the step. The next
   * state depends on the previous one only, never on the step in progress.
   */
  function Step(g: Graph, active: map<Node, bool>, threshold: int): (next: map<Node, bool>)
    ensures next.Keys == active.Keys
  {
    map n | n in active :: active[n] || (n in g.succ && |ActivePredecessors(g, active, n)| >= threshold)
  }

  /** The state after `steps` steps from `active`; no step at all when `steps <= 0`. */
  function Run(g: Graph, active: map<Node, bool>, threshold: int, steps: int): (final: map<Node, bool>)
    decreases steps
  {
    if steps <= 0 then active else Step(g, Run(g, active, threshold, steps - 1), threshold)
  }

  /** Every node off, then each node of the initial draw switched on. */
  function Initial(g: Graph, startActive: seq<Node>): (active: map<Node, bool>) {
    map n | n in NodeSet(g) :: n in startActive
  }

  /**
   * The body of one step of `activate_cycles`: visit the nodes in `order`
   * (G.nodes() in the source, any order covering the nodes here) and switch on
   * each whose active predecessors, counted in the pre-step state, reach the
   * threshold. The result is `Step` whatever the order: the update is synchronous.
   */
  method SynchronousStep(g: Graph, active: map<Node, bool>, threshold: int, order: seq<Node>)
    returns (newActive: map<Node, bool>)
    requires forall n :: n in order <==> n in g.succ
    requires g.succ.Keys <= active.Keys
    ensures newActive == Step(g, active, threshold)
  {
    newActive := active;
    for i := 0 to |order|
      invariant newActive.Keys == active.Keys
      invariant forall n :: n in active ==>
        newActive[n] == (active[n] || (n in order[..i] && |ActivePredecessors(g, active, n)| >= threshold))
    {
      var node := order[i];
      var activePredecessors := |ActivePredecessors(g, active, node)|;
      if activePredecessors >= threshold {
        newActive := newActive[node := true];
      }
      assert order[..i + 1] == order[..i] + [node];
    }
    assert order[..|order|] == order;
    forall n | n in active ensures newActive[n] == Step(g, active, threshold)[n] {
    }
  }

  /**
   * `activate_cycles(G, steps, activation_threshold)` with the initial random
   * draw `startActive`: the state after `steps` synchronous steps.
   */
  method ActivateCycles(g: Graph, steps: int, threshold: int, startActive: seq<Node>)
    returns (active: map<Node, bool>)
    requires Valid(g)
    requires forall s :: s in startActive ==> s in g.succ
    ensures active == Run(g, Initial(g, startActive), threshold, steps)
    ensures active.Keys == NodeSet(g)
  {
    active := map n | n in NodeSet(g) :: false;
    for k := 0 to |startActive|
      invariant active.Keys == NodeSet(g)
      invariant forall n :: n in active ==> active[n] == (n in startActive[..k])
    {
      var s := startActive[k];
      assert startActive[..k + 1] == startActive[..k] + [s];
      assert s in startActive;
      assert s in g.succ;
      assert s in NodeSet(g);
      active := active[s := true];
    }
    assert startActive[..|startActive|] == startActive;
    forall n | n in active ensures active[n] == Initial(g, startActive)[n] {
    }
    assert active == Initial(g, startActive);
    ghost var init := active;
    var t := 0;
    while t < steps
      invariant 0 <= t && (t == 0 || t <= steps)
      invariant active == Run(g, init, threshold, t)
      invariant active.Keys == NodeSet(g)
    {
      var newActive := SynchronousStep(g, active, threshold, g.nodes);
      active := newActive;
      t := t + 1;
    }
  }

  /** Activation is monotone: a node on after `t` steps is on after every later step. */
  lemma {:induction false} ActivationMonotone(g: Graph, a: map<Node, bool>, threshold: int, t: int, t': int, n: Node)
    requires t <= t'
    requires n in Run(g, a, threshold, t) && Run(g, a, threshold, t)[n]
    ensures n in Run(g, a, threshold, t') && Run(g, a, threshold, t')[n]
    decreases t' - t
  {
    if t < t' {
      ActivationMonotone(g, a, threshold, t, t' - 1, n);
      if t' > 0 {
        assert Run(g, a, threshold, t') == Step(g, Run(g, a, threshold, t' - 1), threshold);
      }
    }
  }

  /** Every state of a run has the same nodes as keys as the initial one. */
  lemma {:induction false} RunKeepsKeys(g: Graph, a: map<Node, bool>, threshold: int, t: int)
    ensures Run(g, a, threshold, t).Keys == a.Keys
    decreases t
  {
    if t > 0 {
      RunKeepsKeys(g, a, threshold, t - 1);
    }
  }

  /** Hence the number of active nodes never decreases. */
  lemma ActiveCountNonDecreasing(g: Graph, a: map<Node, bool>, threshold: int, t: int, t': int)
    requires t <= t'
    ensures AnalysisTools.CountActive(Run(g, a, threshold, t)) <= AnalysisTools.CountActive(Run(g, a, threshold, t'))
  {
    var before, after := Run(g, a, threshold, t), Run(g, a, threshold, t');
    RunKeepsKeys(g, a, threshold, t);
    RunKeepsKeys(g, a, threshold, t');
    forall n | n in AnalysisTools.ActiveSet(before) ensures n in AnalysisTools.ActiveSet(after) {
      ActivationMonotone(g, a, threshold, t, t', n);
    }
    AnalysisTools.SubsetCardinality(AnalysisTools.ActiveSet(before), AnalysisTools.ActiveSet(after));
  }

  /** Once a step changes nothing, no later step does either. */
  lemma {:induction false} FixedPointIsStable(g: Graph, a: map<Node, bool>, threshold: int, t: nat, k: nat)
    requires Run(g, a, threshold, t + 1) == Run(g, a, threshold, t)
    ensures Run(g, a, threshold, t + k) == Run(g, a, threshold, t)
  {
    if k > 0 {
      FixedPointIsStable(g, a, threshold, t, k - 1);
      assert Run(g, a, threshold, t + k) == Step(g, Run(g, a, threshold, t + k - 1), threshold);
    }
  }

  /** With a threshold of 0 or less, every node is on after the first step. */
  lemma NonPositiveThresholdActivatesAll(g: Graph, a: map<Node, bool>, threshold: int, steps: int)
    requires Valid(g) && a.Keys == NodeSet(g)
    requires threshold <= 0 && steps >= 1
    ensures forall n :: n in Run(g, a, threshold, steps) ==> Run(g, a, threshold, steps)[n]
  {
    RunKeepsKeys(g, a, threshold, steps - 1);
  }

  /** The initial state holds every node, and exactly the drawn ones are on. */
  lemma InitialState(g: Graph, startActive: seq<Node>)
    requires forall s :: s in startActive ==> s in NodeSet(g)
    ensures Initial(g, startActive).Keys == NodeSet(g)
    ensures AnalysisTools.ActiveSet(Initial(g, startActive)) == set s | s in startActive
  {
    var on := AnalysisTools.ActiveSet(Initial(g, startActive));
    forall s | s in startActive ensures s in on {
      assert s in Initial(g, startActive);
    }
  }
}
