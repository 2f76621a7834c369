/**
 * The three-node directed cycle 0 -> 1 -> 2 -> 0 worked through every
 * component: its cycles, its activation run, its collapse and its motifs.
 */
module Scenarios {
  import opened Graphs
  import AnalysisTools
  import SimulateCycles
  import PcnCollapse
  import PcnMotifs

  /** The triangle 0 -> 1 -> 2 -> 0. */
  function Triangle(): (g: Graph)
    ensures Valid(g)
    ensures forall u, v :: HasEdge(g, u, v) <==> (u, v) == (0, 1) || (u, v) == (1, 2) || (u, v) == (2, 0)
  {
    Graph([0, 1, 2], map[0 := [1], 1 := [2], 2 := [0]])
  }

  /** The cycles of at most three edges of the triangle are its three rotations. */
  lemma TriangleCycles()
    ensures forall c :: AnalysisTools.IsBoundedCycle(Triangle(), c, 3)
                        <==> c == [0, 1, 2, 0] || c == [1, 2, 0, 1] || c == [2, 0, 1, 2]
  {
    var g := Triangle();
    forall c | AnalysisTools.IsBoundedCycle(g, c, 3)
      ensures c == [0, 1, 2, 0] || c == [1, 2, 0, 1] || c == [2, 0, 1, 2]
    {
      assert HasEdge(g, c[0], c[1]) && HasEdge(g, c[1], c[2]);
      assert |c| == 4;
      assert HasEdge(g, c[2], c[3]);
    }
    forall c | c == [0, 1, 2, 0] || c == [1, 2, 0, 1] || c == [2, 0, 1, 2]
      ensures AnalysisTools.IsBoundedCycle(g, c, 3)
    {
      assert HasEdge(g, c[0], c[1]) && HasEdge(g, c[1], c[2]) && HasEdge(g, c[2], c[3]);
    }
  }

  /** With node 0 on and threshold 1, node 1 switches on at step 1 and node 2 at step 2. */
  lemma TriangleActivation()
    ensures SimulateCycles.Run(Triangle(), SimulateCycles.Initial(Triangle(), [0]), 1, 1)
            == map[0 := true, 1 := true, 2 := false]
    ensures SimulateCycles.Run(Triangle(), SimulateCycles.Initial(Triangle(), [0]), 1, 2)
            == map[0 := true, 1 := true, 2 := true]
  {
    var g := Triangle();
    var a0 := SimulateCycles.Initial(g, [0]);
    TriangleStart();
    TriangleFirstStep();
    TriangleSecondStep();
    assert SimulateCycles.Run(g, a0, 1, 1) == SimulateCycles.Step(g, a0, 1);
  }

  lemma TriangleStart()
    ensures SimulateCycles.Initial(Triangle(), [0]) == map[0 := true, 1 := false, 2 := false]
  {
    assert NodeSet(Triangle()) == {0, 1, 2};
  }

  lemma TriangleFirstStep()
    ensures SimulateCycles.Step(Triangle(), map[0 := true, 1 := false, 2 := false], 1)
            == map[0 := true, 1 := true, 2 := false]
  {
    var g, a := Triangle(), map[0 := true, 1 := false, 2 := false];
    assert SimulateCycles.ActivePredecessors(g, a, 1) == {0};
    assert SimulateCycles.ActivePredecessors(g, a, 2) == {} by {
      assert !HasEdge(g, 0, 2);
    }
  }

  lemma TriangleSecondStep()
    ensures SimulateCycles.Step(Triangle(), map[0 := true, 1 := true, 2 := false], 1)
            == map[0 := true, 1 := true, 2 := true]
  {
    var g, a := Triangle(), map[0 := true, 1 := true, 2 := false];
    assert 1 in SimulateCycles.ActivePredecessors(g, a, 2);
  }

  lemma TriangleEdgeList()
    ensures EdgeList(Triangle()) == [(0, 1), (1, 2), (2, 0)]
  {
    var g := Triangle();
    assert [0, 1, 2][..2] == [0, 1] && [0, 1][..1] == [0] && [0][..0] == [];
    assert OutEdges(0, [1]) == [(0, 1)];
    assert OutEdges(1, [2]) == [(1, 2)];
    assert OutEdges(2, [0]) == [(2, 0)];
    assert EdgesFrom(g, [0]) == [(0, 1)];
    assert EdgesFrom(g, [0, 1]) == [(0, 1), (1, 2)];
  }

  /** Under the clustering {0: 10, 1: 10, 2: 11} the triangle's edges map to 10 -> 10, 10 -> 11 and 11 -> 10. */
  lemma TriangleCounts(k: (Node, Node))
    ensures PcnCollapse.CountMapsTo(EdgeList(Triangle()), map[0 := 10, 1 := 10, 2 := 11], k)
            == if k == (10, 10) || k == (10, 11) || k == (11, 10) then 1 else 0
  {
    var c := map[0 := 10, 1 := 10, 2 := 11];
    TriangleEdgeList();
    var es := [(0, 1), (1, 2), (2, 0)];
    assert es[..2] == [(0, 1), (1, 2)] && [(0, 1), (1, 2)][..1] == [(0, 1)] && [(0, 1)][..0] == [];
    assert PcnCollapse.CountMapsTo([(0, 1)], c, k) == if k == (10, 10) then 1 else 0;
    assert PcnCollapse.CountMapsTo([(0, 1), (1, 2)], c, k) == if k == (10, 10) || k == (10, 11) then 1 else 0;
  }

  lemma TriangleClusters()
    ensures map[0 := 10, 1 := 10, 2 := 11].Values == {10, 11}
  {
    var c := map[0 := 10, 1 := 10, 2 := 11];
    assert c[0] == 10 && c[2] == 11;
  }

  /**
   * Nodes 0 and 1 in cluster 10, node 2 in cluster 11: the edge 0 -> 1 is
   * dropped and the collapse has the edges 10 -> 11 and 11 -> 10, of weight 1 each.
   */
  lemma TriangleCollapse(h: Graph, weight: map<(Node, Node), nat>)
    requires PcnCollapse.IsCollapseOf(Triangle(), map[0 := 10, 1 := 10, 2 := 11], h, weight)
    ensures NodeSet(h) == {10, 11}
    ensures forall a, b :: HasEdge(h, a, b) <==> (a, b) == (10, 11) || (a, b) == (11, 10)
    ensures weight == map[(10, 11) := 1, (11, 10) := 1]
  {
    var c := map[0 := 10, 1 := 10, 2 := 11];
    TriangleClusters();
    forall a, b ensures HasEdge(h, a, b) <==> (a, b) == (10, 11) || (a, b) == (11, 10) {
      TriangleCounts((a, b));
    }
    forall k | k in weight ensures weight[k] == 1 {
      TriangleCounts(k);
    }
    assert weight.Keys == {(10, 11), (11, 10)};
  }

  /** The motifs of the triangle are its three edges and its three two-edge walks. */
  lemma TriangleMotifs()
    ensures forall w :: PcnMotifs.IsMotif(Triangle(), w, PcnMotifs.PathLimit)
                        <==> w in {[0, 1], [1, 2], [2, 0], [0, 1, 2], [1, 2, 0], [2, 0, 1]}
  {
    var g := Triangle();
    forall w | PcnMotifs.IsMotif(g, w, PcnMotifs.PathLimit)
      ensures w in {[0, 1], [1, 2], [2, 0], [0, 1, 2], [1, 2, 0], [2, 0, 1]}
    {
      assert HasEdge(g, w[0], w[1]);
      if |w| == 2 {
        assert w == [w[0], w[1]];
      } else {
        assert HasEdge(g, w[1], w[2]);
        assert w == [w[0], w[1], w[2]];
      }
    }
    forall w | w in {[0, 1], [1, 2], [2, 0], [0, 1, 2], [1, 2, 0], [2, 0, 1]}
      ensures PcnMotifs.IsMotif(g, w, PcnMotifs.PathLimit)
    {
      assert HasEdge(g, w[0], w[1]);
      if |w| == 3 {
        assert HasEdge(g, w[1], w[2]);
      }
    }
  }

  /**
   * The walk 0 -> 1 -> 2 -> 0 of three edges is a walk of the triangle, yet the
   * bound of three nodes in `pcn_analysis` never records it; the three-edge
   * enumeration does.
   */
  lemma ThreeEdgeWalkDropped()
    ensures IsWalk(Triangle(), [0, 1, 2, 0])
    ensures !PcnMotifs.IsMotif(Triangle(), [0, 1, 2, 0], PcnMotifs.PathLimit)
    ensures PcnMotifs.IsMotif(Triangle(), [0, 1, 2, 0], PcnMotifs.PathLimit + 1)
  {
    var w := [0, 1, 2, 0];
    assert HasEdge(Triangle(), w[0], w[1]) && HasEdge(Triangle(), w[1], w[2]) && HasEdge(Triangle(), w[2], w[3]);
  }
}
