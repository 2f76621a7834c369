/**
 * pcnImplementation.py, first half: collapsing a graph through a clustering.
 * Every cluster becomes a node; an edge between two clusters carries the number
 * of original edges running from the first cluster to the second; edges inside
 * a cluster are dropped.
 */
module PcnCollapse {
  import opened Graphs
  import opened Outcomes
  import AnalysisTools

  /** The lookup `clustering[u]` raises KeyError for a node without a cluster. */
  datatype CollapseError = MissingCluster(node: Node)

  /** The collapsed DiGraph: the graph of clusters and each edge's `weight` attribute. */
  datatype Collapsed = Collapsed(graph: Graph, weight: map<(Node, Node), nat>)

  /** How many edges of `es` run from cluster `k.0` to cluster `k.1` (edges with an unclustered end count for nothing). */
  function CountMapsTo(es: seq<(Node, Node)>, clustering: map<Node, Node>, k: (Node, Node)): (count: nat)
  {
    if es == [] then 0
    else
      var e := es[|es| - 1];
      CountMapsTo(es[..|es| - 1], clustering, k)
      + (if e.0 in clustering && e.1 in clustering && clustering[e.0] == k.0 && clustering[e.1] == k.1 then 1 else 0)
  }

  /** How many edges of `es` run between two different clusters. */
  function CrossCount(es: seq<(Node, Node)>, clustering: map<Node, Node>): (count: nat)
  {
    if es == [] then 0
    else
      var e := es[|es| - 1];
      CrossCount(es[..|es| - 1], clustering)
      + (if e.0 in clustering && e.1 in clustering && clustering[e.0] != clustering[e.1] then 1 else 0)
  }

  /** Both ends of every edge of `g` have a cluster. */
  ghost predicate Covers(g: Graph, clustering: map<Node, Node>) {
    forall e :: e in EdgeList(g) ==> e.0 in clustering && e.1 in clustering
  }

  /**
   * `h` with edge weights `weight` is the collapse of `g` through `clustering`:
   * its nodes are exactly the cluster identifiers; it has an edge a -> b iff
   * a != b and some edge of `g` runs from cluster a to cluster b; and the weight
   * of a -> b is the number of such edges.
   */
  ghost predicate IsCollapseOf(g: Graph, clustering: map<Node, Node>, h: Graph, weight: map<(Node, Node), nat>) {
    && Valid(h)
    && NodeSet(h) == clustering.Values
    && Tallied(h, weight, clustering, EdgeList(g))
  }

  /**
   * The running state of the edge pass after the edges `done`: `h` has an edge
   * a -> b iff a != b and some edge of `done` runs from cluster a to cluster b,
   * and the weight of that edge counts those edges.
   */
  ghost predicate Tallied(h: Graph, weight: map<(Node, Node), nat>, clustering: map<Node, Node>, done: seq<(Node, Node)>) {
    && (forall a, b :: HasEdge(h, a, b) <==> a != b && CountMapsTo(done, clustering, (a, b)) >= 1)
    && (forall k :: k in weight <==> HasEdge(h, k.0, k.1))
    && (forall k :: k in weight ==> weight[k] == CountMapsTo(done, clustering, k))
  }

  lemma CountSnoc(es: seq<(Node, Node)>, e: (Node, Node), clustering: map<Node, Node>, k: (Node, Node))
    ensures CountMapsTo(es + [e], clustering, k)
            == CountMapsTo(es, clustering, k)
               + (if e.0 in clustering && e.1 in clustering && clustering[e.0] == k.0 && clustering[e.1] == k.1 then 1 else 0)
  {
    assert (es + [e])[..|es|] == es;
  }

  lemma NonEmptyHasMember(s: set<Node>)
    requires s != {}
    ensures exists x :: x in s
  {
    if forall x :: x !in s {
      assert false;
    }
  }

  /** Lists the members of `s` once each, in an arbitrary order (the iteration order of a Python set). */
  method Enumerate(s: set<Node>) returns (order: seq<Node>)
    ensures Distinct(order) && (set n | n in order) == s
  {
    order := [];
    var rest := s;
    while rest != {}
      invariant Distinct(order)
      invariant (set n | n in order) + rest == s
      invariant forall n :: n in order ==> n !in rest
      decreases rest
    {
      NonEmptyHasMember(rest);
      var x :| x in rest;
      order := order + [x];
      rest := rest - {x};
    }
  }

  /**
   * Counting one more edge `u -> v`: the collapse gains the edge between the
   * clusters of `u` and `v` when they differ, and that edge's weight goes up by one.
   */
  lemma TalliedSnoc(h: Graph, weight: map<(Node, Node), nat>, clustering: map<Node, Node>, done: seq<(Node, Node)>,
                    u: Node, v: Node, h': Graph, weight': map<(Node, Node), nat>)
    requires u in clustering && v in clustering
    requires Tallied(h, weight, clustering, done)
    requires var cu, cv := clustering[u], clustering[v];
      forall a, b :: HasEdge(h', a, b) <==> HasEdge(h, a, b) || (cu != cv && a == cu && b == cv)
    requires var cu, cv := clustering[u], clustering[v];
      weight' == if cu == cv then weight else weight[(cu, cv) := (if (cu, cv) in weight then weight[(cu, cv)] else 0) + 1]
    ensures Tallied(h', weight', clustering, done + [(u, v)])
  {
    forall k
      ensures CountMapsTo(done + [(u, v)], clustering, k)
              == CountMapsTo(done, clustering, k) + (if clustering[u] == k.0 && clustering[v] == k.1 then 1 else 0)
    {
      CountSnoc(done, (u, v), clustering, k);
    }
  }

  /** The body of the edge pass for one edge whose ends both have a cluster. */
  method TallyEdge(h: Graph, weight: map<(Node, Node), nat>, clustering: map<Node, Node>, ghost done: seq<(Node, Node)>, u: Node, v: Node)
    returns (h': Graph, weight': map<(Node, Node), nat>)
    requires Valid(h) && u in clustering && v in clustering
    requires clustering[u] in h.succ && clustering[v] in h.succ
    requires Tallied(h, weight, clustering, done)
    ensures Valid(h') && h'.nodes == h.nodes && h'.succ.Keys == h.succ.Keys
    ensures Tallied(h', weight', clustering, done + [(u, v)])
  {
    var cu := clustering[u];
    var cv := clustering[v];
    h', weight' := h, weight;
    if cu != cv {
      if !HasEdge(h, cu, cv) {
        h' := AddEdge(h, cu, cv);
        weight' := weight[(cu, cv) := 1];
      } else {
        weight' := weight[(cu, cv) := weight[(cu, cv)] + 1];
      }
    }
    TalliedSnoc(h, weight, clustering, done, u, v, h', weight');
  }

  /** Both ends of the edge `e` have a cluster. */
  predicate Clustered(e: (Node, Node), clustering: map<Node, Node>) {
    e.0 in clustering && e.1 in clustering
  }

  /**
   * `n` is the key whose lookup fails first when `clustering[u]` and then
   * `clustering[v]` are looked up for the edges `(u, v)` of `edges` in order.
   */
  ghost predicate FirstMissing(edges: seq<(Node, Node)>, clustering: map<Node, Node>, n: Node) {
    exists j :: 0 <= j < |edges| && !Clustered(edges[j], clustering)
                && (forall j' :: 0 <= j' < j ==> Clustered(edges[j'], clustering))
                && n == (if edges[j].0 !in clustering then edges[j].0 else edges[j].1)
  }

  /**
   * The loop `for (u, v) in G.edges()` of `collapse_graph` over the edges
   * `edges`, starting from the edgeless graph of clusters `h`. It stops with
   * KeyError at the first edge with an unclustered end (`u` looked up first).
   */
  method CollapseEdges(h: Graph, clustering: map<Node, Node>, edges: seq<(Node, Node)>)
    returns (r: Result<Collapsed, CollapseError>)
    requires Valid(h) && clustering.Values <= h.succ.Keys
    requires forall a, b :: !HasEdge(h, a, b)
    ensures r.Err? <==> exists j :: 0 <= j < |edges| && (edges[j].0 !in clustering || edges[j].1 !in clustering)
    ensures r.Err? ==> r.error.node !in clustering
                       && exists e :: e in edges && (e.0 == r.error.node || e.1 == r.error.node)
    ensures r.Err? ==> FirstMissing(edges, clustering, r.error.node)
    ensures r.Ok? ==> var h' := r.value.graph;
      Valid(h') && h'.nodes == h.nodes && Tallied(h', r.value.weight, clustering, edges)
  {
    var h' := h;
    var weight: map<(Node, Node), nat> := map[];
    assert edges[..0] == [];
    for i := 0 to |edges|
      invariant Valid(h') && h'.nodes == h.nodes && h'.succ.Keys == h.succ.Keys
      invariant forall j :: 0 <= j < i ==> Clustered(edges[j], clustering)
      invariant Tallied(h', weight, clustering, edges[..i])
    {
      var (u, v) := edges[i];
      assert edges[..i + 1] == edges[..i] + [(u, v)];
      assert edges[i] in edges;
      if u !in clustering {
        assert !Clustered(edges[i], clustering);
        return Err(MissingCluster(u));
      }
      if v !in clustering {
        assert !Clustered(edges[i], clustering);
        return Err(MissingCluster(v));
      }
      h', weight := TallyEdge(h', weight, clustering, edges[..i], u, v);
    }
    assert edges[..|edges|] == edges;
    return Ok(Collapsed(h', weight));
  }

  /**
   * `collapse_graph(G, clustering)`: the cluster nodes first (in the iteration
   * order of a set, which is arbitrary), then one pass over `G.edges()` that
   * adds an edge of weight 1 or increments the weight of an existing one.
   */
  method CollapseGraph(g: Graph, clustering: map<Node, Node>) returns (r: Result<Collapsed, CollapseError>)
    requires Valid(g)
    ensures r.Err? <==> !Covers(g, clustering)
    ensures r.Err? ==> r.error.node !in clustering
                       && exists e :: e in EdgeList(g) && (e.0 == r.error.node || e.1 == r.error.node)
    ensures r.Err? ==> FirstMissing(EdgeList(g), clustering, r.error.node)
    ensures r.Ok? ==> IsCollapseOf(g, clustering, r.value.graph, r.value.weight)
  {
    // cluster_nodes = set(clustering.values()); H.add_nodes_from(cluster_nodes)
    var order := Enumerate(clustering.Values);
    var h := Isolated(order);
    var edges := EdgeList(g);
    r := CollapseEdges(h, clustering, edges);
    assert Covers(g, clustering) <==> forall j :: 0 <= j < |edges| ==> Clustered(edges[j], clustering);
  }

  /** The edges of `es` whose image under `clustering` lies in `targets`. */
  function CountMapsInto(es: seq<(Node, Node)>, clustering: map<Node, Node>, targets: set<(Node, Node)>): (count: nat)
  {
    if es == [] then 0
    else
      var e := es[|es| - 1];
      CountMapsInto(es[..|es| - 1], clustering, targets)
      + (if e.0 in clustering && e.1 in clustering && (clustering[e.0], clustering[e.1]) in targets then 1 else 0)
  }

  /** The sum of the weights of the edges `ks`. */
  function SumWeights(ks: seq<(Node, Node)>, weight: map<(Node, Node), nat>): (total: nat)
  {
    if ks == [] then 0
    else SumWeights(ks[..|ks| - 1], weight) + (var k := ks[|ks| - 1]; if k in weight then weight[k] else 0)
  }

  /** Since the edge list has no repeats, the weight of a -> b is the number of distinct edges of `g` from cluster a to cluster b. */
  lemma {:induction false} CountIsCardinality(es: seq<(Node, Node)>, clustering: map<Node, Node>, k: (Node, Node))
    requires Distinct(es)
    ensures CountMapsTo(es, clustering, k)
            == |set e | e in es && e.0 in clustering && e.1 in clustering && clustering[e.0] == k.0 && clustering[e.1] == k.1|
  {
    if es != [] {
      var init, x := es[..|es| - 1], es[|es| - 1];
      assert es == init + [x];
      CountIsCardinality(init, clustering, k);
      var before := set e | e in init && e.0 in clustering && e.1 in clustering && clustering[e.0] == k.0 && clustering[e.1] == k.1;
      var after := set e | e in es && e.0 in clustering && e.1 in clustering && clustering[e.0] == k.0 && clustering[e.1] == k.1;
      assert x !in init;
      if x.0 in clustering && x.1 in clustering && clustering[x.0] == k.0 && clustering[x.1] == k.1 {
        assert after == before + {x};
      } else {
        assert after == before;
      }
    }
  }

  lemma {:induction false} CountIntoInsert(es: seq<(Node, Node)>, clustering: map<Node, Node>, targets: set<(Node, Node)>, k: (Node, Node))
    requires k !in targets
    ensures CountMapsInto(es, clustering, targets + {k})
            == CountMapsInto(es, clustering, targets) + CountMapsTo(es, clustering, k)
  {
    if es != [] {
      CountIntoInsert(es[..|es| - 1], clustering, targets, k);
    }
  }

  /** Summing the weights of distinct edges counts the original edges mapped onto any of them. */
  lemma {:induction false} SumIsCountInto(ks: seq<(Node, Node)>, weight: map<(Node, Node), nat>, es: seq<(Node, Node)>, clustering: map<Node, Node>)
    requires Distinct(ks)
    requires forall k :: k in ks ==> k in weight && weight[k] == CountMapsTo(es, clustering, k)
    ensures SumWeights(ks, weight) == CountMapsInto(es, clustering, set k | k in ks)
  {
    if ks == [] {
      assert (set k | k in ks) == {};
      CountIntoNothing(es, clustering);
    } else {
      var init, k := ks[..|ks| - 1], ks[|ks| - 1];
      assert ks == init + [k];
      SumIsCountInto(init, weight, es, clustering);
      assert (set x | x in ks) == (set x | x in init) + {k};
      CountIntoInsert(es, clustering, (set x | x in init), k);
    }
  }

  lemma {:induction false} CountIntoNothing(es: seq<(Node, Node)>, clustering: map<Node, Node>)
    ensures CountMapsInto(es, clustering, {}) == 0
  {
    if es != [] {
      CountIntoNothing(es[..|es| - 1], clustering);
    }
  }

  /** When exactly the cross-cluster images are targets, counting into the targets counts the cross-cluster edges. */
  lemma {:induction false} CountIntoCross(es: seq<(Node, Node)>, clustering: map<Node, Node>, targets: set<(Node, Node)>)
    requires forall e :: e in es && e.0 in clustering && e.1 in clustering
                         ==> ((clustering[e.0], clustering[e.1]) in targets <==> clustering[e.0] != clustering[e.1])
    ensures CountMapsInto(es, clustering, targets) == CrossCount(es, clustering)
  {
    if es != [] {
      CountIntoCross(es[..|es| - 1], clustering, targets);
    }
  }

  lemma {:induction false} CountOfMember(es: seq<(Node, Node)>, clustering: map<Node, Node>, e: (Node, Node))
    requires e in es && e.0 in clustering && e.1 in clustering
    ensures CountMapsTo(es, clustering, (clustering[e.0], clustering[e.1])) >= 1
  {
    var init := es[..|es| - 1];
    if e != es[|es| - 1] {
      assert es == init + [es[|es| - 1]];
      CountOfMember(init, clustering, e);
    }
  }

  /**
   * Collapsing loses no cross-cluster edge and invents none: the weights of the
   * collapsed graph sum to the number of edges of `g` between two different clusters.
   */
  lemma WeightConservation(g: Graph, clustering: map<Node, Node>, h: Graph, weight: map<(Node, Node), nat>)
    requires Valid(g) && Covers(g, clustering) && IsCollapseOf(g, clustering, h, weight)
    ensures SumWeights(EdgeList(h), weight) == CrossCount(EdgeList(g), clustering)
  {
    EdgeListIsEdges(h);
    var targets := set k | k in EdgeList(h);
    SumIsCountInto(EdgeList(h), weight, EdgeList(g), clustering);
    forall e | e in EdgeList(g) && e.0 in clustering && e.1 in clustering
      ensures (clustering[e.0], clustering[e.1]) in targets <==> clustering[e.0] != clustering[e.1]
    {
      CountOfMember(EdgeList(g), clustering, e);
    }
    CountIntoCross(EdgeList(g), clustering, targets);
  }

  /** With every node in one cluster the collapsed graph has no edge. */
  lemma SingleClusterHasNoEdges(g: Graph, clustering: map<Node, Node>, h: Graph, weight: map<(Node, Node), nat>)
    requires IsCollapseOf(g, clustering, h, weight) && |clustering.Values| <= 1
    ensures forall a, b :: !HasEdge(h, a, b)
    ensures weight == map[]
  {
    forall a, b | HasEdge(h, a, b) ensures false {
      assert a in clustering.Values && b in clustering.Values;
      assert {a, b} <= clustering.Values;
      assert |{a, b}| == 2;
      AnalysisTools.SubsetCardinality({a, b}, clustering.Values);
    }
  }

  /**
   * Each node its own cluster: the collapse is `g` without its self-loops,
   * every edge of weight 1.
   */
  lemma IdentityCollapse(g: Graph, clustering: map<Node, Node>, h: Graph, weight: map<(Node, Node), nat>)
    requires Valid(g) && IsCollapseOf(g, clustering, h, weight)
    requires forall n :: n in g.succ ==> n in clustering && clustering[n] == n
    ensures forall a, b :: HasEdge(h, a, b) <==> HasEdge(g, a, b) && a != b
    ensures forall k :: k in weight ==> weight[k] == 1
  {
    EdgeListIsEdges(g);
    var es := EdgeList(g);
    forall k ensures CountMapsTo(es, clustering, k) == if HasEdge(g, k.0, k.1) then 1 else 0 {
      CountIsCardinality(es, clustering, k);
      var matching := set e | e in es && e.0 in clustering && e.1 in clustering && clustering[e.0] == k.0 && clustering[e.1] == k.1;
      if HasEdge(g, k.0, k.1) {
        assert matching == {k};
      } else {
        assert matching == {};
      }
    }
  }
}
