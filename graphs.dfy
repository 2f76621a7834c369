/** Outcome of an operation whose source raises an exception on some inputs. */
module Outcomes {
  datatype Result<+T, +E> = Ok(value: T) | Err(error: E)
}

/**
 * The directed graph every analysis script works on: the part of a networkx
 * `DiGraph` those scripts use. Nodes keep their insertion order, each node keeps
 * its successors in insertion order (the order `successors` yields them), and
 * there are no parallel edges.
 */
module Graphs {

  type Node = int

  datatype Graph = Graph(nodes: seq<Node>, succ: map<Node, seq<Node>>)

  predicate Distinct<T(==)>(s: seq<T>) {
    forall i, j :: 0 <= i < j < |s| ==> s[i] != s[j]
  }

  /** Two repeat-free sequences with no common element concatenate to a repeat-free sequence. */
  lemma AppendDistinct<T>(xs: seq<T>, ys: seq<T>)
    requires Distinct(xs) && Distinct(ys)
    requires forall y :: y in ys ==> y !in xs
    ensures Distinct(xs + ys)
  {
    forall i, j | 0 <= i < j < |xs + ys| ensures (xs + ys)[i] != (xs + ys)[j] {
      if i < |xs| <= j {
        assert ys[j - |xs|] in ys;
      }
    }
  }

  /** Taking the last element off a repeat-free sequence. */
  lemma PopDistinct<T>(rest: seq<T>, x: T)
    requires Distinct(rest + [x])
    ensures Distinct(rest) && x !in rest
  {
    var s := rest + [x];
    forall i, j | 0 <= i < j < |rest| ensures rest[i] != rest[j] {
      assert s[i] == rest[i] && s[j] == rest[j];
    }
    forall k | 0 <= k < |rest| ensures rest[k] != x {
      assert s[k] == rest[k] && s[|rest|] == x;
    }
  }

  /** The set of node identifiers. */
  function NodeSet(g: Graph): (ns: set<Node>) {
    set n | n in g.nodes
  }

  /**
   * What a DiGraph guarantees: nodes are unique, every node has a successor
   * list, successor lists hold no duplicate (no parallel edges) and only nodes.
   */
  ghost predicate Valid(g: Graph) {
    && Distinct(g.nodes)
    && g.succ.Keys == NodeSet(g)
    && forall u :: u in g.succ ==> Distinct(g.succ[u]) && forall v :: v in g.succ[u] ==> v in g.succ
  }

  /** `G.successors(u)`, in insertion order. */
  function Succ(g: Graph, u: Node): (vs: seq<Node>) {
    if u in g.succ then g.succ[u] else []
  }

  predicate HasEdge(g: Graph, u: Node, v: Node) {
    u in g.succ && v in g.succ[u]
  }

  /** Every consecutive pair of `w` is an edge: a directed walk (nodes may repeat). */
  predicate IsWalk(g: Graph, w: seq<Node>) {
    forall i :: 0 <= i < |w| - 1 ==> HasEdge(g, w[i], w[i + 1])
  }

  function Last(s: seq<Node>): (n: Node)
    requires s != []
  {
    s[|s| - 1]
  }

  /** A graph holding `nodes` (in that order) and no edge. */
  function Isolated(nodes: seq<Node>): (g: Graph)
    requires Distinct(nodes)
    ensures Valid(g) && g.nodes == nodes
    ensures forall u, v :: !HasEdge(g, u, v)
  {
    Graph(nodes, map n | n in nodes :: [])
  }

  /** `G.add_edge(u, v)` between two existing nodes; adding an existing edge changes nothing. */
  function AddEdge(g: Graph, u: Node, v: Node): (h: Graph)
    requires Valid(g) && u in g.succ && v in g.succ
    ensures Valid(h) && h.nodes == g.nodes && h.succ.Keys == g.succ.Keys
    ensures forall x, y :: HasEdge(h, x, y) <==> HasEdge(g, x, y) || (x == u && y == v)
    ensures HasEdge(g, u, v) ==> h == g
  {
    if v in g.succ[u] then g else Graph(g.nodes, g.succ[u := g.succ[u] + [v]])
  }

  /** The edges leaving `u`, in successor order. */
  function OutEdges(u: Node, vs: seq<Node>): (es: seq<(Node, Node)>)
  {
    seq(|vs|, k requires 0 <= k < |vs| => (u, vs[k]))
  }

  /** The edges leaving the nodes of `us`, in the order `G.edges()` lists them. */
  function EdgesFrom(g: Graph, us: seq<Node>): (es: seq<(Node, Node)>)
  {
    if us == [] then [] else EdgesFrom(g, us[..|us| - 1]) + OutEdges(Last(us), Succ(g, Last(us)))
  }

  /** `G.edges()`: node by node, each node's successors in order. */
  function EdgeList(g: Graph): (es: seq<(Node, Node)>) {
    EdgesFrom(g, g.nodes)
  }

  lemma {:induction false} EdgesFromMembers(g: Graph, us: seq<Node>)
    ensures forall e :: e in EdgesFrom(g, us) <==> e.0 in us && HasEdge(g, e.0, e.1)
  {
    if us != [] {
      var init, u := us[..|us| - 1], Last(us);
      EdgesFromMembers(g, init);
      assert us == init + [u];
      forall e ensures e in EdgesFrom(g, us) <==> e.0 in us && HasEdge(g, e.0, e.1) {
        var out := OutEdges(u, Succ(g, u));
        if e in out {
          var k :| 0 <= k < |out| && out[k] == e;
          assert e.0 == u && e.1 == Succ(g, u)[k];
        }
        if e.0 == u && HasEdge(g, e.0, e.1) {
          var k :| 0 <= k < |Succ(g, u)| && Succ(g, u)[k] == e.1;
          assert out[k] == e;
        }
      }
    }
  }

  lemma {:induction false} EdgesFromDistinct(g: Graph, us: seq<Node>)
    requires Valid(g) && Distinct(us)
    ensures Distinct(EdgesFrom(g, us))
  {
    if us != [] {
      var init, u := us[..|us| - 1], Last(us);
      EdgesFromDistinct(g, init);
      EdgesFromMembers(g, init);
      var front, out := EdgesFrom(g, init), OutEdges(u, Succ(g, u));
      forall i, j | 0 <= i < j < |front + out| ensures (front + out)[i] != (front + out)[j] {
        if j < |front| {
        } else if i >= |front| {
          assert out[i - |front|].1 == Succ(g, u)[i - |front|];
          assert out[j - |front|].1 == Succ(g, u)[j - |front|];
        } else {
          assert front[i] in front;
          assert front[i].0 in init;
          assert out[j - |front|].0 == u;
        }
      }
    }
  }

  /** The edge list holds each edge exactly once. */
  lemma EdgeListIsEdges(g: Graph)
    requires Valid(g)
    ensures Distinct(EdgeList(g))
    ensures forall e :: e in EdgeList(g) <==> HasEdge(g, e.0, e.1)
  {
    EdgesFromMembers(g, g.nodes);
    EdgesFromDistinct(g, g.nodes);
  }

  /** Every sequence of at most `k` letters of `alpha`: a finite bound for the search stacks. */
  ghost function Words(alpha: set<Node>, k: nat): (ws: set<seq<Node>>)
  {
    if k == 0 then {[]}
    else Words(alpha, k - 1) + set w, a | w in Words(alpha, k - 1) && a in alpha :: w + [a]
  }

  lemma {:induction false} InWords(alpha: set<Node>, k: nat, w: seq<Node>)
    requires |w| <= k
    requires forall i :: 0 <= i < |w| ==> w[i] in alpha
    ensures w in Words(alpha, k)
  {
    if k > 0 {
      if |w| < k {
        InWords(alpha, k - 1, w);
      } else {
        var init := w[..|w| - 1];
        var a := w[|w| - 1];
        InWords(alpha, k - 1, init);
        assert w == init + [a];
        ExtendInWords(alpha, k - 1, init, a);
      }
    }
  }

  lemma ExtendInWords(alpha: set<Node>, k: nat, w: seq<Node>, a: Node)
    requires w in Words(alpha, k) && a in alpha
    ensures w + [a] in Words(alpha, k + 1)
  {
    assert w + [a] in set w', a' | w' in Words(alpha, k) && a' in alpha :: w' + [a'];
  }

  /** A walk starting at a node stays inside the node set. */
  lemma WalkInNodes(g: Graph, w: seq<Node>)
    requires Valid(g) && IsWalk(g, w) && w != [] && w[0] in g.succ
    ensures forall i :: 0 <= i < |w| ==> w[i] in g.succ
  {
    forall i | 0 <= i < |w| ensures w[i] in g.succ {
      if i > 0 {
        assert HasEdge(g, w[i - 1], w[i]);
      }
    }
  }
}
