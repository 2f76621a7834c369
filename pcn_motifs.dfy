/**
 * pcnImplementation.py, second half: `pcn_analysis`, the path-motif count.
 * From every node an explicit stack enumerates directed walks (nodes may
 * repeat) and counts each recorded walk in a table keyed by its node sequence.
 */
module PcnMotifs {
  import opened Graphs
  import AnalysisTools

  /** The node bound written into `pcn_analysis`: a recorded walk has at most 3 nodes. */
  const PathLimit := 3

  /** A walk of `g` with 2 to `maxNodes` nodes (1 to `maxNodes` - 1 edges). */
  predicate IsMotif(g: Graph, w: seq<Node>, maxNodes: int) {
    2 <= |w| <= maxNodes && w[0] in g.succ && IsWalk(g, w)
  }

  /**
   * A path the search from seed `n` pushes on its stack: a walk from `n` with at
   * most `maxNodes` nodes (the seed's own one-node path is pushed whatever the bound).
   */
  ghost predicate IsQueued(g: Graph, n: Node, p: seq<Node>, maxNodes: int) {
    && |p| >= 1 && p[0] == n && n in g.succ
    && (|p| == 1 || |p| <= maxNodes)
    && IsWalk(g, p)
  }

  /** Popping `p` pushes and records `p + [s]`: `s` follows the path's end and the longer path is within the bound. */
  ghost predicate Grows(g: Graph, p: seq<Node>, s: Node, maxNodes: int) {
    p != [] && s in Succ(g, Last(p)) && |p| + 1 <= maxNodes
  }

  /** The paths pushed (and recorded) when `p` is popped and the successors `ss` of its end are scanned. */
  function WalkPushes(p: seq<Node>, ss: seq<Node>, maxNodes: int): (ps: seq<seq<Node>>)
  {
    if |p| + 1 <= maxNodes then seq(|ss|, i requires 0 <= i < |ss| => p + [ss[i]]) else []
  }

  /** `motif_counts[motif] = motif_counts.get(motif, 0) + 1` for each of `ws` in turn. */
  function Tally(counts: map<seq<Node>, nat>, ws: seq<seq<Node>>): (t: map<seq<Node>, nat>)
  {
    if ws == [] then counts
    else
      var t := Tally(counts, ws[..|ws| - 1]);
      var w := ws[|ws| - 1];
      t[w := (if w in t then t[w] else 0) + 1]
  }

  lemma WalkPushesSnoc(p: seq<Node>, ss: seq<Node>, s: Node, maxNodes: int)
    ensures WalkPushes(p, ss + [s], maxNodes)
            == WalkPushes(p, ss, maxNodes) + (if |p| + 1 <= maxNodes then [p + [s]] else [])
  {
  }

  lemma TallySnoc(counts: map<seq<Node>, nat>, ws: seq<seq<Node>>, w: seq<Node>)
    ensures Tally(counts, ws + [w])
            == var t := Tally(counts, ws); t[w := (if w in t then t[w] else 0) + 1]
  {
    assert (ws + [w])[..|ws|] == ws;
  }

  /** Scanning one more successor `s` pushes and tallies `p + [s]` exactly when it is within the bound. */
  lemma ScanStep(counts: map<seq<Node>, nat>, p: seq<Node>, ss: seq<Node>, s: Node, maxNodes: int)
    ensures |p| + 1 <= maxNodes ==>
              && WalkPushes(p, ss + [s], maxNodes) == WalkPushes(p, ss, maxNodes) + [p + [s]]
              && Tally(counts, WalkPushes(p, ss + [s], maxNodes))
                 == var t := Tally(counts, WalkPushes(p, ss, maxNodes)); t[p + [s] := (if p + [s] in t then t[p + [s]] else 0) + 1]
    ensures |p| + 1 > maxNodes ==> WalkPushes(p, ss + [s], maxNodes) == WalkPushes(p, ss, maxNodes)
  {
    WalkPushesSnoc(p, ss, s, maxNodes);
    if |p| + 1 <= maxNodes {
      TallySnoc(counts, WalkPushes(p, ss, maxNodes), p + [s]);
    }
  }

  /** Tallying distinct walks not yet in the table adds each of them with count 1 and changes nothing else. */
  lemma {:induction false} TallyFresh(counts: map<seq<Node>, nat>, ws: seq<seq<Node>>)
    requires Distinct(ws) && forall w :: w in ws ==> w !in counts
    ensures forall w :: w in Tally(counts, ws) <==> w in counts || w in ws
    ensures forall w :: w in ws ==> Tally(counts, ws)[w] == 1
    ensures forall w :: w in counts ==> Tally(counts, ws)[w] == counts[w]
  {
    if ws != [] {
      var init, w := ws[..|ws| - 1], ws[|ws| - 1];
      assert ws == init + [w];
      TallyFresh(counts, init);
      assert w !in init;
    }
  }

  /**
   * The walks of the search from seed `n`: `visited` holds the paths already
   * popped, `stack` the paths waiting; a path is pushed only once its parent
   * has been popped, and popping a path pushes all of its extensions.
   */
  ghost predicate WalksInv(g: Graph, n: Node, maxNodes: int, visited: set<seq<Node>>, stack: seq<seq<Node>>)
  {
    && (forall q :: q in stack ==> IsQueued(g, n, q, maxNodes) && q !in visited)
    && (forall q :: q in visited ==> IsQueued(g, n, q, maxNodes))
    && Distinct(stack)
    && ([n] in visited || [n] in stack)
    && (forall q, p :: q in visited && AnalysisTools.ChildOf(q, p) ==> p in visited)
    && (forall q, p :: q in stack && AnalysisTools.ChildOf(q, p) ==> p in visited)
    && (forall p, s :: p in visited && Grows(g, p, s, maxNodes) ==> p + [s] in visited || p + [s] in stack)
  }

  /**
   * The count table during the search from seed `n`: the walks recorded by
   * earlier seeds (`before`, none of which starts at `n`) and every path of
   * two or more nodes pushed so far, each with count 1.
   */
  ghost predicate CountsInv(n: Node, before: map<seq<Node>, nat>, counts: map<seq<Node>, nat>,
                            visited: set<seq<Node>>, stack: seq<seq<Node>>)
  {
    && (forall w :: w in before ==> w != [] && w[0] != n)
    && (forall w :: w in counts <==> w in before || (|w| >= 2 && (w in visited || w in stack)))
    && (forall w :: w in counts ==> counts[w] == 1)
  }

  /** Every path pushed when `p` is popped is a queued walk one node longer than `p`. */
  lemma PushedAreWalks(g: Graph, n: Node, maxNodes: int, p: seq<Node>)
    requires Valid(g) && IsQueued(g, n, p, maxNodes)
    ensures Distinct(WalkPushes(p, Succ(g, Last(p)), maxNodes))
    ensures forall q :: q in WalkPushes(p, Succ(g, Last(p)), maxNodes) ==>
      IsQueued(g, n, q, maxNodes) && AnalysisTools.ChildOf(q, p) && |q| >= 2
    ensures forall s :: Grows(g, p, s, maxNodes) ==> p + [s] in WalkPushes(p, Succ(g, Last(p)), maxNodes)
  {
    var ss := Succ(g, Last(p));
    var pushed := WalkPushes(p, ss, maxNodes);
    assert Distinct(ss) by {
      if Last(p) in g.succ {
        assert Distinct(g.succ[Last(p)]);
      }
    }
    forall i, j | 0 <= i < j < |pushed| ensures pushed[i] != pushed[j] {
      assert pushed[i][|p|] == ss[i] && pushed[j][|p|] == ss[j];
    }
    forall q | q in pushed
      ensures IsQueued(g, n, q, maxNodes) && AnalysisTools.ChildOf(q, p) && |q| >= 2
    {
      var k :| 0 <= k < |pushed| && pushed[k] == q;
      assert q == p + [ss[k]];
      forall i | 0 <= i < |q| - 1 ensures HasEdge(g, q[i], q[i + 1]) {
        if i < |p| - 1 {
          assert q[i] == p[i] && q[i + 1] == p[i + 1];
        } else {
          assert q[i] == Last(p) && q[i + 1] == ss[k];
        }
      }
    }
    forall s | Grows(g, p, s, maxNodes) ensures p + [s] in pushed {
      var k :| 0 <= k < |ss| && ss[k] == s;
      assert pushed[k] == p + [s];
    }
  }

  /** Popping the top path `p` and pushing its extensions keeps the walk invariant. */
  lemma ExpandKeepsWalks(g: Graph, n: Node, maxNodes: int,
                         visited: set<seq<Node>>, rest: seq<seq<Node>>, p: seq<Node>)
    requires Valid(g)
    requires WalksInv(g, n, maxNodes, visited, rest + [p])
    ensures IsQueued(g, n, p, maxNodes) && p !in visited && p !in rest
    ensures WalksInv(g, n, maxNodes, visited + {p}, rest + WalkPushes(p, Succ(g, Last(p)), maxNodes))
  {
    var pushed := WalkPushes(p, Succ(g, Last(p)), maxNodes);
    PopDistinct(rest, p);
    PushedAreWalks(g, n, maxNodes, p);
    forall q | q in pushed ensures q !in visited && q !in rest {
      assert AnalysisTools.ChildOf(q, p);
    }
    AppendDistinct(rest, pushed);
    forall p0, s | p0 in visited + {p} && Grows(g, p0, s, maxNodes)
      ensures p0 + [s] in visited + {p} || p0 + [s] in rest + pushed
    {
      if p0 == p {
        assert p0 + [s] in pushed;
      }
    }
  }

  /** Recording the pushed paths keeps the count invariant. */
  lemma ExpandKeepsCounts(g: Graph, n: Node, maxNodes: int, before: map<seq<Node>, nat>, counts: map<seq<Node>, nat>,
                          visited: set<seq<Node>>, rest: seq<seq<Node>>, p: seq<Node>)
    requires Valid(g) && p != []
    requires WalksInv(g, n, maxNodes, visited, rest + [p])
    requires CountsInv(n, before, counts, visited, rest + [p])
    ensures CountsInv(n, before, Tally(counts, WalkPushes(p, Succ(g, Last(p)), maxNodes)),
                      visited + {p}, rest + WalkPushes(p, Succ(g, Last(p)), maxNodes))
  {
    var pushed := WalkPushes(p, Succ(g, Last(p)), maxNodes);
    ExpandKeepsWalks(g, n, maxNodes, visited, rest, p);
    PushedAreWalks(g, n, maxNodes, p);
    var stack := rest + [p];
    assert p in stack;
    forall w | w in pushed ensures w !in counts {
      assert AnalysisTools.ChildOf(w, p);
      assert w[0] == n;
    }
    TallyFresh(counts, pushed);
    var counts' := Tally(counts, pushed);
    forall w ensures w in counts' <==> w in before || (|w| >= 2 && (w in visited + {p} || w in rest + pushed)) {
      if w in stack && w != p {
        var k :| 0 <= k < |stack| && stack[k] == w;
        assert rest[k] == w;
      }
    }
  }

  /**
   * One turn of the search loop keeps both invariants, the popped path is
   * within the termination bound, and a path over the bound pushes and counts nothing.
   */
  lemma PopKeepsInvariants(g: Graph, n: Node, maxNodes: int, before: map<seq<Node>, nat>, counts: map<seq<Node>, nat>,
                           visited: set<seq<Node>>, rest: seq<seq<Node>>, p: seq<Node>)
    requires Valid(g) && n in g.succ
    requires WalksInv(g, n, maxNodes, visited, rest + [p])
    requires CountsInv(n, before, counts, visited, rest + [p])
    ensures p != [] && p in Words(g.succ.Keys, if maxNodes < 1 then 1 else maxNodes) && p !in visited
    ensures var pushed := WalkPushes(p, Succ(g, Last(p)), maxNodes);
      && WalksInv(g, n, maxNodes, visited + {p}, rest + pushed)
      && CountsInv(n, before, Tally(counts, pushed), visited + {p}, rest + pushed)
      && (|p| > maxNodes ==> rest + pushed == rest && Tally(counts, pushed) == counts)
  {
    ExpandKeepsWalks(g, n, maxNodes, visited, rest, p);
    ExpandKeepsCounts(g, n, maxNodes, before, counts, visited, rest, p);
    QueuedInWords(g, n, p, maxNodes);
    if |p| > maxNodes {
      assert rest + [] == rest;
    }
  }

  /** When the stack is empty, every walk from `n` within the bound has been popped. */
  lemma {:induction false} AllWalksPopped(g: Graph, n: Node, maxNodes: int, visited: set<seq<Node>>, q: seq<Node>)
    requires WalksInv(g, n, maxNodes, visited, [])
    requires IsQueued(g, n, q, maxNodes)
    ensures q in visited
    decreases |q|
  {
    if |q| == 1 {
      assert q == [n];
    } else {
      var r := q[..|q| - 1];
      assert IsWalk(g, r) by {
        forall i | 0 <= i < |r| - 1 ensures HasEdge(g, r[i], r[i + 1]) {
          assert r[i] == q[i] && r[i + 1] == q[i + 1];
        }
      }
      AllWalksPopped(g, n, maxNodes, visited, r);
      assert HasEdge(g, q[|q| - 2], q[|q| - 1]);
      assert q == r + [Last(q)];
      assert Grows(g, r, Last(q), maxNodes);
    }
  }

  /** A queued walk is a word of bounded length over the node set (termination bound). */
  lemma QueuedInWords(g: Graph, n: Node, p: seq<Node>, maxNodes: int)
    requires Valid(g) && IsQueued(g, n, p, maxNodes)
    ensures p in Words(g.succ.Keys, if maxNodes < 1 then 1 else maxNodes)
  {
    WalkInNodes(g, p);
    InWords(g.succ.Keys, if maxNodes < 1 then 1 else maxNodes, p);
  }

  /**
   * One popped path's turn: every successor of its end extends the path; when
   * the longer path is within the bound it is counted and pushed.
   */
  method ScanWalkSuccessors(g: Graph, path: seq<Node>, maxNodes: int,
                            stack: seq<seq<Node>>, counts: map<seq<Node>, nat>)
    returns (stack': seq<seq<Node>>, counts': map<seq<Node>, nat>)
    requires path != []
    ensures stack' == stack + WalkPushes(path, Succ(g, Last(path)), maxNodes)
    ensures counts' == Tally(counts, WalkPushes(path, Succ(g, Last(path)), maxNodes))
  {
    var succs := Succ(g, path[|path| - 1]);
    stack', counts' := stack, counts;
    for j := 0 to |succs|
      invariant stack' == stack + WalkPushes(path, succs[..j], maxNodes)
      invariant counts' == Tally(counts, WalkPushes(path, succs[..j], maxNodes))
    {
      var newPath := path + [succs[j]];
      assert succs[..j + 1] == succs[..j] + [succs[j]];
      ScanStep(counts, path, succs[..j], succs[j], maxNodes);
      if |newPath| <= maxNodes {
        counts' := counts'[newPath := (if newPath in counts' then counts'[newPath] else 0) + 1];
        stack' := stack' + [newPath];
      }
    }
    assert succs[..|succs|] == succs;
  }

  /**
   * The search of `pcn_analysis` from one seed `n`: adds every walk from `n`
   * with 2 to `maxNodes` nodes to the table, each with count 1.
   */
  method SeedWalks(g: Graph, n: Node, maxNodes: int, before: map<seq<Node>, nat>) returns (counts: map<seq<Node>, nat>)
    requires Valid(g) && n in g.succ
    requires forall w :: w in before ==> w != [] && w[0] != n
    requires forall w :: w in before ==> before[w] == 1
    ensures forall w :: w in counts <==> w in before || (IsMotif(g, w, maxNodes) && w[0] == n)
    ensures forall w :: w in counts ==> counts[w] == 1
  {
    counts := before;
    var stack := [[n]];
    ghost var visited: set<seq<Node>> := {};
    ghost var bound := Words(g.succ.Keys, if maxNodes < 1 then 1 else maxNodes);
    while stack != []
      invariant WalksInv(g, n, maxNodes, visited, stack)
      invariant CountsInv(n, before, counts, visited, stack)
      invariant visited <= bound
      decreases bound - visited
    {
      var path := stack[|stack| - 1];
      assert stack == stack[..|stack| - 1] + [path];
      stack := stack[..|stack| - 1];
      PopKeepsInvariants(g, n, maxNodes, before, counts, visited, stack, path);
      visited := visited + {path};
      if |path| > maxNodes {
        continue;
      }
      stack, counts := ScanWalkSuccessors(g, path, maxNodes, stack, counts);
    }
    forall w ensures w in counts <==> w in before || (IsMotif(g, w, maxNodes) && w[0] == n) {
      if IsMotif(g, w, maxNodes) && w[0] == n {
        AllWalksPopped(g, n, maxNodes, visited, w);
      }
    }
  }

  /**
   * The enumeration of `pcn_analysis` with the node bound as a parameter: the
   * keys of the table are exactly the walks with 2 to `maxNodes` nodes, and,
   * since a DiGraph has no parallel edges, each is counted once.
   */
  method WalkMotifs(g: Graph, maxNodes: int) returns (counts: map<seq<Node>, nat>)
    requires Valid(g)
    ensures forall w :: w in counts <==> IsMotif(g, w, maxNodes)
    ensures forall w :: w in counts ==> counts[w] == 1
  {
    counts := map[];
    for i := 0 to |g.nodes|
      invariant forall w :: w in counts <==> IsMotif(g, w, maxNodes) && w[0] in g.nodes[..i]
      invariant forall w :: w in counts ==> counts[w] == 1
    {
      var n := g.nodes[i];
      assert n !in g.nodes[..i];
      assert g.nodes[..i + 1] == g.nodes[..i] + [n];
      counts := SeedWalks(g, n, maxNodes, counts);
    }
    assert g.nodes[..|g.nodes|] == g.nodes;
    forall w | IsMotif(g, w, maxNodes) ensures w[0] in g.nodes {
      assert w[0] in NodeSet(g);
    }
  }

  /**
   * `pcn_analysis(G)` as written: the table holds exactly the walks of one or
   * two edges, each with count 1.
   */
  method PcnAnalysis(g: Graph) returns (motifCounts: map<seq<Node>, nat>)
    requires Valid(g)
    ensures forall w :: w in motifCounts <==> IsMotif(g, w, PathLimit)
    ensures forall w :: w in motifCounts ==> motifCounts[w] == 1 && 2 <= |w| <= 3
  {
    motifCounts := WalkMotifs(g, PathLimit);
  }

  /**
   * The enumeration with the bound the doc-comment and the report of
   * `pcn_analysis` describe: every walk of one to three edges, each counted once.
   */
  method PcnAnalysisThreeEdges(g: Graph) returns (motifCounts: map<seq<Node>, nat>)
    requires Valid(g)
    ensures forall w :: w in motifCounts <==> 1 <= |w| - 1 <= 3 && w[0] in g.succ && IsWalk(g, w)
    ensures forall w :: w in motifCounts ==> motifCounts[w] == 1
  {
    motifCounts := WalkMotifs(g, PathLimit + 1);
  }

  /** The one-edge motifs are exactly the edges of `g`. */
  lemma OneEdgeMotifsAreEdges(g: Graph, maxNodes: int)
    requires Valid(g) && maxNodes >= 2
    ensures forall u, v :: IsMotif(g, [u, v], maxNodes) <==> HasEdge(g, u, v)
  {
    forall u, v ensures IsMotif(g, [u, v], maxNodes) <==> HasEdge(g, u, v) {
      var w := [u, v];
      assert w[0] == u && w[1] == v;
      assert IsWalk(g, w) <==> HasEdge(g, w[0], w[1]);
    }
  }

  /** Dropping the last node of a motif of three or more nodes leaves a motif: the motif set is closed under prefixes. */
  lemma MotifPrefix(g: Graph, w: seq<Node>, maxNodes: int)
    requires IsMotif(g, w, maxNodes) && |w| >= 3
    ensures IsMotif(g, w[..|w| - 1], maxNodes)
  {
    var r := w[..|w| - 1];
    forall i | 0 <= i < |r| - 1 ensures HasEdge(g, r[i], r[i + 1]) {
      assert r[i] == w[i] && r[i + 1] == w[i + 1];
    }
  }

  /** A bounded cycle is also a motif when it fits the node bound: the "loops" among the path motifs. */
  lemma CyclesAreMotifs(g: Graph, c: seq<Node>, maxLength: int, maxNodes: int)
    requires AnalysisTools.IsBoundedCycle(g, c, maxLength) && |c| <= maxNodes
    ensures IsMotif(g, c, maxNodes) && c[0] == c[|c| - 1]
  {
  }

  /** Raising the node bound keeps every motif: the enumeration only grows with the bound. */
  lemma MotifsGrowWithBound(g: Graph, w: seq<Node>, m: int, m': int)
    requires m <= m' && IsMotif(g, w, m)
    ensures IsMotif(g, w, m')
  {
  }
}
