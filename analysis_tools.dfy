/**
 * analysisTools.py: counting the active nodes of an activation state, the
 * bounded simple-cycle search, and the exact-sequence overlap of two cycle lists.
 */
module AnalysisTools {
  import opened Graphs

  lemma {:induction false} SubsetCardinality<T>(a: set<T>, b: set<T>)
    requires a <= b
    ensures |a| <= |b|
    ensures |a| == |b| ==> a == b
  {
    if a != {} {
      var x :| x in a;
      SubsetCardinality(a - {x}, b - {x});
    }
  }

  // ---------------------------------------------------------------------------
  // count_active_nodes

  /** The nodes an activation state maps to true. */
  function ActiveSet(active: map<Node, bool>): (on: set<Node>) {
    set n | n in active && active[n]
  }

  /** `count_active_nodes`: the number of nodes mapped to true. */
  function CountActive(active: map<Node, bool>): (r: nat)
    ensures r <= |active|
    ensures r == 0 <==> forall n :: n in active ==> !active[n]
    ensures r == |active| <==> forall n :: n in active ==> active[n]
  {
    var on := ActiveSet(active);
    SubsetCardinality(on, active.Keys);
    assert (forall n :: n in active ==> !active[n]) ==> on == {};
    assert (forall n :: n in active ==> active[n]) ==> on == active.Keys;
    assert forall n :: n in active && active[n] ==> n in on;
    |on|
  }

  // ---------------------------------------------------------------------------
  // find_all_cycles

  /**
   * What find_all_cycles reports: a closed walk c[0] -> ... -> c[|c|-1] == c[0]
   * of 2 to `maxLength` edges that visits no node twice before closing.
   * Rotations of one cycle are different sequences and each is its own cycle.
   */
  predicate IsBoundedCycle(g: Graph, c: seq<Node>, maxLength: int) {
    && 3 <= |c| <= maxLength + 1
    && c[0] == Last(c)
    && c[0] in g.succ
    && Distinct(c[..|c| - 1])
    && IsWalk(g, c)
  }

  /**
   * A path the search from seed `n` pushes on its stack: it starts at `n`,
   * repeats no node, follows edges, and has at most `maxLength` nodes (the
   * seed's own one-node path is pushed whatever `maxLength` is).
   */
  ghost predicate IsSearchPath(g: Graph, n: Node, p: seq<Node>, maxLength: int) {
    && |p| >= 1 && p[0] == n && n in g.succ
    && (|p| == 1 || |p| <= maxLength)
    && Distinct(p)
    && IsWalk(g, p)
  }

  /** Popping `p` pushes `p + [s]`: `s` follows the path's end, is new, and there is room. */
  ghost predicate Extends(g: Graph, p: seq<Node>, s: Node, maxLength: int) {
    p != [] && s in Succ(g, Last(p)) && s !in p && |p| < maxLength
  }

  /** Popping `p` reports the cycle `p + [n]`. */
  ghost predicate Closes(g: Graph, n: Node, p: seq<Node>, maxLength: int) {
    1 < |p| <= maxLength && n in Succ(g, Last(p))
  }

  /** The paths pushed while scanning the successors `ss` of the end of `p`. */
  function Pushes(p: seq<Node>, ss: seq<Node>, maxLength: int): (ps: seq<seq<Node>>)
  {
    if ss == [] then []
    else Pushes(p, ss[..|ss| - 1], maxLength)
         + (if Last(ss) !in p && |p| < maxLength then [p + [Last(ss)]] else [])
  }

  lemma PushesSnoc(p: seq<Node>, ss: seq<Node>, s: Node, maxLength: int)
    ensures Pushes(p, ss + [s], maxLength)
            == Pushes(p, ss, maxLength) + (if s !in p && |p| < maxLength then [p + [s]] else [])
  {
    assert (ss + [s])[..|ss|] == ss;
  }

  lemma {:induction false} PushesMembers(p: seq<Node>, ss: seq<Node>, maxLength: int)
    ensures forall q :: q in Pushes(p, ss, maxLength) ==>
      |q| == |p| + 1 && q[..|p|] == p && q[|p|] in ss && q[|p|] !in p && |p| < maxLength
    ensures forall s :: s in ss && s !in p && |p| < maxLength ==> p + [s] in Pushes(p, ss, maxLength)
  {
    if ss != [] {
      var init := ss[..|ss| - 1];
      PushesMembers(p, init, maxLength);
      assert ss == init + [Last(ss)];
    }
  }

  lemma {:induction false} PushesDistinct(p: seq<Node>, ss: seq<Node>, maxLength: int)
    requires Distinct(ss)
    ensures Distinct(Pushes(p, ss, maxLength))
  {
    if ss != [] {
      var init := ss[..|ss| - 1];
      PushesDistinct(p, init, maxLength);
      PushesMembers(p, init, maxLength);
    }
  }

  /** `q` is `p` with one more node at the end. */
  ghost predicate ChildOf(q: seq<Node>, p: seq<Node>) {
    |p| >= 1 && |q| == |p| + 1 && q[..|p|] == p
  }

  /**
   * The paths of the search from seed `n`: `visited` holds the paths already
   * popped, `stack` the paths waiting. A path is pushed only once its parent
   * has been popped, and popping a path pushes all of its extensions.
   */
  ghost predicate PathsInv(g: Graph, n: Node, maxLength: int, visited: set<seq<Node>>, stack: seq<seq<Node>>)
  {
    && (forall q :: q in stack ==> IsSearchPath(g, n, q, maxLength) && q !in visited)
    && (forall q :: q in visited ==> IsSearchPath(g, n, q, maxLength))
    && Distinct(stack)
    && ([n] in visited || [n] in stack)
    && (forall q, p :: q in visited && ChildOf(q, p) ==> p in visited)
    && (forall q, p :: q in stack && ChildOf(q, p) ==> p in visited)
    && (forall p, s :: p in visited && Extends(g, p, s, maxLength) ==> p + [s] in visited || p + [s] in stack)
  }

  /** The cycles reported so far: one per popped path that closes back to `n`. */
  ghost predicate FoundInv(g: Graph, n: Node, maxLength: int, visited: set<seq<Node>>, found: seq<seq<Node>>)
  {
    && Distinct(found)
    && (forall c :: c in found ==> |c| >= 2 && Last(c) == n)
    && (forall c, p :: c in found && ChildOf(c, p) ==> p in visited && Closes(g, n, p, maxLength))
    && (forall p :: p in visited && Closes(g, n, p, maxLength) ==> p + [n] in found)
  }

  /** Every path pushed when `p` is popped is a search path one node longer than `p`. */
  lemma PushedArePaths(g: Graph, n: Node, maxLength: int, p: seq<Node>)
    requires Valid(g) && IsSearchPath(g, n, p, maxLength)
    ensures Distinct(Pushes(p, Succ(g, Last(p)), maxLength))
    ensures forall q :: q in Pushes(p, Succ(g, Last(p)), maxLength) ==>
      IsSearchPath(g, n, q, maxLength) && ChildOf(q, p)
    ensures forall s :: Extends(g, p, s, maxLength) ==> p + [s] in Pushes(p, Succ(g, Last(p)), maxLength)
  {
    var ss := Succ(g, Last(p));
    PushesMembers(p, ss, maxLength);
    assert Distinct(ss) by {
      if Last(p) in g.succ {
        assert Distinct(g.succ[Last(p)]);
      }
    }
    PushesDistinct(p, ss, maxLength);
    forall q | q in Pushes(p, ss, maxLength) ensures IsSearchPath(g, n, q, maxLength) && ChildOf(q, p) {
      assert q == p + [q[|p|]];
      forall i | 0 <= i < |q| - 1 ensures HasEdge(g, q[i], q[i + 1]) {
        if i < |p| - 1 {
          assert q[i] == p[i] && q[i + 1] == p[i + 1];
        } else {
          assert q[i] == Last(p);
        }
      }
      forall i, j | 0 <= i < j < |q| ensures q[i] != q[j] {
        if j == |p| {
          assert q[i] == p[i];
        } else {
          assert q[i] == p[i] && q[j] == p[j];
        }
      }
    }
  }

  /** Popping the top path `p` and pushing its extensions keeps the path invariant. */
  lemma ExpandKeepsPaths(g: Graph, n: Node, maxLength: int,
                         visited: set<seq<Node>>, rest: seq<seq<Node>>, p: seq<Node>)
    requires Valid(g)
    requires PathsInv(g, n, maxLength, visited, rest + [p])
    ensures IsSearchPath(g, n, p, maxLength) && p !in visited
    ensures PathsInv(g, n, maxLength, visited + {p}, rest + Pushes(p, Succ(g, Last(p)), maxLength))
  {
    var pushed := Pushes(p, Succ(g, Last(p)), maxLength);
    PopDistinct(rest, p);
    PushedArePaths(g, n, maxLength, p);
    forall q | q in pushed ensures q !in visited && q !in rest {
      assert ChildOf(q, p);
    }
    AppendDistinct(rest, pushed);
    forall p0, s | p0 in visited + {p} && Extends(g, p0, s, maxLength)
      ensures p0 + [s] in visited + {p} || p0 + [s] in rest + pushed
    {
      if p0 == p {
        assert p0 + [s] in pushed;
      }
    }
  }

  /** Reporting `p + [n]` when the popped path `p` closes keeps the found invariant. */
  lemma ExpandKeepsFound(g: Graph, n: Node, maxLength: int,
                         visited: set<seq<Node>>, p: seq<Node>, found: seq<seq<Node>>)
    requires FoundInv(g, n, maxLength, visited, found) && p !in visited
    ensures FoundInv(g, n, maxLength, visited + {p},
                     found + (if Closes(g, n, p, maxLength) then [p + [n]] else []))
  {
    var found' := found + (if Closes(g, n, p, maxLength) then [p + [n]] else []);
    if Closes(g, n, p, maxLength) {
      var c := p + [n];
      assert ChildOf(c, p);
      assert c !in found;
      forall i, j | 0 <= i < j < |found'| ensures found'[i] != found'[j] {
        if j == |found| {
          assert found[i] in found;
        }
      }
    }
    forall c, p0 | c in found' && ChildOf(c, p0)
      ensures p0 in visited + {p} && Closes(g, n, p0, maxLength)
    {
      if c !in found {
        assert c == p + [n];
        assert p0 == c[..|p0|] == p;
      }
    }
  }

  /** When the stack is empty, every search path has been popped. */
  lemma {:induction false} AllPathsPopped(g: Graph, n: Node, maxLength: int, visited: set<seq<Node>>, q: seq<Node>)
    requires PathsInv(g, n, maxLength, visited, [])
    requires IsSearchPath(g, n, q, maxLength)
    ensures q in visited
    decreases |q|
  {
    if |q| == 1 {
      assert q == [n];
    } else {
      var r := q[..|q| - 1];
      assert IsWalk(g, r) by {
        forall i | 0 <= i < |r| - 1 ensures HasEdge(g, r[i], r[i + 1]) {
          assert r[i] == q[i] && r[i + 1] == q[i + 1];
        }
      }
      AllPathsPopped(g, n, maxLength, visited, r);
      assert HasEdge(g, q[|q| - 2], q[|q| - 1]);
      assert q == r + [Last(q)];
      assert Extends(g, r, Last(q), maxLength);
    }
  }

  /** When the stack is empty, `found` holds exactly the bounded cycles that start at `n`. */
  lemma SearchDone(g: Graph, n: Node, maxLength: int, visited: set<seq<Node>>, found: seq<seq<Node>>)
    requires Valid(g) && n in g.succ
    requires PathsInv(g, n, maxLength, visited, []) && FoundInv(g, n, maxLength, visited, found)
    ensures forall c :: c in found <==> IsBoundedCycle(g, c, maxLength) && c[0] == n
  {
    forall c ensures c in found <==> IsBoundedCycle(g, c, maxLength) && c[0] == n {
      if c in found {
        var p := c[..|c| - 1];
        assert ChildOf(c, p);
        assert IsSearchPath(g, n, p, maxLength);
        assert c == p + [n];
        forall i | 0 <= i < |c| - 1 ensures HasEdge(g, c[i], c[i + 1]) {
          if i < |p| - 1 {
            assert c[i] == p[i] && c[i + 1] == p[i + 1];
          }
        }
      }
      if IsBoundedCycle(g, c, maxLength) && c[0] == n {
        var p := c[..|c| - 1];
        assert IsWalk(g, p) by {
          forall i | 0 <= i < |p| - 1 ensures HasEdge(g, p[i], p[i + 1]) {
            assert p[i] == c[i] && p[i + 1] == c[i + 1];
          }
        }
        AllPathsPopped(g, n, maxLength, visited, p);
        assert HasEdge(g, c[|c| - 2], c[|c| - 1]);
        assert Closes(g, n, p, maxLength);
        assert c == p + [n];
      }
    }
  }

  /** A search path is a word of bounded length over the node set (termination bound). */
  lemma SearchPathInWords(g: Graph, n: Node, p: seq<Node>, maxLength: int)
    requires Valid(g) && IsSearchPath(g, n, p, maxLength)
    ensures p in Words(g.succ.Keys, if maxLength < 1 then 1 else maxLength)
  {
    WalkInNodes(g, p);
    InWords(g.succ.Keys, if maxLength < 1 then 1 else maxLength, p);
  }

  /**
   * One popped path's turn in the search: each successor of its end either
   * closes a cycle back to the seed `n` or, when new and there is room,
   * extends the path on the stack.
   */
  method ScanSuccessors(g: Graph, n: Node, path: seq<Node>, maxLength: int,
                        stack: seq<seq<Node>>, found: seq<seq<Node>>)
    returns (stack': seq<seq<Node>>, found': seq<seq<Node>>)
    requires Valid(g) && path != [] && path[0] == n
    ensures stack' == stack + Pushes(path, Succ(g, Last(path)), maxLength)
    ensures found' == found + (if Closes(g, n, path, maxLength) then [path + [n]] else [])
  {
    var succs := Succ(g, path[|path| - 1]);
    assert Distinct(succs) by {
      if Last(path) in g.succ {
        assert Distinct(g.succ[Last(path)]);
      }
    }
    stack', found' := stack, found;
    var j := 0;
    while j < |succs|
      invariant 0 <= j <= |succs|
      invariant stack' == stack + Pushes(path, succs[..j], maxLength)
      invariant found' == found + (if n in succs[..j] && 1 < |path| <= maxLength then [path + [n]] else [])
    {
      var neighbor := succs[j];
      assert succs[..j + 1] == succs[..j] + [neighbor];
      assert neighbor !in succs[..j];
      PushesSnoc(path, succs[..j], neighbor, maxLength);
      if neighbor == n && |path| > 1 && |path| <= maxLength {
        found' := found' + [path + [n]];
      } else if neighbor !in path && |path| < maxLength {
        stack' := stack' + [path + [neighbor]];
      }
      j := j + 1;
    }
    assert succs[..j] == succs;
  }

  /**
   * The depth-first search of find_all_cycles from one seed `n`: every bounded
   * cycle starting at `n`, each exactly once.
   */
  method SeedCycles(g: Graph, n: Node, maxLength: int) returns (found: seq<seq<Node>>)
    requires Valid(g) && n in g.succ
    ensures Distinct(found)
    ensures forall c :: c in found <==> IsBoundedCycle(g, c, maxLength) && c[0] == n
  {
    found := [];
    var stack := [[n]];
    ghost var visited: set<seq<Node>> := {};
    ghost var bound := Words(g.succ.Keys, if maxLength < 1 then 1 else maxLength);
    while stack != []
      invariant PathsInv(g, n, maxLength, visited, stack)
      invariant FoundInv(g, n, maxLength, visited, found)
      invariant visited <= bound
      decreases bound - visited
    {
      var path := stack[|stack| - 1];
      assert stack == stack[..|stack| - 1] + [path];
      stack := stack[..|stack| - 1];
      ExpandKeepsPaths(g, n, maxLength, visited, stack, path);
      ExpandKeepsFound(g, n, maxLength, visited, path, found);
      SearchPathInWords(g, n, path, maxLength);
      visited := visited + {path};
      stack, found := ScanSuccessors(g, n, path, maxLength, stack, found);
    }
    SearchDone(g, n, maxLength, visited, found);
  }

  /**
   * `find_all_cycles`: every bounded cycle of `g`, each exactly once, and
   * nothing else. A cycle of k edges thus appears once per rotation.
   */
  method FindAllCycles(g: Graph, maxLength: int) returns (cycles: seq<seq<Node>>)
    requires Valid(g)
    ensures Distinct(cycles)
    ensures forall c :: c in cycles <==> IsBoundedCycle(g, c, maxLength)
    ensures maxLength < 2 ==> cycles == []
  {
    cycles := [];
    for i := 0 to |g.nodes|
      invariant Distinct(cycles)
      invariant forall c :: c in cycles <==> IsBoundedCycle(g, c, maxLength) && c[0] in g.nodes[..i]
    {
      var n := g.nodes[i];
      var found := SeedCycles(g, n, maxLength);
      assert n !in g.nodes[..i];
      assert g.nodes[..i + 1] == g.nodes[..i] + [n];
      forall a, b | 0 <= a < b < |cycles + found| ensures (cycles + found)[a] != (cycles + found)[b] {
        if a < |cycles| <= b {
          assert cycles[a] in cycles;
          assert found[b - |cycles|] in found;
        }
      }
      cycles := cycles + found;
    }
    assert g.nodes[..|g.nodes|] == g.nodes;
    forall c | IsBoundedCycle(g, c, maxLength) ensures c[0] in g.nodes {
      assert c[0] in NodeSet(g);
    }
    assert cycles != [] ==> cycles[0] in cycles;
  }

  /** The rotation of the cycle `c` that starts at its `i`-th node. */
  function Rotate(c: seq<Node>, i: nat): (rc: seq<Node>)
    requires i < |c| - 1
  {
    c[i..|c| - 1] + c[..i] + [c[i]]
  }

  /**
   * Every rotation of a bounded cycle is a bounded cycle, and rotations at
   * different positions start at different nodes: a cycle of k edges has k
   * distinct rotations, so find_all_cycles reports it exactly k times.
   */
  lemma RotationsAreCycles(g: Graph, c: seq<Node>, maxLength: int, i: nat)
    requires IsBoundedCycle(g, c, maxLength) && i < |c| - 1
    ensures IsBoundedCycle(g, Rotate(c, i), maxLength)
    ensures Rotate(c, i)[0] == c[i]
    ensures forall j :: 0 <= j < |c| - 1 && j != i ==> Rotate(c, j) != Rotate(c, i)
  {
    var k := |c| - 1;
    var r := Rotate(c, i);
    assert |r| == k + 1;
    assert forall t :: 0 <= t < k - i ==> r[t] == c[i + t];
    assert forall t :: k - i <= t < k ==> r[t] == c[t - (k - i)];
    assert r[k] == c[i];
    assert HasEdge(g, c[i], c[i + 1]);
    forall t | 0 <= t < k ensures HasEdge(g, r[t], r[t + 1]) {
      if t + 1 < k - i {
        assert HasEdge(g, c[i + t], c[i + t + 1]);
      } else if t + 1 == k - i {
        assert HasEdge(g, c[k - 1], c[k]);
      } else {
        assert HasEdge(g, c[t - (k - i)], c[t + 1 - (k - i)]);
      }
    }
    forall t1, t2 | 0 <= t1 < t2 < k ensures r[t1] != r[t2] {
      var body := c[..k];
      if t2 < k - i {
        assert r[t1] == body[i + t1] && r[t2] == body[i + t2];
      } else if t1 >= k - i {
        assert r[t1] == body[t1 - (k - i)] && r[t2] == body[t2 - (k - i)];
      } else {
        assert r[t1] == body[i + t1] && r[t2] == body[t2 - (k - i)];
      }
    }
    assert r[..k][0] == c[i];
    forall j | 0 <= j < k && j != i ensures Rotate(c, j) != r {
      var body := c[..k];
      assert Rotate(c, j)[0] == body[j] && r[0] == body[i];
    }
  }

  // ---------------------------------------------------------------------------
  // cycle_overlap

  /** How many entries of `a`, counted with multiplicity, occur in `b` as exact sequences. */
  function Overlap(a: seq<seq<Node>>, b: seq<seq<Node>>): (r: nat)
    ensures r <= |a|
  {
    if a == [] then 0 else Overlap(a[..|a| - 1], b) + (if a[|a| - 1] in b then 1 else 0)
  }

  /** No entry of `a` matches iff the overlap is 0; in particular an empty `b` gives 0. */
  lemma {:induction false} OverlapZero(a: seq<seq<Node>>, b: seq<seq<Node>>)
    ensures Overlap(a, b) == 0 <==> forall x :: x in a ==> x !in b
    ensures b == [] ==> Overlap(a, b) == 0
  {
    if a != [] {
      var init := a[..|a| - 1];
      OverlapZero(init, b);
      assert a == init + [a[|a| - 1]];
    }
  }

  /** Every entry of `a` matches iff the overlap is |a|. */
  lemma {:induction false} OverlapFull(a: seq<seq<Node>>, b: seq<seq<Node>>)
    ensures Overlap(a, b) == |a| <==> forall x :: x in a ==> x in b
  {
    if a != [] {
      var init := a[..|a| - 1];
      OverlapFull(init, b);
      assert a == init + [a[|a| - 1]];
    }
  }

  /** A cycle list compared with itself overlaps completely. */
  lemma OverlapSelf(a: seq<seq<Node>>)
    ensures Overlap(a, a) == |a|
  {
    OverlapFull(a, a);
  }

  /** `cycle_overlap`: build the set of `cycles_b`, then count the entries of `cycles_a` in it. */
  method CycleOverlap(cyclesA: seq<seq<Node>>, cyclesB: seq<seq<Node>>) returns (overlapCount: nat)
    ensures overlapCount == Overlap(cyclesA, cyclesB)
  {
    var setB := set c | c in cyclesB;
    overlapCount := 0;
    for i := 0 to |cyclesA|
      invariant overlapCount == Overlap(cyclesA[..i], cyclesB)
    {
      assert cyclesA[..i + 1][..i] == cyclesA[..i];
      if cyclesA[i] in setB {
        overlapCount := overlapCount + 1;
      }
    }
    assert cyclesA[..|cyclesA|] == cyclesA;
  }
}
