/** `build_control_flow_depth`: one pass over the paths computes longest-walk depths. */
module Depths {
  import opened Graph
  import opened PathTable
  import opened FunctionTables
  import opened LoopEdges
  import opened Dominators

  ghost predicate HasWalkTo(g: Cfg, start: nat, n: nat, k: nat) {
    exists w :: WalkBetween(g, w, start, n) && |w| == k
  }

  /** The number of nodes on the longest walk from `start` to `n`. */
  ghost predicate IsLongestTo(g: Cfg, start: nat, n: nat, k: nat) {
    HasWalkTo(g, start, n, k) && forall w :: WalkBetween(g, w, start, n) ==> |w| <= k
  }

  /** Every depth is the length of some walk (0: not reached yet). */
  ghost predicate Witnessed(g: Cfg, start: nat, depth: seq<nat>) {
    forall v :: 0 <= v < |depth| && depth[v] > 0 ==> HasWalkTo(g, start, v, depth[v])
  }

  /** The node at `k` of path `p` is at least as deep as its place on the trace. */
  ghost predicate DeepEnough(ps: seq<Path>, depth: seq<nat>, p: nat, k: nat)
    requires ValidTable(ps) && p < |ps| && k < |ps[p].nodes|
  {
    ps[p].nodes[k] < |depth| && depth[ps[p].nodes[k]] >= |Trace(ps, p, k + 1)|
  }

  ghost predicate DeepUpTo(ps: seq<Path>, depth: seq<nat>, m: nat)
    requires ValidTable(ps) && m <= |ps|
  {
    forall p, k :: 0 <= p < m && 0 <= k < |ps[p].nodes| ==> DeepEnough(ps, depth, p, k)
  }

  ghost predicate NoLoops(ps: seq<Path>) {
    forall p :: 0 <= p < |ps| ==> !ps[p].isLoop
  }

  ghost predicate TracesAreWalks(g: Cfg, start: nat, ps: seq<Path>) {
    ValidTable(ps) && forall p :: 0 <= p < |ps| ==> IsWalk(g, FullTrace(ps, p)) && FullTrace(ps, p)[0] == start
  }

  ghost predicate Deeper(d: seq<nat>, d': seq<nat>) {
    |d| == |d'| && forall v :: 0 <= v < |d| ==> d[v] <= d'[v]
  }

  /** The node before position `k` of path `p`. */
  ghost function Before(ps: seq<Path>, p: nat, k: nat): (u: nat)
    requires ValidTable(ps) && p < |ps| && k < |ps[p].nodes| && (p > 0 || k > 0)
  {
    if k > 0 then ps[p].nodes[k - 1] else ps[ps[p].prev].nodes[ps[p].prevIndex]
  }

  lemma {:induction false} TraceOfWalk(g: Cfg, start: nat, ps: seq<Path>, p: nat, k: nat)
    requires TracesAreWalks(g, start, ps) && p < |ps| && k <= |ps[p].nodes|
    ensures Trace(ps, p, k) <= FullTrace(ps, p)
    decreases |ps[p].nodes| - k
  {
    if k < |ps[p].nodes| {
      TraceSnoc(ps, p, k);
      TraceOfWalk(g, start, ps, p, k + 1);
    }
  }

  lemma StepEdge(g: Cfg, start: nat, ps: seq<Path>, p: nat, k: nat)
    requires TracesAreWalks(g, start, ps) && p < |ps| && k < |ps[p].nodes|
    ensures IsNode(g, ps[p].nodes[k])
    ensures |Trace(ps, p, k + 1)| == |Trace(ps, p, k)| + 1
    ensures p > 0 || k > 0 ==> Edge(g, Before(ps, p, k), ps[p].nodes[k])
    ensures p == 0 && k == 0 ==> ps[p].nodes[k] == start && Trace(ps, p, k) == []
  {
    var w := FullTrace(ps, p);
    var t := Trace(ps, p, k);
    TraceOfWalk(g, start, ps, p, k + 1);
    StepBackTrace(ps, p, k + 1);
    WalkNodes(g, w);
    assert Trace(ps, p, k + 1)[|t|] == w[|t|];
    StepBackTrace(ps, p, k);
    if p > 0 || k > 0 {
      assert t[|t| - 1] == Before(ps, p, k);
      assert Trace(ps, p, k + 1)[|t| - 1] == w[|t| - 1];
      assert Edge(g, w[|t| - 1], w[|t|]);
    }
  }

  lemma DeeperKeeps(ps: seq<Path>, d: seq<nat>, d': seq<nat>, m: nat)
    requires ValidTable(ps) && m <= |ps| && Deeper(d, d') && DeepUpTo(ps, d, m)
    ensures DeepUpTo(ps, d', m)
  {
    hide Trace;
    forall p, k | 0 <= p < m && 0 <= k < |ps[p].nodes| ensures DeepEnough(ps, d', p, k) {
      assert DeepEnough(ps, d, p, k);
    }
  }

  lemma DeepenWitnessed(g: Cfg, start: nat, d: seq<nat>, u: nat, v: nat)
    requires Witnessed(g, start, d) && u < |d| && v < |d| && d[u] > 0 && Edge(g, u, v)
    ensures Witnessed(g, start, d[v := d[u] + 1])
  {
    var w :| WalkBetween(g, w, start, u) && |w| == d[u];
    ExtendWalk(g, w, v);
    assert WalkBetween(g, w + [v], start, v) && |w + [v]| == d[u] + 1;
    assert HasWalkTo(g, start, v, d[u] + 1);
  }

  /** The depths after the first `m` paths of a table without loops. */
  ghost predicate Relaxed(g: Cfg, start: nat, ps: seq<Path>, depth: seq<nat>, m: nat) {
    && TracesAreWalks(g, start, ps) && m <= |ps| && |depth| == |g|
    && Witnessed(g, start, depth)
    && IsNode(g, start) && depth[start] >= 1
    && DeepUpTo(ps, depth, m)
  }

  /** The same in the middle of path `m`: `d` is one more than the depth of the node before. */
  ghost predicate Relaxing(g: Cfg, start: nat, ps: seq<Path>, depth: seq<nat>, m: nat, k: nat, d: nat) {
    && Relaxed(g, start, ps, depth, m) && m < |ps| && k <= |ps[m].nodes|
    && (forall j :: 0 <= j < k ==> DeepEnough(ps, depth, m, j))
    && (m == 0 && k == 0 ==> d == 1)
    && (k < |ps[m].nodes| && (m > 0 || k > 0) ==>
          Before(ps, m, k) < |depth| && d == depth[Before(ps, m, k)] + 1)
  }

  lemma RelaxBranch(g: Cfg, start: nat, ps: seq<Path>, depth: seq<nat>, m: nat, d: nat)
    requires Relaxed(g, start, ps, depth, m) && m < |ps|
    requires m == 0 ==> d == 1
    requires m > 0 ==> Before(ps, m, 0) < |depth| && d == depth[Before(ps, m, 0)] + 1
    ensures Relaxing(g, start, ps, depth, m, 0, d)
  {
  }

  /** Relaxing one edge. */
  lemma RelaxStep(g: Cfg, start: nat, ps: seq<Path>, depth: seq<nat>, m: nat, k: nat, d: nat)
    requires Relaxing(g, start, ps, depth, m, k, d) && k < |ps[m].nodes|
    ensures var v := ps[m].nodes[k];
      v < |depth| && var depth' := if depth[v] < d then depth[v := d] else depth;
      Relaxing(g, start, ps, depth', m, k + 1, depth'[v] + 1)
  {
    hide Trace, FullTrace;
    var v := ps[m].nodes[k];
    StepEdge(g, start, ps, m, k);
    var depth' := if depth[v] < d then depth[v := d] else depth;
    if m > 0 || k > 0 {
      var u := Before(ps, m, k);
      if k > 0 {
        assert DeepEnough(ps, depth, m, k - 1);
      } else {
        assert DeepEnough(ps, depth, ps[m].prev, ps[m].prevIndex);
        BranchTrace(ps, m);
      }
      assert depth[u] >= |Trace(ps, m, k)|;
      if depth[v] < d {
        PositiveDepth(g, start, ps, depth, m, k);
        DeepenWitnessed(g, start, depth, u, v);
      }
    }
    DeeperKeeps(ps, depth, depth', m);
    forall j | 0 <= j < k + 1 ensures DeepEnough(ps, depth', m, j) {
      if j < k { assert DeepEnough(ps, depth, m, j); }
    }
  }

  lemma BranchTrace(ps: seq<Path>, m: nat)
    requires ValidTable(ps) && 0 < m < |ps|
    ensures Trace(ps, m, 0) == Trace(ps, ps[m].prev, ps[m].prevIndex + 1)
  {
  }

  lemma PositiveDepth(g: Cfg, start: nat, ps: seq<Path>, depth: seq<nat>, m: nat, k: nat)
    requires ValidTable(ps) && m < |ps| && k < |ps[m].nodes| && (m > 0 || k > 0)
    ensures |Trace(ps, m, k)| > 0
  {
    if k == 0 {
      BranchTrace(ps, m);
      TraceSnoc(ps, ps[m].prev, ps[m].prevIndex);
    } else {
      TraceSnoc(ps, m, k - 1);
    }
  }

  ghost predicate NodesInside(ps: seq<Path>, size: nat) {
    forall p, k :: 0 <= p < |ps| && 0 <= k < |ps[p].nodes| ==> ps[p].nodes[k] < size
  }

  /** One pass over all paths, loop paths skipped. Without loop paths every depth is the length
      of a walk, and no node is shallower than any of its places on a trace. */
  method BuildControlFlowDepth(f: FunctionCfg, ghost start: nat)
    requires f.Shaped() && ValidTable(f.paths) && f.paths != [] && NodesInside(f.paths, |f.succ|)
    requires forall n :: 0 <= n < |f.succ| ==> f.depth[n] == 0
    modifies f`depth
    ensures f.Shaped()
    ensures NoLoops(f.paths) && TracesAreWalks(f.succ, start, f.paths) ==>
      Relaxed(f.succ, start, f.paths, f.depth, |f.paths|)
  {
    hide Trace, FullTrace, TracesAreWalks, Relaxed, Relaxing;
    ghost var plain := NoLoops(f.paths) && TracesAreWalks(f.succ, start, f.paths);
    var first := f.paths[0].nodes[0];
    f.depth := f.depth[first := 1];
    if plain {
      FirstDepth(f.succ, start, f.paths, f.depth);
    }
    for m := 0 to |f.paths|
      invariant f.Shaped()
      invariant plain ==> Relaxed(f.succ, start, f.paths, f.depth, m)
    {
      if !f.paths[m].isLoop {
        var d: nat;
        if m == 0 {
          d := 1;
        } else {
          d := f.depth[f.paths[f.paths[m].prev].nodes[f.paths[m].prevIndex]] + 1;
        }
        if plain {
          RelaxBranch(f.succ, start, f.paths, f.depth, m, d);
        }
        for n := 0 to |f.paths[m].nodes|
          invariant f.Shaped()
          invariant plain ==> Relaxing(f.succ, start, f.paths, f.depth, m, n, d)
        {
          if plain {
            RelaxStep(f.succ, start, f.paths, f.depth, m, n, d);
          }
          var node := f.paths[m].nodes[n];
          if f.depth[node] < d {
            f.depth := f.depth[node := d];
            d := d + 1;
          } else {
            d := f.depth[node] + 1;
          }
        }
        if plain {
          RelaxedPath(f.succ, start, f.paths, f.depth, m, d);
        }
      }
    }
  }

  lemma FirstDepth(g: Cfg, start: nat, ps: seq<Path>, depth: seq<nat>)
    requires TracesAreWalks(g, start, ps) && ps != [] && |depth| == |g| && ps[0].nodes[0] < |g|
    requires depth[ps[0].nodes[0]] == 1 && forall n :: 0 <= n < |g| && n != ps[0].nodes[0] ==> depth[n] == 0
    ensures Relaxed(g, start, ps, depth, 0)
  {
    StepEdge(g, start, ps, 0, 0);
    assert WalkBetween(g, [start], start, start) && |[start]| == 1;
    assert HasWalkTo(g, start, start, 1);
  }

  lemma RelaxedPath(g: Cfg, start: nat, ps: seq<Path>, depth: seq<nat>, m: nat, d: nat)
    requires m < |ps| && Relaxing(g, start, ps, depth, m, |ps[m].nodes|, d)
    ensures Relaxed(g, start, ps, depth, m + 1)
  {
  }

  // ----- The depths of an acyclic graph

  /** Every node of a trace lies in the segment of some path, at the same distance from the entry. */
  lemma {:induction false} LocateInTrace(ps: seq<Path>, p: nat, k: nat, i: nat) returns (q: nat, j: nat)
    requires ValidTable(ps) && p < |ps| && k <= |ps[p].nodes| && i < |Trace(ps, p, k)|
    ensures q < |ps| && j < |ps[q].nodes|
    ensures ps[q].nodes[j] == Trace(ps, p, k)[i] && |Trace(ps, q, j + 1)| == i + 1
    decreases p, k
  {
    StepBackTrace(ps, p, k);
    if k > 0 {
      if i == |Trace(ps, p, k - 1)| {
        q, j := p, k - 1;
      } else {
        q, j := LocateInTrace(ps, p, k - 1, i);
      }
    } else {
      BranchTrace(ps, p);
      q, j := LocateInTrace(ps, ps[p].prev, ps[p].prevIndex + 1, i);
    }
  }

  /** On an acyclic graph every reachable node ends up with the length of the longest walk to it. */
  lemma DepthIsLongest(g: Cfg, start: nat, ps: seq<Path>, depth: seq<nat>, n: nat)
    requires WellFormed(g) && Acyclic(g) && ExactTable(g, start, ps)
    requires Relaxed(g, start, ps, depth, |ps|)
    requires Reaches(g, start, n)
    ensures n < |depth| && IsLongestTo(g, start, n, depth[n])
  {
    hide Acyclic, Trace, TracesAreWalks;
    forall a | WalkBetween(g, a, start, n) ensures n < |depth| && |a| <= depth[n] {
      WalkNodes(g, a);
      var x := ExtendToExit(g, start, a);
      var p :| 0 <= p < |ps| && FullTrace(ps, p) == a + x[1..];
      var q, j := LocateInTrace(ps, p, |ps[p].nodes|, |a| - 1);
      assert DeepEnough(ps, depth, q, j);
    }
    var a :| WalkBetween(g, a, start, n);
    assert depth[n] > 0;
  }

  /** Without cycles there are no loop paths. */
  lemma AcyclicTable(g: Cfg, start: nat, ps: seq<Path>)
    requires Acyclic(g) && ExactTable(g, start, ps)
    ensures NoLoops(ps) && TracesAreWalks(g, start, ps)
  {
    hide Acyclic, FullTrace, Loops;
    forall p | 0 <= p < |ps| ensures !ps[p].isLoop && IsWalk(g, FullTrace(ps, p)) && FullTrace(ps, p)[0] == start {
      assert Finished(g, start, ps, p);
      AcyclicStopped(g, start, FullTrace(ps, p));
    }
  }

  /** The pass on the exact table of an acyclic function: every reachable node gets the node count of
      the longest walk from the entry to it. */
  method LongestDepths(f: FunctionCfg, ghost start: nat)
    requires f.Shaped() && IsNode(f.succ, start) && Acyclic(f.succ) && ExactTable(f.succ, start, f.paths)
    requires forall n :: 0 <= n < |f.succ| ==> f.depth[n] == 0
    modifies f`depth
    ensures f.Shaped()
    ensures forall n: nat :: Reaches(f.succ, start, n) ==> n < |f.depth| && IsLongestTo(f.succ, start, n, f.depth[n])
  {
    hide Acyclic, ExactTable, TracesAreWalks, Relaxed, IsLongestTo, Reaches, NoLoops;
    AcyclicTable(f.succ, start, f.paths);
    TableNodes(f.succ, start, f.paths);
    BuildControlFlowDepth(f, start);
    forall n: nat | Reaches(f.succ, start, n) ensures n < |f.depth| && IsLongestTo(f.succ, start, n, f.depth[n]) {
      DepthIsLongest(f.succ, start, f.paths, f.depth, n);
    }
  }

  /** An exact table has a first path, and all its nodes are nodes of the graph. */
  lemma TableNodes(g: Cfg, start: nat, ps: seq<Path>)
    requires WellFormed(g) && IsNode(g, start) && ExactTable(g, start, ps)
    ensures ValidTable(ps) && ps != [] && NodesInside(ps, |g|)
  {
    hide Trace, FullTrace;
    assert Front([start]) == [];
    var w := ExtendsToStopped(g, start, [start]);
    forall p, k | 0 <= p < |ps| && 0 <= k < |ps[p].nodes| ensures ps[p].nodes[k] < |g| {
      assert Finished(g, start, ps, p);
      WalkNodes(g, FullTrace(ps, p));
      OwnNode(ps, p, k);
    }
  }

  lemma OwnNode(ps: seq<Path>, p: nat, k: nat)
    requires ValidTable(ps) && p < |ps| && k < |ps[p].nodes|
    ensures ps[p].nodes[k] in FullTrace(ps, p)
  {
    var own := ps[p].nodes;
    assert own[..|own|] == own;
    assert own[k] in own;
  }
}
