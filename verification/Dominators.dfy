/** `build_node_dominance`: dominators read off the path lists. */
module Dominators {
  import opened Graph
  import opened PathTable
  import opened PathBuilder
  import opened FunctionTables
  import opened LoopEdges
  import opened NodePaths

  // ----- What the subset test on path lists means

  ghost predicate ExitTrace(g: Cfg, start: nat, w: seq<nat>) {
    Stopped(g, start, w) && !Loops(w)
  }

  /** Every trace to an exit that visits `n` also visits `b`. */
  ghost predicate OnEveryTrace(g: Cfg, start: nat, n: nat, b: nat) {
    forall w :: ExitTrace(g, start, w) && n in w ==> b in w
  }

  /** The tables of a function whose paths have all been enumerated and listed. */
  ghost predicate Analysed(f: FunctionCfg, start: nat)
    reads f
  {
    && f.Shaped()
    && IsNode(f.succ, start)
    && ExactTable(f.succ, start, f.paths)
    && ExactMarks(f.succ, start, f.loopEdge, f.loopHead)
    && ExactLists(f)
  }

  lemma CoverMeaning(f: FunctionCfg, start: nat, n: nat, b: nat)
    requires Analysed(f, start) && n < |f.succ| && b < |f.succ|
    ensures ScanSubset(f.nodePaths[n], f.nodePaths[b]) <==> OnEveryTrace(f.succ, start, n, b)
  {
    hide FullTrace, Stopped, Loops, ExactMarks, ScanSubset, ValidTable;
    var ps := f.paths;
    PathsThroughExact(ps, false, n, |ps|);
    PathsThroughExact(ps, false, b, |ps|);
    IncreasingSubset(f.nodePaths[n], f.nodePaths[b]);
    if ScanSubset(f.nodePaths[n], f.nodePaths[b]) {
      forall w | ExitTrace(f.succ, start, w) && n in w ensures b in w {
        var p :| 0 <= p < |ps| && FullTrace(ps, p) == w;
        assert Finished(f.succ, start, ps, p);
        assert p in f.nodePaths[n];
      }
    }
    if OnEveryTrace(f.succ, start, n, b) {
      forall p | p in f.nodePaths[n] ensures p in f.nodePaths[b] {
        assert Finished(f.succ, start, ps, p);
        assert ExitTrace(f.succ, start, FullTrace(ps, p));
      }
    }
  }

  // ----- The predecessor walk

  ghost predicate LinkTables(g: Cfg, prev: seq<seq<PrevLink>>, e: seq<seq<bool>>) {
    WellFormed(g) && MutualLinks(g, prev) && |e| == |g| && forall n :: 0 <= n < |g| ==> |e[n]| == |g[n]|
  }

  /** The first predecessor over a link that is not a loop edge, 0 if there is none. */
  ghost function FirstPrev(g: Cfg, prev: seq<seq<PrevLink>>, e: seq<seq<bool>>, n: nat, m: nat): (p: nat)
    requires LinkTables(g, prev, e) && n < |g| && m <= |prev[n]|
    decreases |prev[n]| - m
  {
    if m == |prev[n]| then 0
    else if prev[n][m].node != 0 && Unlooped(g, prev, e, n, m) then prev[n][m].node
    else FirstPrev(g, prev, e, n, m + 1)
  }

  ghost predicate Unlooped(g: Cfg, prev: seq<seq<PrevLink>>, e: seq<seq<bool>>, n: nat, m: nat)
    requires LinkTables(g, prev, e) && n < |g| && m < |prev[n]| && prev[n][m].node != 0
  {
    assert IsLink(g, prev[n][m], n);
    !e[prev[n][m].node][prev[n][m].link]
  }

  /** A walk in which every node is the predecessor that the pass chooses for the next one. */
  ghost predicate PrevWalk(g: Cfg, prev: seq<seq<PrevLink>>, e: seq<seq<bool>>, w: seq<nat>)
    requires LinkTables(g, prev, e)
  {
    && w != []
    && (forall i :: 0 <= i < |w| ==> IsNode(g, w[i]))
    && forall i, j :: 0 <= i && j == i + 1 && j < |w| ==> w[i] == FirstPrev(g, prev, e, w[j], 0)
  }

  /** What the pass records for `n`: the predecessor walk back from `n` skips the nodes that some
      exit trace through `n` avoids, and ends at `d`, or at a node without predecessor. */
  ghost predicate DominatorFound(g: Cfg, prev: seq<seq<PrevLink>>, e: seq<seq<bool>>, start: nat, n: nat, d: nat)
    requires LinkTables(g, prev, e)
  {
    exists w :: PrevWalk(g, prev, e, w) && Last(w) == n && Skips(g, start, n, Front(w))
      && FirstPrev(g, prev, e, w[0], 0) == d && (d != 0 ==> OnEveryTrace(g, start, n, d))
  }

  ghost predicate Skips(g: Cfg, start: nat, n: nat, c: seq<nat>) {
    forall i :: 0 <= i < |c| ==> !OnEveryTrace(g, start, n, c[i])
  }

  lemma {:induction false} FirstPrevEdge(g: Cfg, prev: seq<seq<PrevLink>>, e: seq<seq<bool>>, h: seq<bool>,
                                         start: nat, n: nat, m: nat)
    requires LinkTables(g, prev, e) && ExactMarks(g, start, e, h)
    requires n < |g| && m <= |prev[n]|
    ensures var p := FirstPrev(g, prev, e, n, m); p != 0 ==> UnmarkedEdge(g, start, p, n)
    decreases |prev[n]| - m
  {
    if m < |prev[n]| {
      if prev[n][m].node != 0 && Unlooped(g, prev, e, n, m) {
        assert IsLink(g, prev[n][m], n);
      } else {
        FirstPrevEdge(g, prev, e, h, start, n, m + 1);
      }
    }
  }

  /** Without a chosen predecessor no unmarked link enters the node. */
  lemma {:induction false} NoFirstPrev(g: Cfg, prev: seq<seq<PrevLink>>, e: seq<seq<bool>>, n: nat, m: nat, k: nat)
    requires LinkTables(g, prev, e) && n < |g| && m <= k < |prev[n]| && FirstPrev(g, prev, e, n, m) == 0
    ensures prev[n][k].node != 0 ==> !Unlooped(g, prev, e, n, k)
    decreases |prev[n]| - m
  {
    if m < k {
      NoFirstPrev(g, prev, e, n, m + 1, k);
    }
  }

  lemma PrevWalkIsUnmarked(g: Cfg, prev: seq<seq<PrevLink>>, e: seq<seq<bool>>, h: seq<bool>, start: nat, w: seq<nat>)
    requires LinkTables(g, prev, e) && ExactMarks(g, start, e, h) && PrevWalk(g, prev, e, w)
    ensures UnmarkedWalk(g, start, w)
  {
    forall i, j | 0 <= i && j == i + 1 && j < |w| ensures UnmarkedEdge(g, start, w[i], w[j]) {
      FirstPrevEdge(g, prev, e, h, start, w[j], 0);
    }
  }

  /** The walk never repeats a node, so it ends. */
  lemma PrevWalkBound(g: Cfg, prev: seq<seq<PrevLink>>, e: seq<seq<bool>>, h: seq<bool>, start: nat, w: seq<nat>)
    requires LinkTables(g, prev, e) && ExactMarks(g, start, e, h) && PrevWalk(g, prev, e, w)
    requires AllReachable(g, start)
    ensures |w| < |g|
  {
    PrevWalkIsUnmarked(g, prev, e, h, start, w);
    UnmarkedIsAcyclic(g, start, w);
    SimpleWalkBound(g, w);
  }

  /** The loop that picks the predecessor to follow. */
  method ChoosePrev(f: FunctionCfg, n: nat) returns (p: nat)
    requires f.Shaped() && n < |f.succ|
    ensures p == FirstPrev(f.succ, f.prev, f.loopEdge, n, 0)
  {
    for m := 0 to |f.prev[n]|
      invariant FirstPrev(f.succ, f.prev, f.loopEdge, n, 0) == FirstPrev(f.succ, f.prev, f.loopEdge, n, m)
    {
      var link := f.prev[n][m];
      if link.node == 0 {
        continue;
      }
      assert IsLink(f.succ, link, n);
      if !f.loopEdge[link.node][link.link] {
        return link.node;
      }
    }
    return 0;
  }

  method BuildNodeDominance(f: FunctionCfg, ghost start: nat)
    requires Analysed(f, start) && AllReachable(f.succ, start)
    requires forall n :: 0 <= n < |f.succ| ==> f.dominator[n] == 0
    modifies f`dominator
    ensures Analysed(f, start)
    ensures forall n :: 1 <= n < |f.succ| ==> DominatorFound(f.succ, f.prev, f.loopEdge, start, n, f.dominator[n])
    ensures forall n :: 1 <= n < |f.succ| && f.dominator[n] != 0 ==> OnEveryTrace(f.succ, start, n, f.dominator[n])
  {
    hide ExactTable, ExactMarks, ListsUpTo, OnEveryTrace, AllReachable, FirstPrev, DominatorFound;
    for n := 1 to |f.succ|
      invariant Analysed(f, start)
      invariant forall k :: n <= k < |f.succ| ==> f.dominator[k] == 0
      invariant forall k :: 1 <= k < n ==> DominatorFound(f.succ, f.prev, f.loopEdge, start, k, f.dominator[k])
    {
      var d := FindDominator(f, n, start);
      f.dominator := f.dominator[n := d];
    }
    forall n | 1 <= n < |f.succ| && f.dominator[n] != 0 ensures OnEveryTrace(f.succ, start, n, f.dominator[n]) {
      RecordedCovers(f.succ, f.prev, f.loopEdge, start, n, f.dominator[n]);
    }
  }

  /** The inner loop of the pass. */
  method FindDominator(f: FunctionCfg, n: nat, ghost start: nat) returns (d: nat)
    requires Analysed(f, start) && AllReachable(f.succ, start) && IsNode(f.succ, n)
    ensures DominatorFound(f.succ, f.prev, f.loopEdge, start, n, d)
  {
    hide ExactTable, ExactMarks, ExactLists, OnEveryTrace, AllReachable, FirstPrev;
    var b := n;
    ghost var w := [n];
    while true
      invariant PrevWalk(f.succ, f.prev, f.loopEdge, w) && Last(w) == n && w[0] == b
      invariant Skips(f.succ, start, n, Front(w))
      decreases |f.succ| - |w|
    {
      PrevWalkBound(f.succ, f.prev, f.loopEdge, f.loopHead, start, w);
      FirstPrevEdge(f.succ, f.prev, f.loopEdge, f.loopHead, start, b, 0);
      b := ChoosePrev(f, b);
      if b == 0 {
        return 0;
      }
      var covered := IsSubset(f.nodePaths[n], f.nodePaths[b]);
      CoverMeaning(f, start, n, b);
      if covered != 0 {
        return b;
      }
      w := [b] + w;
    }
  }

  // ----- The recorded dominators

  lemma RecordedCovers(g: Cfg, prev: seq<seq<PrevLink>>, e: seq<seq<bool>>, start: nat, n: nat, d: nat)
    requires LinkTables(g, prev, e) && DominatorFound(g, prev, e, start, n, d) && d != 0
    ensures OnEveryTrace(g, start, n, d)
  {
  }

  ghost predicate Dominates(g: Cfg, start: nat, d: nat, n: nat) {
    forall w :: WalkBetween(g, w, start, n) ==> d in w
  }

  /** The strict dominator that every other strict dominator dominates. */
  ghost predicate IsImmediateDominator(g: Cfg, start: nat, d: nat, n: nat) {
    && d != n
    && Dominates(g, start, d, n)
    && forall c: nat :: c != n && Dominates(g, start, c, n) ==> Dominates(g, start, c, d)
  }

  /** Two nodes of an acyclic graph do not reach each other. */
  lemma NoMutualReach(g: Cfg, a: seq<nat>, b: seq<nat>)
    requires Acyclic(g) && IsWalk(g, a) && IsWalk(g, b) && Last(a) == b[0] && Last(b) == a[0]
    ensures |a| == 1 && |b| == 1
  {
    JoinWalks(g, a, b);
    assert |a + b[1..]| == |a| + |b| - 1;
  }

  /** A walk to `n` goes on to an exit. */
  lemma ExtendToExit(g: Cfg, start: nat, w: seq<nat>) returns (x: seq<nat>)
    requires WellFormed(g) && Acyclic(g) && IsWalk(g, w) && w[0] == start
    ensures IsWalk(g, x) && x[0] == Last(w) && ExitTrace(g, start, w + x[1..])
  {
    WalkNodes(g, w);
    x := WalkToExit(g, Last(w));
    JoinWalks(g, w, x);
    AcyclicStopped(g, start, w + x[1..]);
  }

  /** For a node that reaches `n`, being on every exit trace through `n` is dominating `n`. */
  lemma CoverIsDominance(g: Cfg, start: nat, b: nat, n: nat, c: seq<nat>)
    requires WellFormed(g) && Acyclic(g) && WalkBetween(g, c, b, n)
    ensures OnEveryTrace(g, start, n, b) <==> Dominates(g, start, b, n)
  {
    if OnEveryTrace(g, start, n, b) {
      forall w | WalkBetween(g, w, start, n) ensures b in w {
        var x := ExtendToExit(g, start, w);
        assert (w + x[1..])[|w| - 1] == n;
        assert b in w + x[1..];
        if b !in w {
          var k :| 0 <= k < |x[1..]| && x[1..][k] == b;
          SubWalk(g, x, 0, k + 2);
          NoMutualReach(g, x[0..k + 2], c);
          assert false;
        }
      }
    }
    if Dominates(g, start, b, n) {
      forall w | ExitTrace(g, start, w) && n in w ensures b in w {
        var k :| 0 <= k < |w| && w[k] == n;
        SubWalk(g, w, 0, k + 1);
        assert WalkBetween(g, w[0..k + 1], start, n);
      }
    }
  }

  /** Only the entry has no predecessor to follow. */
  lemma RootIsStart(g: Cfg, prev: seq<seq<PrevLink>>, e: seq<seq<bool>>, h: seq<bool>, start: nat, n: nat)
    requires LinkTables(g, prev, e) && ExactMarks(g, start, e, h) && AllReachable(g, start) && Acyclic(g)
    requires IsNode(g, n) && FirstPrev(g, prev, e, n, 0) == 0
    ensures n == start
  {
    var w :| WalkBetween(g, w, start, n);
    if |w| > 1 {
      var u := w[|w| - 2];
      assert Edge(g, u, n);
      var i :| 0 <= i < |g[u]| && g[u][i] == n;
      var k :| 0 <= k < |prev[n]| && prev[n][k] == PrevLink(u, i);
      NoFirstPrev(g, prev, e, n, 0, k);
      AcyclicHasNoBackEdge(g, start, u, n);
      assert false;
    }
  }

  /** The skipped part of the predecessor walk, continued by an arbitrary walk to `d`. */
  lemma DominatorBeforeSkipped(g: Cfg, start: nat, c: nat, d: nat, n: nat, w: seq<nat>)
    requires WellFormed(g) && Acyclic(g) && WalkBetween(g, w, d, n) && |w| > 1
    requires Skips(g, start, n, Front(w)[1..])
    requires c != n && Dominates(g, start, c, n)
    ensures Dominates(g, start, c, d)
  {
    hide Acyclic, OnEveryTrace, WellFormed;
    forall a | WalkBetween(g, a, start, d) ensures c in a {
      JoinWalks(g, a, w);
      assert WalkBetween(g, a + w[1..], start, n);
      assert c in a + w[1..];
      if c !in a {
        var k :| 0 <= k < |w[1..]| && w[1..][k] == c;
        SubWalk(g, w, k + 1, |w|);
        CoverIsDominance(g, start, c, n, w[k + 1..|w|]);
        assert false;
      }
    }
  }

  /** The walk from the recorded dominator: `d`, then the skipped nodes, then `n`. */
  lemma SkippedWalkImmediate(g: Cfg, start: nat, n: nat, d: nat, w: seq<nat>)
    requires WellFormed(g) && Acyclic(g) && IsWalk(g, w) && Last(w) == n && Skips(g, start, n, Front(w))
    requires Edge(g, d, w[0]) && OnEveryTrace(g, start, n, d)
    ensures IsImmediateDominator(g, start, d, n)
  {
    hide Acyclic, OnEveryTrace, Dominates;
    var x := [d] + w;
    assert IsWalk(g, x);
    assert Last(x) == n;
    CoverIsDominance(g, start, d, n, x);
    AcyclicWalkIsSimple(g, x);
    assert x[0] != x[|x| - 1];
    assert Front(x)[1..] == Front(w);
    forall c: nat | c != n && Dominates(g, start, c, n) ensures Dominates(g, start, c, d) {
      DominatorBeforeSkipped(g, start, c, d, n, x);
    }
  }

  /** On an acyclic graph with all nodes reachable the pass finds the immediate dominator. */
  lemma FoundIsImmediate(g: Cfg, prev: seq<seq<PrevLink>>, e: seq<seq<bool>>, h: seq<bool>, start: nat, n: nat, d: nat)
    requires LinkTables(g, prev, e) && ExactMarks(g, start, e, h) && AllReachable(g, start) && Acyclic(g)
    requires IsNode(g, start) && IsNode(g, n) && n != start && DominatorFound(g, prev, e, start, n, d)
    ensures IsImmediateDominator(g, start, d, n)
  {
    hide AllReachable, Acyclic, ExactMarks, FirstPrev, OnEveryTrace, Dominates;
    var w :| PrevWalk(g, prev, e, w) && Last(w) == n && Skips(g, start, n, Front(w))
      && FirstPrev(g, prev, e, w[0], 0) == d && (d != 0 ==> OnEveryTrace(g, start, n, d));
    PrevWalkIsUnmarked(g, prev, e, h, start, w);
    if d == 0 {
      RootIsStart(g, prev, e, h, start, w[0]);
      StartIsSkipped(g, start, n, w);
      assert false;
    }
    FirstPrevEdge(g, prev, e, h, start, w[0], 0);
    SkippedWalkImmediate(g, start, n, d, w);
  }

  /** The entry dominates everything, so the predecessor walk cannot run past it. */
  lemma StartIsSkipped(g: Cfg, start: nat, n: nat, w: seq<nat>)
    requires WellFormed(g) && Acyclic(g) && WalkBetween(g, w, start, n) && n != start
    ensures !Skips(g, start, n, Front(w))
  {
    CoverIsDominance(g, start, start, n, w);
    assert Front(w)[0] == start;
  }
}
