/** `build_node_if_tail`: where the branches of a node come together again. */
module IfTails {
  import opened Graph
  import opened PathTable
  import opened PathBuilder
  import opened FunctionTables
  import opened LoopEdges
  import opened NodePaths
  import opened Dominators

  // ----- What the pass looks for

  /** Every walk from `n` to an exit visits `d`. */
  ghost predicate PostDominates(g: Cfg, d: nat, n: nat) {
    forall w :: IsWalk(g, w) && w[0] == n && IsExit(g, Last(w)) ==> d in w
  }

  /** The strict post-dominator that every other strict post-dominator post-dominates. */
  ghost predicate IsImmediatePostDominator(g: Cfg, d: nat, n: nat) {
    && d != n
    && PostDominates(g, d, n)
    && forall c: nat :: c != n && PostDominates(g, c, n) ==> PostDominates(g, c, d)
  }

  /** The immediate post-dominator, or 0 when the branches never rejoin. */
  ghost predicate IsIfTail(g: Cfg, n: nat, d: nat) {
    if d == 0 then forall c: nat :: c != n ==> !PostDominates(g, c, n)
    else IsNode(g, d) && IsImmediatePostDominator(g, d, n)
  }

  /** What the pass records for `n`: following a walk from `n`, it skips the nodes that some exit
      trace through `n` avoids and ends at `d`, or (0) at the end of the walk. */
  ghost predicate TailFound(g: Cfg, start: nat, n: nat, d: nat) {
    if d == 0 then exists x :: FollowedToExit(g, start, n, x)
    else exists x :: FollowedTo(g, start, n, x, d)
  }

  ghost predicate FollowedToExit(g: Cfg, start: nat, n: nat, x: seq<nat>) {
    IsWalk(g, x) && x[0] == n && IsExit(g, Last(x)) && Skips(g, start, n, x[1..])
  }

  ghost predicate FollowedTo(g: Cfg, start: nat, n: nat, x: seq<nat>, d: nat) {
    IsWalk(g, x) && x[0] == n && Edge(g, Last(x), d) && Skips(g, start, n, x[1..]) && OnEveryTrace(g, start, n, d)
  }

  // ----- The pass

  const COUNT_LIMIT: nat := 1000

  /** Two different paths touch the node: the pass follows the first of them. */
  ghost predicate FollowsPath(f: FunctionCfg, n: nat)
    requires f.Shaped() && n < |f.succ|
    reads f
  {
    |f.nodePaths[n]| >= 2
  }

  /** The first path that touches `n` is an exit trace through `n`. */
  lemma FirstPathTrace(f: FunctionCfg, start: nat, n: nat) returns (k: nat)
    requires Analysed(f, start) && n < |f.succ| && f.nodePaths[n] != []
    ensures f.nodePaths[n][0] < |f.paths|
    ensures var w := FullTrace(f.paths, f.nodePaths[n][0]);
      ExitTrace(f.succ, start, w) && Simple(w) && k < |w| && w[k] == n
  {
    hide FullTrace, ExactMarks;
    PathsThroughExact(f.paths, false, n, |f.paths|);
    var p := f.nodePaths[n][0];
    assert p in f.nodePaths[n];
    assert Finished(f.succ, start, f.paths, p);
    var w := FullTrace(f.paths, p);
    NoRepeatIsSimple(w);
    k :| 0 <= k < |w| && w[k] == n;
  }

  lemma TailAtNode(g: Cfg, start: nat, n: nat, w: seq<nat>, k0: nat, k: nat)
    requires ExitTrace(g, start, w) && k0 <= k && k + 1 < |w| && w[k0] == n
    requires Skips(g, start, n, w[k0 + 1..k + 1]) && OnEveryTrace(g, start, n, w[k + 1])
    ensures TailFound(g, start, n, w[k + 1])
  {
    SubWalk(g, w, k0, k + 1);
    var x := w[k0..k + 1];
    assert Edge(g, w[k], w[k + 1]);
    assert x[1..] == w[k0 + 1..k + 1];
    assert FollowedTo(g, start, n, x, w[k + 1]);
  }

  lemma TailAtEnd(g: Cfg, start: nat, n: nat, w: seq<nat>, k0: nat)
    requires ExitTrace(g, start, w) && k0 < |w| && w[k0] == n
    requires Skips(g, start, n, w[k0 + 1..|w|])
    ensures TailFound(g, start, n, 0)
  {
    SubWalk(g, w, k0, |w|);
    var x := w[k0..|w|];
    assert x[1..] == w[k0 + 1..|w|];
    assert FollowedToExit(g, start, n, x);
  }

  lemma SimpleTraceBound(g: Cfg, start: nat, w: seq<nat>)
    requires ExitTrace(g, start, w) && Simple(w)
    ensures |w| < |g|
  {
    WalkNodes(g, w);
    SimpleWalkBound(g, w);
  }

  /** The forward scan along the first path. */
  method FindIfTail(f: FunctionCfg, n: nat, count0: nat, ghost start: nat) returns (d: nat, count: nat, failed: bool)
    requires Analysed(f, start) && IsNode(f.succ, n) && FollowsPath(f, n) && count0 <= COUNT_LIMIT
    ensures !failed ==> TailFound(f.succ, start, n, d)
    ensures count0 <= count <= count0 + |f.succ| && (failed <==> count > 1000)
  {
    hide FullTrace, ExactMarks, ExactTable, ListsUpTo, OnEveryTrace, TailFound, WellFormed, MutualLinks, ScanSubset;
    count := count0;
    var path := f.nodePaths[n][0];
    ghost var k0 := FirstPathTrace(f, start, n);
    ghost var w := FullTrace(f.paths, path);
    ghost var k := k0;
    var b := n;
    assert |w| < |f.succ| by { SimpleTraceBound(f.succ, start, w); }
    while true
      invariant count0 <= count <= COUNT_LIMIT && count - count0 == k - k0
      invariant k0 <= k < |w| && w[k] == b
      invariant Skips(f.succ, start, n, w[k0 + 1..k + 1])
      decreases |w| - k
    {
      var _, index := FindNodeInPath(f.paths, path, b);
      var found, next := FindNodeAtIndexInPath(f.paths, path, index + 1);
      if !found {
        TailAtEnd(f.succ, start, n, w, k0);
        return 0, count, false;
      }
      b := next;
      var covered := IsSubset(f.nodePaths[n], f.nodePaths[b]);
      CoverMeaning(f, start, n, b);
      count := count + 1;
      if count > COUNT_LIMIT {
        return 0, count, true;
      }
      if covered != 0 {
        TailAtNode(f.succ, start, n, w, k0, k);
        return b, count, false;
      }
      assert w[k0 + 1..k + 2] == w[k0 + 1..k + 1] + [w[k + 1]];
      k := k + 1;
    }
  }

  /** At most one step for each node, for each of `n` branches. */
  ghost function Steps(n: nat, size: nat): (k: nat) {
    n * size
  }

  lemma {:induction false} NotLess(m: nat, n: nat, size: nat)
    requires m <= n
    ensures m * size <= n * size
    decreases n - m
  {
    if m < n {
      NotLess(m + 1, n, size);
      assert (m + 1) * size == m * size + size;
    }
  }

  lemma MoreSteps(n: nat, size: nat)
    ensures Steps(n + 1, size) == Steps(n, size) + size
    ensures n < size ==> Steps(n + 1, size) <= size * size
  {
    assert (n + 1) * size == n * size + size;
    if n < size {
      NotLess(n + 1, size, size);
    }
  }

  /** The pass over all branch nodes; `failed` stands for the exit on too many steps. */
  method BuildNodeIfTail(f: FunctionCfg, ghost start: nat) returns (failed: bool)
    requires Analysed(f, start)
    requires forall n :: 1 <= n < |f.succ| && |f.succ[n]| >= 2 ==> FollowsPath(f, n)
    requires forall n :: 0 <= n < |f.succ| ==> f.ifTail[n] == 0
    modifies f`ifTail
    ensures Analysed(f, start)
    ensures !failed ==> forall n :: 1 <= n < |f.succ| ==>
      if |f.succ[n]| >= 2 then TailFound(f.succ, start, n, f.ifTail[n]) else f.ifTail[n] == 0
    ensures failed ==> |f.succ| * |f.succ| > COUNT_LIMIT
  {
    hide FullTrace, ExactMarks, ExactTable, TailFound, WellFormed, MutualLinks, ListsUpTo, ValidTable, Steps;
    var count := 0;
    for n := 1 to |f.succ|
      invariant Analysed(f, start) && count <= COUNT_LIMIT && count <= Steps(n, |f.succ|)
      invariant forall k :: 1 <= k < |f.succ| && |f.succ[k]| >= 2 ==> FollowsPath(f, k)
      invariant forall k :: n <= k < |f.succ| ==> f.ifTail[k] == 0
      invariant forall k :: 1 <= k < n ==>
        if |f.succ[k]| >= 2 then TailFound(f.succ, start, k, f.ifTail[k]) else f.ifTail[k] == 0
    {
      MoreSteps(n, |f.succ|);
      if |f.succ[n]| < 2 {
        continue;
      }
      var d;
      d, count, failed := FindIfTail(f, n, count, start);
      if failed {
        return true;
      }
      f.ifTail := f.ifTail[n := d];
    }
    return false;
  }

  // ----- The recorded if-tails

  /** For a node that `n` reaches, being on every exit trace through `n` is post-dominating `n`. */
  lemma CoverIsPostDominance(g: Cfg, start: nat, b: nat, n: nat, a: seq<nat>, c: seq<nat>)
    requires WellFormed(g) && Acyclic(g) && WalkBetween(g, a, start, n) && WalkBetween(g, c, n, b)
    ensures OnEveryTrace(g, start, n, b) <==> PostDominates(g, b, n)
  {
    if OnEveryTrace(g, start, n, b) {
      forall x | IsWalk(g, x) && x[0] == n && IsExit(g, Last(x)) ensures b in x {
        JoinWalks(g, a, x);
        var w := a + x[1..];
        AcyclicStopped(g, start, w);
        assert w[|a| - 1] == n;
        assert b in w;
        if b !in x {
          assert forall i :: 0 <= i < |x[1..]| ==> x[1..][i] == x[i + 1];
          var k :| 0 <= k < |a| && a[k] == b;
          SubWalk(g, a, k, |a|);
          NoMutualReach(g, a[k..|a|], c);
          assert false;
        }
      }
    }
    if PostDominates(g, b, n) {
      forall w | ExitTrace(g, start, w) && n in w ensures b in w {
        var k :| 0 <= k < |w| && w[k] == n;
        SubWalk(g, w, k, |w|);
        assert b in w[k..|w|];
      }
    }
  }

  /** The skipped part of the walk, continued by an arbitrary walk from `d` to an exit. */
  lemma PostDominatorAfterSkipped(g: Cfg, start: nat, c: nat, d: nat, n: nat, a: seq<nat>, x: seq<nat>)
    requires WellFormed(g) && Acyclic(g) && WalkBetween(g, a, start, n)
    requires FollowedTo(g, start, n, x, d) && c != n && PostDominates(g, c, n)
    ensures PostDominates(g, c, d)
  {
    hide Acyclic, OnEveryTrace, WellFormed;
    forall z | IsWalk(g, z) && z[0] == d && IsExit(g, Last(z)) ensures c in z {
      OnTheRest(g, start, c, d, n, a, x, z);
    }
  }

  lemma OnTheRest(g: Cfg, start: nat, c: nat, d: nat, n: nat, a: seq<nat>, x: seq<nat>, z: seq<nat>)
    requires WellFormed(g) && Acyclic(g) && WalkBetween(g, a, start, n)
    requires FollowedTo(g, start, n, x, d) && c != n && PostDominates(g, c, n)
    requires IsWalk(g, z) && z[0] == d && IsExit(g, Last(z))
    ensures c in z
  {
    hide Acyclic, OnEveryTrace, WellFormed;
    ExtendWalk(g, x, d);
    JoinWalks(g, x + [d], z);
    assert (x + [d]) + z[1..] == x + z;
    assert c in x + z;
    if c !in z {
      var k :| 0 <= k < |x| && x[k] == c;
      SubWalk(g, x, 0, k + 1);
      CoverIsPostDominance(g, start, c, n, a, x[0..k + 1]);
      assert false;
    }
  }

  lemma FollowedIsImmediate(g: Cfg, start: nat, n: nat, d: nat, a: seq<nat>, x: seq<nat>)
    requires WellFormed(g) && Acyclic(g) && WalkBetween(g, a, start, n) && FollowedTo(g, start, n, x, d)
    ensures IsNode(g, d) && IsImmediatePostDominator(g, d, n)
  {
    hide Acyclic, OnEveryTrace, PostDominates;
    ExtendWalk(g, x, d);
    CoverIsPostDominance(g, start, d, n, a, x + [d]);
    AcyclicWalkIsSimple(g, x + [d]);
    assert (x + [d])[0] != (x + [d])[|x|];
    forall c: nat | c != n && PostDominates(g, c, n) ensures PostDominates(g, c, d) {
      PostDominatorAfterSkipped(g, start, c, d, n, a, x);
    }
  }

  lemma ExitFollowedHasNone(g: Cfg, start: nat, n: nat, a: seq<nat>, x: seq<nat>, c: nat)
    requires WellFormed(g) && Acyclic(g) && WalkBetween(g, a, start, n) && FollowedToExit(g, start, n, x)
    requires c != n
    ensures !PostDominates(g, c, n)
  {
    if c in x {
      var k :| 0 <= k < |x| && x[k] == c;
      SubWalk(g, x, 0, k + 1);
      CoverIsPostDominance(g, start, c, n, a, x[0..k + 1]);
      assert x[1..][k - 1] == c;
    }
  }

  /** On an acyclic graph the pass finds the immediate post-dominator, or 0 if there is none. */
  lemma FoundIsIfTail(g: Cfg, start: nat, n: nat, d: nat)
    requires WellFormed(g) && Acyclic(g) && IsNode(g, n) && Reaches(g, start, n)
    requires TailFound(g, start, n, d)
    ensures IsIfTail(g, n, d)
  {
    hide Acyclic, PostDominates;
    var a :| WalkBetween(g, a, start, n);
    if d == 0 {
      var x :| FollowedToExit(g, start, n, x);
      forall c: nat | c != n ensures !PostDominates(g, c, n) {
        ExitFollowedHasNone(g, start, n, a, x, c);
      }
    } else {
      var x :| FollowedTo(g, start, n, x, d);
      FollowedIsImmediate(g, start, n, d, a, x);
    }
  }

  lemma ForkDiffers(a: seq<nat>, u: nat, v: nat, w: seq<nat>)
    requires a + [u] <= w && a + [v] <= w
    ensures u == v
  {
    assert (a + [u])[|a|] == w[|a|] == (a + [v])[|a|];
  }

  /** In an acyclic graph two different paths touch every reachable branch node. */
  lemma BranchHasTwoPaths(f: FunctionCfg, start: nat, n: nat)
    requires Analysed(f, start) && Acyclic(f.succ) && IsNode(f.succ, n) && Reaches(f.succ, start, n)
    requires |f.succ[n]| >= 2
    ensures FollowsPath(f, n)
  {
    hide FullTrace, ExactMarks, ExactTable, ListsUpTo, Acyclic;
    var a :| WalkBetween(f.succ, a, start, n);
    var u, v := f.succ[n][0], f.succ[n][1];
    assert Edge(f.succ, n, u) && Edge(f.succ, n, v);
    var p := BranchPath(f, start, a, u);
    var q := BranchPath(f, start, a, v);
    if p == q {
      ForkDiffers(a, u, v, FullTrace(f.paths, p));
    }
    assert p != q && p in f.nodePaths[n] && q in f.nodePaths[n];
  }

  lemma BranchPath(f: FunctionCfg, start: nat, a: seq<nat>, v: nat) returns (p: nat)
    requires Analysed(f, start) && Acyclic(f.succ) && IsWalk(f.succ, a) && a[0] == start && Edge(f.succ, Last(a), v)
    ensures p < |f.paths| && p in f.nodePaths[Last(a)]
    ensures a + [v] <= FullTrace(f.paths, p)
  {
    hide FullTrace, ExactMarks;
    var g := f.succ;
    ExtendWalk(g, a, v);
    var x := ExtendToExit(g, start, a + [v]);
    var w := a + [v] + x[1..];
    p :| 0 <= p < |f.paths| && FullTrace(f.paths, p) == w;
    assert Finished(g, start, f.paths, p);
    assert w[|a| - 1] == Last(a);
    PathsThroughExact(f.paths, false, Last(a), |f.paths|);
    WalkNodes(g, a);
  }
}
