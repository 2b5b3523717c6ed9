/** What the marked links mean for the graph: they lie on cycles, and together they cut every
    cycle the entry can reach. */
module LoopEdges {
  import opened Graph
  import opened PathTable

  /** A marked link lies on a cycle. */
  lemma BackEdgeOnCycle(g: Cfg, start: nat, u: nat, v: nat)
    requires BackEdge(g, start, u, v)
    ensures exists w :: IsWalk(g, w) && |w| > 1 && w[0] == u && w[1] == v && Last(w) == u
  {
    var w :| WalkBetween(g, w, start, u) && Simple(w) && v in w;
    var k :| 0 <= k < |w| && w[k] == v;
    SubWalk(g, w, k, |w|);
    assert IsWalk(g, [u, v]);
    JoinWalks(g, [u, v], w[k..|w|]);
    var c := [u, v] + w[k..|w|][1..];
    assert IsWalk(g, c) && c[0] == u && c[1] == v;
  }

  lemma SimplePrefix(p: seq<nat>, x: seq<nat>, r: nat)
    requires Simple(p) && p <= x && FirstRepeat(x, r)
    ensures r >= |p|
  {
    var k :| 0 <= k < r && x[k] == x[r];
    assert forall i :: 0 <= i < |p| ==> p[i] == x[i];
    if r < |p| {
      assert false;
    }
  }

  /** Every cycle the entry can reach contains a marked link. */
  lemma CycleHasBackEdge(g: Cfg, start: nat, w: seq<nat>) returns (i: nat)
    requires IsWalk(g, w) && |w| > 1 && w[0] == Last(w) && Reaches(g, start, w[0])
    ensures i + 1 < |w| && BackEdge(g, start, w[i], w[i + 1])
  {
    var a :| WalkBetween(g, a, start, w[0]);
    var p := EraseLoops(g, a);
    JoinWalks(g, p, w);
    var x := p + w[1..];
    assert x[|p| - 1] == x[|x| - 1];
    var r := FindFirstRepeat(x);
    SimplePrefix(p, x, r);
    SubWalk(g, x, 0, r);
    assert x[0..r] == x[..r];
    assert WalkBetween(g, x[..r], start, x[r - 1]);
    assert Edge(g, x[r - 1], x[r]);
    i := r - |p|;
    assert w[i] == x[r - 1] && w[i + 1] == x[r];
  }

  ghost predicate UnmarkedEdge(g: Cfg, start: nat, u: nat, v: nat) {
    Edge(g, u, v) && !BackEdge(g, start, u, v)
  }

  ghost predicate UnmarkedWalk(g: Cfg, start: nat, w: seq<nat>) {
    IsWalk(g, w) && forall i, j :: 0 <= i && j == i + 1 && j < |w| ==> UnmarkedEdge(g, start, w[i], w[j])
  }

  lemma NoUnmarkedCycle(g: Cfg, start: nat, c: seq<nat>)
    requires AllReachable(g, start) && UnmarkedWalk(g, start, c) && |c| > 1
    ensures c[0] != Last(c)
  {
    if c[0] == Last(c) {
      var k := CycleHasBackEdge(g, start, c);
      assert false;
    }
  }

  /** Dropping the marked links of a fully reachable graph leaves no cycle. */
  lemma UnmarkedIsAcyclic(g: Cfg, start: nat, w: seq<nat>)
    requires AllReachable(g, start) && UnmarkedWalk(g, start, w)
    ensures Simple(w)
  {
    forall i, j | 0 <= i < j < |w| ensures w[i] != w[j] {
      SubWalk(g, w, i, j + 1);
      NoUnmarkedCycle(g, start, w[i..j + 1]);
    }
  }

  /** An acyclic graph has no marked link. */
  lemma AcyclicHasNoBackEdge(g: Cfg, start: nat, u: nat, v: nat)
    requires Acyclic(g)
    ensures !BackEdge(g, start, u, v)
  {
    if BackEdge(g, start, u, v) {
      BackEdgeOnCycle(g, start, u, v);
      assert false;
    }
  }

  /** In an acyclic graph the stopped walks are the walks from the entry to the exits. */
  lemma AcyclicStopped(g: Cfg, start: nat, w: seq<nat>)
    requires Acyclic(g) && IsWalk(g, w) && w[0] == start
    ensures Stopped(g, start, w) <==> IsExit(g, Last(w))
    ensures !Loops(w)
  {
    AcyclicWalkIsSimple(g, w);
    forall i | 0 <= i < |w| - 1 ensures Front(w)[i] != Last(w) {
      assert w[i] != w[|w| - 1];
    }
  }
}
