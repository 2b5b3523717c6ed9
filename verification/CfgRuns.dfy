/** What a control flow graph does: the nodes it visits when branches follow an oracle. */
module CfgRuns {
  import opened Graph
  import opened IfTails

  /** Decides a branch from the nodes visited so far, the branching node last. */
  type Oracle = seq<nat> -> bool

  ghost predicate AtMostTwo(g: Cfg) {
    forall n :: 0 <= n < |g| ==> |g[n]| <= 2
  }

  /** The node a run enters after the nodes `h`, the last of which is `n`. */
  ghost function Chosen(g: Cfg, n: nat, h: seq<nat>, o: Oracle): (s: nat)
    requires n < |g| && g[n] != []
  {
    if |g[n]| == 1 || o(h) then g[n][0] else g[n][1]
  }

  /** The nodes visited, appended to `h`, when control starts at `n` and stops before `end`. */
  ghost function Run(g: Cfg, n: nat, end: nat, h: seq<nat>, o: Oracle): (r: seq<nat>)
    requires WellFormed(g) && Acyclic(g) && IsNode(g, n)
    decreases Height(g, n)
  {
    if n == end then h
    else if g[n] == [] then h + [n]
    else
      var s := Chosen(g, n, h + [n], o);
      assert Edge(g, n, s);
      HeightDecreases(g, n, s);
      Run(g, s, end, h + [n], o)
  }

  lemma {:induction false} RunExtends(g: Cfg, n: nat, end: nat, h: seq<nat>, o: Oracle)
    requires WellFormed(g) && Acyclic(g) && IsNode(g, n)
    ensures h <= Run(g, n, end, h, o)
    ensures n != end ==> h + [n] <= Run(g, n, end, h, o)
    decreases Height(g, n)
  {
    if n != end && g[n] != [] {
      var s := Chosen(g, n, h + [n], o);
      assert Edge(g, n, s);
      HeightDecreases(g, n, s);
      RunExtends(g, s, end, h + [n], o);
    }
  }

  /** A region starts at `n` and is left only through `end`, or only by returning (0). */
  ghost predicate Region(g: Cfg, n: nat, end: nat) {
    && IsNode(g, n) && n != end
    && (end != 0 ==> IsNode(g, end) && PostDominates(g, end, n))
  }

  /** Post-domination passes to the successors of any other node. */
  lemma PostDominatesNext(g: Cfg, d: nat, n: nat, s: nat)
    requires PostDominates(g, d, n) && n != d && Edge(g, n, s)
    ensures PostDominates(g, d, s)
  {
    forall w | IsWalk(g, w) && w[0] == s && IsExit(g, Last(w)) ensures d in w {
      assert IsWalk(g, [n] + w);
      assert Last([n] + w) == Last(w);
      assert d in [n] + w;
    }
  }

  /** Exits have no post-dominator but themselves. */
  lemma ExitRegion(g: Cfg, n: nat, end: nat)
    requires Region(g, n, end) && g[n] == []
    ensures end == 0
  {
    assert IsWalk(g, [n]);
  }

  /** The region goes on behind a node with one successor. */
  lemma NextRegion(g: Cfg, n: nat, end: nat, s: nat)
    requires Region(g, n, end) && Edge(g, n, s)
    ensures s == end || Region(g, s, end)
  {
    if end != 0 {
      PostDominatesNext(g, end, n, s);
    }
  }

  /** The regions of the branches, and the one behind them. */
  lemma BranchRegions(g: Cfg, n: nat, end: nat, t: nat, s: nat)
    requires WellFormed(g) && Acyclic(g) && Region(g, n, end) && IsIfTail(g, n, t) && Edge(g, n, s)
    ensures s == t || Region(g, s, t)
    ensures t == 0 ==> end == 0
    ensures t == 0 || t == end || Region(g, t, end)
  {
    if t != 0 {
      PostDominatesNext(g, t, n, s);
    }
  }

  /** Two nodes that post-dominate each other are one. */
  lemma PostDominationAntisymmetric(g: Cfg, a: nat, b: nat)
    requires WellFormed(g) && Acyclic(g) && IsNode(g, a) && IsNode(g, b)
    requires PostDominates(g, a, b) && PostDominates(g, b, a)
    ensures a == b
  {
    var w := WalkToExit(g, a);
    var i :| 0 <= i < |w| && w[i] == b;
    SubWalk(g, w, i, |w|);
    var v := w[i..|w|];
    var j :| 0 <= j < |v| && v[j] == a;
    AcyclicWalkIsSimple(g, w);
    assert w[i + j] == w[0];
  }

  /** Running to `end` is running to `t` first, when every run passes `t` before `end`. */
  lemma {:induction false} RunThrough(g: Cfg, n: nat, t: nat, end: nat, h: seq<nat>, o: Oracle)
    requires WellFormed(g) && Acyclic(g) && IsNode(g, n) && IsNode(g, t) && t != end
    requires PostDominates(g, t, n)
    requires end != 0 ==> IsNode(g, end) && PostDominates(g, end, t)
    ensures Run(g, n, end, h, o) == Run(g, t, end, Run(g, n, t, h, o), o)
    decreases Height(g, n)
  {
    if n != t {
      if n == end {
        PostDominationAntisymmetric(g, t, end);
        assert false;
      }
      if g[n] == [] {
        assert IsWalk(g, [n]);
        assert false;
      }
      var s := Chosen(g, n, h + [n], o);
      assert Edge(g, n, s);
      HeightDecreases(g, n, s);
      PostDominatesNext(g, t, n, s);
      RunThrough(g, s, t, end, h + [n], o);
    }
  }
}
