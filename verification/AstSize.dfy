/** How many containers the syntax tree of a function needs. */
module AstSize {
  import opened Graph
  import opened IfTails
  import opened CfgRuns

  lemma {:induction false} HeightAlong(g: Cfg, w: seq<nat>, k: nat)
    requires Acyclic(g) && IsWalk(g, w) && k < |w|
    ensures IsNode(g, w[k]) && (k > 0 ==> Height(g, w[k]) < Height(g, w[0]))
  {
    WalkNodes(g, w);
    if k > 0 {
      HeightAlong(g, w, k - 1);
      assert Edge(g, w[k - 1], w[k]);
      HeightDecreases(g, w[k - 1], w[k]);
    }
  }

  /** A strict post-dominator is lower. */
  lemma TailIsLower(g: Cfg, n: nat, t: nat)
    requires WellFormed(g) && Acyclic(g) && IsNode(g, n) && t != 0 && IsIfTail(g, n, t)
    ensures IsNode(g, t) && Height(g, t) < Height(g, n)
  {
    var w := WalkToExit(g, n);
    var k :| 0 <= k < |w| && w[k] == t;
    HeightAlong(g, w, k);
  }

  /** The tails of all branches. */
  ghost predicate Tailed(g: Cfg, tails: seq<nat>) {
    && WellFormed(g) && Acyclic(g) && AtMostTwo(g) && |tails| == |g|
    && forall n :: 1 <= n < |g| && |g[n]| == 2 ==> IsIfTail(g, n, tails[n])
  }

  /** The containers for what runs from `n` to `end`, the one that holds `n` not counted: one for each
      branch that does not lead straight to its tail. */
  ghost function Boxes(g: Cfg, tails: seq<nat>, n: nat, end: nat): (k: nat)
    requires Tailed(g, tails) && IsNode(g, n)
    decreases Height(g, n), 0
  {
    if n == end || g[n] == [] then 0
    else
      assert Edge(g, n, g[n][0]);
      HeightDecreases(g, n, g[n][0]);
      if |g[n]| == 1 then Boxes(g, tails, g[n][0], end)
      else
        assert Edge(g, n, g[n][1]);
        HeightDecreases(g, n, g[n][1]);
        var t := tails[n];
        var rest := if t == 0 then 0 else (TailIsLower(g, n, t); Boxes(g, tails, t, end));
        BranchBoxes(g, tails, g[n][0], t) + BranchBoxes(g, tails, g[n][1], t) + rest
  }

  ghost function BranchBoxes(g: Cfg, tails: seq<nat>, s: nat, t: nat): (k: nat)
    requires Tailed(g, tails) && IsNode(g, s)
    decreases Height(g, s), 1
  {
    if s == t then 0 else 1 + Boxes(g, tails, s, t)
  }

  lemma BoxesEnd(g: Cfg, tails: seq<nat>, n: nat)
    requires Tailed(g, tails) && IsNode(g, n)
    ensures Boxes(g, tails, n, n) == 0
  {
  }

  lemma BoxesNext(g: Cfg, tails: seq<nat>, n: nat, end: nat)
    requires Tailed(g, tails) && IsNode(g, n) && n != end && |g[n]| == 1
    ensures IsNode(g, g[n][0]) && Boxes(g, tails, n, end) == Boxes(g, tails, g[n][0], end)
  {
    assert IsNode(g, g[n][0]);
  }

  lemma BoxesBranch(g: Cfg, tails: seq<nat>, n: nat, end: nat)
    requires Tailed(g, tails) && IsNode(g, n) && n != end && |g[n]| == 2
    ensures IsNode(g, g[n][0]) && IsNode(g, g[n][1]) && (tails[n] != 0 ==> IsNode(g, tails[n]))
    ensures Boxes(g, tails, n, end) == BranchBoxes(g, tails, g[n][0], tails[n])
      + BranchBoxes(g, tails, g[n][1], tails[n]) + if tails[n] == 0 then 0 else Boxes(g, tails, tails[n], end)
  {
    assert IsNode(g, g[n][0]) && IsNode(g, g[n][1]);
    if tails[n] != 0 {
      TailIsLower(g, n, tails[n]);
    }
  }

  /** A branch has at least one link that does not lead to its tail. */
  lemma BranchHasBox(g: Cfg, tails: seq<nat>, n: nat)
    requires Tailed(g, tails) && IsNode(g, n) && |g[n]| == 2 && IsNode(g, g[n][0]) && IsNode(g, g[n][1])
    ensures BranchBoxes(g, tails, g[n][0], tails[n]) + BranchBoxes(g, tails, g[n][1], tails[n]) > 0
  {
    hide Boxes;
    assert g[n][0] != g[n][1];
  }
}
