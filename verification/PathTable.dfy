/** The table of paths: a tree of shared prefixes.

    Every path stores only its own segment; `prev` and `prevIndex` say after which node of
    which earlier path the segment continues. The walk a path stands for is its trace. */
module PathTable {
  import opened Graph

  datatype Path = Path(prev: nat, prevIndex: nat, nodes: seq<nat>, isLoop: bool, loopHead: nat)

  /** Only the root is its own predecessor; every other path hangs off an earlier one. */
  ghost predicate ValidTable(ps: seq<Path>) {
    && (forall p :: 0 <= p < |ps| ==> ps[p].nodes != [])
    && (forall p {:trigger ps[p].prev} :: 0 < p < |ps| ==>
          ps[p].prev < p && ps[p].prevIndex < |ps[ps[p].prev].nodes|)
    && (|ps| > 0 ==> ps[0].prev == 0)
  }

  /** The walk from the entry up to, but not including, the node at `k` of path `p`. */
  ghost function Trace(ps: seq<Path>, p: nat, k: nat): (w: seq<nat>)
    requires ValidTable(ps) && p < |ps| && k <= |ps[p].nodes|
    decreases p
  {
    (if p == 0 then [] else Trace(ps, ps[p].prev, ps[p].prevIndex + 1)) + ps[p].nodes[..k]
  }

  ghost function FullTrace(ps: seq<Path>, p: nat): (w: seq<nat>)
    requires ValidTable(ps) && p < |ps|
  {
    Trace(ps, p, |ps[p].nodes|)
  }

  lemma TraceSnoc(ps: seq<Path>, p: nat, k: nat)
    requires ValidTable(ps) && p < |ps| && k < |ps[p].nodes|
    ensures Trace(ps, p, k + 1) == Trace(ps, p, k) + [ps[p].nodes[k]]
  {
  }

  /** A position in the table, or the beginning of the path list. */
  datatype Cursor = AtRoot | At(path: nat, step: nat)

  /** One backward step of the scans that walk from a path to the root; `left` counts the
      nodes still ahead in path `p`. */
  function StepBack(ps: seq<Path>, p: nat, left: nat): (c: Cursor)
    requires p < |ps|
  {
    if left > 0 then At(p, left - 1)
    else if ps[p].prev != p then At(ps[p].prev, ps[p].prevIndex)
    else AtRoot
  }

  /** Stepping back drops the last node of the trace. */
  lemma StepBackTrace(ps: seq<Path>, p: nat, left: nat)
    requires ValidTable(ps) && p < |ps| && left <= |ps[p].nodes|
    ensures match StepBack(ps, p, left)
      case AtRoot => Trace(ps, p, left) == []
      case At(q, k) => q < |ps| && k < |ps[q].nodes| && Trace(ps, p, left) == Trace(ps, q, k) + [ps[q].nodes[k]]
  {
    if left > 0 {
      TraceSnoc(ps, p, left - 1);
    } else if p > 0 {
      TraceSnoc(ps, ps[p].prev, ps[p].prevIndex);
    }
  }

  /** The same step seen from the walk: the cursor at the end of the first `i` nodes of `w`
      moves to the node at `i - 1`. */
  lemma StepBackIn(ps: seq<Path>, p: nat, left: nat, w: seq<nat>, i: nat)
    requires ValidTable(ps) && p < |ps| && left <= |ps[p].nodes|
    requires i <= |w| && Trace(ps, p, left) == w[..i]
    ensures match StepBack(ps, p, left)
      case AtRoot => i == 0
      case At(q, k) => q < |ps| && k < |ps[q].nodes| && i > 0 && ps[q].nodes[k] == w[i - 1]
                       && Trace(ps, q, k) == w[..i - 1]
  {
    StepBackTrace(ps, p, left);
    match StepBack(ps, p, left) {
      case AtRoot =>
      case At(q, k) =>
        var t := Trace(ps, q, k);
        assert w[..i] == t + [ps[q].nodes[k]];
        assert |w[..i]| == i == |t| + 1;
        assert w[..i][i - 1] == w[i - 1];
        assert w[..i - 1] == w[..i][..i - 1] == t;
    }
  }

  /** The last two nodes of a trace, read off the table. */
  lemma LastTwo(ps: seq<Path>, p: nat)
    requires ValidTable(ps) && p < |ps|
    ensures var w := FullTrace(ps, p); var own := ps[p].nodes;
      && w != [] && Last(w) == Last(own)
      && (|own| >= 2 ==> |w| >= 2 && w[|w| - 2] == own[|own| - 2])
      && (|own| == 1 && p == 0 ==> |w| == 1)
      && (|own| == 1 && p > 0 ==> |w| >= 2 && w[|w| - 2] == ps[ps[p].prev].nodes[ps[p].prevIndex])
  {
    var own := ps[p].nodes;
    StepBackTrace(ps, p, |own|);
    StepBackTrace(ps, p, |own| - 1);
  }

  /** Later versions of a table add paths and lengthen segments. */
  ghost predicate Grows(ps: seq<Path>, ps': seq<Path>) {
    && |ps| <= |ps'|
    && forall p :: 0 <= p < |ps| ==>
         ps[p].prev == ps'[p].prev && ps[p].prevIndex == ps'[p].prevIndex && ps[p].nodes <= ps'[p].nodes
  }

  lemma {:induction false} TraceStable(ps: seq<Path>, ps': seq<Path>, p: nat, k: nat)
    requires ValidTable(ps) && ValidTable(ps') && Grows(ps, ps')
    requires p < |ps| && k <= |ps[p].nodes|
    ensures Trace(ps, p, k) == Trace(ps', p, k)
    decreases p
  {
    assert ps'[p].nodes[..k] == ps[p].nodes[..k];
    if p > 0 {
      TraceStable(ps, ps', ps[p].prev, ps[p].prevIndex + 1);
    }
  }

  // ----- Which walks the table has to hold

  /** A walk from `start` that stops at the first repeated node or at an exit. */
  ghost predicate Stopped(g: Cfg, start: nat, w: seq<nat>) {
    IsWalk(g, w) && w[0] == start && Simple(Front(w)) && (Last(w) in Front(w) || IsExit(g, Last(w)))
  }

  /** A stopped walk goes on behind a node exactly if the node is new on it and no exit. */
  lemma StoppedNext(g: Cfg, start: nat, w: seq<nat>, i: nat)
    requires Stopped(g, start, w) && i < |w|
    ensures w[i] < |g| && (i + 1 < |w| <==> g[w[i]] != [] && w[i] !in w[..i])
    ensures i + 1 < |w| ==> w[i + 1] in g[w[i]]
  {
    WalkNodes(g, w);
    if i + 1 < |w| {
      var j := i + 1;
      assert Edge(g, w[i], w[j]);
      forall k | 0 <= k < i ensures w[k] != w[i] {
        assert Front(w)[k] != Front(w)[i];
      }
    } else {
      assert w[..i] == Front(w);
    }
  }

  ghost predicate Loops(w: seq<nat>)
    requires w != []
  {
    Last(w) in Front(w)
  }

  /** What the flags of a finished path say about its trace. */
  ghost predicate Finished(g: Cfg, start: nat, ps: seq<Path>, p: nat)
    requires ValidTable(ps) && p < |ps|
  {
    var w := FullTrace(ps, p);
    && Stopped(g, start, w)
    && (ps[p].isLoop <==> Loops(w))
    && ps[p].loopHead == if ps[p].isLoop then Last(w) else 0
  }

  /** The traces are exactly the stopped walks, each once. */
  ghost predicate ExactTable(g: Cfg, start: nat, ps: seq<Path>) {
    && ValidTable(ps)
    && (forall p :: 0 <= p < |ps| ==> Finished(g, start, ps, p))
    && (forall w :: Stopped(g, start, w) ==> exists p :: 0 <= p < |ps| && FullTrace(ps, p) == w)
    && (forall p, q :: 0 <= p < q < |ps| ==> FullTrace(ps, p) != FullTrace(ps, q))
  }

  /** The edge closes a cycle of some walk that was simple up to its last node. */
  ghost predicate BackEdge(g: Cfg, start: nat, u: nat, v: nat) {
    Edge(g, u, v) && exists w :: WalkBetween(g, w, start, u) && Simple(w) && v in w
  }

  /** A walk that stops at a repeated node closes a cycle; so does a link from that node to itself. */
  lemma LoopCloses(g: Cfg, start: nat, w: seq<nat>)
    requires Stopped(g, start, w) && Loops(w)
    ensures |w| >= 2 && IsNode(g, w[|w| - 2]) && IsNode(g, Last(w)) && BackEdge(g, start, w[|w| - 2], Last(w))
    ensures Last(w) in g[Last(w)] ==> BackEdge(g, start, Last(w), Last(w))
  {
    var f := Front(w);
    SubWalk(g, w, 0, |w| - 1);
    assert f == w[0..|w| - 1];
    assert Edge(g, w[|w| - 2], w[|w| - 1]);
    assert WalkBetween(g, f, start, w[|w| - 2]);
    var k :| 0 <= k < |f| && f[k] == Last(w);
    SubWalk(g, f, 0, k + 1);
    assert WalkBetween(g, f[0..k + 1], start, Last(w)) && Simple(f[0..k + 1]) && f[0..k + 1][k] == Last(w);
  }

  // ----- The set of walks a search still has to cover

  ghost predicate Frontier(g: Cfg, start: nat, open: set<seq<nat>>) {
    && (forall x :: x in open ==> IsWalk(g, x) && x[0] == start && Simple(Front(x)))
    && (forall x, y :: x in open && y in open && x <= y ==> x == y)
    && (forall w :: Stopped(g, start, w) ==> exists x :: x in open && x <= w)
  }

  ghost function Children(g: Cfg, c: seq<nat>): (s: set<seq<nat>>)
    requires IsWalk(g, c) && Last(c) < |g|
  {
    set i | 0 <= i < |g[Last(c)]| :: c + [g[Last(c)][i]]
  }

  lemma FrontierStarts(g: Cfg, start: nat)
    requires IsNode(g, start)
    ensures Frontier(g, start, {[start]})
  {
  }

  lemma ChildFacts(g: Cfg, start: nat, c: seq<nat>, y: seq<nat>)
    requires WellFormed(g) && IsWalk(g, c) && c[0] == start && Simple(c) && Last(c) < |g|
    requires y in Children(g, c)
    ensures IsWalk(g, y) && y[0] == start && |y| == |c| + 1 && Front(y) == c
  {
    var i :| 0 <= i < |g[Last(c)]| && y == c + [g[Last(c)][i]];
    WalkNodes(g, c);
    assert Edge(g, Last(c), g[Last(c)][i]);
    ExtendWalk(g, c, g[Last(c)][i]);
  }

  lemma ChildIncomparable(c: seq<nat>, y: seq<nat>, x: seq<nat>)
    requires |y| == |c| + 1 && Front(y) == c
    requires (x <= c ==> x == c) && (c <= x ==> x == c)
    ensures !(y <= x) && (x <= y ==> x == c)
  {
    assert c == y[..|c|];
    assert y <= x ==> c <= x;
    if x <= y && |x| <= |c| {
      assert x == y[..|x|] == c[..|x|];
    }
  }

  lemma CoverSplit(g: Cfg, start: nat, c: seq<nat>, w: seq<nat>)
    requires IsWalk(g, c) && Simple(c) && Last(c) < |g| && g[Last(c)] != []
    requires Stopped(g, start, w) && c <= w
    ensures exists y :: y in Children(g, c) && y <= w
  {
    assert |c| == |w| ==> c == w;
    var v := w[|c|];
    assert w[|c| - 1] == Last(c);
    assert Edge(g, w[|c| - 1], w[|c|]);
    var i :| 0 <= i < |g[Last(c)]| && g[Last(c)][i] == v;
    var y := c + [g[Last(c)][i]];
    assert y in Children(g, c);
    assert y <= w;
  }

  /** Replacing an unfinished walk by its one-node extensions keeps the frontier. */
  lemma SplitFrontier(g: Cfg, start: nat, open: set<seq<nat>>, c: seq<nat>)
    requires WellFormed(g) && Frontier(g, start, open) && c in open
    requires Simple(c) && Last(c) < |g| && g[Last(c)] != []
    ensures Frontier(g, start, open - {c} + Children(g, c))
    ensures Children(g, c) !! open
  {
    var kids := Children(g, c);
    var open' := open - {c} + kids;
    forall y | y in kids
      ensures IsWalk(g, y) && y[0] == start && |y| == |c| + 1 && Front(y) == c
    {
      ChildFacts(g, start, c, y);
    }
    forall x, y | x in open && y in kids ensures !(y <= x) && (x <= y ==> x == c) {
      ChildIncomparable(c, y, x);
    }
    forall y | y in kids ensures y !in open {
      assert y <= y;
    }
    forall x, y | x in open' && y in open' && x <= y ensures x == y {
      if x in kids && y in kids {
        assert x == y[..|x|];
      }
    }
    forall w | Stopped(g, start, w) ensures exists x :: x in open' && x <= w {
      var x :| x in open && x <= w;
      if x == c {
        CoverSplit(g, start, c, w);
      }
    }
  }

  /** A proper prefix of a stopped walk has not stopped yet. */
  lemma PrefixGoesOn(g: Cfg, start: nat, x: seq<nat>, w: seq<nat>)
    requires Stopped(g, start, w) && x != [] && x <= w && |x| < |w|
    ensures Simple(x) && Last(x) !in Front(x) && !IsExit(g, Last(x))
  {
    var i := |x| - 1;
    assert x == Front(w)[..|x|];
    assert Edge(g, w[i], w[i + 1]);
  }

  lemma StoppedIsMaximal(g: Cfg, start: nat, x: seq<nat>, w: seq<nat>)
    requires Stopped(g, start, x) && Stopped(g, start, w) && x <= w
    ensures x == w
  {
    assert x == w[..|x|];
    if |x| < |w| {
      PrefixGoesOn(g, start, x, w);
      assert false;
    }
  }

  /** Once every open walk has stopped, the open walks are all the stopped ones. */
  lemma FrontierComplete(g: Cfg, start: nat, open: set<seq<nat>>, w: seq<nat>)
    requires Frontier(g, start, open) && forall x :: x in open ==> Stopped(g, start, x)
    requires Stopped(g, start, w)
    ensures w in open
  {
    var x :| x in open && x <= w;
    StoppedIsMaximal(g, start, x, w);
  }

  ghost predicate FirstLink(g: Cfg, u: nat, v: nat) {
    u < |g| && g[u] != [] && v == g[u][0]
  }

  /** Every node but the last is left through its first link. */
  ghost predicate FirstLinks(g: Cfg, w: seq<nat>) {
    forall i, j :: 0 <= i && j == i + 1 && j < |w| ==> FirstLink(g, w[i], w[j])
  }

  lemma FirstLinksBefore(g: Cfg, w: seq<nat>)
    requires |w| > 1 && FirstLink(g, w[0], w[1]) && FirstLinks(g, w[1..])
    ensures FirstLinks(g, w)
  {
    forall i, j | 0 <= i && j == i + 1 && j < |w| ensures FirstLink(g, w[i], w[j]) {
      if i > 0 {
        var k, l := i - 1, j - 1;
        assert FirstLink(g, w[1..][k], w[1..][l]);
      }
    }
  }

  lemma FirstLinksSnoc(g: Cfg, w: seq<nat>, v: nat)
    requires w != [] && FirstLinks(g, w) && FirstLink(g, Last(w), v)
    ensures FirstLinks(g, w + [v])
  {
    var x := w + [v];
    forall i, j | 0 <= i && j == i + 1 && j < |x| ensures FirstLink(g, x[i], x[j]) {
      assert j < |w| ==> FirstLink(g, w[i], w[j]);
    }
  }

  /** Every walk from the entry that has not repeated a node before its last goes on to a stopped one,
      through first links. */
  lemma {:induction false} ExtendsToStopped(g: Cfg, start: nat, y: seq<nat>) returns (w: seq<nat>)
    requires WellFormed(g) && IsWalk(g, y) && y[0] == start && Simple(Front(y))
    ensures Stopped(g, start, w) && y <= w && FirstLinks(g, w[|y| - 1..])
    decreases |g| - |y|
  {
    WalkNodes(g, y);
    SimpleWalkBound(g, Front(y));
    if Stopped(g, start, y) {
      w := y;
    } else {
      assert y == Front(y) + [Last(y)];
      SimpleWalkBound(g, y);
      var v := g[Last(y)][0];
      assert Edge(g, Last(y), v);
      ExtendWalk(g, y, v);
      assert Front(y + [v]) == y;
      w := ExtendsToStopped(g, start, y + [v]);
      assert y <= y + [v];
      assert (y + [v])[|y|] == v == w[|y|];
      FirstLinksBefore(g, w[|y| - 1..]);
    }
  }
}
