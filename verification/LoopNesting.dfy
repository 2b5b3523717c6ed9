/** What the nesting pass makes of loops that are not nested. */
module LoopNesting {
  import opened Graph
  import opened PathTable
  import opened LoopTables

  // ----- Two loops without a common node

  /** Node 1 goes to 2 and 3, each of which links to itself. */
  function TwoLoops(): (g: Cfg) {
    [[], [2, 3], [2], [3]]
  }

  function TwoLoopPaths(): (ps: seq<Path>) {
    [Path(0, 0, [1, 2, 2], true, 2), Path(0, 0, [3, 3], true, 3)]
  }

  lemma TwoLoopTraces()
    ensures var ps := TwoLoopPaths(); ValidTable(ps) && FullTrace(ps, 0) == [1, 2, 2] && FullTrace(ps, 1) == [1, 3, 3]
  {
    var ps := TwoLoopPaths();
    assert Trace(ps, 0, 1) == [1];
    assert Trace(ps, 1, 2) == Trace(ps, 0, 1) + [3, 3];
  }

  lemma TwoLoopWalks(w: seq<nat>)
    requires Stopped(TwoLoops(), 1, w)
    ensures w == [1, 2, 2] || w == [1, 3, 3]
  {
    var g := TwoLoops();
    StoppedNext(g, 1, w, 0);
    StoppedNext(g, 1, w, 1);
    assert w[..1] == [1] && w[..2] == [1, w[1]];
    StoppedNext(g, 1, w, 2);
  }

  lemma TwoLoopTable()
    ensures ExactTable(TwoLoops(), 1, TwoLoopPaths())
  {
    hide FullTrace, Stopped, TwoLoops;
    var g, ps := TwoLoops(), TwoLoopPaths();
    TwoLoopTraces();
    TwoLoopStops();
    assert Finished(g, 1, ps, 0) by { assert Front([1, 2, 2])[1] == 2; }
    assert Finished(g, 1, ps, 1) by { assert Front([1, 3, 3])[1] == 3; }
    forall w | Stopped(g, 1, w) ensures FullTrace(ps, 0) == w || FullTrace(ps, 1) == w {
      TwoLoopWalks(w);
    }
    hide Finished;
    assert |ps| == 2;
    forall w | Stopped(g, 1, w) ensures exists p :: 0 <= p < |ps| && FullTrace(ps, p) == w {
      assert FullTrace(ps, 0) == w || FullTrace(ps, 1) == w;
    }
  }

  lemma TwoLoopStops()
    ensures Stopped(TwoLoops(), 1, [1, 2, 2]) && Stopped(TwoLoops(), 1, [1, 3, 3])
  {
    assert Front([1, 2, 2]) == [1, 2] && Front([1, 3, 3]) == [1, 3];
    assert [1, 2][1] == 2 && [1, 3][1] == 3;
  }

  /** The cycle of a walk that ends with a node and itself is that node. */
  lemma SelfCycle(w: seq<nat>, x: nat)
    requires |w| >= 2 && w[|w| - 2] == Last(w) && OnCycle(w, x)
    ensures x == Last(w)
  {
  }

  /** The loops share no node, and yet that of 3 counts as nested in that of 2; and that of 2, which
      the first path closes, in itself. */
  lemma NeighbourNested()
    ensures ExactTable(TwoLoops(), 1, TwoLoopPaths())
    ensures var ps := TwoLoopPaths();
      && (forall x: nat :: (OnLoop(ps, 2, 2, x) ==> x == 2) && (OnLoop(ps, 2, 3, x) ==> x == 3))
      && NestOf(ps, 2, 3) == 2 && NestOf(ps, 2, 2) == 2
  {
    hide ExactTable, FullTrace, OnCycle;
    var ps := TwoLoopPaths();
    TwoLoopTable();
    TwoLoopTraces();
    forall x: nat, p: nat | p < 2 && OnCycle(FullTrace(ps, p), x) ensures x == p + 2 {
      SelfCycle(FullTrace(ps, p), x);
    }
    NestUnfold(ps, 2, 3);
    NestUnfold(ps, 2, 2);
    NestUnfold(ps, 1, 2);
  }

  // ----- A loop whose body forks

  lemma TraceParts(ps: seq<Path>, p: nat, k: nat)
    requires ValidTable(ps) && p < |ps| && k <= |ps[p].nodes|
    ensures Trace(ps, p, k) == (if p == 0 then [] else Trace(ps, ps[p].prev, ps[p].prevIndex + 1)) + ps[p].nodes[..k]
  {
  }

  /** Node 1 goes to the exit 6 and to the loop of 2 and 3, which comes back through 4 or 5. */
  function ForkedLoop(): (g: Cfg) {
    [[], [6, 2], [3], [4, 5], [2], [2], []]
  }

  function ForkedLoopPaths(): (ps: seq<Path>) {
    [Path(0, 0, [1, 6], false, 0), Path(0, 0, [2, 3, 4, 2], true, 2), Path(1, 1, [5, 2], true, 2)]
  }

  lemma ForkedLoopTraces()
    ensures var ps := ForkedLoopPaths();
      && ValidTable(ps) && FullTrace(ps, 0) == [1, 6]
      && FullTrace(ps, 1) == [1, 2, 3, 4, 2] && FullTrace(ps, 2) == [1, 2, 3, 5, 2]
  {
    hide Trace;
    var ps := ForkedLoopPaths();
    TraceParts(ps, 0, 1);
    TraceParts(ps, 0, 2);
    TraceParts(ps, 1, 2);
    TraceParts(ps, 1, 4);
    TraceParts(ps, 2, 2);
    assert [1] + [2, 3] == [1, 2, 3] && [1, 2, 3] + [5, 2] == [1, 2, 3, 5, 2];
  }

  lemma ForkedLoopWalks(w: seq<nat>)
    requires Stopped(ForkedLoop(), 1, w)
    ensures w == [1, 6] || w == [1, 2, 3, 4, 2] || w == [1, 2, 3, 5, 2]
  {
    var g := ForkedLoop();
    StoppedNext(g, 1, w, 0);
    StoppedNext(g, 1, w, 1);
    assert w[..1] == [1];
    if w[1] == 2 {
      StoppedNext(g, 1, w, 2);
      assert w[..2] == [1, 2];
      StoppedNext(g, 1, w, 3);
      assert w[..3] == [1, 2, 3];
      StoppedNext(g, 1, w, 4);
      assert w[..4][1] == 2;
    }
  }

  lemma ForkedLoopStops()
    ensures var g := ForkedLoop(); Stopped(g, 1, [1, 6]) && Stopped(g, 1, [1, 2, 3, 4, 2]) && Stopped(g, 1, [1, 2, 3, 5, 2])
  {
    assert Front([1, 2, 3, 4, 2]) == [1, 2, 3, 4] && Front([1, 2, 3, 5, 2]) == [1, 2, 3, 5] && Front([1, 6]) == [1];
    assert [1, 2, 3, 4][1] == 2 && [1, 2, 3, 5][1] == 2;
  }

  lemma ForkedLoopTable()
    ensures ExactTable(ForkedLoop(), 1, ForkedLoopPaths())
  {
    var g, ps := ForkedLoop(), ForkedLoopPaths();
    ForkedLoopTraces();
    ForkedLoopStops();
    hide FullTrace, Stopped, ForkedLoop;
    forall w | Stopped(g, 1, w) ensures exists p :: 0 <= p < |ps| && FullTrace(ps, p) == w {
      ForkedLoopWalks(w);
      var p := if w == [1, 6] then 0 else if w == [1, 2, 3, 4, 2] then 1 else 2;
      assert FullTrace(ps, p) == w;
    }
    assert Front([1, 2, 3, 4, 2])[1] == 2 && Front([1, 2, 3, 5, 2])[1] == 2 && Front([1, 6]) == [1];
  }

  /** The only loop counts as nested in itself, although the first path closes none. */
  lemma ForkedNested()
    ensures ExactTable(ForkedLoop(), 1, ForkedLoopPaths())
    ensures var ps := ForkedLoopPaths(); ps[0].loopHead == 0 && NestOf(ps, 3, 2) == 2
  {
    hide ExactTable;
    ForkedLoopTable();
    ForkedLoopTraces();
    NestUnfold(ForkedLoopPaths(), 3, 2);
  }
}
