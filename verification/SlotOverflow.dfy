/** A function on which the path search drops a branch: a long ladder of two-way branches. */
module SlotOverflow {
  import opened Graph
  import opened PathTable
  import opened PathSearch
  import opened PathSlots
  import opened FunctionTables
  import opened PathBuilder
  import opened CfgRuns

  /** Each of the nodes 1 to n goes to the next one first; all but the last may leave to n + 1, the
      only exit. */
  function Ladder(n: nat): (g: Cfg)
    requires n > 0
    ensures |g| == n + 2 && g[0] == [] && g[n] == [n + 1] && g[n + 1] == []
    ensures forall i :: 1 <= i < n ==> g[i] == [i + 1, n + 1]
  {
    [[]] + seq(n - 1, i => [i + 2, n + 1]) + [[n + 1], []]
  }

  /** The entries for the links to the exit. */
  function Leaves(n: nat): (row: seq<PrevLink>)
    ensures |row| == n && forall i :: 0 <= i < n ==> row[i] == PrevLink(i + 1, if i + 1 < n then 1 else 0)
  {
    seq(n, i requires 0 <= i < n => PrevLink(i + 1, if i + 1 < n then 1 else 0))
  }

  function LadderBack(n: nat): (back: seq<seq<PrevLink>>)
    requires n > 0
    ensures |back| == n + 2 && back[0] == [] && back[1] == [] && back[n + 1] == Leaves(n)
    ensures forall i :: 2 <= i < n + 1 ==> back[i] == [PrevLink(i - 1, 0)]
  {
    [[], []] + seq(n - 1, i requires 0 <= i < n - 1 => [PrevLink(i + 1, 0)]) + [Leaves(n)]
  }

  lemma LadderShape(n: nat)
    requires n > 0
    ensures WellFormed(Ladder(n)) && AtMostTwo(Ladder(n))
    ensures forall x: nat :: IsExit(Ladder(n), x) <==> x == n + 1
  {
    var g := Ladder(n);
    hide Ladder;
    forall u | 0 <= u < |g| ensures g[u] == if 1 <= u < n then [u + 1, n + 1] else if u == n then [n + 1] else [] {
    }
  }

  lemma LadderMutual(n: nat)
    requires n > 0 && WellFormed(Ladder(n))
    ensures MutualLinks(Ladder(n), LadderBack(n))
  {
    var g, back := Ladder(n), LadderBack(n);
    hide Ladder, LadderBack, WellFormed, Leaves;
    forall x, m | 0 <= x < |g| && 0 <= m < |back[x]| ensures IsLink(g, back[x][m], x) {
      assert x == n + 1 || (2 <= x < n + 1 && back[x] == [PrevLink(x - 1, 0)]);
      if x == n + 1 {
        assert back[x][m] == PrevLink(m + 1, if m + 1 < n then 1 else 0);
      }
    }
    forall u, i | 1 <= u < |g| && 0 <= i < |g[u]| ensures PrevLink(u, i) in back[g[u][i]] {
      if g[u][i] == n + 1 {
        assert back[n + 1][u - 1] == PrevLink(u, i);
      } else {
        assert back[u + 1][0] == PrevLink(u, i);
      }
    }
  }

  // ----- The walk down the ladder

  /** The nodes 1 to k. */
  ghost function Rungs(k: nat): (w: seq<nat>)
    ensures |w| == k && forall i :: 0 <= i < k ==> w[i] == i + 1
  {
    seq(k, i => i + 1)
  }

  lemma {:induction false} RungSpares(n: nat, k: nat)
    requires n > 0 && k <= n
    ensures Spares(Ladder(n), Rungs(k)) == if k < n then k else n - 1
  {
    if k > 0 {
      RungSpares(n, k - 1);
      assert Front(Rungs(k)) == Rungs(k - 1);
    }
  }

  lemma LadderCrowded(n: nat)
    requires n > SLOTS + 1
    ensures Crowded(Ladder(n), 1, Rungs(n + 1), 0)
  {
    var g, w := Ladder(n), Rungs(n + 1);
    hide Ladder, Rungs, Spares;
    forall i: nat, j | j == i + 1 && j < |w| ensures FirstLink(g, w[i], w[j]) && Edge(g, w[i], w[j]) {
      assert w[j] == g[w[i]][0];
    }
    assert w[0..] == w && Front(w)[0..] == Rungs(n);
    RungSpares(n, n);
  }

  // ----- Its stopped walks

  lemma LadderEdge(n: nat, u: nat, v: nat)
    requires n > 0 && Edge(Ladder(n), u, v)
    ensures u <= n && (v == u + 1 || v == n + 1)
  {
    hide Ladder;
  }

  lemma {:induction false} LadderAscends(n: nat, w: seq<nat>, i: nat, j: nat)
    requires n > 0 && IsWalk(Ladder(n), w) && i < j < |w|
    ensures w[i] < w[j]
    decreases j
  {
    hide Ladder;
    var k := j - 1;
    assert Edge(Ladder(n), w[k], w[j]);
    LadderEdge(n, w[k], w[j]);
    if i < k {
      LadderAscends(n, w, i, k);
    }
  }

  lemma LadderAcyclic(n: nat)
    requires n > 0
    ensures Acyclic(Ladder(n))
  {
    hide Ladder;
    forall w | IsWalk(Ladder(n), w) && |w| > 1 ensures w[0] != Last(w) {
      LadderAscends(n, w, 0, |w| - 1);
    }
  }

  lemma {:induction false} LadderWalk(n: nat, w: seq<nat>, i: nat)
    requires n > 0 && Stopped(Ladder(n), 1, w) && i < |w|
    ensures i < |w| - 1 ==> w[i] == i + 1
    ensures i == |w| - 1 ==> w[i] == n + 1
  {
    var g := Ladder(n);
    hide Ladder;
    StoppedNext(g, 1, w, i);
    WalkNodes(g, w);
    if i == |w| - 1 {
      forall k | 0 <= k < i ensures w[k] != w[i] {
        LadderAscends(n, w, k, i);
      }
    } else if i > 0 {
      var k := i - 1;
      LadderWalk(n, w, k);
      assert Edge(g, w[k], w[i]);
      LadderEdge(n, w[k], w[i]);
    }
  }

  lemma LadderReachable(n: nat)
    requires n > 0
    ensures AllReachable(Ladder(n), 1)
  {
    var g := Ladder(n);
    hide Ladder;
    forall x: nat | IsNode(g, x) ensures Reaches(g, 1, x) {
      var w := Rungs(x);
      forall i, j | 0 <= i && j == i + 1 && j < |w| ensures Edge(g, w[i], w[j]) {
        assert g[w[i]][0] == w[j];
      }
      assert WalkBetween(g, w, 1, x);
    }
  }

  lemma SameLadderWalk(n: nat, w: seq<nat>, x: seq<nat>)
    requires n > 0 && Stopped(Ladder(n), 1, w) && Stopped(Ladder(n), 1, x) && |w| == |x|
    ensures w == x
  {
    hide Ladder, Stopped;
    forall i | 0 <= i < |w| ensures w[i] == x[i] {
      LadderWalk(n, w, i);
      LadderWalk(n, x, i);
    }
  }

  lemma LadderPaths(n: nat, ps: seq<Path>, e: seq<seq<bool>>, h: seq<bool>)
    requires n > 0 && Progress(Ladder(n), 1, ps, e, h, |ps|)
    requires forall p, q :: 0 <= p < q < |ps| ==> FullTrace(ps, p) != FullTrace(ps, q)
    ensures |ps| <= n + 2
  {
    hide Ladder, FullTrace, Stopped, MarksSound;
    var g := Ladder(n);
    forall p | 0 <= p < |ps| ensures Stopped(g, 1, FullTrace(ps, p)) {
      assert DonePath(g, 1, ps, e, h, p);
    }
    var ends: seq<nat> := seq(|ps|, p requires 0 <= p < |ps| => |FullTrace(ps, p)|);
    forall p | 0 <= p < |ps| ensures ends[p] < n + 2 {
      LadderLength(n, FullTrace(ps, p));
    }
    forall p, q | 0 <= p < q < |ps| ensures ends[p] != ends[q] {
      if ends[p] == ends[q] {
        SameLadderWalk(n, FullTrace(ps, p), FullTrace(ps, q));
      }
    }
    Pigeonhole(ends, n + 2);
  }

  lemma LadderLength(n: nat, w: seq<nat>)
    requires n > 0 && Stopped(Ladder(n), 1, w)
    ensures |w| <= n + 1
  {
    hide Ladder;
    if |w| > 1 {
      LadderWalk(n, w, |w| - 2);
      LadderAscends(n, w, |w| - 2, |w| - 1);
      LadderWalk(n, w, |w| - 1);
    }
  }

  // ----- The search

  /** An acyclic function of two-way branches with one exit, all nodes reachable, table far from full:
      the search reports success, and a walk to the exit is missing. */
  method EnumerateLadder(n: nat, pathsSize: nat) returns (f: FunctionCfg, ret: int)
    requires n > 1001 && pathsSize > n + 2
    ensures f.succ == Ladder(n) && Acyclic(f.succ) && AllReachable(f.succ, 1) && AtMostTwo(f.succ)
    ensures forall x: nat :: IsExit(f.succ, x) <==> x == n + 1
    ensures ret == 0 && !ExactTable(f.succ, 1, f.paths)
  {
    hide Ladder, LadderBack, ExactTable, ExactMarks, Acyclic, AllReachable, Progress, FullTrace, MutualLinks, Crowded;
    LadderShape(n);
    LadderMutual(n);
    LadderAcyclic(n);
    LadderReachable(n);
    LadderCrowded(n);
    f := new FunctionCfg(Ladder(n), LadderBack(n));
    var dropped;
    ret, dropped := BuildControlFlowPaths(f, pathsSize, 1);
    LadderPaths(n, f.paths, f.loopEdge, f.loopHead);
  }
}
