/** The passes over one function in the order in which the driver runs them, and the conversion to a
    syntax tree, a call that the driver has disabled. */
module Pipeline {
  import opened Graph
  import opened PathTable
  import opened PathBuilder
  import opened FunctionTables
  import opened LoopEdges
  import opened NodePaths
  import opened Dominators
  import opened IfTails
  import opened LoopTables
  import opened LinkTypes
  import opened CfgRuns
  import opened AstSize
  import opened AstBuilder

  /** What the passes establish on an acyclic function. */
  ghost predicate Recovered(f: FunctionCfg, start: nat)
    reads f
  {
    && f.Shaped()
    && ExactTable(f.succ, start, f.paths)
    && (forall n :: 1 <= n < |f.succ| && n != start ==> IsImmediateDominator(f.succ, start, f.dominator[n], n))
    && (forall n :: 1 <= n < |f.succ| && |f.succ[n]| >= 2 ==> IsIfTail(f.succ, n, f.ifTail[n]))
    && (forall n :: 1 <= n < |f.succ| ==> (f.nodeType[n] == IfThenElseNode <==> |f.succ[n]| == 2))
  }

  lemma ExactTableInside(g: Cfg, start: nat, ps: seq<Path>)
    requires ExactTable(g, start, ps)
    ensures ValidTable(ps) && TracesInside(ps, |g|)
  {
    hide FullTrace;
    forall p, i | 0 <= p < |ps| && 0 <= i < |FullTrace(ps, p)| ensures FullTrace(ps, p)[i] < |g| {
      assert Finished(g, start, ps, p);
      WalkNodes(g, FullTrace(ps, p));
    }
  }

  /** Without cycles there are no loop paths, so every row of the loops table stays empty. */
  lemma NoLoopRows(g: Cfg, start: nat, ps: seq<Path>, loops: seq<Loop>)
    requires Acyclic(g) && ExactTable(g, start, ps) && LoopsUpTo(ps, |ps|, loops)
    ensures forall m :: 0 <= m < |loops| ==> loops[m].list == []
  {
    hide FullTrace, Acyclic, Loops;
    NoLoopPaths(g, start, ps);
    forall m | 0 <= m < |loops| ensures loops[m].list == [] {
      assert RowExact(ps, |ps|, loops[m]);
      var l := loops[m].list;
      assert |l| > 0 ==> l[0] in l;
    }
  }

  lemma {:induction false} NoHeads(loops: seq<Loop>, n: nat, k: nat)
    requires k <= |loops| && forall m :: 0 <= m < |loops| ==> loops[m].list == []
    ensures HeadsOf(loops, n, k) == []
  {
    if k > 0 {
      NoHeads(loops, n, k - 1);
    }
  }

  /** Exact marks of an acyclic graph are empty. */
  lemma NoMarks(g: Cfg, start: nat, e: seq<seq<bool>>, h: seq<bool>)
    requires Acyclic(g) && ExactMarks(g, start, e, h)
    ensures forall u, i :: 0 <= u < |g| && 0 <= i < |g[u]| ==> !e[u][i]
    ensures forall v :: 0 <= v < |g| ==> !h[v]
  {
    hide BackEdge, Acyclic;
    forall u: nat, v: nat ensures !BackEdge(g, start, u, v) {
      AcyclicHasNoBackEdge(g, start, u, v);
    }
  }

  /** Nor has any node become a loop. */
  lemma PlainTypes(g: Cfg, start: nat, e: seq<seq<bool>>, h: seq<bool>, types: seq<NodeType>)
    requires Acyclic(g) && ExactMarks(g, start, e, h) && TypesFollow(types, h)
    ensures |types| == |g| && forall n :: 0 <= n < |g| ==> types[n] == UnknownNode
  {
    hide Acyclic, BackEdge;
    NoMarks(g, start, e, h);
  }

  /** The loop table and the loop members of an acyclic function: there are none. */
  method BuildLoops(f: FunctionCfg, loopSize: nat, ghost start: nat)
    requires f.Shaped() && Acyclic(f.succ) && ExactTable(f.succ, start, f.paths)
    requires forall n :: 0 <= n < |f.succ| ==> f.memberOfLoop[n] == []
    modifies f`memberOfLoop
    ensures f.Shaped()
    ensures forall n :: 0 <= n < |f.succ| ==> f.memberOfLoop[n] == []
  {
    hide Acyclic, ExactTable;
    ExactTableCloses(f.succ, start, f.paths);
    NoLoopPaths(f.succ, start, f.paths);
    var loops, failed := BuildControlFlowLoops(f.paths, loopSize);
    assert HeadSet(f.paths, |f.paths|) == {};
    NoLoopRows(f.succ, start, f.paths, loops);
    BuildLoopMembers(f, loops);
    forall n | 0 <= n < |f.succ| ensures f.memberOfLoop[n] == [] {
      NoHeads(loops, n, |loops|);
    }
  }

  lemma NoLoopPaths(g: Cfg, start: nat, ps: seq<Path>)
    requires Acyclic(g) && ExactTable(g, start, ps)
    ensures forall p :: 0 <= p < |ps| ==> ps[p].loopHead == 0
  {
    hide FullTrace, Acyclic, Loops;
    forall p | 0 <= p < |ps| ensures ps[p].loopHead == 0 {
      assert Finished(g, start, ps, p);
      AcyclicStopped(g, start, FullTrace(ps, p));
    }
  }

  /** Link types and node types of an acyclic function. */
  method BuildTypes(f: FunctionCfg, ghost start: nat)
    requires f.Shaped() && Acyclic(f.succ) && AtMostTwo(f.succ) && |f.succ| > 0
    requires ExactMarks(f.succ, start, f.loopEdge, f.loopHead)
    requires forall n :: 0 <= n < |f.succ| ==> f.memberOfLoop[n] == [] && f.nodeType[n] == UnknownNode
    requires forall n, i :: 0 <= n < |f.succ| && 0 <= i < |f.succ[n]| ==> f.linkFlags[n][i] == LinkFlags(false, false, false)
    modifies f`linkFlags, f`nodeType
    ensures f.Shaped()
    ensures forall n :: 1 <= n < |f.succ| ==> f.nodeType[n] == if |f.succ[n]| == 2 then IfThenElseNode else UnknownNode
  {
    hide Acyclic, ExactMarks;
    NoMarks(f.succ, start, f.loopEdge, f.loopHead);
    forall n | 0 <= n < |f.succ| ensures Ordered(f.memberOfLoop[n], []) {
      NoneOrdered([]);
    }
    AnalyseControlFlowNodeLinks(f, []);
    BuildNodeType(f);
    forall n | 1 <= n < |f.succ| && |f.succ[n]| == 2 ensures f.nodeType[n] == IfThenElseNode {
      PlainBranchType(f.succ, f.loopEdge, f.loopHead, f.memberOfLoop, n, f.linkFlags[n]);
    }
  }

  /** The dominators of an acyclic function. */
  method BuildDominators(f: FunctionCfg, ghost start: nat)
    requires Analysed(f, start) && Acyclic(f.succ) && AllReachable(f.succ, start)
    requires forall n :: 0 <= n < |f.succ| ==> f.dominator[n] == 0
    modifies f`dominator
    ensures Analysed(f, start)
    ensures forall n :: 1 <= n < |f.succ| && n != start ==> IsImmediateDominator(f.succ, start, f.dominator[n], n)
  {
    hide Acyclic, ExactTable, ExactMarks, ListsUpTo, IsImmediateDominator, DominatorFound;
    BuildNodeDominance(f, start);
    forall n | 1 <= n < |f.succ| && n != start ensures IsImmediateDominator(f.succ, start, f.dominator[n], n) {
      FoundIsImmediate(f.succ, f.prev, f.loopEdge, f.loopHead, start, n, f.dominator[n]);
    }
  }

  /** The if-tails of an acyclic function; the pass gives up only on a large one. */
  method BuildTails(f: FunctionCfg, ghost start: nat) returns (failed: bool)
    requires Analysed(f, start) && Acyclic(f.succ) && AllReachable(f.succ, start)
    requires forall n :: 0 <= n < |f.succ| ==> f.ifTail[n] == 0
    modifies f`ifTail
    ensures Analysed(f, start)
    ensures !failed ==> forall n :: 1 <= n < |f.succ| && |f.succ[n]| >= 2 ==> IsIfTail(f.succ, n, f.ifTail[n])
    ensures failed ==> |f.succ| * |f.succ| > 1000
  {
    hide Acyclic, ExactTable, ExactMarks, ListsUpTo, IsIfTail, TailFound, FollowsPath;
    forall n | 1 <= n < |f.succ| && |f.succ[n]| >= 2 ensures FollowsPath(f, n) {
      BranchHasTwoPaths(f, start, n);
    }
    failed := BuildNodeIfTail(f, start);
    if !failed {
      forall n | 1 <= n < |f.succ| && |f.succ[n]| >= 2 ensures IsIfTail(f.succ, n, f.ifTail[n]) {
        FoundIsIfTail(f.succ, start, n, f.ifTail[n]);
      }
    }
  }

  /** Why a function is given up. */
  datatype Outcome = Complete | PathsFull | SlotsFull | LoopsFull | TooManySteps | TreeFull | EntriesFull

  // ----- Node types of any function

  /** The type of a node in terms of back edges and of the loop table: a jump table has more than two
      links; a node with two is typed by whether one leaves a loop, and if none does, whether one
      closes a cycle; in that case, and with fewer links, only loop heads have a type. */
  ghost predicate NodeMeans(g: Cfg, start: nat, loops: seq<Loop>, n: nat, t: NodeType)
    requires n < |g|
  {
    var head := exists u: nat :: BackEdge(g, start, u, n);
    var leaves := exists l: nat :: l < |g[n]| && !BackEdge(g, start, n, g[n][l]) && LeavesRows(loops, head, n, g[n][l]);
    var closes := exists l: nat :: l < |g[n]| && BackEdge(g, start, n, g[n][l]);
    t == if |g[n]| > 2 then JumpTableNode
         else if |g[n]| == 2 && leaves then (if head then LoopNode else IfThenGotoNode)
         else if |g[n]| == 2 && !closes then (if head then LoopThenElseNode else IfThenElseNode)
         else if head then LoopNode
         else UnknownNode
  }

  lemma TypeMeans(g: Cfg, start: nat, ps: seq<Path>, e: seq<seq<bool>>, h: seq<bool>, loops: seq<Loop>, n: nat,
                  row: seq<LinkFlags>, before: NodeType)
    requires WellFormed(g) && ExactTable(g, start, ps) && ExactMarks(g, start, e, h) && RowHeads(loops) == HeadSet(ps, |ps|)
    requires 1 <= n < |g| && |row| == |g[n]| && before == if h[n] then LoopNode else UnknownNode
    requires forall l :: 0 <= l < |g[n]| ==> RowsMean(loops, e[n][l], n, g[n][l], row[l])
    ensures NodeMeans(g, start, loops, n, BranchType(|g[n]|, h[n], row, before))
  {
    HeadsHaveRows(g, start, ps, e, h, loops, n);
    hide ExactTable, BackEdge, LeavesRows, HasRow, WellFormed, HeadSet, RowHeads;
    assert h[n] <==> exists u: nat :: BackEdge(g, start, u, n);
    forall l: nat | l < |g[n]| ensures e[n][l] <==> BackEdge(g, start, n, g[n][l]) {
    }
    if |g[n]| == 2 {
      var x, y := g[n][0], g[n][1];
      assert row[0].isExit <==> !BackEdge(g, start, n, x) && LeavesRows(loops, h[n], n, x);
      assert row[1].isExit <==> !BackEdge(g, start, n, y) && LeavesRows(loops, h[n], n, y);
    }
  }

  /** Paths, loops, link types and node types of any function, with cycles or without. */
  method ClassifyNodes(f: FunctionCfg, pathsSize: nat, loopSize: nat, start: nat) returns (loops: seq<Loop>, outcome: Outcome)
    requires f.Blank() && IsNode(f.succ, start)
    modifies f`paths, f`loopEdge, f`loopHead, f`nodeType, f`memberOfLoop, f`linkFlags
    ensures outcome == Complete || outcome == PathsFull || outcome == SlotsFull || outcome == LoopsFull
    ensures f.Shaped()
    ensures outcome == Complete ==> ExactTable(f.succ, start, f.paths) && LoopsUpTo(f.paths, |f.paths|, loops)
    ensures outcome == Complete ==> forall n :: 1 <= n < |f.succ| ==> NodeMeans(f.succ, start, loops, n, f.nodeType[n])
    ensures outcome == PathsFull ==> |f.paths| >= pathsSize
    ensures outcome == SlotsFull ==> |f.paths| > 1000 && !ExactTable(f.succ, start, f.paths)
    ensures outcome == LoopsFull ==> |HeadSet(f.paths, |f.paths|)| > loopSize
  {
    hide ExactTable, ExactMarks, MutualLinks, WellFormed, Progress, FullTrace, RowsMean, LoopsUpTo, NodeMeans, HeadSet, RowHeads,
      BranchType, AllTyped, HeadsOf;
    loops := [];
    var ret, dropped := BuildControlFlowPaths(f, pathsSize, start);
    if ret != 0 {
      return loops, PathsFull;
    }
    if dropped {
      return loops, SlotsFull;
    }
    var failed;
    loops, failed := TypeLinks(f, loopSize, start);
    if failed {
      return loops, LoopsFull;
    }
    ghost var before := f.nodeType;
    BuildNodeType(f);
    forall n | 1 <= n < |f.succ| ensures NodeMeans(f.succ, start, loops, n, f.nodeType[n]) {
      TypeMeans(f.succ, start, f.paths, f.loopEdge, f.loopHead, loops, n, f.linkFlags[n], before[n]);
    }
    outcome := Complete;
  }

  /** The path table, the marks and the path lists of an acyclic function. */
  method EnumeratePaths(f: FunctionCfg, pathsSize: nat, loopSize: nat, start: nat) returns (outcome: Outcome)
    requires f.Blank() && IsNode(f.succ, start) && Acyclic(f.succ)
    modifies f`paths, f`loopEdge, f`loopHead, f`nodeType, f`memberOfLoop, f`nodePaths, f`nodeLoopedPaths
    ensures f.Shaped() && (outcome == Complete || outcome == PathsFull || outcome == SlotsFull)
    ensures outcome == Complete ==> Analysed(f, start)
    ensures outcome == Complete ==> forall n :: 0 <= n < |f.succ| ==> f.memberOfLoop[n] == [] && f.nodeType[n] == UnknownNode
    ensures outcome == PathsFull ==> |f.paths| >= pathsSize
    ensures outcome == SlotsFull ==> |f.paths| > 1000 && !ExactTable(f.succ, start, f.paths)
  {
    hide Acyclic, ExactTable, ExactMarks, ListsUpTo, TypesFollow, MutualLinks, WellFormed, Progress, FullTrace, PathsThrough;
    var ret, dropped := BuildControlFlowPaths(f, pathsSize, start);
    if ret != 0 {
      return PathsFull;
    }
    if dropped {
      return SlotsFull;
    }
    PlainTypes(f.succ, start, f.loopEdge, f.loopHead, f.nodeType);
    BuildLoops(f, loopSize, start);
    ExactTableInside(f.succ, start, f.paths);
    BuildNodePaths(f);
    return Complete;
  }

  /** The passes over the graph. */
  method AnalyseFunction(f: FunctionCfg, pathsSize: nat, loopSize: nat, start: nat) returns (outcome: Outcome)
    requires f.Blank() && IsNode(f.succ, start) && AllReachable(f.succ, start)
    requires Acyclic(f.succ) && AtMostTwo(f.succ)
    modifies f
    ensures outcome == Complete || outcome == PathsFull || outcome == SlotsFull || outcome == TooManySteps
    ensures outcome == Complete ==> Recovered(f, start) && Structured(f)
    ensures outcome == PathsFull ==> |f.paths| >= pathsSize
    ensures outcome == SlotsFull ==> |f.paths| > 1000 && !ExactTable(f.succ, start, f.paths)
    ensures outcome == TooManySteps ==> |f.succ| * |f.succ| > 1000
  {
    hide Acyclic, ExactTable, ExactMarks, ListsUpTo, IsImmediateDominator, IsIfTail, MutualLinks, WellFormed, ValidTable;
    outcome := EnumeratePaths(f, pathsSize, loopSize, start);
    if outcome == Complete {
      BuildDominators(f, start);
      BuildTypes(f, start);
      NoMarks(f.succ, start, f.loopEdge, f.loopHead);
      var failed := BuildTails(f, start);
      outcome := if failed then TooManySteps else Complete;
    }
  }

  lemma StructuredTails(f: FunctionCfg)
    requires Structured(f)
    ensures Tailed(f.succ, f.ifTail)
  {
  }

  /** How the outcome depends on the number of containers that the graph asks for. */
  ghost predicate TreeSize(f: FunctionCfg, start: nat, outcome: Outcome, containers: nat, ifs: nat, after: nat)
    reads f
  {
    && Tailed(f.succ, f.ifTail) && IsNode(f.succ, start)
    && var boxes := Boxes(f.succ, f.ifTail, start, 0);
    && (outcome == Complete ==> after == containers + 1 + boxes)
    && (outcome == TreeFull ==> containers + 1 + boxes >= 300 || ifs + boxes >= 300)
    && (outcome == EntriesFull ==> boxes >= 100)
  }

  /** From the node table of an acyclic function with at most two-way branches to its syntax tree.
      When no table overflows on the way, executing the tree visits exactly the nodes that the
      graph visits, whatever the branches do. */
  method RecoverFunction(f: FunctionCfg, pathsSize: nat, loopSize: nat, start: nat, ast: Ast, entries: array<Entry>)
    returns (outcome: Outcome)
    requires f.Blank() && IsNode(f.succ, start) && AllReachable(f.succ, start)
    requires Acyclic(f.succ) && AtMostTwo(f.succ)
    requires entries.Length == 300 && forall i :: 0 <= i < entries.Length ==> entries[i] == Free
    modifies f, ast, entries
    ensures outcome == Complete ==> Recovered(f, start)
    ensures outcome == Complete ==>
      Faithful(f.succ, ast.containers, ast.ifs, |old(ast.containers)|, |old(ast.containers)|, start)
    ensures outcome == PathsFull ==> |f.paths| >= pathsSize
    ensures outcome == SlotsFull ==> |f.paths| > 1000 && !ExactTable(f.succ, start, f.paths)
    ensures outcome == TooManySteps ==> |f.succ| * |f.succ| > 1000
    ensures outcome == TreeFull ==> |ast.containers| >= 300 || |ast.ifs| >= 300
    ensures outcome == EntriesFull ==> |ast.containers| >= |old(ast.containers)| + 100
    ensures outcome == Complete || outcome == TreeFull || outcome == EntriesFull ==>
      TreeSize(f, start, outcome, old(|ast.containers|), old(|ast.ifs|), |ast.containers|)
  {
    hide Acyclic, ExactTable, Recovered, Structured, Faithful, WellFormed, MutualLinks, Tailed, Boxes;
    outcome := AnalyseFunction(f, pathsSize, loopSize, start);
    if outcome == Complete {
      assert Tailed(f.succ, f.ifTail) by { StructuredTails(f); }
      var ret := CfgToAst(f, ast, entries, start);
      outcome := if ret == DONE then Complete else if ret == FULL then TreeFull else EntriesFull;
    }
  }
}
