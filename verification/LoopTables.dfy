/** `build_control_flow_loops` and `merge_path_into_loop`: the nodes of every loop. */
module LoopTables {
  import opened Graph
  import opened PathTable

  /** A row of the loops table; head 0 marks an unused row. */
  datatype Loop = Loop(head: nat, nest: nat, list: seq<nat>)

  /** `x` lies on the cycle that the walk closes with its last node. */
  ghost predicate OnCycle(w: seq<nat>, x: nat) {
    exists k: nat :: CycleIndex(w, x, k)
  }

  ghost predicate CycleIndex(w: seq<nat>, x: nat, k: nat) {
    k + 1 < |w| && w[k] == x && forall j :: k < j < |w| - 1 ==> w[j] != w[|w| - 1]
  }

  /** `x` lies on the cycle of one of the first `n` paths, and that cycle begins at `head`. */
  ghost predicate OnLoop(ps: seq<Path>, n: nat, head: nat, x: nat)
    requires ValidTable(ps) && n <= |ps|
  {
    exists p :: LoopPath(ps, n, head, p) && OnCycle(FullTrace(ps, p), x)
  }

  ghost predicate LoopPath(ps: seq<Path>, n: nat, head: nat, p: nat) {
    p < n <= |ps| && ps[p].loopHead != 0 && ps[p].loopHead == head
  }

  /** Loop paths end at their head and have visited it before. */
  ghost predicate LoopPathsClose(ps: seq<Path>) {
    ValidTable(ps) && forall p :: 0 <= p < |ps| && ps[p].loopHead != 0 ==> Closes(ps, p)
  }

  ghost predicate Closes(ps: seq<Path>, p: nat)
    requires ValidTable(ps) && p < |ps|
  {
    var w := FullTrace(ps, p);
    w != [] && Last(w) == ps[p].loopHead && Loops(w)
  }

  lemma ExactTableCloses(g: Cfg, start: nat, ps: seq<Path>)
    requires ExactTable(g, start, ps)
    ensures LoopPathsClose(ps)
  {
    hide FullTrace, Stopped;
    forall p | 0 <= p < |ps| && ps[p].loopHead != 0 ensures Closes(ps, p) {
      assert Finished(g, start, ps, p);
      LastTwo(ps, p);
    }
  }

  lemma NonEmpty(ps: seq<Path>, p: nat)
    requires ValidTable(ps) && p < |ps|
    ensures ps[p].nodes != []
  {
  }

  /** Adds the nodes of the cycle that path `p` closes. */
  method MergePathIntoLoop(ps: seq<Path>, loop: Loop, p: nat) returns (loop': Loop)
    requires LoopPathsClose(ps) && p < |ps| && ps[p].loopHead != 0
    requires Simple(loop.list)
    ensures loop'.head == ps[p].loopHead && loop'.nest == loop.nest
    ensures Simple(loop'.list)
    ensures forall x: nat :: x in loop'.list <==> x in loop.list || OnCycle(FullTrace(ps, p), x)
  {
    hide Trace, ValidTable;
    assert Closes(ps, p);
    assert ps[p].nodes != [] by { NonEmpty(ps, p); }
    ghost var w := FullTrace(ps, p);
    LastTwo(ps, p);
    var head := ps[p].loopHead;
    var list := loop.list;
    var path: nat, left: nat := p, |ps[p].nodes| - 1;
    ghost var i: nat := |w| - 1;
    TraceSnoc(ps, p, left);
    assert w == w[..i] + [head];
    while true
      invariant path < |ps| && left <= |ps[path].nodes| && i < |w|
      invariant Trace(ps, path, left) == w[..i]
      invariant Simple(list)
      invariant forall x :: x in list <==> x in loop.list || x in w[i..|w| - 1]
      invariant head !in w[i..|w| - 1]
      decreases i
    {
      StepBackIn(ps, path, left, w, i);
      match StepBack(ps, path, left) {
        case AtRoot =>
          assert false;
        case At(q, k) =>
          path, left := q, k;
      }
      var node := ps[path].nodes[left];
      assert w[i - 1..|w| - 1] == [node] + w[i..|w| - 1];
      if node !in list {
        list := list + [node];
      }
      i := i - 1;
      if node == head {
        CycleIsSuffix(w, i);
        return Loop(head, loop.nest, list);
      }
    }
  }

  lemma CycleIsSuffix(w: seq<nat>, i: nat)
    requires i + 1 < |w| && w[i] == w[|w| - 1] && w[|w| - 1] !in w[i + 1..|w| - 1]
    ensures forall x: nat :: OnCycle(w, x) <==> x in w[i..|w| - 1]
  {
    var s := w[i..|w| - 1];
    assert forall j :: i < j < |w| - 1 ==> w[j] == w[i + 1..|w| - 1][j - i - 1];
    forall x | x in s ensures OnCycle(w, x) {
      var k :| 0 <= k < |s| && s[k] == x;
      assert CycleIndex(w, x, i + k);
    }
    forall x: nat | OnCycle(w, x) ensures x in s {
      var k: nat :| CycleIndex(w, x, k);
      assert k >= i;
      assert s[k - i] == x;
    }
  }

  // ----- The table

  /** After the first `n` paths: heads are distinct, and each row lists, without duplicates, the
      nodes of all cycles that begin at its head. */
  ghost predicate LoopsUpTo(ps: seq<Path>, n: nat, loops: seq<Loop>)
    requires ValidTable(ps) && n <= |ps|
  {
    && DistinctHeads(loops)
    && (forall m :: 0 <= m < |loops| ==> RowExact(ps, n, loops[m]))
    && (forall p :: 0 <= p < n && ps[p].loopHead != 0 ==> HasRow(loops, ps[p].loopHead))
  }

  ghost predicate RowExact(ps: seq<Path>, n: nat, row: Loop)
    requires ValidTable(ps) && n <= |ps|
  {
    && Simple(row.list)
    && (row.head == 0 ==> row.list == [])
    && forall x: nat :: x in row.list <==> OnLoop(ps, n, row.head, x)
  }

  ghost predicate HasRow(loops: seq<Loop>, head: nat) {
    exists m :: 0 <= m < |loops| && loops[m].head == head
  }

  /** The row of a head. */
  method FindHead(loops: seq<Loop>, head: nat) returns (found: bool, m: nat)
    ensures found <==> HasRow(loops, head)
    ensures found ==> m < |loops| && loops[m].head == head
  {
    m := 0;
    while m < |loops|
      invariant m <= |loops| && forall k :: 0 <= k < m ==> loops[k].head != head
    {
      if loops[m].head == head {
        return true, m;
      }
      m := m + 1;
    }
    return false, 0;
  }

  /** The row for a head: the one that has it, else the first unused one. */
  method FindRow(loops: seq<Loop>, head: nat) returns (found: bool, m: nat)
    requires head != 0
    ensures found ==> m < |loops| && (loops[m].head == head || (loops[m].head == 0 && !HasRow(loops, head)))
    ensures found && loops[m].head == 0 ==> forall k :: 0 <= k < m ==> loops[k].head != 0
    ensures !found ==> !HasRow(loops, head) && forall k :: 0 <= k < |loops| ==> loops[k].head != 0
  {
    found, m := FindHead(loops, head);
    if found {
      return;
    }
    m := 0;
    while m < |loops|
      invariant m <= |loops| && forall k :: 0 <= k < m ==> loops[k].head != 0
    {
      if loops[m].head == 0 {
        return true, m;
      }
      m := m + 1;
    }
    return false, 0;
  }

  /** One more path leaves the rows of other heads alone. */
  lemma OnLoopStep(ps: seq<Path>, n: nat, head: nat, x: nat)
    requires ValidTable(ps) && n < |ps|
    ensures OnLoop(ps, n + 1, head, x) <==>
      OnLoop(ps, n, head, x) || (ps[n].loopHead != 0 && ps[n].loopHead == head && OnCycle(FullTrace(ps, n), x))
  {
    hide FullTrace, OnCycle;
    if OnLoop(ps, n + 1, head, x) {
      var p :| LoopPath(ps, n + 1, head, p) && OnCycle(FullTrace(ps, p), x);
      assert p == n || LoopPath(ps, n, head, p);
    }
    if OnLoop(ps, n, head, x) {
      var p :| LoopPath(ps, n, head, p) && OnCycle(FullTrace(ps, p), x);
      assert LoopPath(ps, n + 1, head, p);
    }
    if ps[n].loopHead != 0 && ps[n].loopHead == head && OnCycle(FullTrace(ps, n), x) {
      assert LoopPath(ps, n + 1, head, n);
    }
  }

  lemma NoRowNoLoop(ps: seq<Path>, n: nat, loops: seq<Loop>, head: nat, x: nat)
    requires ValidTable(ps) && n <= |ps| && LoopsUpTo(ps, n, loops) && !HasRow(loops, head)
    ensures !OnLoop(ps, n, head, x)
  {
  }

  lemma RowStep(ps: seq<Path>, n: nat, row: Loop)
    requires ValidTable(ps) && n < |ps| && RowExact(ps, n, row)
    requires ps[n].loopHead == 0 || row.head != ps[n].loopHead
    ensures RowExact(ps, n + 1, row)
  {
    forall x: nat ensures x in row.list <==> OnLoop(ps, n + 1, row.head, x) {
      OnLoopStep(ps, n, row.head, x);
    }
  }

  lemma MergedRow(ps: seq<Path>, n: nat, loops: seq<Loop>, m: nat, row: Loop)
    requires ValidTable(ps) && n < |ps| && LoopsUpTo(ps, n, loops) && m < |loops|
    requires ps[n].loopHead != 0 && row.head == ps[n].loopHead && Simple(row.list)
    requires loops[m].head == row.head || (loops[m].head == 0 && !HasRow(loops, row.head))
    requires forall x: nat :: x in row.list <==> x in loops[m].list || OnCycle(FullTrace(ps, n), x)
    ensures RowExact(ps, n + 1, row)
  {
    hide FullTrace, OnCycle;
    assert RowExact(ps, n, loops[m]);
    forall x: nat ensures x in row.list <==> OnLoop(ps, n + 1, row.head, x) {
      OnLoopStep(ps, n, row.head, x);
      if loops[m].head == 0 {
        NoRowNoLoop(ps, n, loops, row.head, x);
      }
    }
  }

  /** The heads of the loops that the first `n` paths close. */
  ghost function HeadSet(ps: seq<Path>, n: nat): (heads: set<nat>)
    requires n <= |ps|
  {
    set p: nat | p < n && ps[p].loopHead != 0 :: ps[p].loopHead
  }

  /** The heads that have a row. */
  ghost function RowHeads(loops: seq<Loop>): (heads: set<nat>) {
    set m: nat | m < |loops| && loops[m].head != 0 :: loops[m].head
  }

  ghost predicate DistinctHeads(loops: seq<Loop>) {
    forall m, k :: 0 <= m < k < |loops| && loops[m].head != 0 ==> loops[m].head != loops[k].head
  }

  lemma {:induction false} RowHeadsSize(loops: seq<Loop>)
    requires DistinctHeads(loops)
    ensures |RowHeads(loops)| <= |loops|
    ensures (forall m :: 0 <= m < |loops| ==> loops[m].head != 0) ==> |RowHeads(loops)| == |loops|
  {
    if loops != [] {
      var n := |loops| - 1;
      RowHeadsSize(loops[..n]);
      var h := loops[n].head;
      assert RowHeads(loops) == RowHeads(loops[..n]) + if h != 0 then {h} else {};
    }
  }

  lemma HeadSetNext(ps: seq<Path>, n: nat)
    requires n < |ps|
    ensures HeadSet(ps, n + 1) == HeadSet(ps, n) + if ps[n].loopHead != 0 then {ps[n].loopHead} else {}
  {
  }

  lemma RowHeadsNext(loops: seq<Loop>, m: nat, row: Loop)
    requires m < |loops| && row.head != 0 && (loops[m].head == row.head || loops[m].head == 0)
    ensures RowHeads(loops[m := row]) == RowHeads(loops) + {row.head}
  {
    var loops' := loops[m := row];
    forall h | h in RowHeads(loops) + {row.head} ensures h in RowHeads(loops') {
      if h == row.head {
        assert loops'[m].head == h;
      } else {
        var k: nat :| k < |loops| && loops[k].head == h;
        assert loops'[k].head == h;
      }
    }
  }

  /** A head that finds no row is one too many. */
  lemma TooManyHeads(ps: seq<Path>, n: nat, loops: seq<Loop>)
    requires n < |ps| && DistinctHeads(loops) && RowHeads(loops) == HeadSet(ps, n)
    requires ps[n].loopHead != 0 && !HasRow(loops, ps[n].loopHead)
    requires forall k :: 0 <= k < |loops| ==> loops[k].head != 0
    ensures |HeadSet(ps, |ps|)| > |loops|
  {
    RowHeadsSize(loops);
    HeadSetNext(ps, n);
    assert ps[n].loopHead !in RowHeads(loops);
    assert |HeadSet(ps, n + 1)| == |loops| + 1;
    SubsetSize(HeadSet(ps, n + 1), HeadSet(ps, |ps|));
  }

  /** One row more or longer. */
  lemma RowsStep(ps: seq<Path>, n: nat, loops: seq<Loop>, m: nat, row: Loop)
    requires ValidTable(ps) && n < |ps| && LoopsUpTo(ps, n, loops) && RowHeads(loops) == HeadSet(ps, n)
    requires m < |loops| && ps[n].loopHead != 0 && row.head == ps[n].loopHead && Simple(row.list)
    requires loops[m].head == row.head || (loops[m].head == 0 && !HasRow(loops, row.head))
    requires forall x: nat :: x in row.list <==> x in loops[m].list || OnCycle(FullTrace(ps, n), x)
    ensures LoopsUpTo(ps, n + 1, loops[m := row]) && RowHeads(loops[m := row]) == HeadSet(ps, n + 1)
  {
    hide FullTrace, OnLoop, OnCycle, RowExact, HeadSet, RowHeads;
    MergedRow(ps, n, loops, m, row);
    forall k | 0 <= k < |loops| && k != m ensures RowExact(ps, n + 1, loops[k]) {
      OtherHead(loops, m, row.head, k);
      RowStep(ps, n, loops[k]);
    }
    RowsKept(loops, loops[m := row], m);
    RowHeadsNext(loops, m, row);
    HeadSetNext(ps, n);
    NewHeadDistinct(loops, m, row);
  }

  lemma OtherHead(loops: seq<Loop>, m: nat, head: nat, k: nat)
    requires DistinctHeads(loops) && m < |loops| && k < |loops| && k != m && head != 0
    requires loops[m].head == head || !HasRow(loops, head)
    ensures loops[k].head != head
  {
  }

  lemma NewHeadDistinct(loops: seq<Loop>, m: nat, row: Loop)
    requires DistinctHeads(loops) && m < |loops| && row.head != 0
    requires loops[m].head == row.head || !HasRow(loops, row.head)
    ensures DistinctHeads(loops[m := row])
  {
    forall k: nat | k < |loops| && k != m ensures loops[k].head != row.head {
      OtherHead(loops, m, row.head, k);
    }
  }

  /** A path that is no loop path. */
  lemma RowsSkip(ps: seq<Path>, n: nat, loops: seq<Loop>)
    requires ValidTable(ps) && n < |ps| && LoopsUpTo(ps, n, loops) && RowHeads(loops) == HeadSet(ps, n)
    requires ps[n].loopHead == 0
    ensures LoopsUpTo(ps, n + 1, loops) && RowHeads(loops) == HeadSet(ps, n + 1)
  {
    hide FullTrace, OnLoop, OnCycle, RowExact, HeadSet, RowHeads;
    forall k | 0 <= k < |loops| ensures RowExact(ps, n + 1, loops[k]) {
      RowStep(ps, n, loops[k]);
    }
    HeadSetNext(ps, n);
  }

  /** Builds the rows; `failed` stands for the exit when every row is taken, which happens exactly
      when there are more loop heads than rows. */
  method BuildRows(ps: seq<Path>, loopSize: nat) returns (loops: seq<Loop>, failed: bool)
    requires LoopPathsClose(ps)
    ensures |loops| == loopSize
    ensures !failed ==> LoopsUpTo(ps, |ps|, loops) && RowHeads(loops) == HeadSet(ps, |ps|)
    ensures failed ==> forall k :: 0 <= k < loopSize ==> loops[k].head != 0
    ensures failed <==> |HeadSet(ps, |ps|)| > loopSize
    ensures forall m :: 0 <= m < loopSize ==> loops[m].nest == 0
  {
    hide FullTrace, LoopsUpTo, OnCycle, HeadSet, RowHeads;
    loops := seq(loopSize, i => Loop(0, 0, []));
    EmptyRows(ps, loops);
    assert RowHeads(loops) == HeadSet(ps, 0) by { NoHeadsYet(ps, loops); }
    for n := 0 to |ps|
      invariant |loops| == loopSize && LoopsUpTo(ps, n, loops) && RowHeads(loops) == HeadSet(ps, n)
      invariant forall m :: 0 <= m < loopSize ==> loops[m].nest == 0
    {
      if ps[n].loopHead != 0 {
        var found, m := FindRow(loops, ps[n].loopHead);
        RowsDistinct(ps, n, loops);
        if !found {
          TooManyHeads(ps, n, loops);
          return loops, true;
        }
        var row := MergePathIntoLoop(ps, loops[m], n);
        RowsStep(ps, n, loops, m, row);
        loops := loops[m := row];
      } else {
        RowsSkip(ps, n, loops);
      }
    }
    RowsDistinct(ps, |ps|, loops);
    RowHeadsSize(loops);
    failed := false;
  }

  lemma RowsDistinct(ps: seq<Path>, n: nat, loops: seq<Loop>)
    requires ValidTable(ps) && n <= |ps| && LoopsUpTo(ps, n, loops)
    ensures DistinctHeads(loops) && forall m :: 0 <= m < |loops| ==> Simple(loops[m].list)
  {
    hide OnLoop;
    forall m | 0 <= m < |loops| ensures Simple(loops[m].list) {
      assert RowExact(ps, n, loops[m]);
    }
  }

  // ----- Nesting

  /** The head that the parent of a path closes at, for the last of the first `n` paths that closes
      at `head` and has a parent that is a loop path. */
  ghost function NestOf(ps: seq<Path>, n: nat, head: nat): (nest: nat)
    requires ValidTable(ps) && n <= |ps|
  {
    if n == 0 then 0
    else if OffLoop(ps, n, head, n - 1) then ps[ps[n - 1].prev].loopHead
    else NestOf(ps, n - 1, head)
  }

  ghost predicate OffLoop(ps: seq<Path>, n: nat, head: nat, p: nat)
    requires ValidTable(ps)
  {
    LoopPath(ps, n, head, p) && ps[ps[p].prev].loopHead != 0
  }

  lemma OffLoopStep(ps: seq<Path>, n: nat, head: nat, p: nat)
    requires ValidTable(ps) && n < |ps|
    ensures OffLoop(ps, n + 1, head, p) <==> OffLoop(ps, n, head, p) || (p == n && OffLoop(ps, n + 1, head, n))
  {
  }

  /** A loop is nested exactly if one of its paths branches off a loop path. */
  lemma {:induction false} NestMeaning(ps: seq<Path>, n: nat, head: nat)
    requires ValidTable(ps) && n <= |ps|
    ensures NestOf(ps, n, head) != 0 <==> exists p: nat :: OffLoop(ps, n, head, p)
  {
    if n > 0 {
      var last: nat := n - 1;
      NestMeaning(ps, last, head);
      NestUnfold(ps, n, head);
      forall p: nat
        ensures OffLoop(ps, n, head, p) <==> OffLoop(ps, last, head, p) || (p == last && OffLoop(ps, n, head, last))
      {
        OffLoopStep(ps, last, head, p);
      }
    }
  }

  lemma NestUnfold(ps: seq<Path>, n: nat, head: nat)
    requires ValidTable(ps) && 1 <= n <= |ps|
    ensures OffLoop(ps, n, head, n - 1) ==> NestOf(ps, n, head) == ps[ps[n - 1].prev].loopHead != 0
    ensures !OffLoop(ps, n, head, n - 1) ==> NestOf(ps, n, head) == NestOf(ps, n - 1, head)
  {
  }

  /** The last path that closes at `head` and branches off a loop path. */
  ghost predicate LastOffLoop(ps: seq<Path>, n: nat, head: nat, p: nat)
    requires ValidTable(ps)
  {
    OffLoop(ps, n, head, p) && forall q: nat :: OffLoop(ps, n, head, q) ==> q <= p
  }

  /** What counts as the surrounding loop is the head of the parent of that path, whichever it is;
      without such a path there is none. */
  lemma {:induction false} NestExact(ps: seq<Path>, n: nat, head: nat, v: nat)
    requires ValidTable(ps) && n <= |ps| && v != 0
    ensures NestOf(ps, n, head) == v <==> exists p: nat :: LastOffLoop(ps, n, head, p) && ps[ps[p].prev].loopHead == v
  {
    if n > 0 {
      var last: nat := n - 1;
      NestExact(ps, last, head, v);
      NestUnfold(ps, n, head);
      forall p: nat
        ensures OffLoop(ps, n, head, p) <==> OffLoop(ps, last, head, p) || (p == last && OffLoop(ps, n, head, last))
      {
        OffLoopStep(ps, last, head, p);
      }
      if OffLoop(ps, n, head, last) {
        assert LastOffLoop(ps, n, head, last);
      } else {
        forall p: nat ensures LastOffLoop(ps, n, head, p) <==> LastOffLoop(ps, last, head, p) {
        }
      }
    }
  }

  ghost predicate NestsUpTo(ps: seq<Path>, n: nat, loops: seq<Loop>)
    requires ValidTable(ps) && n <= |ps|
  {
    forall m :: 0 <= m < |loops| ==> loops[m].nest == NestOf(ps, n, loops[m].head)
  }

  lemma NestKeepsTable(ps: seq<Path>, loops: seq<Loop>, m: nat, nest: nat)
    requires ValidTable(ps) && LoopsUpTo(ps, |ps|, loops) && m < |loops|
    ensures LoopsUpTo(ps, |ps|, loops[m := loops[m].(nest := nest)])
  {
    hide OnLoop;
    var loops' := loops[m := loops[m].(nest := nest)];
    forall k | 0 <= k < |loops'| ensures RowExact(ps, |ps|, loops'[k]) {
      assert RowExact(ps, |ps|, loops[k]);
    }
    forall p | 0 <= p < |ps| && ps[p].loopHead != 0 ensures HasRow(loops', ps[p].loopHead) {
      var k :| 0 <= k < |loops| && loops[k].head == ps[p].loopHead;
      assert loops'[k].head == ps[p].loopHead;
    }
  }

  lemma NestKeepsHeads(loops: seq<Loop>, m: nat, nest: nat)
    requires m < |loops|
    ensures RowHeads(loops[m := loops[m].(nest := nest)]) == RowHeads(loops)
  {
    var loops' := loops[m := loops[m].(nest := nest)];
    assert forall k :: 0 <= k < |loops| ==> loops'[k].head == loops[k].head;
  }

  lemma NoNests(ps: seq<Path>, loops: seq<Loop>)
    requires ValidTable(ps) && forall m :: 0 <= m < |loops| ==> loops[m].nest == 0
    ensures NestsUpTo(ps, 0, loops)
  {
  }

  lemma NestSkip(ps: seq<Path>, n: nat, loops: seq<Loop>)
    requires ValidTable(ps) && n < |ps| && NestsUpTo(ps, n, loops) && ps[n].loopHead == 0
    ensures NestsUpTo(ps, n + 1, loops)
  {
  }

  lemma NestNext(ps: seq<Path>, n: nat, loops: seq<Loop>, m: nat, nest: nat)
    requires ValidTable(ps) && n < |ps| && NestsUpTo(ps, n, loops) && m < |loops| && ps[n].loopHead != 0
    requires DistinctHeads(loops) && loops[m].head == ps[n].loopHead && nest == ps[ps[n].prev].loopHead
    ensures NestsUpTo(ps, n + 1, if nest != 0 then loops[m := loops[m].(nest := nest)] else loops)
  {
    forall k | 0 <= k < |loops| && k != m ensures loops[k].head != loops[m].head {
    }
  }

  /** Both passes. */
  method BuildControlFlowLoops(ps: seq<Path>, loopSize: nat) returns (loops: seq<Loop>, failed: bool)
    requires LoopPathsClose(ps)
    ensures |loops| == loopSize
    ensures !failed ==> LoopsUpTo(ps, |ps|, loops) && NestsUpTo(ps, |ps|, loops)
    ensures !failed ==> RowHeads(loops) == HeadSet(ps, |ps|)
    ensures failed ==> forall k :: 0 <= k < loopSize ==> loops[k].head != 0
    ensures failed <==> |HeadSet(ps, |ps|)| > loopSize
  {
    hide RowExact, HeadSet, RowHeads, FullTrace, NestsUpTo;
    loops, failed := BuildRows(ps, loopSize);
    if failed {
      return;
    }
    assert NestsUpTo(ps, 0, loops) by { NoNests(ps, loops); }
    for n := 0 to |ps|
      invariant |loops| == loopSize && LoopsUpTo(ps, |ps|, loops) && NestsUpTo(ps, n, loops)
      invariant RowHeads(loops) == HeadSet(ps, |ps|)
    {
      if ps[n].loopHead != 0 {
        var found, m := FindHead(loops, ps[n].loopHead);
        assert found;
        var tmp := ps[n].prev;
        NestNext(ps, n, loops, m, ps[tmp].loopHead);
        if ps[tmp].loopHead != 0 {
          NestKeepsTable(ps, loops, m, ps[tmp].loopHead);
          NestKeepsHeads(loops, m, ps[tmp].loopHead);
          loops := loops[m := loops[m].(nest := ps[tmp].loopHead)];
        }
      } else {
        NestSkip(ps, n, loops);
      }
    }
  }

  lemma EmptyRows(ps: seq<Path>, loops: seq<Loop>)
    requires ValidTable(ps) && forall m :: 0 <= m < |loops| ==> loops[m] == Loop(0, 0, [])
    ensures LoopsUpTo(ps, 0, loops)
  {
  }

  lemma NoHeadsYet(ps: seq<Path>, loops: seq<Loop>)
    requires forall m :: 0 <= m < |loops| ==> loops[m].head == 0
    ensures RowHeads(loops) == HeadSet(ps, 0)
  {
  }

  lemma RowsKept(loops: seq<Loop>, loops': seq<Loop>, m: nat)
    requires m < |loops| == |loops'| && loops' == loops[m := loops'[m]]
    requires loops[m].head == 0 || loops[m].head == loops'[m].head
    ensures forall h: nat :: h != 0 && HasRow(loops, h) ==> HasRow(loops', h)
    ensures HasRow(loops', loops'[m].head)
  {
    forall h: nat | h != 0 && HasRow(loops, h) ensures HasRow(loops', h) {
      var k :| 0 <= k < |loops| && loops[k].head == h;
      assert loops'[k].head == h;
    }
  }

  // ----- What a row is in the graph

  /** A walk from `x` to `y` that stays inside `list`. */
  ghost predicate InsideWalk(g: Cfg, list: seq<nat>, w: seq<nat>, x: nat, y: nat) {
    WalkBetween(g, w, x, y) && forall i :: 0 <= i < |w| ==> w[i] in list
  }

  /** Every node of a cycle reaches the head and is reached from it without leaving the cycle. */
  lemma CycleWalks(g: Cfg, w: seq<nat>, list: seq<nat>, x: nat) returns (to: seq<nat>, from: seq<nat>)
    requires IsWalk(g, w) && Loops(w) && OnCycle(w, x)
    requires forall y: nat :: OnCycle(w, y) ==> y in list
    ensures InsideWalk(g, list, to, x, Last(w)) && InsideWalk(g, list, from, Last(w), x)
  {
    var k: nat :| CycleIndex(w, x, k);
    var h := HeadIndex(w, |w| - 1);
    forall j | h <= j < |w| - 1 ensures w[j] in list {
      assert CycleIndex(w, w[j], j);
    }
    assert CycleIndex(w, w[h], h);
    assert k >= h;
    SubWalk(g, w, k, |w|);
    SubWalk(g, w, h, k + 1);
    to, from := w[k..|w|], w[h..k + 1];
  }

  /** `a` leads to the head and `c` from there around a cycle, without meeting a node twice on the way. */
  ghost predicate ClosedBy(g: Cfg, start: nat, a: seq<nat>, c: seq<nat>, head: nat) {
    WalkBetween(g, a, start, head) && WalkBetween(g, c, head, head) && |c| > 1 && Simple(Front(a) + Front(c))
  }

  /** In an exact table the row of a head lists exactly the nodes of the cycles that can be closed
      there behind a walk from the entry. */
  lemma RowIsCycles(g: Cfg, start: nat, ps: seq<Path>, row: Loop, x: nat)
    requires ExactTable(g, start, ps) && RowExact(ps, |ps|, row) && row.head != 0
    ensures x in row.list <==> exists a, c :: ClosedBy(g, start, a, c, row.head) && x in c
  {
    hide FullTrace, Stopped, OnCycle, WalkBetween, ClosedBy;
    if x in row.list {
      var p: nat :| LoopPath(ps, |ps|, row.head, p) && OnCycle(FullTrace(ps, p), x);
      assert Finished(g, start, ps, p);
      var a, c := CycleParts(g, start, FullTrace(ps, p), x);
    }
    if a, c :| ClosedBy(g, start, a, c, row.head) && x in c {
      var w := ClosedWalk(g, start, a, c, row.head, x);
      var p: nat :| p < |ps| && FullTrace(ps, p) == w;
      assert Finished(g, start, ps, p);
      assert LoopPath(ps, |ps|, row.head, p);
    }
  }

  lemma CycleParts(g: Cfg, start: nat, w: seq<nat>, x: nat) returns (a: seq<nat>, c: seq<nat>)
    requires Stopped(g, start, w) && Loops(w) && OnCycle(w, x)
    ensures ClosedBy(g, start, a, c, Last(w)) && x in c
  {
    var k: nat :| CycleIndex(w, x, k);
    var h := HeadIndex(w, |w| - 1);
    assert k >= h;
    SubWalk(g, w, 0, h + 1);
    SubWalk(g, w, h, |w|);
    a, c := w[0..h + 1], w[h..|w|];
    assert c[k - h] == x;
    assert Front(a) + Front(c) == Front(w);
  }

  lemma ClosedWalk(g: Cfg, start: nat, a: seq<nat>, c: seq<nat>, head: nat, x: nat) returns (w: seq<nat>)
    requires ClosedBy(g, start, a, c, head) && x in c
    ensures Stopped(g, start, w) && Loops(w) && Last(w) == head && OnCycle(w, x)
  {
    JoinWalks(g, a, c);
    w := a + c[1..];
    var f := Front(a) + Front(c);
    assert Front(w) == f;
    var h := |a| - 1;
    assert f[h] == c[0] == head;
    forall j | h < j < |w| - 1 ensures w[j] != head {
      assert w[j] == f[j];
    }
    var i: nat :| i < |c| && c[i] == x;
    var k: nat := if i == |c| - 1 then h else h + i;
    assert w[k] == f[k] == x;
    assert CycleIndex(w, x, k);
  }

  lemma {:induction false} HeadIndex(w: seq<nat>, n: nat) returns (h: nat)
    requires w != [] && n < |w| && exists i :: 0 <= i < n && w[i] == Last(w)
    ensures h < n && w[h] == Last(w) && forall j :: h < j < n ==> w[j] != Last(w)
  {
    if w[n - 1] == Last(w) {
      h := n - 1;
    } else {
      h := HeadIndex(w, n - 1);
    }
  }

  lemma NodeWalks(g: Cfg, start: nat, ps: seq<Path>, row: Loop, x: nat) returns (to: seq<nat>, from: seq<nat>)
    requires ExactTable(g, start, ps) && RowExact(ps, |ps|, row) && x in row.list
    ensures InsideWalk(g, row.list, to, x, row.head) && InsideWalk(g, row.list, from, row.head, x)
  {
    hide FullTrace, Stopped, OnCycle, InsideWalk;
    ExactTableCloses(g, start, ps);
    var p :| LoopPath(ps, |ps|, row.head, p) && OnCycle(FullTrace(ps, p), x);
    assert Closes(ps, p);
    assert Finished(g, start, ps, p);
    StoppedIsWalk(g, start, FullTrace(ps, p));
    forall y: nat | OnCycle(FullTrace(ps, p), y) ensures y in row.list {
      assert OnLoop(ps, |ps|, row.head, y);
    }
    to, from := CycleWalks(g, FullTrace(ps, p), row.list, x);
  }

  lemma StoppedIsWalk(g: Cfg, start: nat, w: seq<nat>)
    requires Stopped(g, start, w)
    ensures IsWalk(g, w)
  {
  }

  /** A loop list is strongly connected: any node reaches any other inside the list. */
  lemma LoopStronglyConnected(g: Cfg, start: nat, ps: seq<Path>, row: Loop, x: nat, y: nat) returns (w: seq<nat>)
    requires ExactTable(g, start, ps) && RowExact(ps, |ps|, row)
    requires x in row.list && y in row.list
    ensures row.head in row.list && InsideWalk(g, row.list, w, x, y)
  {
    var to, _ := NodeWalks(g, start, ps, row, x);
    var _, from := NodeWalks(g, start, ps, row, y);
    JoinWalks(g, to, from);
    w := to + from[1..];
    assert from[0] in row.list;
  }
}
