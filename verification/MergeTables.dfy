/** Merging two return blocks: the tables before and after, and why no run changes. */
module MergeTables {
  import opened Graph
  import opened FunctionTables
  import opened Rtl

  /** Instructions, links and validity of the nodes. */
  datatype Table = Table(start: seq<nat>, end: seq<nat>, succ: Cfg, prev: seq<seq<PrevLink>>, valid: seq<bool>)

  ghost predicate Shaped(t: Table) {
    && |t.start| == |t.end| == |t.succ| == |t.prev| == |t.valid|
    && forall n: nat, i: nat :: n < |t.succ| && i < |t.succ[n]| ==> IsNode(t.succ, t.succ[n][i])
  }

  /** The predecessor entries (node 0 marks an unknown one) are the links. A node may link twice to
      the same node. */
  ghost predicate Agree(t: Table)
    requires Shaped(t)
  {
    && (forall n: nat, m: nat :: n < |t.prev| && m < |t.prev[n]| && t.prev[n][m].node != 0 ==> IsLink(t.succ, t.prev[n][m], n))
    && (forall u: nat, i: nat :: 1 <= u < |t.succ| && i < |t.succ[u]| ==> PrevLink(u, i) in t.prev[t.succ[u][i]])
  }

  /** A valid return block with its instructions in the log and known predecessors. */
  ghost predicate ReturnBlock(log: seq<Instruction>, t: Table, n: nat)
    requires Shaped(t)
  {
    && IsExit(t.succ, n) && t.valid[n] && 1 <= t.start[n] <= t.end[n] < |log|
    && forall m: nat :: m < |t.prev[n]| ==> t.prev[n][m].node != 0
  }

  ghost predicate Mergeable(log: seq<Instruction>, t: Table, a: nat, b: nat) {
    Shaped(t) && Agree(t) && a != b && ReturnBlock(log, t, a) && ReturnBlock(log, t, b)
  }

  // ----- Comparing instructions

  /** `compare_inst` does not look at the second source. */
  predicate SameInst(i: Instruction, j: Instruction) {
    i.opcode == j.opcode && i.flags == j.flags && i.srcA == j.srcA && i.dstA == j.dstA
  }

  ghost predicate Similar(x: seq<Instruction>, y: seq<Instruction>) {
    |x| == |y| && forall i: nat :: i < |x| ==> SameInst(x[i], y[i])
  }

  // ----- Runs and their code

  function Instrs(log: seq<Instruction>, t: Table, n: nat): (code: seq<Instruction>) {
    if n < |t.start| && n < |t.end| && t.start[n] <= t.end[n] + 1 <= |log| then log[t.start[n]..t.end[n] + 1] else []
  }

  ghost function Code(log: seq<Instruction>, t: Table, w: seq<nat>): (code: seq<Instruction>) {
    if w == [] then [] else Code(log, t, Front(w)) + Instrs(log, t, Last(w))
  }

  lemma CodeSnoc(log: seq<Instruction>, t: Table, w: seq<nat>, n: nat)
    ensures Code(log, t, w + [n]) == Code(log, t, w) + Instrs(log, t, n)
  {
    assert Front(w + [n]) == w;
  }

  /** From a valid node along links to a return. */
  ghost predicate IsRun(t: Table, w: seq<nat>) {
    IsWalk(t.succ, w) && w[0] < |t.valid| && t.valid[w[0]] && IsExit(t.succ, Last(w))
  }

  /** The new run takes the same way; only where the old one ends in one of the two `ends` may it go
      through the other one, and on from there. */
  ghost predicate SameWay(w: seq<nat>, w': seq<nat>, ends: set<nat>)
    requires w != []
  {
    w' == w || (|w'| >= |w| && Front(w) <= w' && Last(w) in ends && w'[|w| - 1] in ends)
  }

  /** And it does the same. */
  ghost predicate SameRun(log: seq<Instruction>, t: Table, w: seq<nat>, t': Table, w': seq<nat>, ends: set<nat>) {
    w != [] && w' != [] && SameWay(w, w', ends) && Similar(Code(log, t', w'), Code(log, t, w))
  }

  ghost predicate HasRun(log: seq<Instruction>, t: Table, w: seq<nat>, t': Table, ends: set<nat>) {
    exists w' :: IsRun(t', w') && SameRun(log, t, w, t', w', ends)
  }

  ghost predicate CameFrom(log: seq<Instruction>, t: Table, t': Table, w': seq<nat>, ends: set<nat>) {
    exists w :: IsRun(t, w) && SameRun(log, t, w, t', w', ends)
  }

  /** Every run is still there, and every run from an old node was there. */
  ghost predicate Preserves(log: seq<Instruction>, t: Table, t': Table, ends: set<nat>) {
    && (forall w :: IsRun(t, w) ==> HasRun(log, t, w, t', ends))
    && (forall w' :: IsRun(t', w') && w'[0] < |t.succ| ==> CameFrom(log, t, t', w', ends))
  }

  /** Nodes with links are not the return blocks, so their code stays. */
  ghost predicate SameElsewhere(t: Table, t': Table, a: nat, b: nat) {
    && |t.start| == |t.end| <= |t'.start| == |t'.end|
    && forall n: nat :: n < |t.start| && n != a && n != b ==> t'.start[n] == t.start[n] && t'.end[n] == t.end[n]
  }

  lemma {:induction false} CodeStays(log: seq<Instruction>, t: Table, t': Table, a: nat, b: nat, w: seq<nat>)
    requires SameElsewhere(t, t', a, b)
    requires forall i: nat :: i < |w| ==> w[i] < |t.start| && w[i] != a && w[i] != b
    ensures Code(log, t', w) == Code(log, t, w)
  {
    if w != [] {
      CodeStays(log, t, t', a, b, Front(w));
      assert w[|w| - 1] == Last(w);
    }
  }

  lemma SimilarSelf(x: seq<Instruction>, y: seq<Instruction>, z: seq<Instruction>)
    requires Similar(y, z)
    ensures Similar(x + y, x + z)
  {
    forall i: nat | i < |x + y| ensures SameInst((x + y)[i], (x + z)[i]) {
      if i >= |x| {
        assert SameInst(y[i - |x|], z[i - |x|]);
      }
    }
  }

  // ----- Rewiring two return blocks

  /** Each node but the last has just the next one as successor; the last is a return. */
  ghost predicate OneWay(t: Table, w: seq<nat>) {
    && w != []
    && (forall i: nat, j: nat :: j == i + 1 && j < |w| ==> OnlyNext(t, w[i], w[j]))
    && IsExit(t.succ, Last(w))
  }

  ghost predicate OnlyNext(t: Table, u: nat, v: nat) {
    IsNode(t.succ, u) && IsNode(t.succ, v) && t.succ[u] == [v]
  }

  /** What a return block has become: nodes that do the same one after the other. */
  ghost predicate Becomes(log: seq<Instruction>, t: Table, t': Table, n: nat, tail: seq<nat>) {
    OneWay(t', tail) && Similar(Code(log, t', tail), Instrs(log, t, n))
  }

  /** Old links lead where they led, those to the return blocks to what these have become. */
  ghost predicate LinksFollow(t: Table, t': Table, a: nat, b: nat, toA: nat, toB: nat) {
    && (forall u: nat, v: nat :: Edge(t.succ, u, v) && v != a && v != b ==> Edge(t'.succ, u, v))
    && (forall u: nat :: Edge(t.succ, u, a) ==> Edge(t'.succ, u, toA))
    && (forall u: nat :: Edge(t.succ, u, b) ==> Edge(t'.succ, u, toB))
  }

  /** And there are no others. */
  ghost predicate LinksCameFrom(t: Table, t': Table, a: nat, b: nat, toA: nat, toB: nat) {
    forall u: nat, v: nat :: Edge(t'.succ, u, v) && u < |t.succ| && u != a && u != b ==> LinkCameFrom(t, u, v, a, b, toA, toB)
  }

  ghost predicate LinkCameFrom(t: Table, u: nat, v: nat, a: nat, b: nat, toA: nat, toB: nat) {
    (v == toA && Edge(t.succ, u, a)) || (v == toB && Edge(t.succ, u, b)) || (v != a && v != b && Edge(t.succ, u, v))
  }

  /** The other nodes return, and are valid, as before. */
  ghost predicate NodesStay(t: Table, t': Table, a: nat, b: nat) {
    forall n: nat :: n < |t.succ| && n < |t.valid| && n != a && n != b ==>
      && n < |t'.succ| && n < |t'.valid| && (IsExit(t'.succ, n) <==> IsExit(t.succ, n)) && t'.valid[n] == t.valid[n]
  }

  /** A valid return block of the new table is the beginning of what an old one has become. */
  ghost predicate Beginnings(t': Table, a: nat, b: nat, toA: nat, toB: nat) {
    && toA in {a, b} && toB in {a, b} && a < |t'.valid| && b < |t'.valid|
    && t'.valid[toA] && t'.valid[toB] && (t'.valid[a] ==> a in {toA, toB}) && (t'.valid[b] ==> b in {toA, toB})
  }

  ghost predicate Rewired(log: seq<Instruction>, t: Table, t': Table, a: nat, b: nat, tailA: seq<nat>, tailB: seq<nat>) {
    && tailA != [] && tailB != []
    && Becomes(log, t, t', a, tailA) && Becomes(log, t, t', b, tailB)
    && SameElsewhere(t, t', a, b) && NodesStay(t, t', a, b)
    && LinksFollow(t, t', a, b, tailA[0], tailB[0])
    && LinksCameFrom(t, t', a, b, tailA[0], tailB[0])
    && Beginnings(t', a, b, tailA[0], tailB[0])
  }

  lemma OneWayIsWalk(t: Table, w: seq<nat>)
    requires OneWay(t, w)
    ensures IsWalk(t.succ, w)
  {
    forall i, j | 0 <= i && j == i + 1 && j < |w| ensures Edge(t.succ, w[i], w[j]) {
      assert OnlyNext(t, w[i], w[j]);
      assert w[j] == t.succ[w[i]][0];
    }
    assert |w| > 1 ==> OnlyNext(t, w[0], w[1]);
  }

  /** A run that enters a one-way stretch goes through it. */
  lemma {:induction false} OneWayForced(t: Table, w: seq<nat>, r: seq<nat>)
    requires OneWay(t, w) && IsWalk(t.succ, r) && r[0] == w[0] && IsExit(t.succ, Last(r))
    ensures r == w
    decreases |w|
  {
    FrontHasLinks(t.succ, r);
    if |w| == 1 {
      assert r == [r[0]];
    } else {
      assert OnlyNext(t, w[0], w[1]);
      assert |r| > 1 by {
        assert t.succ[w[0]] != [];
      }
      assert Edge(t.succ, r[0], r[1]) && r[1] == t.succ[w[0]][0] == w[1];
      SubWalk(t.succ, r, 1, |r|);
      assert r[1..|r|] == r[1..];
      forall i: nat, j: nat | j == i + 1 && j < |w[1..]| ensures OnlyNext(t, w[1..][i], w[1..][j]) {
        var i', j' := i + 1, j + 1;
        assert OnlyNext(t, w[i'], w[j']);
      }
      OneWayForced(t, w[1..], r[1..]);
      assert w == [w[0]] + w[1..] && r == [r[0]] + r[1..];
    }
  }

  lemma Associative<T>(x: seq<T>, y: seq<T>, z: seq<T>)
    ensures (x + y) + z == x + (y + z)
  {
  }

  /** The common part of two runs, and what follows it. */
  lemma {:induction false} CodeConcat(log: seq<Instruction>, t: Table, p: seq<nat>, q: seq<nat>)
    ensures Code(log, t, p + q) == Code(log, t, p) + Code(log, t, q)
  {
    hide Instrs;
    if q == [] {
      assert p + q == p;
      assert Code(log, t, p + q) == Code(log, t, p) + [];
    } else {
      CodeConcat(log, t, p, Front(q));
      assert Front(p + q) == p + Front(q) && Last(p + q) == Last(q);
      Associative(Code(log, t, p), Code(log, t, Front(q)), Instrs(log, t, Last(q)));
    }
  }

  /** A way that avoids the return blocks is a way in both tables. */
  ghost predicate Apart(t: Table, w: seq<nat>, a: nat, b: nat) {
    forall i: nat :: i < |w| ==> w[i] < |t.start| && w[i] < |t.succ| && w[i] != a && w[i] != b
  }

  /** Joins a way to what follows. */
  lemma WayOn(g: Cfg, p: seq<nat>, q: seq<nat>)
    requires IsWalk(g, q) && (p != [] ==> IsWalk(g, p) && Edge(g, Last(p), q[0]))
    ensures IsWalk(g, p + q) && Last(p + q) == Last(q)
  {
    if p == [] {
      assert p + q == q;
    } else {
      ExtendWalk(g, p, q[0]);
      JoinWalks(g, p + [q[0]], q);
      assert p + q == (p + [q[0]]) + q[1..];
    }
  }

  // ----- Every run is still there

  lemma FrontApart(log: seq<Instruction>, t: Table, a: nat, b: nat, w: seq<nat>)
    requires Mergeable(log, t, a, b) && IsWalk(t.succ, w)
    ensures Apart(t, Front(w), a, b) && Last(w) < |t.succ|
  {
    FrontHasLinks(t.succ, w);
    WalkNodes(t.succ, w);
  }

  lemma ApartWalks(t: Table, t': Table, a: nat, b: nat, toA: nat, toB: nat, w: seq<nat>)
    requires LinksFollow(t, t', a, b, toA, toB) && NodesStay(t, t', a, b) && |t.valid| == |t.succ|
    requires IsWalk(t.succ, w) && Apart(t, w, a, b)
    ensures IsWalk(t'.succ, w)
  {
    hide NodesStay;
    assert IsNode(t'.succ, w[0]) by { assert NodesStay(t, t', a, b); KeptNode(t, t', a, b, w[0]); }
    forall i, j | 0 <= i && j == i + 1 && j < |w| ensures Edge(t'.succ, w[i], w[j]) {
      assert Edge(t.succ, w[i], w[j]);
    }
  }

  lemma KeptNode(t: Table, t': Table, a: nat, b: nat, n: nat)
    requires NodesStay(t, t', a, b) && |t.valid| == |t.succ| && IsNode(t.succ, n) && n != a && n != b
    ensures IsNode(t'.succ, n) && n < |t'.valid|
  {
    assert IsExit(t.succ, n) <==> IsExit(t'.succ, n);
  }

  lemma RunKept(log: seq<Instruction>, t: Table, t': Table, a: nat, b: nat, tailA: seq<nat>, tailB: seq<nat>, w: seq<nat>)
    requires Mergeable(log, t, a, b) && Shaped(t') && Rewired(log, t, t', a, b, tailA, tailB) && IsRun(t, w)
    ensures HasRun(log, t, w, t', {a, b})
  {
    var n := Last(w);
    if n == a {
      RunToReturn(log, t, t', a, b, tailA, tailB, w, a, tailA);
    } else if n == b {
      RunToReturn(log, t, t', a, b, tailA, tailB, w, b, tailB);
    } else {
      RunElsewhere(log, t, t', a, b, tailA, tailB, w);
    }
  }

  lemma RunElsewhere(log: seq<Instruction>, t: Table, t': Table, a: nat, b: nat, tailA: seq<nat>, tailB: seq<nat>,
                     w: seq<nat>)
    requires Mergeable(log, t, a, b) && Shaped(t') && Rewired(log, t, t', a, b, tailA, tailB) && IsRun(t, w)
    requires Last(w) != a && Last(w) != b
    ensures HasRun(log, t, w, t', {a, b})
  {
    hide Mergeable, Becomes, LinksFollow, LinksCameFrom, Code, Instrs;
    MergeableShape(log, t, a, b);
    FrontApart(log, t, a, b, w);
    assert w == Front(w) + [Last(w)];
    assert Apart(t, w, a, b);
    ApartWalks(t, t', a, b, tailA[0], tailB[0], w);
    CodeStays(log, t, t', a, b, w);
    assert SameRun(log, t, w, t', w, {a, b});
    assert IsRun(t', w);
  }

  lemma RunToReturn(log: seq<Instruction>, t: Table, t': Table, a: nat, b: nat, tailA: seq<nat>, tailB: seq<nat>,
                    w: seq<nat>, r: nat, tail: seq<nat>)
    requires Mergeable(log, t, a, b) && Shaped(t') && Rewired(log, t, t', a, b, tailA, tailB) && IsRun(t, w)
    requires Last(w) == r && ((r == a && tail == tailA) || (r == b && tail == tailB))
    ensures HasRun(log, t, w, t', {a, b})
  {
    hide Mergeable, LinksCameFrom, Code, Instrs, OneWay, Similar;
    MergeableShape(log, t, a, b);
    var f := Front(w);
    FrontApart(log, t, a, b, w);
    assert w == f + [r];
    var w' := f + tail;
    OneWayIsWalk(t', tail);
    if f != [] {
      SubWalk(t.succ, w, 0, |f|);
      assert w[0..|f|] == f;
      ApartWalks(t, t', a, b, tailA[0], tailB[0], f);
      var i, j := |f| - 1, |f|;
      assert Edge(t.succ, w[i], w[j]);
      assert Edge(t'.succ, Last(f), tail[0]);
    }
    WayOn(t'.succ, f, tail);
    assert IsRun(t', w') by { OneWayExit(t', tail); }
    CodeStays(log, t, t', a, b, f);
    CodeConcat(log, t', f, tail);
    CodeSnoc(log, t, f, r);
    SimilarSelf(Code(log, t, f), Code(log, t', tail), Instrs(log, t, r));
    assert SameRun(log, t, w, t', w', {a, b});
  }

  lemma OneWayExit(t: Table, w: seq<nat>)
    requires OneWay(t, w)
    ensures IsExit(t.succ, Last(w))
  {
  }

  // ----- Every run was there

  /** The first place where a walk meets a return block. */
  lemma {:induction false} FirstReturn(w: seq<nat>, a: nat, b: nat) returns (i: nat)
    ensures i <= |w| && (forall k: nat :: k < i ==> w[k] != a && w[k] != b)
    ensures i < |w| ==> w[i] == a || w[i] == b
  {
    i := 0;
    while i < |w| && w[i] != a && w[i] != b
      invariant i <= |w| && forall k: nat :: k < i ==> w[k] != a && w[k] != b
    {
      i := i + 1;
    }
  }

  /** Up to there a walk from an old node uses old links. */
  lemma {:induction false} OldWay(t: Table, t': Table, a: nat, b: nat, toA: nat, toB: nat, w: seq<nat>, i: nat)
    requires Shaped(t) && Shaped(t') && LinksCameFrom(t, t', a, b, toA, toB) && toA in {a, b} && toB in {a, b}
    requires IsWalk(t'.succ, w) && w[0] < |t.succ| && i <= |w| && forall k: nat :: k < i ==> w[k] != a && w[k] != b
    ensures Apart(t, w[..i], a, b) && (i > 0 ==> IsWalk(t.succ, w[..i]))
  {
    if i == 1 {
      assert IsNode(t'.succ, w[0]);
      assert w[..1] == [w[0]];
    } else if i > 1 {
      OldWay(t, t', a, b, toA, toB, w, i - 1);
      var k, j := i - 2, i - 1;
      assert w[..j][k] == w[k];
      assert Edge(t'.succ, w[k], w[j]);
      assert LinkCameFrom(t, w[k], w[j], a, b, toA, toB);
      assert Edge(t.succ, Last(w[..j]), w[j]);
      ExtendWalk(t.succ, w[..j], w[j]);
      assert w[..i] == w[..j] + [w[j]];
    }
  }

  lemma RunCame(log: seq<Instruction>, t: Table, t': Table, a: nat, b: nat, tailA: seq<nat>, tailB: seq<nat>,
                w': seq<nat>)
    requires Mergeable(log, t, a, b) && Shaped(t') && Rewired(log, t, t', a, b, tailA, tailB)
    requires IsRun(t', w') && w'[0] < |t.succ|
    ensures CameFrom(log, t, t', w', {a, b})
  {
    hide Mergeable, Becomes, LinksFollow, Code, Instrs, SameElsewhere;
    MergeableShape(log, t, a, b);
    var i := FirstReturn(w', a, b);
    OldWay(t, t', a, b, tailA[0], tailB[0], w', i);
    if i == |w'| {
      assert w'[..i] == w';
      CodeStays(log, t, t', a, b, w');
      assert SameRun(log, t, w', t', w', {a, b});
      assert IsRun(t, w') by { KeptRun(t, t', a, b, w'); }
    } else {
      var r := OldReturn(t, t', a, b, tailA[0], tailB[0], w', i);
      CameThrough(log, t, t', a, b, tailA, tailB, w', i, r, if r == a then tailA else tailB);
    }
  }

  lemma MergeableShape(log: seq<Instruction>, t: Table, a: nat, b: nat)
    requires Mergeable(log, t, a, b)
    ensures Shaped(t) && IsExit(t.succ, a) && IsExit(t.succ, b) && t.valid[a] && t.valid[b]
  {
  }

  lemma KeptRun(t: Table, t': Table, a: nat, b: nat, w: seq<nat>)
    requires Shaped(t) && Shaped(t') && NodesStay(t, t', a, b) && Apart(t, w, a, b) && IsWalk(t.succ, w) && IsRun(t', w)
    ensures IsRun(t, w)
  {
    var k := |w| - 1;
    assert w[0] < |t.succ| && w[k] < |t.succ|;
  }

  /** The return block the old run ends with. */
  lemma OldReturn(t: Table, t': Table, a: nat, b: nat, toA: nat, toB: nat, w: seq<nat>, i: nat) returns (r: nat)
    requires Shaped(t) && Shaped(t') && LinksCameFrom(t, t', a, b, toA, toB) && Beginnings(t', a, b, toA, toB)
    requires IsRun(t', w) && i < |w| && (w[i] == a || w[i] == b) && Apart(t, w[..i], a, b)
    ensures r == a || r == b
    ensures w[i] == if r == a then toA else toB
    ensures i > 0 ==> Edge(t.succ, w[i - 1], r)
  {
    if i == 0 {
      r := if w[0] == toA then a else b;
    } else {
      var k := i - 1;
      assert w[..i][k] == w[k];
      assert Edge(t'.succ, w[k], w[i]);
      assert LinkCameFrom(t, w[k], w[i], a, b, toA, toB);
      r := if w[i] == toA && Edge(t.succ, w[k], a) then a else b;
    }
  }

  lemma CameThrough(log: seq<Instruction>, t: Table, t': Table, a: nat, b: nat, tailA: seq<nat>, tailB: seq<nat>,
                    w': seq<nat>, i: nat, r: nat, tail: seq<nat>)
    requires Mergeable(log, t, a, b) && Shaped(t') && Rewired(log, t, t', a, b, tailA, tailB) && IsRun(t', w')
    requires i < |w'| && Apart(t, w'[..i], a, b) && (i > 0 ==> IsWalk(t.succ, w'[..i]) && Edge(t.succ, w'[i - 1], r))
    requires (r == a && tail == tailA) || (r == b && tail == tailB)
    requires w'[i] == tail[0]
    ensures CameFrom(log, t, t', w', {a, b})
  {
    hide Mergeable, LinksCameFrom, LinksFollow, Code, Instrs, OneWay, Similar;
    MergeableShape(log, t, a, b);
    var f := w'[..i];
    SubWalk(t'.succ, w', i, |w'|);
    assert w'[i..|w'|] == w'[i..];
    OneWayForced(t', tail, w'[i..]);
    assert w' == f + tail;
    var w := f + [r];
    assert f != [] ==> Last(f) == w'[i - 1];
    assert IsWalk(t.succ, [r]);
    WayOn(t.succ, f, [r]);
    assert IsRun(t, w) by { OldStart(t, t', a, b, w', f, r); }
    CodeStays(log, t, t', a, b, f);
    CodeConcat(log, t', f, tail);
    CodeSnoc(log, t, f, r);
    SimilarSelf(Code(log, t, f), Code(log, t', tail), Instrs(log, t, r));
    assert Front(w) == f;
    assert SameRun(log, t, w, t', w', {a, b});
  }

  lemma OldStart(t: Table, t': Table, a: nat, b: nat, w': seq<nat>, f: seq<nat>, r: nat)
    requires Shaped(t) && Shaped(t') && NodesStay(t, t', a, b) && IsRun(t', w') && f <= w' && Apart(t, f, a, b)
    requires (r == a || r == b) && IsExit(t.succ, a) && IsExit(t.succ, b) && t.valid[a] && t.valid[b]
    ensures var w := f + [r]; w[0] < |t.succ| && t.valid[w[0]] && IsExit(t.succ, Last(w))
  {
    if f != [] {
      assert f[0] == w'[0];
    }
  }

  /** A table that is rewired has the runs it had. */
  lemma RewiredPreserves(log: seq<Instruction>, t: Table, t': Table, a: nat, b: nat, tailA: seq<nat>, tailB: seq<nat>)
    requires Mergeable(log, t, a, b) && Shaped(t') && Rewired(log, t, t', a, b, tailA, tailB)
    ensures Preserves(log, t, t', {a, b})
  {
    hide Rewired, HasRun, CameFrom;
    forall w | IsRun(t, w) ensures HasRun(log, t, w, t', {a, b}) {
      RunKept(log, t, t', a, b, tailA, tailB, w);
    }
    forall w' | IsRun(t', w') && w'[0] < |t.succ| ensures CameFrom(log, t, t', w', {a, b}) {
      RunCame(log, t, t', a, b, tailA, tailB, w');
    }
  }
}
