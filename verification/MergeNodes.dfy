/** `analyse_merge_nodes`: two return blocks that end alike share their common end. */
module MergeNodes {
  import opened Graph
  import opened FunctionTables
  import opened Rtl
  import opened MergeTables
  import opened MergeMeaning

  // ----- The common end

  /** How much later the instructions of `b` end. */
  function Offset(t: Table, a: nat, b: nat): (d: int)
    requires a < |t.end| && b < |t.end|
  {
    var x: int, y: int := t.end[b], t.end[a];
    x - y
  }

  predicate SameAt(log: seq<Instruction>, k: nat, offset: int) {
    k < |log| && 0 <= k + offset < |log| && SameInst(log[k], log[k + offset])
  }

  /** From `from` to the end of `a` the instructions are like those before the end of `b`. */
  ghost predicate SameEnd(log: seq<Instruction>, t: Table, a: nat, b: nat, from: nat) {
    && a < |t.end| && b < |t.end|
    && forall k: nat :: from <= k <= t.end[a] ==> SameAt(log, k, Offset(t, a, b))
  }

  lemma SliceSimilar(log: seq<Instruction>, from: nat, to: nat, offset: int)
    requires from <= to <= |log| && 0 <= from + offset && to + offset <= |log|
    requires forall k: nat :: from <= k < to ==> SameAt(log, k, offset)
    ensures Similar(log[from..to], log[from + offset..to + offset])
  {
    var x, y := log[from..to], log[from + offset..to + offset];
    forall i: nat | i < |x| ensures SameInst(x[i], y[i]) {
      var k: nat := from + i;
      assert SameAt(log, k, offset);
      assert x[i] == log[k] && y[i] == log[k + offset];
    }
  }

  /** The common ends as code. */
  lemma SameEndSimilar(log: seq<Instruction>, t: Table, a: nat, b: nat, from: nat)
    requires SameEnd(log, t, a, b, from) && from <= t.end[a] < |log| && t.end[b] < |log|
    ensures from + Offset(t, a, b) >= 0
    ensures Similar(log[from..t.end[a] + 1], log[from + Offset(t, a, b)..t.end[b] + 1])
  {
    assert SameAt(log, from, Offset(t, a, b));
    SliceSimilar(log, from, t.end[a] + 1, Offset(t, a, b));
  }

  lemma CodeOne(log: seq<Instruction>, t: Table, n: nat)
    ensures Code(log, t, [n]) == Instrs(log, t, n)
  {
    CodeSnoc(log, t, [], n);
    assert [] + [n] == [n];
  }

  lemma CodeTwo(log: seq<Instruction>, t: Table, m: nat, n: nat)
    ensures Code(log, t, [m, n]) == Instrs(log, t, m) + Instrs(log, t, n)
  {
    CodeOne(log, t, m);
    CodeSnoc(log, t, [m], n);
    assert [m] + [n] == [m, n];
  }

  lemma SimilarRefl(x: seq<Instruction>)
    ensures Similar(x, x)
  {
  }

  /** A block cut in two, the second part replaced by one that is alike. */
  lemma CutAlike(log: seq<Instruction>, start: nat, cut: nat, end: nat, from: nat, to: nat)
    requires start <= cut <= end + 1 <= |log| && from <= to + 1 <= |log|
    requires Similar(log[from..to + 1], log[cut..end + 1])
    ensures Similar(log[start..cut] + log[from..to + 1], log[start..end + 1])
  {
    assert log[start..end + 1] == log[start..cut] + log[cut..end + 1];
    SimilarSelf(log[start..cut], log[from..to + 1], log[cut..end + 1]);
  }

  // ----- Both blocks alike

  /** The links named by the entries lead to `a`, the others where they led. */
  ghost predicate Retargeted(succ: Cfg, entries: seq<PrevLink>, a: nat, succ': Cfg) {
    && |succ'| == |succ|
    && (forall u: nat :: u < |succ| ==> |succ'[u]| == |succ[u]|)
    && (forall u: nat, i: nat :: u < |succ| && i < |succ[u]| ==>
          succ'[u][i] == if PrevLink(u, i) in entries then a else succ[u][i])
  }

  function SetLink(succ: Cfg, p: PrevLink, a: nat): (succ': Cfg)
    requires p.node < |succ| && p.link < |succ[p.node]|
  {
    var row: seq<nat> := succ[p.node][p.link := a];
    succ[p.node := row]
  }

  lemma RetargetNext(succ: Cfg, entries: seq<PrevLink>, a: nat, succ': Cfg, p: PrevLink)
    requires Retargeted(succ, entries, a, succ') && p.node < |succ'| && p.link < |succ'[p.node]|
    ensures Retargeted(succ, entries + [p], a, SetLink(succ', p, a))
  {
  }

  /** The table after two alike blocks have become one. */
  ghost predicate Unified(t: Table, t': Table, a: nat, b: nat)
    requires Shaped(t) && a < |t.start| && b < |t.start| && t.start[b] > 0
  {
    && t'.start == t.start && t'.end == t.end[b := t.start[b] - 1]
    && t'.prev == t.prev[a := t.prev[a] + t.prev[b]][b := []]
    && t'.valid == t.valid[b := false]
    && Retargeted(t.succ, t.prev[b], a, t'.succ)
  }

  /** A link leads to `b` exactly if its entry is in the table of `b`. */
  lemma EntriesOfB(log: seq<Instruction>, t: Table, a: nat, b: nat, u: nat, i: nat)
    requires Mergeable(log, t, a, b) && u < |t.succ| && i < |t.succ[u]| && u != 0
    ensures PrevLink(u, i) in t.prev[b] <==> t.succ[u][i] == b
  {
    if PrevLink(u, i) in t.prev[b] {
      var m: nat :| m < |t.prev[b]| && t.prev[b][m] == PrevLink(u, i);
      assert IsLink(t.succ, t.prev[b][m], b);
    }
  }

  lemma UnifiedShape(log: seq<Instruction>, t: Table, t': Table, a: nat, b: nat)
    requires Mergeable(log, t, a, b) && Unified(t, t', a, b)
    ensures Shaped(t') && Agree(t')
  {
    forall n: nat, m: nat | n < |t'.prev| && m < |t'.prev[n]| && t'.prev[n][m].node != 0 ensures IsLink(t'.succ, t'.prev[n][m], n) {
      var p := t'.prev[n][m];
      if n == a && m >= |t.prev[a]| {
        var k: nat := m - |t.prev[a]|;
        assert t.prev[b][k] == p && IsLink(t.succ, t.prev[b][k], b);
      } else {
        assert t.prev[n][m] == p && IsLink(t.succ, t.prev[n][m], n);
        EntriesOfB(log, t, a, b, p.node, p.link);
      }
    }
    forall u: nat, i: nat | 1 <= u < |t'.succ| && i < |t'.succ[u]| ensures PrevLink(u, i) in t'.prev[t'.succ[u][i]] {
      EntriesOfB(log, t, a, b, u, i);
      assert PrevLink(u, i) in t.prev[t.succ[u][i]];
    }
  }

  lemma UnifiedBecomes(log: seq<Instruction>, t: Table, t': Table, a: nat, b: nat)
    requires Mergeable(log, t, a, b) && Unified(t, t', a, b)
    requires t.start[a] + Offset(t, a, b) == t.start[b] && SameEnd(log, t, a, b, t.start[a])
    ensures Becomes(log, t, t', a, [a]) && Becomes(log, t, t', b, [a])
  {
    hide Agree, Code, Similar, SameEnd;
    CodeOne(log, t', a);
    SimilarRefl(Instrs(log, t, a));
    SameEndSimilar(log, t, a, b, t.start[a]);
  }

  lemma UnifiedRewires(log: seq<Instruction>, t: Table, t': Table, a: nat, b: nat)
    requires Mergeable(log, t, a, b) && Unified(t, t', a, b)
    requires t.start[a] + Offset(t, a, b) == t.start[b] && SameEnd(log, t, a, b, t.start[a])
    ensures Shaped(t') && Agree(t') && Rewired(log, t, t', a, b, [a], [a])
  {
    hide Agree, Becomes, LinksFollow, LinksCameFrom, SameElsewhere, NodesStay, Beginnings, SameEnd, Unified, IsLink;
    UnifiedShape(log, t, t', a, b);
    UnifiedBecomes(log, t, t', a, b);
    UnifiedLinks(log, t, t', a, b);
    UnifiedStays(log, t, t', a, b);
  }

  lemma UnifiedStays(log: seq<Instruction>, t: Table, t': Table, a: nat, b: nat)
    requires Mergeable(log, t, a, b) && Unified(t, t', a, b)
    ensures SameElsewhere(t, t', a, b) && NodesStay(t, t', a, b) && Beginnings(t', a, b, a, a)
  {
    hide Agree;
  }

  lemma UnifiedLinks(log: seq<Instruction>, t: Table, t': Table, a: nat, b: nat)
    requires Mergeable(log, t, a, b) && Unified(t, t', a, b)
    ensures LinksFollow(t, t', a, b, a, a) && LinksCameFrom(t, t', a, b, a, a)
  {
    forall u: nat, v: nat | Edge(t.succ, u, v) ensures Edge(t'.succ, u, if v == b then a else v) {
      var i: nat :| i < |t.succ[u]| && t.succ[u][i] == v;
      EntriesOfB(log, t, a, b, u, i);
      assert t'.succ[u][i] == if v == b then a else v;
    }
    forall u: nat, v: nat | Edge(t'.succ, u, v) ensures LinkCameFrom(t, u, v, a, b, a, a) {
      var i: nat :| i < |t'.succ[u]| && t'.succ[u][i] == v;
      EntriesOfB(log, t, a, b, u, i);
      assert t.succ[u][i] in t.succ[u] && IsNode(t.succ, t.succ[u][i]);
    }
  }

  /** The block that is given up holds no instruction, has no predecessor and starts no run. */
  lemma UnifiedEmpties(log: seq<Instruction>, t: Table, t': Table, a: nat, b: nat)
    requires Mergeable(log, t, a, b) && Unified(t, t', a, b)
    ensures Instrs(log, t', b) == [] && t'.prev[b] == [] && forall w :: IsRun(t', w) ==> w[0] != b
  {
    hide Agree;
  }

  ghost predicate DistinctLinks(succ: Cfg) {
    forall u: nat, i: nat, j: nat :: u < |succ| && i < j < |succ[u]| ==> succ[u][i] != succ[u][j]
  }

  /** A node that links to both blocks ends up with two links to the one that is left; that is the
      only way to lose what the path enumeration needs, one link for each successor. */
  lemma UnifiedDistinct(log: seq<Instruction>, t: Table, t': Table, a: nat, b: nat)
    requires Mergeable(log, t, a, b) && Unified(t, t', a, b) && DistinctLinks(t.succ)
    ensures DistinctLinks(t'.succ) <==> !exists u: nat :: Edge(t.succ, u, a) && Edge(t.succ, u, b)
  {
    if u: nat :| Edge(t.succ, u, a) && Edge(t.succ, u, b) {
      var i: nat :| i < |t.succ[u]| && t.succ[u][i] == a;
      var j: nat :| j < |t.succ[u]| && t.succ[u][j] == b;
      EntriesOfB(log, t, a, b, u, i);
      EntriesOfB(log, t, a, b, u, j);
      assert t'.succ[u][i] == t'.succ[u][j] == a;
    } else {
      forall u: nat, i: nat, j: nat | u < |t'.succ| && i < j < |t'.succ[u]| ensures t'.succ[u][i] != t'.succ[u][j] {
        if u != 0 {
          EntriesOfB(log, t, a, b, u, i);
          EntriesOfB(log, t, a, b, u, j);
          assert Edge(t.succ, u, t.succ[u][i]) && Edge(t.succ, u, t.succ[u][j]);
          assert t.succ[u][i] != t.succ[u][j];
        } else {
          assert PrevLink(0, i) !in t.prev[b] && PrevLink(0, j) !in t.prev[b];
        }
      }
    }
  }

  /** Node 1 forks into two return blocks of one instruction each. */
  function ForkTable(): (t: Table) {
    Table([0, 1, 2, 3], [0, 1, 2, 3], [[], [2, 3], [], []], [[], [], [PrevLink(1, 0)], [PrevLink(1, 1)]],
          [false, true, true, true])
  }

  lemma ForkShape()
    ensures var t := ForkTable(); Shaped(t) && DistinctLinks(t.succ) && Agree(t)
  {
    var t := ForkTable();
    forall n: nat, m: nat | n < |t.prev| && m < |t.prev[n]| && t.prev[n][m].node != 0 ensures IsLink(t.succ, t.prev[n][m], n) {
      assert n == 2 || n == 3;
    }
    forall u: nat, i: nat | 1 <= u < |t.succ| && i < |t.succ[u]| ensures PrevLink(u, i) in t.prev[t.succ[u][i]] {
      assert u == 1 && (i == 0 || i == 1);
    }
  }

  lemma ForkMergeable(i: Instruction)
    ensures Mergeable([i, i, i, i], ForkTable(), 2, 3)
  {
    hide Agree, DistinctLinks;
    ForkShape();
  }

  /** When its blocks are equal and made one, node 1 links to it twice. */
  lemma ForkLinksTwice(i: Instruction, t': Table)
    requires Shaped(ForkTable()) && Unified(ForkTable(), t', 2, 3)
    ensures t'.succ[1] == [2, 2]
  {
    hide Agree;
    ForkMergeable(i);
    EntriesOfB([i, i, i, i], ForkTable(), 2, 3, 1, 0);
    EntriesOfB([i, i, i, i], ForkTable(), 2, 3, 1, 1);
  }

  /** Equal up to the second source is not equal: if the blocks are made one, what ran through node 3
      now runs through node 2, whatever the difference. */
  lemma SecondSourceLost(k: Instruction, i: Instruction, j: Instruction, t': Table, alu: Alu, m: Machine)
    requires Shaped(ForkTable()) && Unified(ForkTable(), t', 2, 3) && SameInst(i, j)
    requires Step(alu, i, Step(alu, k, m)) != Step(alu, j, Step(alu, k, m))
    ensures var log, t := [k, k, i, j], ForkTable();
      && Mergeable(log, t, 2, 3) && LongestEnd(log, t, 2, 3, 2) && IsRun(t, [1, 3])
      && forall w' :: IsRun(t', w') && SameRun(log, t, [1, 3], t', w', {2, 3}) ==>
           Exec(alu, Code(log, t', w'), m) != Exec(alu, Code(log, t, [1, 3]), m)
  {
    hide Agree, Code, Exec, SameRun, Mergeable, LongestEnd, IsRun;
    var log, t := [k, k, i, j], ForkTable();
    ForkAlike(k, i, j);
    ForkLinksTwice(k, t');
    TwoBlocks(log, t, 3, alu, m);
    TwoBlocks(log, t', 2, alu, m);
    forall w' | IsRun(t', w') && SameRun(log, t, [1, 3], t', w', {2, 3})
      ensures Exec(alu, Code(log, t', w'), m) != Exec(alu, Code(log, t, [1, 3]), m)
    {
      ForkRun(log, t', w');
      assert w' == [1, 2];
    }
  }

  lemma ForkAlike(k: Instruction, i: Instruction, j: Instruction)
    requires SameInst(i, j)
    ensures Shaped(ForkTable()) && Mergeable([k, k, i, j], ForkTable(), 2, 3)
    ensures LongestEnd([k, k, i, j], ForkTable(), 2, 3, 2) && IsRun(ForkTable(), [1, 3])
  {
    hide Agree;
    ForkShape();
    assert SameAt([k, k, i, j], 2, 1);
  }

  /** Two blocks of one instruction each. */
  lemma TwoBlocks(log: seq<Instruction>, t: Table, n: nat, alu: Alu, m: Machine)
    requires 1 < |t.start| && n < |t.start| && |t.end| == |t.start| && |log| > 1 && n < |log|
    requires t.start[1] == t.end[1] == 1 && t.start[n] == t.end[n] == n
    ensures Exec(alu, Code(log, t, [1, n]), m) == Step(alu, log[n], Step(alu, log[1], m))
  {
    hide Step;
    CodeTwo(log, t, 1, n);
    assert Instrs(log, t, 1) == [log[1]] && Instrs(log, t, n) == [log[n]];
    ExecSnoc(alu, [log[1]], log[n], m);
    ExecSnoc(alu, [], log[1], m);
    assert [] + [log[1]] == [log[1]];
  }

  /** The runs through the fork that has become a line. */
  lemma ForkRun(log: seq<Instruction>, t': Table, w': seq<nat>)
    requires |t'.succ| == 4 && t'.succ[1] == [2, 2] && t'.succ[2] == [] && IsRun(t', w')
    requires SameRun(log, ForkTable(), [1, 3], t', w', {2, 3})
    ensures w' == [1, 2]
  {
    assert w'[0] == 1 by {
      assert Front([1, 3]) == [1];
    }
    assert |w'| > 1 ==> Edge(t'.succ, w'[0], w'[1]);
    assert |w'| > 2 ==> Edge(t'.succ, w'[1], w'[2]);
  }

  /** An addition of 1 and one of 2 are alike and give different sums. */
  lemma AdditionsDiffer(alu: Alu, m: Machine)
    requires PlainAlu(alu)
    ensures var ax := Operand(StoreReg, IndDirect, 64, REG_AX, 64);
      var i := Instruction(Add, 0, ax, Operand(StoreDirect, IndDirect, 64, 1, 64), ax);
      var j := i.(srcB := Operand(StoreDirect, IndDirect, 64, 2, 64));
      SameInst(i, j) && Step(alu, i, m) != Step(alu, j, m)
  {
    var x: int := Reg(m, REG_AX);
    assert Wrap(x + 1) != Wrap(x + 2);
    assert Reg(SetReg(m, REG_AX, Wrap(x + 1)), REG_AX) != Reg(SetReg(m, REG_AX, Wrap(x + 2)), REG_AX);
  }

  // ----- One block the end of the other

  ghost function Appended(t: Table, a: nat, b: nat, cut: nat): (t': Table)
    requires Shaped(t) && a < |t.start| && b < |t.start| && cut > 0
  {
    t.(end := t.end[b := cut - 1], prev := t.prev[a := t.prev[a] + [PrevLink(b, 0)]], succ := t.succ[b := [a]])
  }

  lemma AppendedBecomes(log: seq<Instruction>, t: Table, a: nat, b: nat, cut: nat)
    requires Mergeable(log, t, a, b) && cut == t.start[a] + Offset(t, a, b) && t.start[b] < cut
    requires SameEnd(log, t, a, b, t.start[a])
    ensures var t' := Appended(t, a, b, cut); Becomes(log, t, t', a, [a]) && Becomes(log, t, t', b, [b, a])
  {
    hide Agree, Code, Similar, SameEnd;
    var t' := Appended(t, a, b, cut);
    CodeOne(log, t', a);
    CodeTwo(log, t', b, a);
    SimilarRefl(Instrs(log, t, a));
    SameEndSimilar(log, t, a, b, t.start[a]);
    CutAlike(log, t.start[b], cut, t.end[b], t.start[a], t.end[a]);
    assert OnlyNext(t', b, a);
  }

  lemma AppendedRewires(log: seq<Instruction>, t: Table, a: nat, b: nat, cut: nat)
    requires Mergeable(log, t, a, b) && cut == t.start[a] + Offset(t, a, b) && t.start[b] < cut
    requires SameEnd(log, t, a, b, t.start[a])
    ensures var t' := Appended(t, a, b, cut); Shaped(t') && Agree(t') && Rewired(log, t, t', a, b, [a], [b, a])
  {
    hide Agree, Becomes, LinksFollow, LinksCameFrom, SameElsewhere, NodesStay, Beginnings, SameEnd, Appended, IsLink;
    AppendedAgrees(log, t, a, b, cut);
    AppendedBecomes(log, t, a, b, cut);
    AppendedLinks(log, t, a, b, cut);
    AppendedStays(log, t, a, b, cut);
  }

  lemma AppendedStays(log: seq<Instruction>, t: Table, a: nat, b: nat, cut: nat)
    requires Mergeable(log, t, a, b) && cut > 0
    ensures var t' := Appended(t, a, b, cut);
      SameElsewhere(t, t', a, b) && NodesStay(t, t', a, b) && Beginnings(t', a, b, a, b)
  {
    hide Agree;
  }

  lemma AppendedAgrees(log: seq<Instruction>, t: Table, a: nat, b: nat, cut: nat)
    requires Mergeable(log, t, a, b) && cut > 0
    ensures var t' := Appended(t, a, b, cut); Shaped(t') && Agree(t')
  {
    var t' := Appended(t, a, b, cut);
    forall n: nat, m: nat | n < |t'.prev| && m < |t'.prev[n]| && t'.prev[n][m].node != 0 ensures IsLink(t'.succ, t'.prev[n][m], n) {
      if m < |t.prev[n]| {
        assert t.prev[n][m] == t'.prev[n][m] && IsLink(t.succ, t.prev[n][m], n);
      }
    }
    forall u: nat, i: nat | 1 <= u < |t'.succ| && i < |t'.succ[u]| ensures PrevLink(u, i) in t'.prev[t'.succ[u][i]] {
      if u == b {
        assert t'.prev[a][|t.prev[a]|] == PrevLink(b, 0);
      } else {
        assert PrevLink(u, i) in t.prev[t.succ[u][i]];
      }
    }
  }

  lemma AppendedLinks(log: seq<Instruction>, t: Table, a: nat, b: nat, cut: nat)
    requires Mergeable(log, t, a, b) && cut > 0
    ensures var t' := Appended(t, a, b, cut); LinksFollow(t, t', a, b, a, b) && LinksCameFrom(t, t', a, b, a, b)
  {
  }

  // ----- A common end split off

  /** `leftover` is what the reallocated table holds as links of the new row, which nothing sets. */
  ghost function Split(t: Table, a: nat, b: nat, from: nat, cut: nat, leftover: seq<nat>): (t': Table)
    requires Shaped(t) && a < |t.start| && b < |t.start| && from > 0 && cut > 0
  {
    Table(t.start + [from], t.end[a := from - 1][b := cut - 1] + [t.end[a]],
          t.succ[a := [|t.succ|]][b := [|t.succ|]] + [leftover],
          t.prev + [[PrevLink(a, 0), PrevLink(b, 0)]], t.valid + [true])
  }

  /** The common end starts at `from` in `a` and at `cut` in `b`, inside both. */
  ghost predicate Inside(log: seq<Instruction>, t: Table, a: nat, b: nat, from: nat, cut: nat) {
    && Mergeable(log, t, a, b) && t.start[a] < from <= t.end[a] && cut == from + Offset(t, a, b)
    && t.start[b] <= t.start[a] + Offset(t, a, b)
  }

  lemma SplitBecomes(log: seq<Instruction>, t: Table, a: nat, b: nat, from: nat, cut: nat)
    requires Inside(log, t, a, b, from, cut) && SameEnd(log, t, a, b, from)
    ensures var t', n := Split(t, a, b, from, cut, []), |t.succ|; Becomes(log, t, t', a, [a, n]) && Becomes(log, t, t', b, [b, n])
  {
    hide Agree, Code, Similar, SameEnd;
    var t', n := Split(t, a, b, from, cut, []), |t.succ|;
    CodeTwo(log, t', a, n);
    CodeTwo(log, t', b, n);
    SimilarRefl(log[from..t.end[a] + 1]);
    SameEndSimilar(log, t, a, b, from);
    CutAlike(log, t.start[a], from, t.end[a], from, t.end[a]);
    CutAlike(log, t.start[b], cut, t.end[b], from, t.end[a]);
    assert OnlyNext(t', a, n) && OnlyNext(t', b, n);
  }

  lemma SplitRewires(log: seq<Instruction>, t: Table, a: nat, b: nat, from: nat, cut: nat)
    requires Inside(log, t, a, b, from, cut) && SameEnd(log, t, a, b, from)
    ensures var t', n := Split(t, a, b, from, cut, []), |t.succ|; Shaped(t') && Rewired(log, t, t', a, b, [a, n], [b, n])
  {
    hide Agree, Becomes, LinksFollow, LinksCameFrom, SameElsewhere, NodesStay, Beginnings, SameEnd, Split, IsLink;
    SplitAgrees(log, t, a, b, from, cut, []);
    SplitBecomes(log, t, a, b, from, cut);
    SplitLinks(log, t, a, b, from, cut);
    SplitStays(log, t, a, b, from, cut);
  }

  lemma SplitStays(log: seq<Instruction>, t: Table, a: nat, b: nat, from: nat, cut: nat)
    requires Mergeable(log, t, a, b) && from > 0 && cut > 0
    ensures var t' := Split(t, a, b, from, cut, []);
      SameElsewhere(t, t', a, b) && NodesStay(t, t', a, b) && Beginnings(t', a, b, a, b)
  {
    hide Agree;
  }

  /** The link tables agree only if nothing is left over: no predecessor entry names such a link. */
  lemma SplitAgrees(log: seq<Instruction>, t: Table, a: nat, b: nat, from: nat, cut: nat, leftover: seq<nat>)
    requires Mergeable(log, t, a, b) && from > 0 && cut > 0
    ensures var t' := Split(t, a, b, from, cut, leftover); (Shaped(t') && Agree(t')) <==> leftover == []
  {
    hide Agree;
    var t', n := Split(t, a, b, from, cut, leftover), |t.succ|;
    if leftover == [] {
      SplitEntries(log, t, a, b, from, cut);
    } else if Shaped(t') {
      assert t'.succ[n] == leftover;
      StrayLink(log, t, a, b, t', n);
    }
  }

  lemma StrayLink(log: seq<Instruction>, t: Table, a: nat, b: nat, t': Table, n: nat)
    requires Mergeable(log, t, a, b) && Shaped(t') && n == |t.succ|
    requires t'.prev == t.prev + [[PrevLink(a, 0), PrevLink(b, 0)]] && n < |t'.succ| && t'.succ[n] != []
    ensures !Agree(t')
  {
    var x := t'.succ[n][0];
    forall m: nat | m < |t'.prev[x]| ensures t'.prev[x][m] != PrevLink(n, 0) {
      if x < n && t.prev[x][m].node != 0 {
        assert IsLink(t.succ, t.prev[x][m], x);
      }
    }
    assert PrevLink(n, 0) !in t'.prev[x];
  }

  lemma SplitEntries(log: seq<Instruction>, t: Table, a: nat, b: nat, from: nat, cut: nat)
    requires Mergeable(log, t, a, b) && from > 0 && cut > 0
    ensures var t' := Split(t, a, b, from, cut, []); Shaped(t') && Agree(t')
  {
    var t', new' := Split(t, a, b, from, cut, []), |t.succ|;
    forall n: nat, m: nat | n < |t'.prev| && m < |t'.prev[n]| && t'.prev[n][m].node != 0
      ensures IsLink(t'.succ, t'.prev[n][m], n)
    {
      if n < |t.prev| {
        assert t.prev[n][m] == t'.prev[n][m] && IsLink(t.succ, t.prev[n][m], n);
      }
    }
    forall u: nat, i: nat | 1 <= u < |t'.succ| && i < |t'.succ[u]| ensures PrevLink(u, i) in t'.prev[t'.succ[u][i]] {
      if u == a || u == b {
        assert t'.prev[new'][0] == PrevLink(a, 0) && t'.prev[new'][1] == PrevLink(b, 0);
      } else {
        assert u < |t.succ| && PrevLink(u, i) in t.prev[t.succ[u][i]];
      }
    }
  }

  lemma SplitLinks(log: seq<Instruction>, t: Table, a: nat, b: nat, from: nat, cut: nat)
    requires Mergeable(log, t, a, b) && from > 0 && cut > 0
    ensures var t' := Split(t, a, b, from, cut, []); LinksFollow(t, t', a, b, a, b) && LinksCameFrom(t, t', a, b, a, b)
  {
    var t' := Split(t, a, b, from, cut, []);
    forall u: nat, v: nat | Edge(t'.succ, u, v) && u < |t.succ| && u != a && u != b
      ensures LinkCameFrom(t, u, v, a, b, a, b)
    {
      assert t'.succ[u] == t.succ[u];
      var i: nat :| i < |t.succ[u]| && t.succ[u][i] == v;
      assert IsNode(t.succ, t.succ[u][i]);
    }
  }

  // ----- What is left over in the new row

  /** Every block has instructions, all in the log, as `build_control_flow_nodes` leaves them. */
  ghost predicate Filled(log: seq<Instruction>, t: Table) {
    forall n: nat :: 1 <= n < |t.start| && n < |t.end| ==> t.start[n] <= t.end[n] < |log|
  }

  lemma CodeGrows(log: seq<Instruction>, t: Table, p: seq<nat>, q: seq<nat>)
    ensures |Code(log, t, p + q)| >= |Code(log, t, p)|
  {
    CodeConcat(log, t, p, q);
  }

  /** If the new row has links, what starts in one of the two blocks runs on beyond their code. */
  lemma RunsOn(log: seq<Instruction>, t: Table, a: nat, b: nat, from: nat, cut: nat, leftover: seq<nat>, w: seq<nat>)
    requires Inside(log, t, a, b, from, cut) && Filled(log, t) && leftover != []
    requires var t' := Split(t, a, b, from, cut, leftover); IsRun(t', w) && w[0] in {a, b}
    ensures |Code(log, Split(t, a, b, from, cut, leftover), w)| > |Instrs(log, t, a)|
  {
    hide Agree, Code;
    var t', n := Split(t, a, b, from, cut, leftover), |t.succ|;
    assert |w| > 1 && w[1] == n by {
      if |w| > 1 { assert Edge(t'.succ, w[0], w[1]); }
    }
    assert |w| > 2 && IsNode(t'.succ, w[2]) by {
      assert t'.succ[n] == leftover;
      if |w| > 2 { assert Edge(t'.succ, w[1], w[2]); }
    }
    CodeTwo(log, t', w[0], n);
    CodeSnoc(log, t', [w[0], n], w[2]);
    var first := [w[0], n] + [w[2]];
    CodeGrows(log, t', first, w[3..]);
    assert w == first + w[3..];
    assert |Instrs(log, t', w[0])| >= from - t.start[a] && |Instrs(log, t', n)| == t.end[a] + 1 - from;
    assert |Instrs(log, t', w[2])| >= 1;
  }

  /** The runs are kept exactly if nothing is left over in the new row: otherwise the run that was
      the block `a` alone is gone. */
  lemma SplitPreserves(log: seq<Instruction>, t: Table, a: nat, b: nat, from: nat, cut: nat, leftover: seq<nat>)
    requires Inside(log, t, a, b, from, cut) && SameEnd(log, t, a, b, from) && Filled(log, t)
    ensures Preserves(log, t, Split(t, a, b, from, cut, leftover), {a, b}) <==> leftover == []
  {
    hide Agree, SameEnd, Split, Rewired, Code, Instrs, CameFrom;
    var t', n := Split(t, a, b, from, cut, leftover), |t.succ|;
    if leftover == [] {
      SplitRewires(log, t, a, b, from, cut);
      RewiredPreserves(log, t, t', a, b, [a, n], [b, n]);
    } else if Preserves(log, t, t', {a, b}) {
      assert IsRun(t, [a]);
      assert HasRun(log, t, [a], t', {a, b});
      var w :| IsRun(t', w) && SameRun(log, t, [a], t', w, {a, b});
      CodeOne(log, t, a);
      RunsOn(log, t, a, b, from, cut, leftover, w);
      assert false;
    }
  }

  /** Node 1 forks into two return blocks that have only their last instruction in common. */
  function ForkedEnds(): (t: Table) {
    Table([0, 1, 2, 4], [0, 1, 3, 5], [[], [2, 3], [], []], [[], [], [PrevLink(1, 0)], [PrevLink(1, 1)]],
          [false, true, true, true])
  }

  /** Such blocks are split, and lose a run if the new row has links. */
  lemma LeftoverLosesRun(i: Instruction, j: Instruction, k: Instruction, leftover: seq<nat>)
    requires !SameInst(i, j)
    ensures var log, t := [k, k, i, k, j, k], ForkedEnds();
      && Mergeable(log, t, 2, 3) && Filled(log, t) && LongestEnd(log, t, 2, 3, 3)
      && (Preserves(log, t, Split(t, 2, 3, 3, 5, leftover), {2, 3}) <==> leftover == [])
  {
    hide Agree, Preserves, Split;
    var log, t := [k, k, i, k, j, k], ForkedEnds();
    assert t == ForkTable().(start := t.start, end := t.end);
    ForkShape();
    assert Agree(t) by { SameAgree(ForkTable(), t); }
    assert SameAt(log, 3, 2) && !SameAt(log, 2, 2);
    SplitPreserves(log, t, 2, 3, 3, 5, leftover);
  }

  lemma SameAgree(t: Table, t': Table)
    requires Shaped(t) && Shaped(t') && Agree(t) && t'.succ == t.succ && t'.prev == t.prev
    ensures Agree(t')
  {
  }

  // ----- The algorithm

  /** The longest common end of the not longer block `a` and `b` starts at `from` in `a`. */
  ghost predicate LongestEnd(log: seq<Instruction>, t: Table, a: nat, b: nat, from: nat)
    requires Shaped(t) && a < |t.start| && b < |t.start|
  {
    && t.start[a] + Offset(t, a, b) >= t.start[b]
    && t.start[a] <= from <= t.end[a] && SameEnd(log, t, a, b, from)
    && (from > t.start[a] ==> !SameAt(log, from - 1, Offset(t, a, b)))
  }

  /** The table after that end has been shared. */
  ghost predicate Shared(log: seq<Instruction>, t: Table, t': Table, a: nat, b: nat, from: nat,
                         leftover: seq<nat>)
    requires Mergeable(log, t, a, b) && LongestEnd(log, t, a, b, from)
  {
    if from > t.start[a] then t' == Split(t, a, b, from, from + Offset(t, a, b), leftover)
    else if t.start[a] + Offset(t, a, b) == t.start[b] then Unified(t, t', a, b)
    else t' == Appended(t, a, b, from + Offset(t, a, b))
  }

  /** The tables agree unless a new row came with links; then they do not, and a run is lost. */
  lemma SharedPreserves(log: seq<Instruction>, t: Table, t': Table, a: nat, b: nat, from: nat, leftover: seq<nat>)
    requires Mergeable(log, t, a, b) && LongestEnd(log, t, a, b, from) && Shared(log, t, t', a, b, from, leftover)
    ensures (Shaped(t') && Agree(t')) <==> (leftover == [] || |t'.succ| == |t.succ|)
    ensures leftover == [] || |t'.succ| == |t.succ| ==> Preserves(log, t, t', {a, b})
    ensures leftover != [] && |t'.succ| != |t.succ| && Filled(log, t) ==> !Preserves(log, t, t', {a, b})
  {
    hide Agree, Rewired, SameEnd, Split, Appended, Unified, Becomes, Preserves;
    var cut: int := from + Offset(t, a, b);
    if from > t.start[a] {
      assert |t'.succ| == |t.succ| + 1 by { SplitSize(t, a, b, from, cut, leftover); }
      SplitAgrees(log, t, a, b, from, cut, leftover);
      if leftover == [] {
        SplitRewires(log, t, a, b, from, cut);
        RewiredPreserves(log, t, t', a, b, [a, |t.succ|], [b, |t.succ|]);
      } else if Filled(log, t) {
        SplitPreserves(log, t, a, b, from, cut, leftover);
      }
    } else if t.start[a] + Offset(t, a, b) == t.start[b] {
      assert |t'.succ| == |t.succ| by { UnifiedSize(t, t', a, b); }
      UnifiedRewires(log, t, t', a, b);
      RewiredPreserves(log, t, t', a, b, [a], [a]);
    } else {
      assert |t'.succ| == |t.succ| by { AppendedSize(t, a, b, cut); }
      AppendedRewires(log, t, a, b, cut);
      RewiredPreserves(log, t, t', a, b, [a], [b, a]);
    }
  }

  lemma SplitSize(t: Table, a: nat, b: nat, from: nat, cut: nat, leftover: seq<nat>)
    requires Shaped(t) && a < |t.start| && b < |t.start| && from > 0 && cut > 0
    ensures |Split(t, a, b, from, cut, leftover).succ| == |t.succ| + 1
  {
  }

  lemma UnifiedSize(t: Table, t': Table, a: nat, b: nat)
    requires Shaped(t) && a < |t.start| && b < |t.start| && t.start[b] > 0 && Unified(t, t', a, b)
    ensures |t'.succ| == |t.succ|
  {
  }

  lemma AppendedSize(t: Table, a: nat, b: nat, cut: nat)
    requires Shaped(t) && a < |t.start| && b < |t.start| && cut > 0
    ensures |Appended(t, a, b, cut).succ| == |t.succ|
  {
  }

  class NodeTable {
    const log: seq<Instruction>
    var instStart: seq<nat>
    var instEnd: seq<nat>
    var succ: Cfg
    var prev: seq<seq<PrevLink>>
    var valid: seq<bool>

    constructor (code: seq<Instruction>, t: Table)
      ensures log == code && View() == t
    {
      log := code;
      instStart, instEnd, succ, prev, valid := t.start, t.end, t.succ, t.prev, t.valid;
    }

    ghost function View(): (t: Table)
      reads this
    {
      Table(instStart, instEnd, succ, prev, valid)
    }

    /** Compares backwards from the ends; the comparison stays in both blocks. The result is the
        place in `a` where it stopped. */
    method CommonEnd(a: nat, b: nat, offset: int) returns (n: int)
      requires Mergeable(log, View(), a, b) && offset == Offset(View(), a, b)
      requires instStart[a] + offset >= instStart[b]
      ensures instStart[a] - 1 <= n <= instEnd[a]
      ensures n < instEnd[a] ==> LongestEnd(log, View(), a, b, n + 1)
      ensures n == instEnd[a] <==> !SameInst(log[instEnd[a]], log[instEnd[b]])
    {
      n := instEnd[a];
      while n >= instStart[a]
        invariant instStart[a] - 1 <= n <= instEnd[a]
        invariant forall k: nat :: n < k <= instEnd[a] ==> SameAt(log, k, offset)
      {
        assert instStart[b] <= n + offset <= instEnd[b];
        if !SameInst(log[n], log[n + offset]) {
          assert !SameAt(log, n, offset);
          break;
        }
        n := n - 1;
      }
      if n < instEnd[a] {
        assert SameAt(log, instEnd[a], offset);
      }
    }

    /** Gives the predecessors of `b` to `a` and their links with them. */
    method TakeOver(a: nat, b: nat)
      requires Mergeable(log, View(), a, b)
      modifies this
      ensures Unified(old(View()), View(), a, b)
    {
      ghost var t := View();
      var entries := prev[b];
      assert t.prev[a] + entries[..0] == t.prev[a];
      for m := 0 to |entries|
        invariant instStart == t.start && instEnd == t.end && valid == t.valid
        invariant prev == t.prev[a := t.prev[a] + entries[..m]]
        invariant Retargeted(t.succ, entries[..m], a, succ)
      {
        assert IsLink(t.succ, t.prev[b][m], b);
        RetargetNext(t.succ, entries[..m], a, succ, entries[m]);
        assert entries[..m + 1] == entries[..m] + [entries[m]];
        assert t.prev[a] + entries[..m + 1] == (t.prev[a] + entries[..m]) + [entries[m]];
        prev := prev[a := prev[a] + [entries[m]]];
        succ := SetLink(succ, entries[m], a);
      }
      assert entries[..|entries|] == entries;
      instEnd := instEnd[b := instStart[b] - 1];
      prev := prev[b := []];
      valid := valid[b := false];
    }

    /** Shares the common end that starts at `from` in `a`: the whole of both blocks, the whole of
        `a`, or a new block. */
    method ShareEnd(a: nat, b: nat, from: nat, leftover: seq<nat>)
      requires Mergeable(log, View(), a, b) && LongestEnd(log, View(), a, b, from)
      modifies this
      ensures Shared(log, old(View()), View(), a, b, from, leftover)
    {
      hide Agree, SameEnd, SameAt;
      var offset: int := (instEnd[b] as int) - instEnd[a];
      if from == instStart[a] {
        if instStart[a] + offset == instStart[b] {
          TakeOver(a, b);
        } else {
          prev := prev[a := prev[a] + [PrevLink(b, 0)]];
          instEnd := instEnd[b := from + offset - 1];
          succ := succ[b := [a]];
        }
      } else {
        var nodeNew := |succ|;
        instStart := instStart + [from];
        instEnd := instEnd[a := from - 1][b := from + offset - 1] + [instEnd[a]];
        prev := prev + [[PrevLink(a, 0), PrevLink(b, 0)]];
        valid := valid + [true];
        succ := succ[a := [nodeNew]][b := [nodeNew]] + [leftover];
      }
    }

    /** Shares the longest common end of two return blocks, if their last instructions are alike.
        `leftover` is what a reallocated table holds as links of a row it did not have. Unless such a
        row is used and has links, every run to a return is still there and none is new, instruction
        for instruction up to the comparison, so that it leaves the same machine if its second sources
        agree, and the link tables agree; otherwise neither holds. */
    method AnalyseMergeNodes(nodeA: nat, nodeB: nat, leftover: seq<nat>) returns (ret: int)
      requires Mergeable(log, View(), nodeA, nodeB)
      modifies this
      ensures ret == 0 || ret == 1
      ensures ret == 0 <==> !SameInst(log[old(instEnd[nodeA])], log[old(instEnd[nodeB])])
      ensures ret == 0 ==> View() == old(View())
      ensures ret == 1 ==> exists a: nat, b: nat, from: nat ::
        && ((a == nodeA && b == nodeB) || (a == nodeB && b == nodeA))
        && LongestEnd(log, old(View()), a, b, from) && Shared(log, old(View()), View(), a, b, from, leftover)
      ensures (Shaped(View()) && Agree(View())) <==> (leftover == [] || |succ| == old(|succ|))
      ensures ret == 1 && (leftover == [] || |succ| == old(|succ|)) ==>
        Preserves(log, old(View()), View(), {nodeA, nodeB}) && Behaves(log, old(View()), View(), {nodeA, nodeB})
      ensures leftover != [] && |succ| != old(|succ|) && Filled(log, old(View())) ==>
        !Preserves(log, old(View()), View(), {nodeA, nodeB})
    {
      hide Agree, SameEnd, SameAt, Shared, Preserves, Behaves, Rewired;
      ghost var t := View();
      var a, b := nodeA, nodeB;
      if (instEnd[a] as int) - instStart[a] > (instEnd[b] as int) - instStart[b] {
        a, b := nodeB, nodeA;
      }
      SameSymmetric(log[instEnd[nodeA]], log[instEnd[nodeB]]);
      var offset: int := (instEnd[b] as int) - instEnd[a];
      var n := CommonEnd(a, b, offset);
      if n == instEnd[a] {
        return 0;
      }
      var from: nat := n + 1;
      ShareEnd(a, b, from, leftover);
      SharedPreserves(log, t, View(), a, b, from, leftover);
      assert {a, b} == {nodeA, nodeB};
      if leftover == [] || |succ| == |t.succ| {
        PreservedBehaves(log, t, View(), {nodeA, nodeB});
      }
      ret := 1;
    }
  }

  lemma SameSymmetric(i: Instruction, j: Instruction)
    ensures SameInst(i, j) == SameInst(j, i)
  {
  }
}
