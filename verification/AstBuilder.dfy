/** `cfg_to_ast`: the worklist that turns a control flow graph into a syntax tree (node and
    if-then-else cases). */
module AstBuilder {
  import opened Graph
  import opened FunctionTables
  import opened IfTails
  import opened CfgRuns
  import opened AstTables
  import opened AstSize

  const AST_SIZE: nat := 300
  const ENTRY_SCAN: nat := 100

  /** A worklist entry: container `index` continues at `node` and ends before `nodeEnd`. */
  datatype Entry = Free | Pending(index: nat, node: nat, nodeEnd: nat)

  class Ast {
    var containers: Containers
    var ifs: Ifs

    constructor ()
      ensures containers == [] && ifs == []
    {
      containers, ifs := [], [];
    }
  }

  // ----- The invariant of the worklist

  ghost predicate Grounded(g: Cfg, base: nat, cs: Containers, ifs: Ifs, spans: seq<Span>) {
    && WellFormed(g) && Acyclic(g)
    && |spans| == |cs| && base <= |cs|
    && ValidSpans(g, base, spans)
    && TreeFrom(cs, ifs, base)
  }

  ghost predicate ValidEntry(g: Cfg, base: nat, spans: seq<Span>, e: Entry) {
    e.Pending? ==> base <= e.index < |spans| && Region(g, e.node, e.nodeEnd) && e.nodeEnd == spans[e.index].end
  }

  /** What container `e.index` already holds, followed by a run from `e.node`, is its span. */
  ghost predicate OnTrack(g: Cfg, base: nat, cs: Containers, ifs: Ifs, spans: seq<Span>, e: Entry)
    requires Grounded(g, base, cs, ifs, spans) && e.Pending? && ValidEntry(g, base, spans, e)
  {
    forall h: seq<nat>, o: Oracle ::
      Run(g, e.node, e.nodeEnd, Planned(g, base, spans, ifs, e.index, cs[e.index], h, o), o)
      == Run(g, spans[e.index].node, spans[e.index].end, h, o)
  }

  ghost predicate IsPending(es: seq<Entry>, c: nat) {
    exists i :: 0 <= i < |es| && es[i].Pending? && es[i].index == c
  }

  /** Every container either fulfils its span or is on track to do so. */
  ghost predicate AstInv(g: Cfg, base: nat, cs: Containers, ifs: Ifs, spans: seq<Span>, es: seq<Entry>) {
    && Grounded(g, base, cs, ifs, spans)
    && (forall i :: 0 <= i < |es| ==> ValidEntry(g, base, spans, es[i]))
    && (forall i, j :: 0 <= i < j < |es| && es[i].Pending? && es[j].Pending? ==> es[i].index != es[j].index)
    && (forall i :: 0 <= i < |es| && es[i].Pending? ==> OnTrack(g, base, cs, ifs, spans, es[i]))
    && (forall c :: base <= c < |cs| && !IsPending(es, c) ==> Fulfilled(g, base, spans, ifs, c, cs[c]))
  }

  // ----- Longer tables keep what earlier containers do

  lemma TreeGrows(cs: Containers, cs': Containers, ifs: Ifs, ifs': Ifs, base: nat)
    requires TreeFrom(cs, ifs, base) && |cs| <= |cs'| && ifs <= ifs'
    requires forall c :: base <= c < |cs'| ==> if c < |cs| then cs'[c] == cs[c] else cs'[c] == []
    ensures TreeFrom(cs', ifs', base)
  {
    forall c | base <= c < |cs'| ensures LaterObjects(ifs', cs'[c], c, |cs'|) {
      forall i | 0 <= i < |cs'[c]| ensures LaterObject(ifs', cs'[c][i], c, |cs'|) {
        assert LaterObjects(ifs, cs[c], c, |cs|);
        assert LaterObject(ifs, cs[c][i], c, |cs|);
      }
    }
  }

  ghost predicate Extends(g: Cfg, base: nat, cs: Containers, ifs: Ifs, spans: seq<Span>, cs': Containers, ifs': Ifs,
                          spans': seq<Span>) {
    && Grounded(g, base, cs, ifs, spans) && Grounded(g, base, cs', ifs', spans')
    && spans <= spans' && ifs <= ifs'
  }

  lemma FulfilledStable(g: Cfg, base: nat, cs: Containers, ifs: Ifs, spans: seq<Span>, cs': Containers, ifs': Ifs,
                        spans': seq<Span>, c: nat)
    requires Extends(g, base, cs, ifs, spans, cs', ifs', spans')
    requires base <= c < |cs| && cs'[c] == cs[c] && Fulfilled(g, base, spans, ifs, c, cs[c])
    ensures Fulfilled(g, base, spans', ifs', c, cs'[c])
  {
    hide Run, Planned, Acyclic;
    forall h: seq<nat>, o: Oracle
      ensures Planned(g, base, spans', ifs', c, cs'[c], h, o) == Run(g, spans'[c].node, spans'[c].end, h, o)
    {
      PlannedStable(g, base, spans, spans', ifs, ifs', c, cs[c], h, o);
    }
  }

  lemma OnTrackStable(g: Cfg, base: nat, cs: Containers, ifs: Ifs, spans: seq<Span>, cs': Containers, ifs': Ifs,
                      spans': seq<Span>, e: Entry)
    requires Extends(g, base, cs, ifs, spans, cs', ifs', spans')
    requires e.Pending? && ValidEntry(g, base, spans, e) && cs'[e.index] == cs[e.index]
    requires OnTrack(g, base, cs, ifs, spans, e)
    ensures ValidEntry(g, base, spans', e) && OnTrack(g, base, cs', ifs', spans', e)
  {
    hide Run, Planned, Acyclic;
    forall h: seq<nat>, o: Oracle
      ensures Run(g, e.node, e.nodeEnd, Planned(g, base, spans', ifs', e.index, cs'[e.index], h, o), o)
        == Run(g, spans'[e.index].node, spans'[e.index].end, h, o)
    {
      PlannedStable(g, base, spans, spans', ifs, ifs', e.index, cs[e.index], h, o);
    }
  }

  // ----- One step at a time

  lemma PendingKept(es: seq<Entry>, i: nat, e: Entry, c: nat)
    requires i < |es| && (es[i] == Free || es[i].index != c)
    ensures IsPending(es, c) ==> IsPending(es[i := e], c)
  {
    if IsPending(es, c) {
      var j :| 0 <= j < |es| && es[j].Pending? && es[j].index == c;
      assert es[i := e][j] == es[j];
    }
  }

  /** A new, empty container for the span from `s` to `t`. */
  lemma NewContainer(g: Cfg, base: nat, cs: Containers, ifs: Ifs, spans: seq<Span>, es: seq<Entry>, i: nat, s: nat,
                     t: nat)
    requires AstInv(g, base, cs, ifs, spans, es) && i < |es| && es[i] == Free && Region(g, s, t)
    ensures AstInv(g, base, cs + [[]], ifs, spans + [Span(s, t)], es[i := Pending(|cs|, s, t)])
  {
    var cs', spans', es' := cs + [[]], spans + [Span(s, t)], es[i := Pending(|cs|, s, t)];
    TreeGrows(cs, cs', ifs, ifs, base);
    hide Fulfilled, Region, Acyclic, TreeFrom;
    assert OnTrack(g, base, cs', ifs, spans', es'[i]);
    forall j | 0 <= j < |es'| && es'[j].Pending? && j != i
      ensures ValidEntry(g, base, spans', es'[j]) && OnTrack(g, base, cs', ifs, spans', es'[j])
    {
      assert ValidEntry(g, base, spans, es[j]);
      OnTrackStable(g, base, cs, ifs, spans, cs', ifs, spans', es[j]);
    }
    forall c | base <= c < |cs'| && !IsPending(es', c) ensures Fulfilled(g, base, spans', ifs, c, cs'[c]) {
      assert c != |cs| by { assert es'[i].index == |cs|; }
      PendingKept(es, i, Pending(|cs|, s, t), c);
      FulfilledStable(g, base, cs, ifs, spans, cs', ifs, spans', c);
    }
  }

  /** Executing `obj` and going on as `e` says does what a run from `m` to `end` does. */
  ghost predicate StepSound(g: Cfg, base: nat, spans: seq<Span>, ifs: Ifs, c: nat, obj: AstObject, m: nat, end: nat,
                            e: Entry)
    requires WellFormed(g) && Acyclic(g) && ValidSpans(g, base, spans) && IsNode(g, m)
    requires base <= c && LaterObject(ifs, obj, c, |spans|) && (e.Pending? ==> IsNode(g, e.node))
  {
    forall h: seq<nat>, o: Oracle ::
      var x := PlanObject(g, base, spans, ifs, c, obj, h, o);
      Run(g, m, end, h, o) == if e.Pending? then Run(g, e.node, end, x, o) else x
  }

  /** The entry after the step: dropped, or further on in the same container. */
  ghost predicate NextEntry(g: Cfg, e: Entry, e': Entry) {
    && e.Pending?
    && (e' == Free || (e'.Pending? && e'.index == e.index && e'.nodeEnd == e.nodeEnd && Region(g, e'.node, e'.nodeEnd)))
  }

  lemma AppendTree(cs: Containers, ifs: Ifs, ifs': Ifs, base: nat, c: nat, obj: AstObject)
    requires TreeFrom(cs, ifs, base) && ifs <= ifs' && base <= c < |cs| && LaterObject(ifs', obj, c, |cs|)
    ensures TreeFrom(cs[c := cs[c] + [obj]], ifs', base)
  {
    var cs' := cs[c := cs[c] + [obj]];
    forall b | base <= b < |cs'| ensures LaterObjects(ifs', cs'[b], b, |cs'|) {
      forall i | 0 <= i < |cs'[b]| ensures LaterObject(ifs', cs'[b][i], b, |cs'|) {
        assert LaterObjects(ifs, cs[b], b, |cs|);
        if i < |cs[b]| {
          assert LaterObject(ifs, cs[b][i], b, |cs|);
        }
      }
    }
  }

  /** The stepped container itself. */
  lemma StepContainer(g: Cfg, base: nat, cs: Containers, ifs: Ifs, ifs': Ifs, spans: seq<Span>, e: Entry,
                      obj: AstObject, e': Entry)
    requires Grounded(g, base, cs, ifs, spans) && e.Pending? && ValidEntry(g, base, spans, e)
    requires OnTrack(g, base, cs, ifs, spans, e) && NextEntry(g, e, e') && ifs <= ifs'
    requires LaterObject(ifs', obj, e.index, |cs|)
    requires StepSound(g, base, spans, ifs', e.index, obj, e.node, e.nodeEnd, e')
    requires Grounded(g, base, cs[e.index := cs[e.index] + [obj]], ifs', spans)
    ensures var cs' := cs[e.index := cs[e.index] + [obj]];
      if e' == Free then Fulfilled(g, base, spans, ifs', e.index, cs'[e.index])
      else ValidEntry(g, base, spans, e') && OnTrack(g, base, cs', ifs', spans, e')
  {
    hide Run, Planned, PlanObject, Acyclic;
    var c := e.index;
    var cs' := cs[c := cs[c] + [obj]];
    forall h: seq<nat>, o: Oracle
      ensures var x := Planned(g, base, spans, ifs', c, cs'[c], h, o);
        (if e'.Pending? then Run(g, e'.node, e.nodeEnd, x, o) else x) == Run(g, spans[c].node, spans[c].end, h, o)
    {
      PlannedStable(g, base, spans, spans, ifs, ifs', c, cs[c], h, o);
      PlannedSnoc(g, base, spans, ifs', c, cs[c], obj, h, o);
    }
  }

  /** A sound step keeps the invariant. */
  lemma StepEntry(g: Cfg, base: nat, cs: Containers, ifs: Ifs, ifs': Ifs, spans: seq<Span>, es: seq<Entry>, i: nat,
                  obj: AstObject, e': Entry)
    requires AstInv(g, base, cs, ifs, spans, es) && i < |es| && NextEntry(g, es[i], e') && ifs <= ifs'
    requires LaterObject(ifs', obj, es[i].index, |cs|)
    requires StepSound(g, base, spans, ifs', es[i].index, obj, es[i].node, es[i].nodeEnd, e')
    ensures AstInv(g, base, cs[es[i].index := cs[es[i].index] + [obj]], ifs', spans, es[i := e'])
  {
    hide Fulfilled, Region, Acyclic, StepSound, OnTrack;
    var c := es[i].index;
    assert ValidEntry(g, base, spans, es[i]);
    var cs', es' := cs[c := cs[c] + [obj]], es[i := e'];
    AppendTree(cs, ifs, ifs', base, c, obj);
    StepContainer(g, base, cs, ifs, ifs', spans, es[i], obj, e');
    forall j | 0 <= j < |es'| && es'[j].Pending? && j != i
      ensures ValidEntry(g, base, spans, es'[j]) && OnTrack(g, base, cs', ifs', spans, es'[j])
    {
      assert ValidEntry(g, base, spans, es[j]);
      assert es[j].index != c;
      OnTrackStable(g, base, cs, ifs, spans, cs', ifs', spans, es[j]);
    }
    assert e'.Pending? ==> es'[i].Pending? && es'[i].index == c && IsPending(es', c);
    forall b | base <= b < |cs'| && !IsPending(es', b) ensures Fulfilled(g, base, spans, ifs', b, cs'[b]) {
      if b != c {
        PendingKept(es, i, e', b);
        FulfilledStable(g, base, cs, ifs, spans, cs', ifs', spans, b);
      }
    }
  }

  // ----- The two cases of the conversion

  /** The continuation of an entry behind a node that is not a branch. */
  ghost function AfterNode(g: Cfg, e: Entry): (e': Entry)
    requires e.Pending? && e.node < |g|
  {
    if g[e.node] == [] || g[e.node][0] == e.nodeEnd then Free else Pending(e.index, g[e.node][0], e.nodeEnd)
  }

  lemma NodeStep(g: Cfg, base: nat, spans: seq<Span>, ifs: Ifs, e: Entry)
    requires WellFormed(g) && Acyclic(g) && ValidSpans(g, base, spans)
    requires e.Pending? && ValidEntry(g, base, spans, e) && |g[e.node]| <= 1
    ensures NextEntry(g, e, AfterNode(g, e))
    ensures StepSound(g, base, spans, ifs, e.index, NodeObject(e.node), e.node, e.nodeEnd, AfterNode(g, e))
  {
    if g[e.node] == [] {
      ExitRegion(g, e.node, e.nodeEnd);
    } else {
      assert Edge(g, e.node, g[e.node][0]);
      NextRegion(g, e.node, e.nodeEnd, g[e.node][0]);
    }
  }

  /** The branch to `s`: empty when it leads straight to the tail, else a container of its own. */
  ghost predicate BranchFor(base: nat, spans: seq<Span>, c: nat, s: nat, t: nat, b: Branch) {
    if s == t then b == EmptyBranch
    else b.ContainerBranch? && base <= c < b.index < |spans| && spans[b.index] == Span(s, t)
  }

  ghost function AfterIf(e: Entry, t: nat): (e': Entry)
    requires e.Pending?
  {
    if t == e.nodeEnd then Free else Pending(e.index, t, e.nodeEnd)
  }

  /** Running a branch to the tail and going on from there. */
  lemma BranchRun(g: Cfg, m: nat, end: nat, t: nat, s: nat, h: seq<nat>, o: Oracle)
    requires WellFormed(g) && Acyclic(g) && Region(g, m, end) && IsIfTail(g, m, t) && Edge(g, m, s)
    ensures t == end || IsNode(g, t)
    ensures var x := if s == t then h else Run(g, s, t, h, o);
      Run(g, s, end, h, o) == if t == end then x else Run(g, t, end, x, o)
  {
    BranchRegions(g, m, end, t, s);
    if s != t && t != end {
      RunThrough(g, s, t, end, h, o);
    }
  }

  lemma IfStep(g: Cfg, base: nat, spans: seq<Span>, ifs: Ifs, e: Entry, t: nat, k: nat)
    requires WellFormed(g) && Acyclic(g) && ValidSpans(g, base, spans)
    requires e.Pending? && ValidEntry(g, base, spans, e) && |g[e.node]| == 2 && IsIfTail(g, e.node, t)
    requires k < |ifs| && ifs[k].expression == e.node
    requires BranchFor(base, spans, e.index, g[e.node][0], t, ifs[k].ifThen)
    requires BranchFor(base, spans, e.index, g[e.node][1], t, ifs[k].ifElse)
    ensures LaterObject(ifs, IfObject(k), e.index, |spans|)
    ensures NextEntry(g, e, AfterIf(e, t))
    ensures StepSound(g, base, spans, ifs, e.index, IfObject(k), e.node, e.nodeEnd, AfterIf(e, t))
  {
    var m, end := e.node, e.nodeEnd;
    assert Edge(g, m, g[m][0]) && Edge(g, m, g[m][1]);
    BranchRegions(g, m, end, t, g[m][0]);
    BranchRegions(g, m, end, t, g[m][1]);
    forall h: seq<nat>, o: Oracle
      ensures var x := PlanObject(g, base, spans, ifs, e.index, IfObject(k), h, o);
        Run(g, m, end, h, o) == if AfterIf(e, t).Pending? then Run(g, t, end, x, o) else x
    {
      var h1 := h + [m];
      BranchRun(g, m, end, t, Chosen(g, m, h1, o), h1, o);
    }
  }

  // ----- The worklist gets shorter

  ghost function Weight(g: Cfg, e: Entry): (n: nat) {
    if e.Pending? && Acyclic(g) && IsNode(g, e.node) then Height(g, e.node) + 1 else 0
  }

  ghost function Work(g: Cfg, es: seq<Entry>): (n: nat) {
    if es == [] then 0 else Work(g, es[..|es| - 1]) + Weight(g, es[|es| - 1])
  }

  lemma {:induction false} WorkUpdate(g: Cfg, es: seq<Entry>, i: nat, e: Entry)
    requires i < |es|
    ensures Work(g, es[i := e]) == Work(g, es) - Weight(g, es[i]) + Weight(g, e)
  {
    var n := |es| - 1;
    if i < n {
      assert es[i := e][..n] == es[..n][i := e];
      WorkUpdate(g, es[..n], i, e);
    } else {
      assert es[i := e][..n] == es[..n];
    }
  }

  lemma StepIsProgress(g: Cfg, es: seq<Entry>, i: nat, e: Entry, s: nat)
    requires Acyclic(g) && i < |es| && es[i].Pending? && IsNode(g, es[i].node)
    requires e == Free || (e.Pending? && IsNode(g, e.node) && Height(g, e.node) < Height(g, es[i].node))
    ensures Work(g, es[i := e]) < Work(g, es)
  {
    WorkUpdate(g, es, i, e);
  }

  // ----- How much is still to come

  /** The containers that an entry will still ask for. */
  ghost function Debt(g: Cfg, tails: seq<nat>, e: Entry): (n: nat)
    requires Tailed(g, tails)
  {
    if e.Pending? && IsNode(g, e.node) then Boxes(g, tails, e.node, e.nodeEnd) else 0
  }

  ghost function Owed(g: Cfg, tails: seq<nat>, es: seq<Entry>): (n: nat)
    requires Tailed(g, tails)
  {
    if es == [] then 0 else Owed(g, tails, es[..|es| - 1]) + Debt(g, tails, es[|es| - 1])
  }

  lemma {:induction false} OwedUpdate(g: Cfg, tails: seq<nat>, es: seq<Entry>, i: nat, e: Entry)
    requires Tailed(g, tails) && i < |es|
    ensures Owed(g, tails, es[i := e]) == Owed(g, tails, es) - Debt(g, tails, es[i]) + Debt(g, tails, e)
    ensures Debt(g, tails, es[i]) <= Owed(g, tails, es)
  {
    hide Tailed, Debt;
    var n := |es| - 1;
    if i < n {
      assert es[i := e][..n] == es[..n][i := e];
      OwedUpdate(g, tails, es[..n], i, e);
    } else {
      assert es[i := e][..n] == es[..n];
    }
  }

  /** What a new container for the branch to `s` adds. */
  lemma OwedAdds(g: Cfg, tails: seq<nat>, es: seq<Entry>, i: nat, c: nat, s: nat, t: nat)
    requires Tailed(g, tails) && i < |es| && es[i] == Free && IsNode(g, s) && s != t
    ensures 1 + Owed(g, tails, es[i := Pending(c, s, t)]) == Owed(g, tails, es) + BranchBoxes(g, tails, s, t)
  {
    hide Tailed, Boxes, Owed;
    OwedUpdate(g, tails, es, i, Pending(c, s, t));
  }

  lemma {:induction false} NothingOwed(g: Cfg, tails: seq<nat>, es: seq<Entry>)
    requires Tailed(g, tails) && forall i :: 0 <= i < |es| ==> es[i] == Free
    ensures Owed(g, tails, es) == 0
  {
    if es != [] {
      NothingOwed(g, tails, es[..|es| - 1]);
    }
  }

  /** A node that is no branch asks for nothing. */
  lemma NodeDebt(g: Cfg, tails: seq<nat>, e: Entry)
    requires Tailed(g, tails) && e.Pending? && IsNode(g, e.node) && e.node != e.nodeEnd && |g[e.node]| <= 1
    ensures Debt(g, tails, AfterNode(g, e)) == Debt(g, tails, e)
  {
    hide IsIfTail, Acyclic;
    if g[e.node] != [] {
      BoxesNext(g, tails, e.node, e.nodeEnd);
      BoxesEnd(g, tails, g[e.node][0]);
    }
  }

  /** A branch asks for what its links and its tail do. */
  lemma IfDebt(g: Cfg, tails: seq<nat>, e: Entry)
    requires Tailed(g, tails) && e.Pending? && Region(g, e.node, e.nodeEnd) && |g[e.node]| == 2
    ensures IsNode(g, g[e.node][0]) && IsNode(g, g[e.node][1])
    ensures Debt(g, tails, e) == BranchBoxes(g, tails, g[e.node][0], tails[e.node])
      + BranchBoxes(g, tails, g[e.node][1], tails[e.node]) + Debt(g, tails, AfterIf(e, tails[e.node]))
    ensures BranchBoxes(g, tails, g[e.node][0], tails[e.node]) + BranchBoxes(g, tails, g[e.node][1], tails[e.node]) > 0
  {
    var t := tails[e.node];
    assert Edge(g, e.node, g[e.node][0]);
    BranchRegions(g, e.node, e.nodeEnd, t, g[e.node][0]);
    hide IsIfTail, Acyclic, Boxes, BranchBoxes;
    BoxesBranch(g, tails, e.node, e.nodeEnd);
    BranchHasBox(g, tails, e.node);
    if t != 0 {
      BoxesEnd(g, tails, t);
    }
  }

  /** When the scan finds no free entry, that many containers have been created. */
  lemma NoFreeEntry(g: Cfg, base: nat, cs: Containers, ifs: Ifs, spans: seq<Span>, es: seq<Entry>)
    requires AstInv(g, base, cs, ifs, spans, es) && |es| >= ENTRY_SCAN
    requires forall i :: 0 <= i < ENTRY_SCAN ==> es[i] != Free
    ensures |cs| >= base + ENTRY_SCAN
  {
    hide Grounded, OnTrack, Fulfilled;
    forall i | 0 <= i < ENTRY_SCAN ensures base <= es[i].index < |spans| {
      assert ValidEntry(g, base, spans, es[i]);
    }
    var ids := seq(ENTRY_SCAN, i requires 0 <= i < ENTRY_SCAN => es[i].index - base);
    SpansLength(g, base, cs, ifs, spans, es);
    Pigeonhole(ids, |cs| - base);
  }

  lemma SpansLength(g: Cfg, base: nat, cs: Containers, ifs: Ifs, spans: seq<Span>, es: seq<Entry>)
    requires AstInv(g, base, cs, ifs, spans, es)
    ensures |spans| == |cs| >= base
  {
  }

  // ----- What an overwritten entry loses

  /** No entry is left for container `c`, and whatever the branches decide, it stops where the run
      that it stands for would go on with `n`. */
  ghost predicate Abandoned(g: Cfg, base: nat, cs: Containers, ifs: Ifs, spans: seq<Span>, es: seq<Entry>, c: nat, n: nat)
    requires Grounded(g, base, cs, ifs, spans) && base <= c < |cs|
  {
    && !IsPending(es, c)
    && forall h: seq<nat>, o: Oracle ::
         Planned(g, base, spans, ifs, c, cs[c], h, o) + [n] <= Run(g, spans[c].node, spans[c].end, h, o)
  }

  /** When the scan fails the source overwrites an entry in use: its container is abandoned. */
  lemma OverwriteAbandons(g: Cfg, base: nat, cs: Containers, ifs: Ifs, spans: seq<Span>, es: seq<Entry>, i: nat, s: nat,
                          t: nat)
    requires AstInv(g, base, cs, ifs, spans, es) && i < |es| && es[i].Pending? && Region(g, s, t)
    ensures base <= es[i].index < |cs| && Grounded(g, base, cs + [[]], ifs, spans + [Span(s, t)])
    ensures Abandoned(g, base, cs + [[]], ifs, spans + [Span(s, t)], es[i := Pending(|cs|, s, t)], es[i].index, es[i].node)
  {
    var cs', spans', es' := cs + [[]], spans + [Span(s, t)], es[i := Pending(|cs|, s, t)];
    var e := es[i];
    assert ValidEntry(g, base, spans, e);
    TreeGrows(cs, cs', ifs, ifs, base);
    hide Run, Planned, Acyclic, Fulfilled, TreeFrom;
    OnTrackStable(g, base, cs, ifs, spans, cs', ifs, spans', e);
    forall h: seq<nat>, o: Oracle
      ensures Planned(g, base, spans', ifs, e.index, cs'[e.index], h, o) + [e.node]
        <= Run(g, spans'[e.index].node, spans'[e.index].end, h, o)
    {
      RunExtends(g, e.node, e.nodeEnd, Planned(g, base, spans', ifs, e.index, cs'[e.index], h, o), o);
    }
    assert !IsPending(es', e.index);
  }

  /** Later steps do not help: they add to containers with an entry, and bring entries for those or
      for new ones only. */
  lemma AbandonedStays(g: Cfg, base: nat, cs: Containers, ifs: Ifs, spans: seq<Span>, es: seq<Entry>, c: nat, n: nat,
                       cs': Containers, ifs': Ifs, spans': seq<Span>, es': seq<Entry>)
    requires Extends(g, base, cs, ifs, spans, cs', ifs', spans') && base <= c < |cs|
    requires Abandoned(g, base, cs, ifs, spans, es, c, n)
    requires forall b :: base <= b < |cs| && cs'[b] != cs[b] ==> IsPending(es, b)
    requires forall b :: base <= b < |cs| && IsPending(es', b) ==> IsPending(es, b)
    ensures Abandoned(g, base, cs', ifs', spans', es', c, n)
  {
    hide Run, Planned, Acyclic, IsPending;
    forall h: seq<nat>, o: Oracle
      ensures Planned(g, base, spans', ifs', c, cs'[c], h, o) + [n] <= Run(g, spans'[c].node, spans'[c].end, h, o)
    {
      PlannedStable(g, base, spans, spans', ifs, ifs', c, cs[c], h, o);
    }
  }

  /** So in the end the container does not do what its span asks for, even if its branches do. */
  lemma AbandonedUnfulfilled(g: Cfg, base: nat, cs: Containers, ifs: Ifs, spans: seq<Span>, es: seq<Entry>, c: nat, n: nat)
    requires Grounded(g, base, cs, ifs, spans) && base <= c < |cs| && Abandoned(g, base, cs, ifs, spans, es, c, n)
    ensures !Fulfilled(g, base, spans, ifs, c, cs[c])
  {
    hide Run, Planned;
    var o: Oracle := h => true;
    assert Planned(g, base, spans, ifs, c, cs[c], [], o) + [n] <= Run(g, spans[c].node, spans[c].end, [], o);
  }

  // ----- The pass

  /** A free entry among the first hundred. */
  method FindEmptyAstEntry(entries: array<Entry>) returns (found: bool, n: nat)
    requires entries.Length >= ENTRY_SCAN
    ensures found ==> n < 100 && entries[n] == Free && forall i :: 0 <= i < n ==> entries[i] != Free
    ensures !found ==> forall i :: 0 <= i < ENTRY_SCAN ==> entries[i] != Free
  {
    for m := 0 to ENTRY_SCAN
      invariant forall i :: 0 <= i < m ==> entries[i] != Free
    {
      if entries[m] == Free {
        return true, m;
      }
    }
    return false, 0;
  }

  /** The first entry in use. */
  method FindPending(entries: array<Entry>) returns (found: bool, n: nat)
    ensures found ==> n < entries.Length && entries[n].Pending? && forall i :: 0 <= i < n ==> entries[i] == Free
    ensures !found ==> forall i :: 0 <= i < entries.Length ==> entries[i] == Free
  {
    for m := 0 to entries.Length
      invariant forall i :: 0 <= i < m ==> entries[i] == Free
    {
      if entries[m].Pending? {
        return true, m;
      }
    }
    return false, 0;
  }

  /** What the pass needs to know about the function: an acyclic graph with at most two-way
      branches, the tail of every branch, and its node type. */
  ghost predicate Structured(f: FunctionCfg)
    reads f
  {
    && f.Shaped() && Acyclic(f.succ) && AtMostTwo(f.succ)
    && forall n :: 1 <= n < |f.succ| ==>
         && (f.nodeType[n] == IfThenElseNode <==> |f.succ[n]| == 2)
         && (f.nodeType[n] == IfThenElseNode || f.nodeType[n] == UnknownNode)
         && (|f.succ[n]| == 2 ==> IsIfTail(f.succ, n, f.ifTail[n]) && !f.loopEdge[n][0] && !f.loopEdge[n][1])
  }

  const DONE := 0
  const FULL := 1      // a table index reached AST_SIZE
  const OVERRUN := 2   // no free entry among the first hundred

  /** A new container for the branch to `s`. */
  method AddContainer(f: FunctionCfg, ast: Ast, entries: array<Entry>, n: nat, s: nat, t: nat, ghost base: nat,
                      ghost spans: seq<Span>)
    returns (ghost spans': seq<Span>)
    requires Tailed(f.succ, f.ifTail) && n < entries.Length && entries[n] == Free && Region(f.succ, s, t)
    requires AstInv(f.succ, base, ast.containers, ast.ifs, spans, entries[..])
    modifies ast`containers, entries
    ensures AstInv(f.succ, base, ast.containers, ast.ifs, spans', entries[..])
    ensures ast.containers == old(ast.containers) + [[]] && spans' == spans + [Span(s, t)]
    ensures |spans| == |old(ast.containers)| >= base
    ensures entries[..] == old(entries[..])[n := Pending(|old(ast.containers)|, s, t)]
    ensures 1 + Owed(f.succ, f.ifTail, entries[..])
      == old(Owed(f.succ, f.ifTail, entries[..])) + BranchBoxes(f.succ, f.ifTail, s, t)
  {
    hide AstInv, Acyclic, IsIfTail, Tailed, Owed, Boxes, BranchBoxes;
    ghost var es := entries[..];
    SpansLength(f.succ, base, ast.containers, ast.ifs, spans, es);
    NewContainer(f.succ, base, ast.containers, ast.ifs, spans, es, n, s, t);
    OwedAdds(f.succ, f.ifTail, es, n, |ast.containers|, s, t);
    spans' := spans + [Span(s, t)];
    entries[n] := Pending(|ast.containers|, s, t);
    assert entries[..] == es[n := Pending(|ast.containers|, s, t)];
    ast.containers := ast.containers + [[]];
  }

  /** The containers before and after a step that asks for `k` of them, and what is owed then: the
      sum grows by `k`, and no more are made if a table is full. */
  ghost predicate Booked(ret: int, before: nat, after: nat, owedBefore: nat, owedAfter: nat, k: nat) {
    && before <= after && after + (if ret == OVERRUN then 1 else 0) <= before + k
    && (ret == DONE ==> after + owedAfter == before + owedBefore + k && (k > 0 ==> after > before))
  }

  lemma BookedStop(ret: int, before: nat, after: nat, owedBefore: nat, owedAfter: nat, k: nat, more: nat)
    requires Booked(ret, before, after, owedBefore, owedAfter, k) && ret != DONE
    ensures Booked(ret, before, after, owedBefore, owedAfter, k + more)
  {
  }

  lemma BookedOn(ret: int, before: nat, between: nat, after: nat, owedBefore: nat, owedBetween: nat, owedAfter: nat,
                 k: nat, more: nat)
    requires Booked(DONE, before, between, owedBefore, owedBetween, k)
    requires Booked(ret, between, after, owedBetween, owedAfter, more)
    ensures Booked(ret, before, after, owedBefore, owedAfter, k + more)
  {
  }

  lemma BranchDirect(base: nat, spans: seq<Span>, s: nat, t: nat)
    ensures s == t ==> forall c :: base <= c < |spans| ==> BranchFor(base, spans, c, s, t, EmptyBranch)
  {
  }

  lemma BranchBoxed(base: nat, spans: seq<Span>, s: nat, t: nat)
    requires s != t
    ensures forall c :: base <= c < |spans| ==> BranchFor(base, spans + [Span(s, t)], c, s, t, ContainerBranch(|spans|))
  {
  }

  /** A branch to `s` with a container of its own, in a free entry. */
  method PlaceContainer(f: FunctionCfg, ast: Ast, entries: array<Entry>, s: nat, t: nat, ghost base: nat,
                        ghost spans: seq<Span>)
    returns (ret: int, b: Branch, ghost spans': seq<Span>)
    requires Tailed(f.succ, f.ifTail) && Region(f.succ, s, t) && entries.Length == AST_SIZE
    requires AstInv(f.succ, base, ast.containers, ast.ifs, spans, entries[..]) && |ast.containers| < AST_SIZE
    modifies ast`containers, entries
    ensures ret == DONE || ret == FULL || ret == OVERRUN
    ensures old(ast.containers) <= ast.containers && spans <= spans'
    ensures ret == DONE ==>
      && AstInv(f.succ, base, ast.containers, ast.ifs, spans', entries[..]) && |ast.containers| < AST_SIZE
      && (forall c :: base <= c < |spans| ==> BranchFor(base, spans', c, s, t, b))
      && (forall i :: 0 <= i < entries.Length && old(entries[i]).Pending? ==> entries[i] == old(entries[i]))
      && |ast.containers| > old(|ast.containers|)
    ensures ret == FULL ==> |ast.containers| >= AST_SIZE
    ensures ret == OVERRUN ==> |ast.containers| >= base + ENTRY_SCAN
    ensures Booked(ret, old(|ast.containers|), |ast.containers|, old(Owed(f.succ, f.ifTail, entries[..])),
                   Owed(f.succ, f.ifTail, entries[..]), BranchBoxes(f.succ, f.ifTail, s, t))
  {
    assert s != t && BranchBoxes(f.succ, f.ifTail, s, t) > 0;
    hide AstInv, Region, Tailed, Owed, BranchBoxes, BranchFor;
    spans' := spans;
    b := EmptyBranch;
    var found, tmp := FindEmptyAstEntry(entries);
    if !found {
      NoFreeEntry(f.succ, base, ast.containers, ast.ifs, spans, entries[..]);
      return OVERRUN, EmptyBranch, spans;
    }
    b := ContainerBranch(|ast.containers|);
    spans' := AddContainer(f, ast, entries, tmp, s, t, base, spans);
    BranchBoxed(base, spans, s, t);
    ret := if |ast.containers| >= AST_SIZE then FULL else DONE;
  }

  /** The branch of `node` over link `k`. */
  method MakeBranch(f: FunctionCfg, ast: Ast, entries: array<Entry>, node: nat, k: nat, ghost base: nat,
                    ghost spans: seq<Span>)
    returns (ret: int, b: Branch, ghost spans': seq<Span>)
    requires Structured(f) && IsNode(f.succ, node) && |f.succ[node]| == 2 && k < 2
    requires AstInv(f.succ, base, ast.containers, ast.ifs, spans, entries[..]) && |ast.containers| < AST_SIZE
    requires entries.Length == AST_SIZE
    requires f.succ[node][k] == f.ifTail[node] || Region(f.succ, f.succ[node][k], f.ifTail[node])
    modifies ast`containers, entries
    ensures ret == DONE || ret == FULL || ret == OVERRUN
    ensures old(ast.containers) <= ast.containers && spans <= spans'
    ensures ret == DONE ==>
      && AstInv(f.succ, base, ast.containers, ast.ifs, spans', entries[..]) && |ast.containers| < AST_SIZE
      && (forall c :: base <= c < |spans| ==> BranchFor(base, spans', c, f.succ[node][k], f.ifTail[node], b))
      && (forall i :: 0 <= i < entries.Length && old(entries[i]).Pending? ==> entries[i] == old(entries[i]))
      && (|ast.containers| == old(|ast.containers|) ==> entries[..] == old(entries[..]))
    ensures ret == FULL ==> |ast.containers| >= AST_SIZE
    ensures ret == OVERRUN ==> |ast.containers| >= base + ENTRY_SCAN
    ensures Booked(ret, old(|ast.containers|), |ast.containers|, old(Owed(f.succ, f.ifTail, entries[..])),
                   Owed(f.succ, f.ifTail, entries[..]), BranchBoxes(f.succ, f.ifTail, f.succ[node][k], f.ifTail[node]))
  {
    assert Tailed(f.succ, f.ifTail) && IsNode(f.succ, f.succ[node][k]);
    assert node < |f.loopEdge| && k < |f.loopEdge[node]| && !f.loopEdge[node][k];
    var s, t := f.succ[node][k], f.ifTail[node];
    assert s == t || BranchBoxes(f.succ, f.ifTail, s, t) > 0;
    hide AstInv, Region, Tailed, Owed, BranchBoxes, Structured, BranchFor;
    spans' := spans;
    b := EmptyBranch;
    if s == t || f.loopEdge[node][k] {
      BranchDirect(base, spans, s, t);
      return DONE, EmptyBranch, spans;
    }
    ret, b, spans' := PlaceContainer(f, ast, entries, s, t, base, spans);
  }

  /** The result for a span whose container is `c`: executing it is running the graph. */
  ghost predicate Faithful(g: Cfg, cs: Containers, ifs: Ifs, base: nat, c: nat, start: nat)
    requires WellFormed(g) && Acyclic(g) && IsNode(g, start)
  {
    && TreeFrom(cs, ifs, base) && base <= c < |cs|
    && forall h: seq<nat>, o: Oracle :: ExecContainer(cs, ifs, base, c, h, o) == Run(g, start, 0, h, o)
  }

  lemma AllDone(g: Cfg, base: nat, cs: Containers, ifs: Ifs, spans: seq<Span>, es: seq<Entry>, start: nat)
    requires AstInv(g, base, cs, ifs, spans, es) && forall i :: 0 <= i < |es| ==> es[i] == Free
    requires base < |cs| && spans[base] == Span(start, 0) && IsNode(g, start)
    ensures Faithful(g, cs, ifs, base, base, start)
  {
    hide Run, Planned, Exec, Acyclic;
    forall b | base <= b < |cs| ensures Fulfilled(g, base, spans, ifs, b, cs[b]) {
      assert !IsPending(es, b);
    }
    forall h: seq<nat>, o: Oracle ensures ExecContainer(cs, ifs, base, base, h, o) == Run(g, start, 0, h, o) {
      ExecIsPlanned(g, cs, ifs, base, spans, base, |cs[base]|, h, o);
      assert cs[base][..|cs[base]|] == cs[base];
    }
  }

  /** The first container stands for the whole function. */
  lemma FirstContainer(g: Cfg, cs: Containers, ifs: Ifs, es: seq<Entry>, start: nat) returns (spans: seq<Span>)
    requires WellFormed(g) && Acyclic(g) && IsNode(g, start)
    requires |es| > 0 && forall i :: 0 <= i < |es| ==> es[i] == Free
    ensures AstInv(g, |cs|, cs + [[]], ifs, spans, es[0 := Pending(|cs|, start, 0)])
    ensures |spans| == |cs| + 1 && spans[|cs|] == Span(start, 0)
  {
    spans := seq(|cs|, i => Span(0, 0));
    NewContainer(g, |cs|, cs, ifs, spans, es, 0, start, 0);
    spans := spans + [Span(start, 0)];
  }

  lemma EntryFacts(g: Cfg, base: nat, cs: Containers, ifs: Ifs, spans: seq<Span>, es: seq<Entry>, i: nat)
    requires AstInv(g, base, cs, ifs, spans, es) && i < |es| && es[i].Pending?
    ensures WellFormed(g) && Acyclic(g) && ValidSpans(g, base, spans) && |spans| == |cs|
    ensures ValidEntry(g, base, spans, es[i]) && IsNode(g, es[i].node) && Region(g, es[i].node, es[i].nodeEnd)
  {
    assert ValidEntry(g, base, spans, es[i]);
  }

  lemma AfterNodeIsLower(g: Cfg, e: Entry)
    requires WellFormed(g) && Acyclic(g) && e.Pending? && IsNode(g, e.node)
    ensures AfterNode(g, e) == Free
      || (IsNode(g, AfterNode(g, e).node) && Height(g, AfterNode(g, e).node) < Height(g, e.node))
  {
    if g[e.node] != [] {
      assert Edge(g, e.node, g[e.node][0]);
      HeightDecreases(g, e.node, g[e.node][0]);
    }
  }

  lemma AfterIfIsLower(g: Cfg, e: Entry, t: nat)
    requires WellFormed(g) && Acyclic(g) && e.Pending? && Region(g, e.node, e.nodeEnd) && IsIfTail(g, e.node, t)
    ensures AfterIf(e, t) == Free || (IsNode(g, t) && Height(g, t) < Height(g, e.node))
  {
    if t != 0 {
      TailIsLower(g, e.node, t);
    }
  }

  /** One turn of the worklist for a node that is not a branch. */
  method NodeCase(f: FunctionCfg, ast: Ast, entries: array<Entry>, entry: nat, ghost base: nat, ghost spans: seq<Span>)
    requires Structured(f) && entry < entries.Length && entries[entry].Pending?
    requires AstInv(f.succ, base, ast.containers, ast.ifs, spans, entries[..])
    requires IsNode(f.succ, entries[entry].node) && |f.succ[entries[entry].node]| <= 1
    requires base <= entries[entry].index < |ast.containers|
    modifies ast`containers, entries
    ensures AstInv(f.succ, base, ast.containers, ast.ifs, spans, entries[..])
    ensures |ast.containers| == old(|ast.containers|) && ast.containers[..base] == old(ast.containers[..base])
    ensures Work(f.succ, entries[..]) < old(Work(f.succ, entries[..]))
    ensures Owed(f.succ, f.ifTail, entries[..]) == old(Owed(f.succ, f.ifTail, entries[..]))
  {
    assert Tailed(f.succ, f.ifTail);
    hide AstInv, Acyclic, StepSound, Tailed, Owed, Debt;
    ghost var es := entries[..];
    var e := entries[entry];
    var node := e.node;
    EntryFacts(f.succ, base, ast.containers, ast.ifs, spans, es, entry);
    NodeStep(f.succ, base, spans, ast.ifs, e);
    AfterNodeIsLower(f.succ, e);
    NodeDebt(f.succ, f.ifTail, e);
    OwedUpdate(f.succ, f.ifTail, es, entry, AfterNode(f.succ, e));
    StepEntry(f.succ, base, ast.containers, ast.ifs, ast.ifs, spans, es, entry, NodeObject(node), AfterNode(f.succ, e));
    StepIsProgress(f.succ, es, entry, AfterNode(f.succ, e), 0);
    ast.containers := ast.containers[e.index := ast.containers[e.index] + [NodeObject(node)]];
    if |f.succ[node]| > 0 {
      if f.succ[node][0] == e.nodeEnd {
        entries[entry] := Free;
      } else {
        entries[entry] := Pending(e.index, f.succ[node][0], e.nodeEnd);
      }
    } else {
      entries[entry] := Free;
    }
    assert entries[..] == es[entry := AfterNode(f.succ, e)];
  }

  lemma BranchForGrows(base: nat, spans: seq<Span>, spans': seq<Span>, c: nat, s: nat, t: nat, b: Branch)
    requires BranchFor(base, spans, c, s, t, b) && spans <= spans'
    ensures BranchFor(base, spans', c, s, t, b)
  {
  }

  lemma IfRegions(g: Cfg, e: Entry, t: nat)
    requires WellFormed(g) && Acyclic(g) && e.Pending? && Region(g, e.node, e.nodeEnd)
    requires |g[e.node]| == 2 && IsIfTail(g, e.node, t)
    ensures g[e.node][0] == t || Region(g, g[e.node][0], t)
    ensures g[e.node][1] == t || Region(g, g[e.node][1], t)
  {
    assert Edge(g, e.node, g[e.node][0]) && Edge(g, e.node, g[e.node][1]);
    BranchRegions(g, e.node, e.nodeEnd, t, g[e.node][0]);
    BranchRegions(g, e.node, e.nodeEnd, t, g[e.node][1]);
  }

  /** The if row and the step of the container, once both branches exist. */
  method LinkIf(f: FunctionCfg, ast: Ast, entries: array<Entry>, entry: nat, ifThen: Branch, ifElse: Branch,
                ghost base: nat, ghost spans: seq<Span>)
    requires Structured(f) && entry < entries.Length && entries[entry].Pending?
    requires AstInv(f.succ, base, ast.containers, ast.ifs, spans, entries[..])
    requires IsNode(f.succ, entries[entry].node) && |f.succ[entries[entry].node]| == 2
    requires base <= entries[entry].index < |ast.containers|
    requires BranchFor(base, spans, entries[entry].index, f.succ[entries[entry].node][0], f.ifTail[entries[entry].node], ifThen)
    requires BranchFor(base, spans, entries[entry].index, f.succ[entries[entry].node][1], f.ifTail[entries[entry].node], ifElse)
    modifies ast, entries
    ensures AstInv(f.succ, base, ast.containers, ast.ifs, spans, entries[..])
    ensures |ast.containers| == old(|ast.containers|) && ast.containers[..base] == old(ast.containers[..base])
    ensures old(ast.ifs) <= ast.ifs && |ast.ifs| == old(|ast.ifs|) + 1
    ensures Work(f.succ, entries[..]) < old(Work(f.succ, entries[..]))
    ensures var e := old(entries[entry]);
      Owed(f.succ, f.ifTail, entries[..]) == old(Owed(f.succ, f.ifTail, entries[..]))
        - Debt(f.succ, f.ifTail, e) + Debt(f.succ, f.ifTail, AfterIf(e, f.ifTail[e.node]))
  {
    assert Tailed(f.succ, f.ifTail);
    hide AstInv, Region, Acyclic, StepSound, IsIfTail, Tailed, Owed, Debt;
    ghost var es := entries[..];
    var e := entries[entry];
    var t := f.ifTail[e.node];
    ghost var ifs := ast.ifs;
    var k := |ast.ifs|;
    EntryFacts(f.succ, base, ast.containers, ast.ifs, spans, es, entry);
    ast.ifs := ast.ifs + [IfThenElse(e.node, ifThen, ifElse)];
    IfStep(f.succ, base, spans, ast.ifs, e, t, k);
    AfterIfIsLower(f.succ, e, t);
    StepEntry(f.succ, base, ast.containers, ifs, ast.ifs, spans, es, entry, IfObject(k), AfterIf(e, t));
    StepIsProgress(f.succ, es, entry, AfterIf(e, t), 0);
    OwedUpdate(f.succ, f.ifTail, es, entry, AfterIf(e, t));
    ast.containers := ast.containers[e.index := ast.containers[e.index] + [IfObject(k)]];
    if t == e.nodeEnd {
      entries[entry] := Free;
    } else {
      entries[entry] := Pending(e.index, t, e.nodeEnd);
    }
    assert entries[..] == es[entry := AfterIf(e, t)];
  }

  /** Both branches of `node`, where `k` is what they ask for. */
  method MakeBranches(f: FunctionCfg, ast: Ast, entries: array<Entry>, node: nat, ghost base: nat,
                      ghost spans: seq<Span>, ghost k: nat)
    returns (ret: int, b0: Branch, b1: Branch, ghost spans': seq<Span>)
    requires Structured(f) && IsNode(f.succ, node) && |f.succ[node]| == 2 && entries.Length == AST_SIZE
    requires AstInv(f.succ, base, ast.containers, ast.ifs, spans, entries[..]) && |ast.containers| < AST_SIZE
    requires f.succ[node][0] == f.ifTail[node] || Region(f.succ, f.succ[node][0], f.ifTail[node])
    requires f.succ[node][1] == f.ifTail[node] || Region(f.succ, f.succ[node][1], f.ifTail[node])
    requires k == BranchBoxes(f.succ, f.ifTail, f.succ[node][0], f.ifTail[node])
                + BranchBoxes(f.succ, f.ifTail, f.succ[node][1], f.ifTail[node])
    modifies ast`containers, entries
    ensures ret == DONE || ret == FULL || ret == OVERRUN
    ensures old(ast.containers) <= ast.containers && spans <= spans'
    ensures ret == DONE ==>
      && AstInv(f.succ, base, ast.containers, ast.ifs, spans', entries[..]) && |ast.containers| < AST_SIZE
      && (forall c :: base <= c < |spans| ==> BranchFor(base, spans', c, f.succ[node][0], f.ifTail[node], b0))
      && (forall c :: base <= c < |spans| ==> BranchFor(base, spans', c, f.succ[node][1], f.ifTail[node], b1))
      && (forall i :: 0 <= i < entries.Length && old(entries[i]).Pending? ==> entries[i] == old(entries[i]))
    ensures ret == FULL ==> |ast.containers| >= AST_SIZE
    ensures ret == OVERRUN ==> |ast.containers| >= base + ENTRY_SCAN
    ensures Booked(ret, old(|ast.containers|), |ast.containers|, old(Owed(f.succ, f.ifTail, entries[..])),
                   Owed(f.succ, f.ifTail, entries[..]), k)
  {
    assert Tailed(f.succ, f.ifTail);
    ghost var s0, s1, t := f.succ[node][0], f.succ[node][1], f.ifTail[node];
    ghost var k0, k1 := BranchBoxes(f.succ, f.ifTail, s0, t), BranchBoxes(f.succ, f.ifTail, s1, t);
    ghost var n0, o0 := |ast.containers|, Owed(f.succ, f.ifTail, entries[..]);
    hide AstInv, Region, IsIfTail, Tailed, Owed, BranchBoxes, BranchFor, Structured, Booked;
    b1 := EmptyBranch;
    ret, b0, spans' := MakeBranch(f, ast, entries, node, 0, base, spans);
    ghost var n1, o1 := |ast.containers|, Owed(f.succ, f.ifTail, entries[..]);
    if ret != DONE {
      BookedStop(ret, n0, n1, o0, o1, k0, k1);
      return;
    }
    ghost var spans1 := spans';
    ret, b1, spans' := MakeBranch(f, ast, entries, node, 1, base, spans1);
    BookedOn(ret, n0, n1, |ast.containers|, o0, o1, Owed(f.succ, f.ifTail, entries[..]), k0, k1);
    forall c | base <= c < |spans| && ret == DONE ensures BranchFor(base, spans', c, s0, t, b0) {
      BranchForGrows(base, spans1, spans', c, s0, t, b0);
    }
  }

  /** One turn of the worklist for a branch. */
  method IfCase(f: FunctionCfg, ast: Ast, entries: array<Entry>, entry: nat, ghost base: nat, ghost spans: seq<Span>)
    returns (ret: int, ghost spans': seq<Span>)
    requires Structured(f) && entry < entries.Length == AST_SIZE && entries[entry].Pending?
    requires AstInv(f.succ, base, ast.containers, ast.ifs, spans, entries[..]) && |ast.containers| < AST_SIZE
    requires IsNode(f.succ, entries[entry].node) && |f.succ[entries[entry].node]| == 2
    requires base <= entries[entry].index < |ast.containers|
    modifies ast, entries
    ensures ret == DONE || ret == FULL || ret == OVERRUN
    ensures |old(ast.containers)| <= |ast.containers| && ast.containers[..base] == old(ast.containers[..base])
    ensures old(ast.ifs) <= ast.ifs && spans <= spans'
    ensures ret == DONE ==>
      && AstInv(f.succ, base, ast.containers, ast.ifs, spans', entries[..]) && |ast.containers| < AST_SIZE
      && (|ast.containers| == old(|ast.containers|) ==> Work(f.succ, entries[..]) < old(Work(f.succ, entries[..])))
    ensures ret == FULL ==> |ast.containers| >= AST_SIZE || |ast.ifs| >= AST_SIZE
    ensures ret == OVERRUN ==> |ast.containers| >= base + ENTRY_SCAN
    ensures |ast.containers| + (if ret == OVERRUN then 1 else 0)
      <= old(|ast.containers| + Owed(f.succ, f.ifTail, entries[..]))
    ensures |ast.ifs| - old(|ast.ifs|) <= |ast.containers| - old(|ast.containers|)
    ensures ret == DONE ==>
      |ast.containers| + Owed(f.succ, f.ifTail, entries[..]) == old(|ast.containers| + Owed(f.succ, f.ifTail, entries[..]))
  {
    assert Tailed(f.succ, f.ifTail);
    hide AstInv, Region, Acyclic, IsIfTail, Work, Tailed, Owed, Debt, BranchBoxes, BranchFor;
    var e := entries[entry];
    var node := e.node;
    EntryFacts(f.succ, base, ast.containers, ast.ifs, spans, entries[..], entry);
    IfRegions(f.succ, e, f.ifTail[node]);
    IfDebt(f.succ, f.ifTail, e);
    OwedUpdate(f.succ, f.ifTail, entries[..], entry, e);
    ghost var k := BranchBoxes(f.succ, f.ifTail, f.succ[node][0], f.ifTail[node])
      + BranchBoxes(f.succ, f.ifTail, f.succ[node][1], f.ifTail[node]);
    var b0, b1;
    ret, b0, b1, spans' := MakeBranches(f, ast, entries, node, base, spans, k);
    if ret != DONE {
      return;
    }
    LinkIf(f, ast, entries, entry, b0, b1, base, spans');
    ret := if |ast.ifs| >= AST_SIZE then FULL else DONE;
  }

  /** The worklist, until it is empty or a table is full. */
  method WorkOff(f: FunctionCfg, ast: Ast, entries: array<Entry>, start: nat, ghost base: nat, ghost spans0: seq<Span>)
    returns (ret: int)
    requires Structured(f) && IsNode(f.succ, start) && entries.Length == AST_SIZE
    requires AstInv(f.succ, base, ast.containers, ast.ifs, spans0, entries[..])
    requires base < |ast.containers| < AST_SIZE && base < |spans0| && spans0[base] == Span(start, 0)
    modifies ast, entries
    ensures ret == DONE || ret == FULL || ret == OVERRUN
    ensures |ast.containers| >= base && ast.containers[..base] == old(ast.containers[..base]) && old(ast.ifs) <= ast.ifs
    ensures ret == DONE ==> Faithful(f.succ, ast.containers, ast.ifs, base, base, start)
    ensures ret == DONE ==> forall i :: 0 <= i < entries.Length ==> entries[i] == Free
    ensures ret == FULL ==> |ast.containers| >= AST_SIZE || |ast.ifs| >= AST_SIZE
    ensures ret == OVERRUN ==> |ast.containers| >= base + ENTRY_SCAN
    ensures |ast.containers| + (if ret == OVERRUN then 1 else 0)
      <= old(|ast.containers| + Owed(f.succ, f.ifTail, entries[..]))
    ensures |ast.ifs| - old(|ast.ifs|) <= |ast.containers| - old(|ast.containers|)
    ensures ret == DONE ==> |ast.containers| == old(|ast.containers| + Owed(f.succ, f.ifTail, entries[..]))
  {
    assert Tailed(f.succ, f.ifTail);
    hide AstInv, Region, Acyclic, IsIfTail, Work, Faithful, Tailed, Owed, MutualLinks, WellFormed;
    ghost var spans := spans0;
    while true
      invariant AstInv(f.succ, base, ast.containers, ast.ifs, spans, entries[..])
      invariant base < |ast.containers| < AST_SIZE && base < |spans| && spans[base] == Span(start, 0)
      invariant ast.containers[..base] == old(ast.containers[..base]) && old(ast.ifs) <= ast.ifs
      invariant |ast.containers| + Owed(f.succ, f.ifTail, entries[..])
        == old(|ast.containers| + Owed(f.succ, f.ifTail, entries[..]))
      invariant |ast.ifs| - old(|ast.ifs|) <= |ast.containers| - old(|ast.containers|)
      decreases AST_SIZE - |ast.containers|, Work(f.succ, entries[..])
    {
      var found, entry := FindPending(entries);
      if !found {
        AllDone(f.succ, base, ast.containers, ast.ifs, spans, entries[..], start);
        NothingOwed(f.succ, f.ifTail, entries[..]);
        return DONE;
      }
      EntryFacts(f.succ, base, ast.containers, ast.ifs, spans, entries[..], entry);
      if f.nodeType[entries[entry].node] == IfThenElseNode {
        ret, spans := IfCase(f, ast, entries, entry, base, spans);
        if ret != DONE {
          return ret;
        }
      } else {
        NodeCase(f, ast, entries, entry, base, spans);
      }
    }
  }

  /** Converts the function that starts at `start`. When the tables suffice, executing the first
      container it creates visits exactly the nodes that the graph visits, for every oracle. The tree
      then has as many containers as the graph asks for, and each table that is too small is so for
      that number: the caller can tell before the call that none will be. */
  method CfgToAst(f: FunctionCfg, ast: Ast, entries: array<Entry>, start: nat) returns (ret: int)
    requires Structured(f) && IsNode(f.succ, start)
    requires entries.Length == AST_SIZE && forall i :: 0 <= i < entries.Length ==> entries[i] == Free
    modifies ast, entries
    ensures ret == DONE || ret == FULL || ret == OVERRUN
    ensures old(ast.containers) <= ast.containers && old(ast.ifs) <= ast.ifs
    ensures ret == DONE ==> Faithful(f.succ, ast.containers, ast.ifs, |old(ast.containers)|, |old(ast.containers)|, start)
    ensures ret == DONE ==> forall i :: 0 <= i < entries.Length ==> entries[i] == Free
    ensures ret == FULL ==> |ast.containers| >= AST_SIZE || |ast.ifs| >= AST_SIZE
    ensures ret == OVERRUN ==> |ast.containers| >= |old(ast.containers)| + ENTRY_SCAN
    ensures var boxes := Boxes(f.succ, f.ifTail, start, 0);
      && (ret == DONE ==> |ast.containers| == old(|ast.containers|) + 1 + boxes)
      && (ret == FULL ==> old(|ast.containers|) + 1 + boxes >= AST_SIZE || old(|ast.ifs|) + boxes >= AST_SIZE)
      && (ret == OVERRUN ==> boxes >= ENTRY_SCAN)
  {
    assert Tailed(f.succ, f.ifTail);
    hide AstInv, Region, Acyclic, IsIfTail, Work, Faithful, Tailed, Owed, Boxes;
    ghost var boxes := Boxes(f.succ, f.ifTail, start, 0);
    NothingOwed(f.succ, f.ifTail, entries[..]);
    ghost var base := |ast.containers|;
    ghost var es := entries[..];
    if |ast.containers| >= AST_SIZE {
      entries[0] := Pending(|ast.containers|, start, 0);
      return FULL;
    }
    ghost var spans := FirstContainer(f.succ, ast.containers, ast.ifs, es, start);
    entries[0] := Pending(|ast.containers|, start, 0);
    assert entries[..] == es[0 := Pending(|ast.containers|, start, 0)];
    OwedUpdate(f.succ, f.ifTail, es, 0, Pending(|ast.containers|, start, 0));
    ast.containers := ast.containers + [[]];
    if |ast.containers| >= AST_SIZE {
      return FULL;
    }
    ret := WorkOff(f, ast, entries, start, base, spans);
  }
}
