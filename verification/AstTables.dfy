/** The syntax tree tables and what they mean. */
module AstTables {
  import opened Graph
  import opened CfgRuns

  /** An entry of a container: a node, or a row of the if table. */
  datatype AstObject = NodeObject(node: nat) | IfObject(index: nat)

  datatype Branch = EmptyBranch | ContainerBranch(index: nat)

  datatype IfThenElse = IfThenElse(expression: nat, ifThen: Branch, ifElse: Branch)

  type Containers = seq<seq<AstObject>>
  type Ifs = seq<IfThenElse>

  // ----- Meaning of the finished tables

  /** Branches of the objects of container `c` lead to later containers only. */
  ghost predicate LaterBranch(b: Branch, c: nat, size: nat) {
    b.ContainerBranch? ==> c < b.index < size
  }

  ghost predicate LaterObject(ifs: Ifs, obj: AstObject, c: nat, size: nat) {
    obj.IfObject? ==>
      obj.index < |ifs| && LaterBranch(ifs[obj.index].ifThen, c, size) && LaterBranch(ifs[obj.index].ifElse, c, size)
  }

  ghost predicate LaterObjects(ifs: Ifs, objs: seq<AstObject>, c: nat, size: nat) {
    forall i :: 0 <= i < |objs| ==> LaterObject(ifs, objs[i], c, size)
  }

  /** The containers from `base` on form a tree. */
  ghost predicate TreeFrom(cs: Containers, ifs: Ifs, base: nat) {
    forall c :: base <= c < |cs| ==> LaterObjects(ifs, cs[c], c, |cs|)
  }

  /** The nodes visited, appended to `h`, by the first `k` objects of container `c`. */
  ghost function Exec(cs: Containers, ifs: Ifs, base: nat, c: nat, k: nat, h: seq<nat>, o: Oracle): (r: seq<nat>)
    requires TreeFrom(cs, ifs, base) && base <= c < |cs| && k <= |cs[c]|
    decreases |cs| - c, k
  {
    if k == 0 then h
    else
      var h1 := Exec(cs, ifs, base, c, k - 1, h, o);
      assert LaterObject(ifs, cs[c][k - 1], c, |cs|);
      match cs[c][k - 1]
      case NodeObject(n) => h1 + [n]
      case IfObject(i) =>
        var h2 := h1 + [ifs[i].expression];
        match if o(h2) then ifs[i].ifThen else ifs[i].ifElse
        case EmptyBranch => h2
        case ContainerBranch(b) => Exec(cs, ifs, base, b, |cs[b]|, h2, o)
  }

  ghost function ExecContainer(cs: Containers, ifs: Ifs, base: nat, c: nat, h: seq<nat>, o: Oracle): (r: seq<nat>)
    requires TreeFrom(cs, ifs, base) && base <= c < |cs|
  {
    Exec(cs, ifs, base, c, |cs[c]|, h, o)
  }

  // ----- Meaning of a container whose branches still have to be filled

  /** The part of the graph that a container stands for. */
  datatype Span = Span(node: nat, end: nat)

  ghost predicate ValidSpans(g: Cfg, base: nat, spans: seq<Span>) {
    forall c :: base <= c < |spans| ==> Region(g, spans[c].node, spans[c].end)
  }

  ghost function RunBranch(g: Cfg, base: nat, spans: seq<Span>, b: Branch, h: seq<nat>, o: Oracle): (r: seq<nat>)
    requires WellFormed(g) && Acyclic(g) && ValidSpans(g, base, spans)
    requires b.ContainerBranch? ==> base <= b.index < |spans|
  {
    match b
    case EmptyBranch => h
    case ContainerBranch(i) => Run(g, spans[i].node, spans[i].end, h, o)
  }

  /** One object executed with branch containers read as their spans. */
  ghost function PlanObject(g: Cfg, base: nat, spans: seq<Span>, ifs: Ifs, c: nat, obj: AstObject, h: seq<nat>,
                            o: Oracle): (r: seq<nat>)
    requires WellFormed(g) && Acyclic(g) && ValidSpans(g, base, spans)
    requires base <= c && LaterObject(ifs, obj, c, |spans|)
  {
    match obj
    case NodeObject(n) => h + [n]
    case IfObject(i) =>
      var h1 := h + [ifs[i].expression];
      RunBranch(g, base, spans, if o(h1) then ifs[i].ifThen else ifs[i].ifElse, h1, o)
  }

  /** The objects executed with every branch container read as the span it stands for. */
  ghost function Planned(g: Cfg, base: nat, spans: seq<Span>, ifs: Ifs, c: nat, objs: seq<AstObject>, h: seq<nat>,
                         o: Oracle): (r: seq<nat>)
    requires WellFormed(g) && Acyclic(g) && ValidSpans(g, base, spans)
    requires base <= c && LaterObjects(ifs, objs, c, |spans|)
    decreases |objs|
  {
    if objs == [] then h
    else
      var last := objs[|objs| - 1];
      assert LaterObject(ifs, last, c, |spans|);
      PlanObject(g, base, spans, ifs, c, last, Planned(g, base, spans, ifs, c, objs[..|objs| - 1], h, o), o)
  }

  lemma PlannedSnoc(g: Cfg, base: nat, spans: seq<Span>, ifs: Ifs, c: nat, objs: seq<AstObject>, obj: AstObject,
                    h: seq<nat>, o: Oracle)
    requires WellFormed(g) && Acyclic(g) && ValidSpans(g, base, spans)
    requires base <= c && LaterObjects(ifs, objs, c, |spans|) && LaterObject(ifs, obj, c, |spans|)
    ensures LaterObjects(ifs, objs + [obj], c, |spans|)
    ensures Planned(g, base, spans, ifs, c, objs + [obj], h, o) ==
      PlanObject(g, base, spans, ifs, c, obj, Planned(g, base, spans, ifs, c, objs, h, o), o)
  {
    assert (objs + [obj])[..|objs|] == objs;
  }

  lemma LaterStable(ifs: Ifs, ifs': Ifs, c: nat, objs: seq<AstObject>, size: nat, size': nat)
    requires ifs <= ifs' && size <= size' && LaterObjects(ifs, objs, c, size)
    ensures LaterObjects(ifs', objs, c, size')
  {
    forall i | 0 <= i < |objs| ensures LaterObject(ifs', objs[i], c, size') {
      assert LaterObject(ifs, objs[i], c, size);
    }
  }

  lemma PlanObjectStable(g: Cfg, base: nat, spans: seq<Span>, spans': seq<Span>, ifs: Ifs, ifs': Ifs, c: nat,
                         obj: AstObject, h: seq<nat>, o: Oracle)
    requires WellFormed(g) && Acyclic(g) && ValidSpans(g, base, spans) && ValidSpans(g, base, spans')
    requires spans <= spans' && ifs <= ifs'
    requires base <= c && LaterObject(ifs, obj, c, |spans|) && LaterObject(ifs', obj, c, |spans'|)
    ensures PlanObject(g, base, spans', ifs', c, obj, h, o) == PlanObject(g, base, spans, ifs, c, obj, h, o)
  {
    hide Run, Region, Acyclic, WellFormed;
  }

  /** Longer tables do not change what the earlier objects are planned to do. */
  lemma {:induction false} PlannedStable(g: Cfg, base: nat, spans: seq<Span>, spans': seq<Span>, ifs: Ifs, ifs': Ifs,
                                         c: nat, objs: seq<AstObject>, h: seq<nat>, o: Oracle)
    requires WellFormed(g) && Acyclic(g) && ValidSpans(g, base, spans) && ValidSpans(g, base, spans')
    requires spans <= spans' && ifs <= ifs'
    requires base <= c && LaterObjects(ifs, objs, c, |spans|)
    ensures LaterObjects(ifs', objs, c, |spans'|)
    ensures Planned(g, base, spans', ifs', c, objs, h, o) == Planned(g, base, spans, ifs, c, objs, h, o)
    decreases |objs|
  {
    hide Run, Region, Acyclic, WellFormed, ValidSpans, PlanObject;
    LaterStable(ifs, ifs', c, objs, |spans|, |spans'|);
    if objs != [] {
      var front, last := objs[..|objs| - 1], objs[|objs| - 1];
      assert LaterObject(ifs, last, c, |spans|) && LaterObject(ifs', last, c, |spans'|);
      PlannedStable(g, base, spans, spans', ifs, ifs', c, front, h, o);
      PlanObjectStable(g, base, spans, spans', ifs, ifs', c, last, Planned(g, base, spans, ifs, c, front, h, o), o);
    }
  }

  /** The container does what its span asks for, if its branches do. */
  ghost predicate Fulfilled(g: Cfg, base: nat, spans: seq<Span>, ifs: Ifs, c: nat, objs: seq<AstObject>)
    requires WellFormed(g) && Acyclic(g) && ValidSpans(g, base, spans)
    requires base <= c < |spans| && LaterObjects(ifs, objs, c, |spans|)
  {
    forall h: seq<nat>, o: Oracle ::
      Planned(g, base, spans, ifs, c, objs, h, o) == Run(g, spans[c].node, spans[c].end, h, o)
  }

  /** When every container fulfils its span, execution visits the nodes of the graph's run. */
  lemma {:induction false} ExecIsPlanned(g: Cfg, cs: Containers, ifs: Ifs, base: nat, spans: seq<Span>, c: nat,
                                         k: nat, h: seq<nat>, o: Oracle)
    requires WellFormed(g) && Acyclic(g) && ValidSpans(g, base, spans) && |spans| == |cs|
    requires TreeFrom(cs, ifs, base)
    requires forall b :: base <= b < |cs| ==> Fulfilled(g, base, spans, ifs, b, cs[b])
    requires base <= c < |cs| && k <= |cs[c]|
    ensures LaterObjects(ifs, cs[c][..k], c, |spans|)
    ensures Exec(cs, ifs, base, c, k, h, o) == Planned(g, base, spans, ifs, c, cs[c][..k], h, o)
    decreases |cs| - c, k
  {
    if k > 0 {
      ExecIsPlanned(g, cs, ifs, base, spans, c, k - 1, h, o);
      assert LaterObject(ifs, cs[c][k - 1], c, |cs|);
      assert cs[c][..k] == cs[c][..k - 1] + [cs[c][k - 1]];
      PlannedSnoc(g, base, spans, ifs, c, cs[c][..k - 1], cs[c][k - 1], h, o);
      if cs[c][k - 1].IfObject? {
        var i := cs[c][k - 1].index;
        var h2 := Exec(cs, ifs, base, c, k - 1, h, o) + [ifs[i].expression];
        var br := if o(h2) then ifs[i].ifThen else ifs[i].ifElse;
        if br.ContainerBranch? {
          ExecIsPlanned(g, cs, ifs, base, spans, br.index, |cs[br.index]|, h2, o);
          assert cs[br.index][..|cs[br.index]|] == cs[br.index];
          assert Fulfilled(g, base, spans, ifs, br.index, cs[br.index]);
        }
      }
    }
  }
}
