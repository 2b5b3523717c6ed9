/** Bookkeeping facts for the path search: where every open walk is kept while
    `build_control_flow_paths` runs. */
module PathSearch {
  import opened Graph
  import opened PathTable

  /** A branch still to be followed; node 0 marks an empty slot. */
  datatype MidStart = MidStart(node: nat, prev: nat, prevIndex: nat)

  const SLOTS: nat := 1000

  ghost predicate ValidSlots(ps: seq<Path>, slots: seq<MidStart>) {
    forall i :: 0 <= i < |slots| && slots[i].node != 0 ==> ValidSlot(ps, slots[i])
  }

  ghost predicate ValidSlot(ps: seq<Path>, s: MidStart) {
    s.prev < |ps| && s.prevIndex < |ps[s.prev].nodes|
  }

  ghost function SlotTrace(ps: seq<Path>, s: MidStart): (w: seq<nat>)
    requires ValidTable(ps) && ValidSlot(ps, s)
  {
    Trace(ps, s.prev, s.prevIndex + 1) + [s.node]
  }

  /** The slots in use. */
  ghost function Busy(slots: seq<MidStart>): (s: set<nat>) {
    set i: nat | i < |slots| && slots[i].node != 0
  }

  ghost function PathWalks(ps: seq<Path>): (ws: seq<seq<nat>>)
    requires ValidTable(ps)
    ensures |ws| == |ps| && forall p :: 0 <= p < |ps| ==> ws[p] == FullTrace(ps, p)
  {
    seq(|ps|, p requires 0 <= p < |ps| => FullTrace(ps, p))
  }

  ghost function SlotWalks(ps: seq<Path>, slots: seq<MidStart>): (ws: map<nat, seq<nat>>)
    requires ValidTable(ps) && ValidSlots(ps, slots)
    ensures ws.Keys == Busy(slots)
    ensures forall i :: i in ws ==> ws[i] == SlotTrace(ps, slots[i])
  {
    map i | i in Busy(slots) :: SlotTrace(ps, slots[i])
  }

  // ----- How the walks move when the tables change

  ghost predicate SameShape(p: Path, q: Path) {
    p.prev == q.prev && p.prevIndex == q.prevIndex && p.nodes == q.nodes
  }

  lemma GrowthKeepsSlots(ps: seq<Path>, ps': seq<Path>, slots: seq<MidStart>)
    requires ValidTable(ps) && ValidTable(ps') && Grows(ps, ps') && ValidSlots(ps, slots)
    ensures ValidSlots(ps', slots) && SlotWalks(ps', slots) == SlotWalks(ps, slots)
  {
    forall i | 0 <= i < |slots| && slots[i].node != 0 ensures ValidSlot(ps', slots[i]) {
      assert ValidSlot(ps, slots[i]);
    }
    forall i | i in Busy(slots) ensures SlotTrace(ps', slots[i]) == SlotTrace(ps, slots[i]) {
      assert ValidSlot(ps, slots[i]);
      TraceStable(ps, ps', slots[i].prev, slots[i].prevIndex + 1);
    }
  }

  /** Setting flags of paths moves no walk. */
  lemma FlagsKeepWalks(ps: seq<Path>, ps': seq<Path>, slots: seq<MidStart>)
    requires ValidTable(ps) && ValidSlots(ps, slots)
    requires |ps| == |ps'| && forall p :: 0 <= p < |ps| ==> SameShape(ps[p], ps'[p])
    ensures ValidTable(ps') && PathWalks(ps') == PathWalks(ps)
    ensures ValidSlots(ps', slots) && SlotWalks(ps', slots) == SlotWalks(ps, slots)
  {
    forall p | 0 <= p < |ps| ensures FullTrace(ps', p) == FullTrace(ps, p) {
      TraceStable(ps, ps', p, |ps[p].nodes|);
    }
    GrowthKeepsSlots(ps, ps', slots);
  }

  lemma GrowthKeepsPath(ps: seq<Path>, ps': seq<Path>, p: nat)
    requires ValidTable(ps) && ValidTable(ps') && Grows(ps, ps') && p < |ps|
    requires ps[p].nodes == ps'[p].nodes
    ensures FullTrace(ps', p) == FullTrace(ps, p)
  {
    TraceStable(ps, ps', p, |ps[p].nodes|);
  }

  /** The new path that is started from slot `s`. */
  function StartedFrom(s: MidStart): (p: Path) {
    Path(s.prev, s.prevIndex, [s.node], false, 0)
  }

  lemma NewPathWalk(ps: seq<Path>, s: MidStart)
    requires |ps| > 0 && ValidTable(ps) && ValidSlot(ps, s)
    ensures ValidTable(ps + [StartedFrom(s)])
    ensures FullTrace(ps + [StartedFrom(s)], |ps|) == SlotTrace(ps, s)
  {
    var ps' := ps + [StartedFrom(s)];
    assert ps'[|ps|].nodes[..1] == [s.node];
    TraceStable(ps, ps', s.prev, s.prevIndex + 1);
  }

  lemma EmptySlotWalks(ps: seq<Path>, slots: seq<MidStart>, i: nat)
    requires ValidTable(ps) && ValidSlots(ps, slots) && i in Busy(slots)
    ensures var slots' := slots[i := slots[i].(node := 0)];
      ValidSlots(ps, slots') && SlotWalks(ps, slots') == SlotWalks(ps, slots) - {i}
  {
  }

  /** A path that starts from a slot takes over the walk of the slot. */
  lemma TakeSlotWalks(ps: seq<Path>, slots: seq<MidStart>, i: nat)
    requires |ps| > 0 && ValidTable(ps) && ValidSlots(ps, slots) && i in Busy(slots)
    ensures var ps' := ps + [StartedFrom(slots[i])]; var slots' := slots[i := slots[i].(node := 0)];
      && ValidTable(ps') && ValidSlots(ps', slots')
      && PathWalks(ps') == PathWalks(ps) + [SlotWalks(ps, slots)[i]]
      && SlotWalks(ps', slots') == SlotWalks(ps, slots) - {i}
  {
    hide FullTrace, Trace, ValidTable;
    assert ValidSlot(ps, slots[i]);
    var ps' := ps + [StartedFrom(slots[i])];
    NewPathWalk(ps, slots[i]);
    EmptySlotWalks(ps, slots, i);
    GrowthKeepsSlots(ps, ps', slots[i := slots[i].(node := 0)]);
    OneMorePathWalk(ps, ps');
    assert FullTrace(ps', |ps|) == SlotWalks(ps, slots)[i];
  }

  /** One more path leaves the walks of the others. */
  lemma OneMorePathWalk(ps: seq<Path>, ps': seq<Path>)
    requires ValidTable(ps) && ValidTable(ps') && |ps'| == |ps| + 1 && ps <= ps'
    ensures PathWalks(ps') == PathWalks(ps) + [FullTrace(ps', |ps|)]
  {
    hide FullTrace, Trace, ValidTable;
    forall p | 0 <= p < |ps| ensures FullTrace(ps', p) == FullTrace(ps, p) {
      assert ps'[p] == ps[p];
      GrowthKeepsPath(ps, ps', p);
    }
  }

  /** The table with node `v` added to the newest path. */
  function Extended(ps: seq<Path>, v: nat): (ps': seq<Path>)
    requires |ps| > 0
  {
    var cur := |ps| - 1;
    ps[cur := ps[cur].(nodes := ps[cur].nodes + [v])]
  }

  lemma ExtendedIsValid(ps: seq<Path>, v: nat)
    requires |ps| > 0 && ValidTable(ps)
    ensures ValidTable(Extended(ps, v))
  {
    var ps' := Extended(ps, v);
    forall p | 0 < p < |ps'|
      ensures ps'[p].nodes != [] && ps'[p].prev < p && ps'[p].prevIndex < |ps'[ps'[p].prev].nodes|
    {
      assert ps[p].prev < p && ps[p].prevIndex < |ps[ps[p].prev].nodes|;
    }
  }

  lemma ExtendedTrace(ps: seq<Path>, v: nat)
    requires |ps| > 0 && ValidTable(ps) && ValidTable(Extended(ps, v))
    ensures FullTrace(Extended(ps, v), |ps| - 1) == FullTrace(ps, |ps| - 1) + [v]
  {
    hide Trace;
    var cur := |ps| - 1;
    var ps' := Extended(ps, v);
    TraceSnoc(ps', cur, |ps[cur].nodes|);
    TraceStable(ps, ps', cur, |ps[cur].nodes|);
  }

  lemma ExtendPathWalks(ps: seq<Path>, slots: seq<MidStart>, v: nat)
    requires |ps| > 0 && ValidTable(ps) && ValidSlots(ps, slots)
    ensures var ps' := Extended(ps, v);
      && ValidTable(ps') && ValidSlots(ps', slots)
      && PathWalks(ps') == PathWalks(ps)[|ps| - 1 := FullTrace(ps, |ps| - 1) + [v]]
      && SlotWalks(ps', slots) == SlotWalks(ps, slots)
  {
    var ps' := Extended(ps, v);
    ExtendedIsValid(ps, v);
    GrowthKeepsSlots(ps, ps', slots);
    ExtendedTrace(ps, v);
    forall p | 0 <= p < |ps| - 1 ensures FullTrace(ps', p) == FullTrace(ps, p) {
      GrowthKeepsPath(ps, ps', p);
    }
  }

  /** Putting the branch to `v` from the end of the newest path into slot `i`. */
  lemma FillSlotWalks(ps: seq<Path>, slots: seq<MidStart>, i: nat, v: nat)
    requires |ps| > 0 && ValidTable(ps) && ValidSlots(ps, slots) && i < |slots| && v != 0
    ensures var slots' := slots[i := MidStart(v, |ps| - 1, |ps[|ps| - 1].nodes| - 1)];
      ValidSlots(ps, slots')
      && SlotWalks(ps, slots') == SlotWalks(ps, slots)[i := FullTrace(ps, |ps| - 1) + [v]]
  {
  }

  // ----- Where the open walks are

  /** An open walk is either the trace of a path or waits in a slot. */
  datatype Place = OnPath(p: nat) | InSlot(i: nat)

  ghost predicate Tracked(pw: seq<seq<nat>>, sw: map<nat, seq<nat>>, places: map<seq<nat>, Place>) {
    && (forall p :: 0 <= p < |pw| ==> pw[p] in places && places[pw[p]] == OnPath(p))
    && (forall i :: i in sw ==> sw[i] in places && places[sw[i]] == InSlot(i))
    && (forall x :: x in places ==>
          match places[x]
          case OnPath(p) => p < |pw| && pw[p] == x
          case InSlot(i) => i in sw && sw[i] == x)
  }

  lemma TrackTake(pw: seq<seq<nat>>, sw: map<nat, seq<nat>>, places: map<seq<nat>, Place>, i: nat)
    requires Tracked(pw, sw, places) && i in sw
    ensures Tracked(pw + [sw[i]], sw - {i}, places[sw[i] := OnPath(|pw|)])
  {
  }

  lemma TrackExtend(pw: seq<seq<nat>>, sw: map<nat, seq<nat>>, places: map<seq<nat>, Place>, p: nat, y: seq<nat>)
    requires Tracked(pw, sw, places) && p < |pw| && y !in places
    ensures Tracked(pw[p := y], sw, (places - {pw[p]})[y := OnPath(p)])
  {
  }

  lemma TrackFill(pw: seq<seq<nat>>, sw: map<nat, seq<nat>>, places: map<seq<nat>, Place>, i: nat, y: seq<nat>)
    requires Tracked(pw, sw, places) && i !in sw && y !in places
    ensures Tracked(pw, sw[i := y], places[y := InSlot(i)])
  {
  }

  lemma BusyFull(slots: seq<MidStart>)
    requires forall i :: 0 <= i < |slots| ==> slots[i].node != 0
    ensures |Busy(slots)| == |slots|
  {
    BusyPrefix(slots, |slots|);
    assert slots[..|slots|] == slots;
  }

  lemma {:induction false} BusyPrefix(slots: seq<MidStart>, n: nat)
    requires n <= |slots| && forall i :: 0 <= i < |slots| ==> slots[i].node != 0
    ensures |Busy(slots[..n])| == n
  {
    if n > 0 {
      BusyPrefix(slots, n - 1);
      assert Busy(slots[..n]) == Busy(slots[..n - 1]) + {n - 1};
    }
  }

  lemma ExitNotRepeated(g: Cfg, w: seq<nat>)
    requires IsWalk(g, w) && IsExit(g, Last(w))
    ensures Last(w) !in Front(w)
  {
    forall i | 0 <= i < |w| - 1 ensures w[i] != Last(w) {
      assert Edge(g, w[i], w[i + 1]);
    }
  }
}
