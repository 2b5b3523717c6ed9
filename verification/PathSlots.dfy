/** Which branches wait in slots, and how many at a time: the invariant of the path search. */
module PathSlots {
  import opened Graph
  import opened PathTable
  import opened PathSearch

  // ----- Branches left waiting along a walk

  ghost function Spare(g: Cfg, u: nat): (n: nat) {
    if u < |g| && |g[u]| > 1 then |g[u]| - 1 else 0
  }

  /** All links but one of every node. */
  ghost function Spares(g: Cfg, w: seq<nat>): (n: nat) {
    if w == [] then 0 else Spares(g, Front(w)) + Spare(g, Last(w))
  }

  lemma SparesSnoc(g: Cfg, w: seq<nat>, u: nat)
    ensures Spares(g, w + [u]) == Spares(g, w) + Spare(g, u)
  {
    assert Front(w + [u]) == w;
  }

  lemma {:induction false} SparesRest(g: Cfg, w: seq<nat>, k: nat)
    requires k <= |w|
    ensures Spares(g, w[k..]) <= Spares(g, w)
  {
    if k < |w| {
      SparesRest(g, Front(w), k);
      assert Front(w[k..]) == Front(w)[k..];
    }
  }

  lemma SparesFirst(g: Cfg, w: seq<nat>)
    requires w != []
    ensures Spare(g, w[0]) <= Spares(g, w)
  {
    if |w| > 1 {
      SparesFirst(g, Front(w));
    }
  }

  // ----- Segments

  /** `v` is entered from position `k` of path `q` through another link than the first. */
  ghost predicate SideBranch(g: Cfg, ps: seq<Path>, q: nat, k: nat, v: nat) {
    && q < |ps| && k < |ps[q].nodes| && ps[q].nodes[k] < |g|
    && g[ps[q].nodes[k]] != [] && v != g[ps[q].nodes[k]][0]
  }

  /** A segment begins with a side branch and follows first links. */
  ghost predicate Segment(g: Cfg, ps: seq<Path>, p: nat)
    requires p < |ps|
  {
    && ps[p].nodes != [] && FirstLinks(g, ps[p].nodes)
    && (p > 0 ==> SideBranch(g, ps, ps[p].prev, ps[p].prevIndex, ps[p].nodes[0]))
  }

  /** The branches along a segment have all been waiting when its path ended. */
  ghost predicate Lean(g: Cfg, ps: seq<Path>, busy: nat) {
    forall p :: 0 <= p < |ps| && ps[p].nodes != [] ==>
      Spares(g, Front(ps[p].nodes)) <= if p == |ps| - 1 then busy else SLOTS
  }

  /** Segments, waiting branches and, as long as no branch has been lost, how many of them there are. */
  ghost predicate Routed(g: Cfg, ps: seq<Path>, slots: seq<MidStart>, lost: bool) {
    && (forall p :: 0 <= p < |ps| ==> Segment(g, ps, p))
    && (forall i :: 0 <= i < |slots| && slots[i].node != 0 ==>
          SideBranch(g, ps, slots[i].prev, slots[i].prevIndex, slots[i].node))
    && (!lost ==> Lean(g, ps, |Busy(slots)|))
  }

  lemma RoutedFlags(g: Cfg, ps: seq<Path>, ps': seq<Path>, slots: seq<MidStart>, lost: bool)
    requires Routed(g, ps, slots, lost)
    requires |ps| == |ps'| && forall p :: 0 <= p < |ps| ==> SameShape(ps[p], ps'[p])
    ensures Routed(g, ps', slots, lost)
  {
    forall p | 0 <= p < |ps| ensures Segment(g, ps', p) {
      assert Segment(g, ps, p);
    }
  }

  /** A slot that holds one of the branches at the given place. */
  ghost predicate NewBranch(s: MidStart, links: seq<nat>, path: nat, step: nat) {
    s.prev == path && s.prevIndex == step && exists k: nat :: 1 <= k < |links| && links[k] == s.node
  }

  ghost predicate SlotsGrow(slots: seq<MidStart>, slots': seq<MidStart>, links: seq<nat>, path: nat, step: nat) {
    |slots'| == |slots| && forall i :: 0 <= i < |slots| ==> slots'[i] == slots[i] || NewBranch(slots'[i], links, path, step)
  }

  lemma RoutedAdvance(g: Cfg, ps: seq<Path>, slots: seq<MidStart>, lost: bool, slots': seq<MidStart>, lost': bool)
    requires WellFormed(g) && |ps| > 0 && ps[|ps| - 1].nodes != [] && Routed(g, ps, slots, lost)
    requires Last(ps[|ps| - 1].nodes) < |g| && g[Last(ps[|ps| - 1].nodes)] != []
    requires SlotsGrow(slots, slots', g[Last(ps[|ps| - 1].nodes)], |ps| - 1, |ps[|ps| - 1].nodes| - 1)
    requires !lost' ==> !lost && |Busy(slots')| == |Busy(slots)| + Spare(g, Last(ps[|ps| - 1].nodes))
    ensures Routed(g, Extended(ps, g[Last(ps[|ps| - 1].nodes)][0]), slots', lost')
  {
    var cur := |ps| - 1;
    var nodes := ps[cur].nodes;
    var u := Last(nodes);
    var ps' := Extended(ps, g[u][0]);
    assert Segment(g, ps, cur);
    FirstLinksSnoc(g, nodes, g[u][0]);
    forall p | 0 <= p < |ps'| ensures Segment(g, ps', p) {
      assert Segment(g, ps, p);
    }
    forall i | 0 <= i < |slots'| && slots'[i].node != 0
      ensures SideBranch(g, ps', slots'[i].prev, slots'[i].prevIndex, slots'[i].node)
    {
      if slots'[i] == slots[i] {
        assert SideBranch(g, ps, slots[i].prev, slots[i].prevIndex, slots[i].node);
      }
    }
    if !lost' {
      assert nodes == Front(nodes) + [u];
      SparesSnoc(g, Front(nodes), u);
      assert Front(nodes + [g[u][0]]) == nodes;
    }
  }

  lemma RoutedFirst(g: Cfg, start: nat, slots: seq<MidStart>)
    requires forall i :: 0 <= i < |slots| ==> slots[i].node == 0
    ensures Routed(g, [Path(0, 0, [start], false, 0)], slots, false)
  {
    assert Front([start]) == [];
  }

  lemma {:induction false} BusyBound(slots: seq<MidStart>)
    ensures |Busy(slots)| <= |slots|
  {
    if slots != [] {
      var n := |slots| - 1;
      BusyBound(slots[..n]);
      SubsetSize(Busy(slots), Busy(slots[..n]) + {n});
    }
  }

  lemma RoutedTake(g: Cfg, ps: seq<Path>, slots: seq<MidStart>, lost: bool, i: nat)
    requires |ps| > 0 && |slots| == SLOTS && Routed(g, ps, slots, lost) && i < |slots| && slots[i].node != 0
    ensures Routed(g, ps + [StartedFrom(slots[i])], slots[i := slots[i].(node := 0)], lost)
  {
    var ps' := ps + [StartedFrom(slots[i])];
    var v := slots[i].node;
    assert Front([v]) == [];
    assert SideBranch(g, ps, slots[i].prev, slots[i].prevIndex, slots[i].node);
    forall p | 0 <= p < |ps'| ensures Segment(g, ps', p) {
      if p < |ps| {
        assert Segment(g, ps, p);
      }
    }
    BusyBound(slots);
  }

  // ----- What the search keeps true

  datatype Search = Search(open: set<seq<nat>>, places: map<seq<nat>, Place>, lost: bool)

  /** A branch has been lost exactly when some open walk is kept nowhere; that happens only when every
      slot is in use, so the table is bound to outgrow their number. */
  ghost predicate SearchInv(g: Cfg, start: nat, ps: seq<Path>, slots: seq<MidStart>, s: Search) {
    && |slots| == SLOTS
    && ValidTable(ps)
    && ValidSlots(ps, slots)
    && Frontier(g, start, s.open)
    && Tracked(PathWalks(ps), SlotWalks(ps, slots), s.places)
    && s.places.Keys <= s.open
    && (s.lost <==> !(s.open <= s.places.Keys))
    && (s.lost ==> |ps| + |Busy(slots)| > SLOTS)
    && Routed(g, ps, slots, s.lost)
  }

  // ----- When branches must get lost

  /** From position `i` on the walk takes first links, past more branches than there are slots. */
  ghost predicate Crowded(g: Cfg, start: nat, w: seq<nat>, i: nat) {
    Stopped(g, start, w) && i < |w| && FirstLinks(g, w[i..]) && Spares(g, Front(w)[i..]) > SLOTS
  }

  lemma FirstLinkAt(g: Cfg, w: seq<nat>, i: nat, k: nat)
    requires i <= k && k + 1 < |w| && FirstLinks(g, w[i..])
    ensures FirstLink(g, w[k], w[k + 1])
  {
    var x, y := k - i, k + 1 - i;
    assert FirstLink(g, w[i..][x], w[i..][y]);
  }

  /** The segment of a path reaches back at least as far as the walk takes first links. */
  lemma SegmentCovers(g: Cfg, ps: seq<Path>, p: nat, i: nat)
    requires ValidTable(ps) && p < |ps| && Segment(g, ps, p)
    requires i < |FullTrace(ps, p)| && FirstLinks(g, FullTrace(ps, p)[i..])
    ensures var w, own := FullTrace(ps, p), ps[p].nodes; exists before: seq<nat> :: w == before + own && |before| <= i
  {
    hide FirstLinks;
    var w, own := FullTrace(ps, p), ps[p].nodes;
    var before := Trace(ps, p, 0);
    assert w == before + own;
    if p > 0 {
      TraceSnoc(ps, ps[p].prev, ps[p].prevIndex);
      assert Last(before) == ps[ps[p].prev].nodes[ps[p].prevIndex];
      if i < |before| {
        FirstLinkAt(g, w, i, |before| - 1);
        assert false;
      }
    }
  }

  lemma RestOfSegment(g: Cfg, before: seq<nat>, own: seq<nat>, i: nat)
    requires own != [] && |before| <= i < |before + own|
    ensures Spares(g, Front(before + own)[i..]) <= Spares(g, Front(own))
  {
    var k := i - |before|;
    assert Front(before + own)[i..] == Front(own)[k..];
    SparesRest(g, Front(own), k);
  }

  lemma CrowdedLost(g: Cfg, start: nat, ps: seq<Path>, slots: seq<MidStart>, s: Search, p: nat, i: nat)
    requires SearchInv(g, start, ps, slots, s) && p < |ps| && Crowded(g, start, FullTrace(ps, p), i)
    ensures s.lost
  {
    hide FullTrace, ValidSlots, SlotWalks, Frontier, ValidTable, Tracked, Stopped, Spares, FirstLinks, Busy;
    assert Segment(g, ps, p);
    SegmentCovers(g, ps, p, i);
    var before: seq<nat> :| FullTrace(ps, p) == before + ps[p].nodes && |before| <= i;
    RestOfSegment(g, before, ps[p].nodes, i);
    BusyBound(slots);
  }

  /** Two stopped walks from the entry through first links are the same. */
  lemma {:induction false} FirstPrefix(g: Cfg, w: seq<nat>, x: seq<nat>, n: nat)
    requires FirstLinks(g, w) && FirstLinks(g, x) && w != [] && x != [] && w[0] == x[0] && 1 <= n <= |w| && n <= |x|
    ensures w[..n] == x[..n]
  {
    if n == 1 {
      assert w[..1] == [w[0]] && x[..1] == [x[0]];
    } else {
      FirstPrefix(g, w, x, n - 1);
      var i, j := n - 2, n - 1;
      assert w[i] == w[..j][i] && x[i] == x[..j][i];
      assert FirstLink(g, w[i], w[j]) && FirstLink(g, x[i], x[j]);
      assert w[..n] == w[..j] + [w[j]] && x[..n] == x[..j] + [x[j]];
    }
  }

  lemma FirstWalk(g: Cfg, start: nat, w: seq<nat>, x: seq<nat>)
    requires Stopped(g, start, w) && Stopped(g, start, x) && FirstLinks(g, w) && FirstLinks(g, x)
    ensures w == x
  {
    if |w| <= |x| {
      FirstPrefix(g, w, x, |w|);
      assert w[..|w|] == w;
      StoppedIsMaximal(g, start, w, x);
    } else {
      FirstPrefix(g, w, x, |x|);
      assert x[..|x|] == x;
      StoppedIsMaximal(g, start, x, w);
    }
  }

  /** If the walk through first links is crowded, a branch is lost on the first path already. */
  lemma CrowdedFirst(g: Cfg, start: nat, ps: seq<Path>, slots: seq<MidStart>, s: Search, w: seq<nat>)
    requires SearchInv(g, start, ps, slots, s) && |ps| > 0 && Stopped(g, start, FullTrace(ps, 0))
    requires Crowded(g, start, w, 0)
    ensures s.lost
  {
    hide Stopped, ValidSlots, SlotWalks, Frontier, Tracked, Lean;
    assert Segment(g, ps, 0) && FullTrace(ps, 0) == ps[0].nodes;
    assert w[0..] == w;
    FirstWalk(g, start, w, FullTrace(ps, 0));
    CrowdedLost(g, start, ps, slots, s, 0, 0);
  }

  /** A node with more links than fit makes a walk crowded, from the entry on if it is the entry. */
  lemma WideCrowds(g: Cfg, start: nat, v: nat) returns (w: seq<nat>, i: nat)
    requires WellFormed(g) && v < |g| && Reaches(g, start, v) && |g[v]| > SLOTS + 1
    ensures Crowded(g, start, w, i) && (v == start ==> i == 0)
  {
    var a :| WalkBetween(g, a, start, v);
    var y := EraseLoops(g, a);
    assert Simple(Front(y)) && (v == start ==> |y| == 1);
    i := |y| - 1;
    w := ExtendsToStopped(g, start, y);
    assert w[i] == v && y == w[..i + 1];
    StoppedNext(g, start, w, i);
    var rest := Front(w)[i..];
    assert rest[0] == v;
    SparesFirst(g, rest);
  }

  // ----- When none can

  /** `all` holds every stopped walk. */
  ghost predicate HoldsStopped(g: Cfg, start: nat, all: set<seq<nat>>) {
    forall w :: Stopped(g, start, w) ==> w in all
  }

  lemma NoCommonEnd(x: seq<nat>, y: seq<nat>, w: seq<nat>)
    requires !(x <= y) && !(y <= x) && x <= w
    ensures !(y <= w)
  {
  }

  /** Every open walk goes on to a stopped one of its own. */
  lemma {:induction false} PrefixCount(open: set<seq<nat>>, all: set<seq<nat>>)
    requires forall x, y :: x in open && y in open && x <= y ==> x == y
    requires forall x :: x in open ==> exists w :: w in all && x <= w
    ensures |open| <= |all|
  {
    if x :| x in open {
      var w :| w in all && x <= w;
      forall y | y in open - {x} ensures exists v :: v in all - {w} && y <= v {
        var v :| v in all && y <= v;
        assert y in open && y != x && !(x <= y) && !(y <= x);
        NoCommonEnd(x, y, w);
        assert v in all - {w};
      }
      PrefixCount(open - {x}, all - {w});
      assert open == (open - {x}) + {x};
    }
  }

  lemma {:induction false} PathCount(pw: seq<seq<nat>>, places: map<seq<nat>, Place>)
    requires forall p :: 0 <= p < |pw| ==> pw[p] in places && places[pw[p]] == OnPath(p)
    ensures |pw| <= |places.Keys|
  {
    if pw != [] {
      var n := |pw| - 1;
      var places' := places - {pw[n]};
      PathCount(pw[..n], places');
      assert places.Keys == places'.Keys + {pw[n]};
    }
  }

  lemma {:induction false} PlaceCount(pw: seq<seq<nat>>, sw: map<nat, seq<nat>>, places: map<seq<nat>, Place>)
    requires Tracked(pw, sw, places)
    ensures |pw| + |sw.Keys| <= |places.Keys|
    decreases |sw.Keys|
  {
    if i :| i in sw {
      TrackedSlot(pw, sw, places, i);
      TrackTake(pw, sw, places, i);
      hide Tracked;
      var places' := places[sw[i] := OnPath(|pw|)];
      assert places'.Keys == places.Keys;
      assert sw.Keys == (sw - {i}).Keys + {i};
      PlaceCount(pw + [sw[i]], sw - {i}, places');
    } else {
      PathCount(pw, places);
      assert sw.Keys == {};
    }
  }

  lemma TrackedSlot(pw: seq<seq<nat>>, sw: map<nat, seq<nat>>, places: map<seq<nat>, Place>, i: nat)
    requires Tracked(pw, sw, places) && i in sw
    ensures sw[i] in places
  {
  }

  /** A branch is lost only if there are more stopped walks than slots. */
  lemma LostNeedsMany(g: Cfg, start: nat, ps: seq<Path>, slots: seq<MidStart>, s: Search, all: set<seq<nat>>)
    requires WellFormed(g) && SearchInv(g, start, ps, slots, s) && s.lost && HoldsStopped(g, start, all)
    ensures |all| > SLOTS
  {
    hide FullTrace, ValidSlots, Routed, Stopped;
    PlaceCount(PathWalks(ps), SlotWalks(ps, slots), s.places);
    forall x | x in s.places.Keys ensures exists w :: w in all && x <= w {
      var w := ExtendsToStopped(g, start, x);
    }
    PrefixCount(s.places.Keys, all);
  }
}
