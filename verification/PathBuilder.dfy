/** `build_control_flow_paths` and its helpers. */
module PathBuilder {
  import opened Graph
  import opened PathTable
  import opened PathSearch
  import opened PathSlots
  import opened FunctionTables

  // ----- What the loop marks say

  ghost predicate MarkShape(g: Cfg, loopEdge: seq<seq<bool>>, loopHead: seq<bool>) {
    |loopEdge| == |loopHead| == |g| && forall n :: 0 <= n < |g| ==> |loopEdge[n]| == |g[n]|
  }

  /** Whatever is marked closes a cycle. */
  ghost predicate MarksSound(g: Cfg, start: nat, loopEdge: seq<seq<bool>>, loopHead: seq<bool>) {
    && MarkShape(g, loopEdge, loopHead)
    && (forall u, i :: 0 <= u < |g| && 0 <= i < |g[u]| && loopEdge[u][i] ==> BackEdge(g, start, u, g[u][i]))
    && (forall v :: 0 <= v < |g| && loopHead[v] ==> exists u: nat :: BackEdge(g, start, u, v))
  }

  ghost predicate EdgeMarked(g: Cfg, loopEdge: seq<seq<bool>>, u: nat, v: nat) {
    u < |g| && u < |loopEdge| && |loopEdge[u]| == |g[u]|
    && forall i :: 0 <= i < |g[u]| && g[u][i] == v ==> loopEdge[u][i]
  }

  /** The cycle that a looping walk closes is marked. */
  ghost predicate CycleMarked(g: Cfg, loopEdge: seq<seq<bool>>, loopHead: seq<bool>, w: seq<nat>) {
    && |w| >= 2
    && Last(w) < |loopHead| && loopHead[Last(w)]
    && EdgeMarked(g, loopEdge, w[|w| - 2], Last(w))
  }

  /** The marks are exact: a link is marked iff it closes a cycle, a node is a loop head iff
      some marked link enters it. */
  ghost predicate ExactMarks(g: Cfg, start: nat, loopEdge: seq<seq<bool>>, loopHead: seq<bool>) {
    && MarkShape(g, loopEdge, loopHead)
    && (forall u, i :: 0 <= u < |g| && 0 <= i < |g[u]| ==>
          (loopEdge[u][i] <==> BackEdge(g, start, u, g[u][i])))
    && (forall v :: 0 <= v < |g| ==> (loopHead[v] <==> exists u: nat :: BackEdge(g, start, u, v)))
  }

  ghost predicate DonePath(g: Cfg, start: nat, ps: seq<Path>, loopEdge: seq<seq<bool>>, loopHead: seq<bool>, p: nat)
    requires ValidTable(ps) && p < |ps|
  {
    Finished(g, start, ps, p) && (ps[p].isLoop ==> CycleMarked(g, loopEdge, loopHead, FullTrace(ps, p)))
  }

  ghost predicate AllDone(g: Cfg, start: nat, ps: seq<Path>, loopEdge: seq<seq<bool>>, loopHead: seq<bool>, n: nat)
    requires ValidTable(ps) && n <= |ps|
  {
    forall p :: 0 <= p < n ==> DonePath(g, start, ps, loopEdge, loopHead, p)
  }

  /** The search has finished the first `n` paths. */
  ghost predicate Progress(g: Cfg, start: nat, ps: seq<Path>, e: seq<seq<bool>>, h: seq<bool>, n: nat) {
    ValidTable(ps) && n <= |ps| && MarksSound(g, start, e, h) && AllDone(g, start, ps, e, h, n)
  }

  /** While paths are built a node has the type LOOP exactly if it is a loop head. */
  ghost predicate TypesFollow(types: seq<NodeType>, heads: seq<bool>) {
    && |types| == |heads|
    && forall n :: 0 <= n < |heads| ==> types[n] == if heads[n] then LoopNode else UnknownNode
  }

  /** Marks are only ever added. */
  ghost predicate MarksGrow(g: Cfg, e: seq<seq<bool>>, h: seq<bool>, e': seq<seq<bool>>, h': seq<bool>) {
    && MarkShape(g, e, h) && MarkShape(g, e', h')
    && (forall u, i :: 0 <= u < |g| && 0 <= i < |g[u]| && e[u][i] ==> e'[u][i])
    && (forall v :: 0 <= v < |g| && h[v] ==> h'[v])
  }

  lemma DoneStable(g: Cfg, start: nat, ps: seq<Path>, ps': seq<Path>, n: nat,
                   e: seq<seq<bool>>, h: seq<bool>, e': seq<seq<bool>>, h': seq<bool>)
    requires ValidTable(ps) && ValidTable(ps') && n <= |ps| && n <= |ps'|
    requires forall p :: 0 <= p < n ==> ps'[p] == ps[p] && FullTrace(ps', p) == FullTrace(ps, p)
    requires MarksGrow(g, e, h, e', h')
    requires AllDone(g, start, ps, e, h, n)
    ensures AllDone(g, start, ps', e', h', n)
  {
    forall p | 0 <= p < n ensures DonePath(g, start, ps', e', h', p) {
      assert DonePath(g, start, ps, e, h, p);
    }
  }

  // ----- The passes

  /** Scans backwards along the trace of `path` for an earlier visit of `node`. */
  method PathLoopCheck(f: FunctionCfg, path: nat, step: nat, node: nat, limit: nat) returns (r: int)
    requires ValidTable(f.paths) && path < |f.paths| && step < |f.paths[path].nodes|
    modifies f`paths
    ensures r == 1 ==> node in old(Trace(f.paths, path, step))
    ensures r == 0 ==> node !in old(Trace(f.paths, path, step))
    ensures r == 2 ==> limit <= old(|Trace(f.paths, path, step)|)
    ensures 0 <= r <= 2
    ensures f.paths == if r == 1 then old(f.paths[path := f.paths[path].(isLoop := true)]) else old(f.paths)
  {
    hide Trace;
    var at: nat, left: nat := path, step;
    var n := 0;
    ghost var whole := Trace(f.paths, path, step);
    assert whole == whole[..|whole|];
    while n < limit
      invariant f.paths == old(f.paths)
      invariant at < |f.paths| && left <= |f.paths[at].nodes| && n <= |whole|
      invariant Trace(f.paths, at, left) == whole[..|whole| - n]
      invariant forall i :: |whole| - n <= i < |whole| ==> whole[i] != node
    {
      StepBackIn(f.paths, at, left, whole, |whole| - n);
      n := n + 1;
      match StepBack(f.paths, at, left) {
        case AtRoot => return 0;
        case At(q, k) => at, left := q, k;
      }
      if f.paths[at].nodes[left] == node {
        f.paths := f.paths[path := f.paths[path].(isLoop := true)];
        return 1;
      }
    }
    return 2;
  }

  /** The walks that `NodeMidStartAdd` has to find room for: all branches but the first. */
  ghost function Branches(c: seq<nat>, links: seq<nat>, n: nat): (s: set<seq<nat>>)
    requires n <= |links|
  {
    set i | 1 <= i < n :: c + [links[i]]
  }

  /** The state while branches are parked: the first `n` links are taken care of. */
  ghost predicate Parked(ps: seq<Path>, slots: seq<MidStart>, places: map<seq<nat>, Place>,
                         before: set<seq<nat>>, links: seq<nat>, n: nat)
    requires ValidTable(ps) && |ps| > 0 && n <= |links|
  {
    && ValidSlots(ps, slots)
    && Tracked(PathWalks(ps), SlotWalks(ps, slots), places)
    && places.Keys == before + Branches(FullTrace(ps, |ps| - 1), links, n)
  }

  lemma ParkOne(ps: seq<Path>, slots: seq<MidStart>, places: map<seq<nat>, Place>,
                before: set<seq<nat>>, links: seq<nat>, n: nat, i: nat)
    returns (places': map<seq<nat>, Place>)
    requires ValidTable(ps) && |ps| > 0 && 1 <= n < |links| && 0 !in links && Simple(links)
    requires Parked(ps, slots, places, before, links, n)
    requires Branches(FullTrace(ps, |ps| - 1), links, |links|) !! before
    requires i < |slots| && slots[i].node == 0
    ensures Parked(ps, slots[i := MidStart(links[n], |ps| - 1, |ps[|ps| - 1].nodes| - 1)], places', before, links, n + 1)
    ensures places.Keys <= places'.Keys
  {
    var c := FullTrace(ps, |ps| - 1);
    var y := c + [links[n]];
    assert y in Branches(c, links, |links|);
    assert y !in Branches(c, links, n) by {
      forall k | 1 <= k < n ensures c + [links[k]] != y {
        assert (c + [links[k]])[|c|] == links[k] && y[|c|] == links[n];
      }
    }
    FillSlotWalks(ps, slots, i, links[n]);
    TrackFill(PathWalks(ps), SlotWalks(ps, slots), places, i, y);
    places' := places[y := InSlot(i)];
    assert Branches(c, links, n + 1) == Branches(c, links, n) + {y};
  }

  /** Parks every branch but the first in an empty slot; branches that find none are dropped. The
      source returns 0 in either case. */
  method NodeMidStartAdd(links: seq<nat>, table: array<MidStart>, path: nat, step: nat,
                         ghost ps: seq<Path>, ghost places: map<seq<nat>, Place>)
    returns (dropped: bool, ghost places': map<seq<nat>, Place>, ghost parked: nat)
    requires |links| > 1 && 0 !in links && Simple(links)
    requires ValidTable(ps) && |ps| > 0 && path == |ps| - 1 && step == |ps[path].nodes| - 1
    requires Parked(ps, table[..], places, places.Keys, links, 1)
    requires Branches(FullTrace(ps, path), links, |links|) !! places.Keys
    modifies table
    ensures 1 <= parked <= |links| && Parked(ps, table[..], places', places.Keys, links, parked)
    ensures dropped <==> parked < |links|
    ensures dropped <==> table.Length - old(|Busy(table[..])|) < |links| - 1
    ensures dropped ==> forall i :: 0 <= i < table.Length ==> table[i].node != 0
    ensures Busy(old(table[..])) <= Busy(table[..]) && |Busy(table[..])| == old(|Busy(table[..])|) + parked - 1
    ensures SlotsGrow(old(table[..]), table[..], links, path, step)
    ensures forall i, j :: 0 <= i < j < table.Length && table[j] != old(table[j]) ==> table[i].node != 0
  {
    hide Parked, Branches, Busy, SlotsGrow;
    places' := places;
    var index := 1;
    ghost var slots := table[..];
    NoneFilled(slots, links, path, step);
    for n := 0 to table.Length
      invariant 1 <= index < |links| && slots == table[..]
      invariant Parked(ps, slots, places', places.Keys, links, index)
      invariant forall i :: 0 <= i < n ==> slots[i].node != 0
      invariant Busy(old(table[..])) <= Busy(slots) && |Busy(slots)| == old(|Busy(table[..])|) + index - 1
      invariant SlotsGrow(old(table[..]), slots, links, path, step)
      invariant forall i :: n <= i < table.Length ==> table[i] == old(table[i])
    {
      if table[n].node == 0 {
        places' := ParkOne(ps, slots, places', places.Keys, links, index, n);
        OneFilled(old(table[..]), slots, links, path, step, index, n);
        table[n] := MidStart(links[index], path, step);
        slots := slots[n := MidStart(links[index], path, step)];
        index := index + 1;
        if index >= |links| {
          BusyBound(slots);
          return false, places', index;
        }
      }
    }
    BusyFull(slots);
    return true, places', index;
  }

  lemma NoneFilled(slots: seq<MidStart>, links: seq<nat>, path: nat, step: nat)
    ensures SlotsGrow(slots, slots, links, path, step)
  {
  }

  lemma OneFilled(before: seq<MidStart>, slots: seq<MidStart>, links: seq<nat>, path: nat, step: nat, k: nat, n: nat)
    requires SlotsGrow(before, slots, links, path, step) && n < |slots| && slots[n].node == 0
    requires 1 <= k < |links| && links[k] != 0
    ensures var slots' := slots[n := MidStart(links[k], path, step)];
      && SlotsGrow(before, slots', links, path, step)
      && Busy(slots) <= Busy(slots') && |Busy(slots')| == |Busy(slots)| + 1
  {
    var slots' := slots[n := MidStart(links[k], path, step)];
    assert Busy(slots') == Busy(slots) + {n};
    assert NewBranch(slots'[n], links, path, step);
  }

  /** A row of link marks after marking the links to `v`. */
  ghost function MarkRow(row: seq<bool>, links: seq<nat>, v: nat): (r: seq<bool>)
    requires |row| == |links|
    ensures |r| == |row| && forall i :: 0 <= i < |r| ==> (r[i] <==> row[i] || links[i] == v)
  {
    seq(|row|, i requires 0 <= i < |row| => row[i] || links[i] == v)
  }

  /** Marks every link of `u` that points to `v`. */
  method MarkLoopEdge(f: FunctionCfg, u: nat, v: nat)
    requires f.Shaped() && u < |f.succ|
    modifies f`loopEdge
    ensures f.loopEdge == old(f.loopEdge[u := MarkRow(f.loopEdge[u], f.succ[u], v)])
  {
    for n := 0 to |f.succ[u]|
      invariant |f.loopEdge| == |f.succ| && |f.loopEdge[u]| == |f.succ[u]|
      invariant f.loopEdge == old(f.loopEdge)[u := f.loopEdge[u]]
      invariant forall i :: 0 <= i < n ==> (f.loopEdge[u][i] <==> old(f.loopEdge)[u][i] || f.succ[u][i] == v)
      invariant forall i :: n <= i < |f.succ[u]| ==> f.loopEdge[u][i] == old(f.loopEdge)[u][i]
    {
      if f.succ[u][n] == v {
        f.loopEdge := f.loopEdge[u := f.loopEdge[u][n := true]];
      }
    }
    assert f.loopEdge[u] == MarkRow(old(f.loopEdge[u]), f.succ[u], v);
  }

  /** Marking a link that closes a cycle keeps the marks sound. */
  lemma MarkRowSound(g: Cfg, start: nat, e: seq<seq<bool>>, h: seq<bool>, u: nat, v: nat)
    requires MarksSound(g, start, e, h) && u < |g|
    requires v in g[u] ==> BackEdge(g, start, u, v)
    ensures var e' := e[u := MarkRow(e[u], g[u], v)];
      MarksSound(g, start, e', h) && MarksGrow(g, e, h, e', h) && EdgeMarked(g, e', u, v)
  {
  }

  lemma MarkHeadSound(g: Cfg, start: nat, e: seq<seq<bool>>, h: seq<bool>, u: nat, v: nat)
    requires MarksSound(g, start, e, h) && v < |g| && BackEdge(g, start, u, v)
    ensures MarksSound(g, start, e, h[v := true]) && MarksGrow(g, e, h, e, h[v := true])
  {
  }

  /** Marks the link that closes a loop path. */
  method MarkClosing(f: FunctionCfg, start: nat, cur: nat, node: nat, step: nat)
    requires f.Shaped() && MarksSound(f.succ, start, f.loopEdge, f.loopHead)
    requires ValidTable(f.paths) && cur < |f.paths| && step == |f.paths[cur].nodes|
    requires Stopped(f.succ, start, FullTrace(f.paths, cur)) && Loops(FullTrace(f.paths, cur))
    requires node == Last(FullTrace(f.paths, cur))
    modifies f`loopEdge
    ensures f.Shaped() && MarksSound(f.succ, start, f.loopEdge, f.loopHead)
    ensures MarksGrow(f.succ, old(f.loopEdge), f.loopHead, f.loopEdge, f.loopHead)
    ensures var w := FullTrace(f.paths, cur); |w| >= 2 && EdgeMarked(f.succ, f.loopEdge, w[|w| - 2], node)
  {
    hide FullTrace, Stopped, Loops, BackEdge, MarksSound, MutualLinks, MarkRow;
    ghost var w := FullTrace(f.paths, cur);
    LoopCloses(f.succ, start, w);
    LastTwo(f.paths, cur);
    if step >= 2 {
      MarkRowSound(f.succ, start, f.loopEdge, f.loopHead, w[|w| - 2], node);
      MarkLoopEdge(f, f.paths[cur].nodes[step - 2], f.paths[cur].nodes[step - 1]);
    } else {
      MarkRowSound(f.succ, start, f.loopEdge, f.loopHead, node, node);
      MarkLoopEdge(f, node, node);
      if cur != 0 {
        MarkRowSound(f.succ, start, f.loopEdge, f.loopHead, w[|w| - 2], node);
        MarkLoopEdge(f, f.paths[f.paths[cur].prev].nodes[f.paths[cur].prevIndex], node);
      }
    }
  }

  /** The bookkeeping of a path that has run into a node it already visits. */
  method RecordLoop(f: FunctionCfg, start: nat, cur: nat, node: nat, step: nat)
    requires f.Shaped() && MarksSound(f.succ, start, f.loopEdge, f.loopHead)
    requires ValidTable(f.paths) && cur == |f.paths| - 1 && step == |f.paths[cur].nodes|
    requires Stopped(f.succ, start, FullTrace(f.paths, cur)) && Loops(FullTrace(f.paths, cur))
    requires node == Last(FullTrace(f.paths, cur)) && TypesFollow(f.nodeType, f.loopHead)
    modifies f`paths, f`loopEdge, f`loopHead, f`nodeType
    ensures f.paths == old(f.paths[cur := f.paths[cur].(loopHead := node)])
    ensures f.Shaped() && MarksSound(f.succ, start, f.loopEdge, f.loopHead)
    ensures MarksGrow(f.succ, old(f.loopEdge), old(f.loopHead), f.loopEdge, f.loopHead)
    ensures CycleMarked(f.succ, f.loopEdge, f.loopHead, old(FullTrace(f.paths, cur)))
    ensures TypesFollow(f.nodeType, f.loopHead)
  {
    hide FullTrace, Stopped, Loops, BackEdge, MarksSound, MutualLinks, MarkRow;
    ghost var w := FullTrace(f.paths, cur);
    LoopCloses(f.succ, start, w);
    MarkHeadSound(f.succ, start, f.loopEdge, f.loopHead, w[|w| - 2], node);
    f.nodeType := f.nodeType[node := LoopNode];
    f.loopHead := f.loopHead[node := true];
    MarkClosing(f, start, cur, node, step);
    f.paths := f.paths[cur := f.paths[cur].(loopHead := node)];
  }

  // ----- The inner loop: following one path

  /** The newest path is one of the open walks. */
  lemma CurrentOpen(g: Cfg, start: nat, ps: seq<Path>, slots: seq<MidStart>, s: Search)
    requires SearchInv(g, start, ps, slots, s) && |ps| > 0
    ensures var w := FullTrace(ps, |ps| - 1);
      w in s.places && w in s.open && IsWalk(g, w) && w[0] == start && Simple(Front(w))
  {
    hide FullTrace, ValidSlots, SlotWalks;
    assert PathWalks(ps)[|ps| - 1] == FullTrace(ps, |ps| - 1);
  }

  lemma CurrentWalk(g: Cfg, ps: seq<Path>)
    requires |ps| > 0 && ValidTable(ps)
    requires var w := FullTrace(ps, |ps| - 1); IsWalk(g, w) && Simple(Front(w))
    ensures var w, last := FullTrace(ps, |ps| - 1), ps[|ps| - 1].nodes;
      && w != [] && |Front(w)| < |g| && last != [] && Last(w) == Last(last) && IsNode(g, Last(w))
      && Front(w) == Trace(ps, |ps| - 1, |last| - 1)
  {
    hide IsWalk;
    var cur := |ps| - 1;
    TraceSnoc(ps, cur, |ps[cur].nodes| - 1);
    WalkNodes(g, FullTrace(ps, cur));
    SimpleWalkBound(g, Front(FullTrace(ps, cur)));
  }

  lemma FlagsKeepInv(g: Cfg, start: nat, ps: seq<Path>, ps': seq<Path>, slots: seq<MidStart>, s: Search)
    requires SearchInv(g, start, ps, slots, s)
    requires |ps| == |ps'| && forall p :: 0 <= p < |ps| ==> SameShape(ps[p], ps'[p])
    ensures ValidTable(ps) && ValidTable(ps') && SearchInv(g, start, ps', slots, s)
    ensures forall p :: 0 <= p < |ps| ==> FullTrace(ps', p) == FullTrace(ps, p)
  {
    hide Routed;
    RoutedFlags(g, ps, ps', slots, s.lost);
    FlagsKeepWalks(ps, ps', slots);
    forall p | 0 <= p < |ps| ensures FullTrace(ps', p) == FullTrace(ps, p) {
      assert PathWalks(ps')[p] == PathWalks(ps)[p];
    }
  }

  /** The children of a walk: the first is followed on the spot, the others are parked. */
  lemma FirstAndBranches(g: Cfg, c: seq<nat>)
    requires IsWalk(g, c) && Last(c) < |g| && g[Last(c)] != []
    ensures var links := g[Last(c)];
      Children(g, c) == Branches(c, links, |links|) + {c + [links[0]]}
  {
  }

  lemma FirstNotParked(c: seq<nat>, links: seq<nat>, n: nat)
    requires links != [] && Simple(links) && n <= |links|
    ensures c + [links[0]] !in Branches(c, links, n)
  {
    forall k | 1 <= k < n ensures c + [links[k]] != c + [links[0]] {
      assert (c + [links[k]])[|c|] == links[k] && (c + [links[0]])[|c|] == links[0];
    }
  }

  ghost function Advanced(g: Cfg, s: Search, c: seq<nat>, cur: nat, v: nat, places: map<seq<nat>, Place>,
                          lost: bool): (s': Search)
    requires IsWalk(g, c) && Last(c) < |g|
  {
    Search(s.open - {c} + Children(g, c), (places - {c})[c + [v] := OnPath(cur)], lost)
  }

  lemma AdvancePlaces(g: Cfg, c: seq<nat>, keys: set<seq<nat>>, open: set<seq<nat>>, places': map<seq<nat>, Place>,
                      parked: nat, p: Place)
    requires IsWalk(g, c) && Last(c) < |g| && Simple(g[Last(c)]) && 1 <= parked <= |g[Last(c)]|
    requires keys <= open && c in keys && Children(g, c) !! open
    requires places'.Keys == keys + Branches(c, g[Last(c)], parked)
    ensures c + [g[Last(c)][0]] !in places'
    ensures (places' - {c})[c + [g[Last(c)][0]] := p].Keys <= open - {c} + Children(g, c)
    ensures parked == |g[Last(c)]| && open <= keys <==>
      open - {c} + Children(g, c) <= (places' - {c})[c + [g[Last(c)][0]] := p].Keys
  {
    var links := g[Last(c)];
    FirstAndBranches(g, c);
    FirstNotParked(c, links, parked);
    assert Branches(c, links, parked) <= Branches(c, links, |links|);
    assert c + [links[0]] in Children(g, c);
    assert c !in Children(g, c);
    if parked < |links| {
      LeftOut(c, links, parked);
      assert c + [links[parked]] in Children(g, c);
    }
  }

  lemma LeftOut(c: seq<nat>, links: seq<nat>, n: nat)
    requires Simple(links) && 1 <= n < |links|
    ensures c + [links[n]] !in Branches(c, links, n) && c + [links[n]] != c + [links[0]]
  {
    forall k | 0 <= k < n ensures c + [links[k]] != c + [links[n]] {
      assert (c + [links[k]])[|c|] == links[k] && (c + [links[n]])[|c|] == links[n];
    }
  }

  lemma AdvanceTracked(ps: seq<Path>, slots: seq<MidStart>, places: map<seq<nat>, Place>, v: nat)
    requires |ps| > 0 && ValidTable(ps) && ValidSlots(ps, slots)
    requires Tracked(PathWalks(ps), SlotWalks(ps, slots), places)
    requires FullTrace(ps, |ps| - 1) + [v] !in places
    ensures var c := FullTrace(ps, |ps| - 1); var ps' := Extended(ps, v);
      && ValidTable(ps') && ValidSlots(ps', slots) && FullTrace(ps', |ps| - 1) == c + [v]
      && Tracked(PathWalks(ps'), SlotWalks(ps', slots), (places - {c})[c + [v] := OnPath(|ps| - 1)])
  {
    hide FullTrace, ValidSlots, SlotWalks, ValidTable;
    var cur := |ps| - 1;
    var c := FullTrace(ps, cur);
    assert PathWalks(ps)[cur] == c;
    ExtendPathWalks(ps, slots, v);
    TrackExtend(PathWalks(ps), SlotWalks(ps, slots), places, cur, c + [v]);
    assert PathWalks(Extended(ps, v))[cur] == c + [v];
  }

  lemma AdvanceInv(g: Cfg, start: nat, ps: seq<Path>, slots: seq<MidStart>, s: Search,
                   slots': seq<MidStart>, places': map<seq<nat>, Place>, parked: nat)
    returns (s': Search)
    requires WellFormed(g) && SearchInv(g, start, ps, slots, s) && |ps| > 0
    requires var c := FullTrace(ps, |ps| - 1);
      IsWalk(g, c) && Simple(c) && Last(c) < |g| && 1 <= parked <= |g[Last(c)]|
      && Parked(ps, slots', places', s.places.Keys, g[Last(c)], parked)
      && (parked < |g[Last(c)]| ==> forall i :: 0 <= i < |slots'| ==> slots'[i].node != 0)
      && SlotsGrow(slots, slots', g[Last(c)], |ps| - 1, |ps[|ps| - 1].nodes| - 1)
    requires |slots'| == SLOTS && Busy(slots) <= Busy(slots') && |Busy(slots')| == |Busy(slots)| + parked - 1
    ensures var c := FullTrace(ps, |ps| - 1); var v := g[Last(c)][0];
      SearchInv(g, start, Extended(ps, v), slots', s') && FullTrace(Extended(ps, v), |ps| - 1) == c + [v]
      && (s'.lost <==> s.lost || parked < |g[Last(c)]|)
  {
    hide Frontier, FullTrace, Children, Branches, Tracked, PathWalks, SlotWalks, ValidSlots, ValidTable, Busy, Routed,
      SlotsGrow;
    var cur := |ps| - 1;
    var c := FullTrace(ps, cur);
    var links := g[Last(c)];
    CurrentOpen(g, start, ps, slots, s);
    SplitFrontier(g, start, s.open, c);
    AdvancePlaces(g, c, s.places.Keys, s.open, places', parked, OnPath(cur));
    AdvanceTracked(ps, slots', places', links[0]);
    s' := Advanced(g, s, c, cur, links[0], places', s.lost || parked < |links|);
    LastTwo(ps, cur);
    NonEmptyPath(ps, cur);
    RoutedAdvance(g, ps, slots, s.lost, slots', s'.lost);
    if parked < |links| {
      BusyFull(slots');
    }
  }

  lemma NonEmptyPath(ps: seq<Path>, p: nat)
    requires ValidTable(ps) && p < |ps|
    ensures ps[p].nodes != []
  {
  }

  /** A walk that reaches an exit without repetition has stopped. */
  lemma ExitStops(g: Cfg, start: nat, w: seq<nat>)
    requires IsWalk(g, w) && w[0] == start && Simple(Front(w)) && Last(w) < |g| && g[Last(w)] == []
    ensures Stopped(g, start, w) && !Loops(w)
  {
    WalkNodes(g, w);
    ExitNotRepeated(g, w);
  }

  lemma RepeatStops(g: Cfg, start: nat, w: seq<nat>)
    requires IsWalk(g, w) && w[0] == start && Simple(Front(w)) && Last(w) in Front(w)
    ensures Stopped(g, start, w) && Loops(w)
  {
  }

  lemma NoRepeatIsSimple(w: seq<nat>)
    requires w != [] && Simple(Front(w)) && Last(w) !in Front(w)
    ensures Simple(w)
  {
    assert w == Front(w) + [Last(w)];
  }

  ghost predicate Unflagged(p: Path) {
    !p.isLoop && p.loopHead == 0
  }

  /** The invariant of the inner loop: `cur` is the path being followed. */
  ghost predicate Following(g: Cfg, start: nat, ps: seq<Path>, e: seq<seq<bool>>, h: seq<bool>,
                            cur: nat, slots: seq<MidStart>, s: Search) {
    |ps| == cur + 1 && Progress(g, start, ps, e, h, cur) && SearchInv(g, start, ps, slots, s)
  }

  /** Flags of the current path and new marks disturb nothing. */
  lemma FollowingStable(g: Cfg, start: nat, ps: seq<Path>, ps': seq<Path>, e: seq<seq<bool>>, h: seq<bool>,
                        e': seq<seq<bool>>, h': seq<bool>, cur: nat, slots: seq<MidStart>, s: Search)
    requires Following(g, start, ps, e, h, cur, slots, s)
    requires |ps'| == |ps| && ps'[..cur] == ps[..cur] && SameShape(ps[cur], ps'[cur])
    requires MarksSound(g, start, e', h') && MarksGrow(g, e, h, e', h')
    ensures Following(g, start, ps', e', h', cur, slots, s)
    ensures FullTrace(ps', cur) == FullTrace(ps, cur)
  {
    hide FullTrace, AllDone, MarksSound, MarksGrow, SearchInv, ValidTable;
    assert forall p :: 0 <= p < cur ==> ps'[p] == ps'[..cur][p] == ps[..cur][p] == ps[p];
    FlagsKeepInv(g, start, ps, ps', slots, s);
    DoneStable(g, start, ps, ps', cur, e, h, e', h');
  }

  /** With its flags set, the current path joins the finished ones. */
  lemma OneMoreDone(g: Cfg, start: nat, ps: seq<Path>, e: seq<seq<bool>>, h: seq<bool>, cur: nat,
                    slots: seq<MidStart>, s: Search)
    requires Following(g, start, ps, e, h, cur, slots, s) && DonePath(g, start, ps, e, h, cur)
    ensures Progress(g, start, ps, e, h, cur + 1)
  {
  }

  lemma ExtendedKeepsDone(g: Cfg, start: nat, ps: seq<Path>, v: nat, e: seq<seq<bool>>, h: seq<bool>, cur: nat)
    requires |ps| == cur + 1 && Progress(g, start, ps, e, h, cur) && ValidTable(Extended(ps, v))
    ensures Progress(g, start, Extended(ps, v), e, h, cur)
  {
    var ps' := Extended(ps, v);
    hide AllDone, FullTrace;
    forall p | 0 <= p < cur ensures ps'[p] == ps[p] && FullTrace(ps', p) == FullTrace(ps, p) {
      GrowthKeepsPath(ps, ps', p);
    }
    DoneStable(g, start, ps, ps', cur, e, h, e, h);
  }

  /** A path that stops at an exit needs no flags. */
  lemma ExitDone(g: Cfg, start: nat, ps: seq<Path>, e: seq<seq<bool>>, h: seq<bool>, cur: nat, slots: seq<MidStart>,
                 s: Search)
    requires Following(g, start, ps, e, h, cur, slots, s) && Unflagged(ps[cur])
    requires Last(ps[cur].nodes) < |g| && g[Last(ps[cur].nodes)] == []
    ensures Progress(g, start, ps, e, h, cur + 1)
  {
    hide SearchInv, FullTrace;
    CurrentOpen(g, start, ps, slots, s);
    CurrentWalk(g, ps);
    ExitStops(g, start, FullTrace(ps, cur));
    OneMoreDone(g, start, ps, e, h, cur, slots, s);
  }

  /** The path has run into itself: flags and marks are set. */
  method CloseLoop(f: FunctionCfg, start: nat, cur: nat, node: nat, step: nat, ghost slots: seq<MidStart>,
                   ghost s: Search)
    requires f.Shaped() && Following(f.succ, start, f.paths, f.loopEdge, f.loopHead, cur, slots, s)
    requires f.paths[cur].isLoop && step == |f.paths[cur].nodes|
    requires var w := FullTrace(f.paths, cur); w != [] && Stopped(f.succ, start, w) && Loops(w) && node == Last(w)
    requires TypesFollow(f.nodeType, f.loopHead)
    modifies f`paths, f`loopEdge, f`loopHead, f`nodeType
    ensures f.Shaped() && Following(f.succ, start, f.paths, f.loopEdge, f.loopHead, cur, slots, s)
    ensures f.paths == old(f.paths[cur := f.paths[cur].(loopHead := node)])
    ensures Progress(f.succ, start, f.paths, f.loopEdge, f.loopHead, cur + 1)
    ensures TypesFollow(f.nodeType, f.loopHead)
  {
    hide SearchInv, FullTrace, CycleMarked, MarksSound, MarksGrow, AllDone, Stopped;
    ghost var ps, e, h := f.paths, f.loopEdge, f.loopHead;
    RecordLoop(f, start, cur, node, step);
    FollowingStable(f.succ, start, ps, f.paths, e, h, f.loopEdge, f.loopHead, cur, slots, s);
    OneMoreDone(f.succ, start, f.paths, f.loopEdge, f.loopHead, cur, slots, s);
  }

  /** Branches are parked and the path goes on through the first link. */
  method Advance(f: FunctionCfg, start: nat, cur: nat, node: nat, step: nat, table: array<MidStart>, ghost s: Search)
    returns (dropped: bool, ghost s': Search)
    requires f.Shaped() && Following(f.succ, start, f.paths, f.loopEdge, f.loopHead, cur, table[..], s)
    requires step == |f.paths[cur].nodes| && node < |f.succ| && |f.succ[node]| > 0
    requires var w := FullTrace(f.paths, cur); IsWalk(f.succ, w) && Simple(w) && node == Last(w)
    modifies f`paths, table
    ensures f.Shaped() && Following(f.succ, start, f.paths, f.loopEdge, f.loopHead, cur, table[..], s')
    ensures f.paths == Extended(old(f.paths), f.succ[node][0])
    ensures FullTrace(f.paths, cur) == old(FullTrace(f.paths, cur)) + [f.succ[node][0]]
    ensures s'.lost <==> s.lost || dropped
  {
    hide SearchInv, FullTrace, MarksSound, AllDone, Parked, IsWalk, Busy, SlotsGrow;
    dropped := false;
    ghost var ps := f.paths;
    ghost var slots := table[..];
    ghost var places', parked := s.places, 1;
    ParkNone(f.succ, start, ps, slots, s);
    NoneFilled(slots, f.succ[node], cur, step - 1);
    if |f.succ[node]| > 1 {
      dropped, places', parked := NodeMidStartAdd(f.succ[node], table, cur, step - 1, ps, s.places);
    }
    s' := AdvanceInv(f.succ, start, ps, slots, s, table[..], places', parked);
    f.paths := f.paths[cur := f.paths[cur].(nodes := f.paths[cur].nodes + [f.succ[node][0]])];
    ExtendedKeepsDone(f.succ, start, ps, f.succ[node][0], f.loopEdge, f.loopHead, cur);
  }

  /** Before any branch is parked. */
  lemma ParkNone(g: Cfg, start: nat, ps: seq<Path>, slots: seq<MidStart>, s: Search)
    requires WellFormed(g) && SearchInv(g, start, ps, slots, s) && |ps| > 0
    requires var c := FullTrace(ps, |ps| - 1); IsWalk(g, c) && Simple(c) && Last(c) < |g| && g[Last(c)] != []
    ensures ValidTable(ps) && |slots| == SLOTS
    ensures var c := FullTrace(ps, |ps| - 1); var links := g[Last(c)];
      && Parked(ps, slots, s.places, s.places.Keys, links, 1)
      && Branches(c, links, |links|) !! s.places.Keys
  {
    var c := FullTrace(ps, |ps| - 1);
    CurrentOpen(g, start, ps, slots, s);
    SplitFrontier(g, start, s.open, c);
    FirstAndBranches(g, c);
  }

  lemma FlagKeepsFollowing(g: Cfg, start: nat, ps: seq<Path>, e: seq<seq<bool>>, h: seq<bool>,
                           cur: nat, slots: seq<MidStart>, s: Search)
    requires Following(g, start, ps, e, h, cur, slots, s)
    ensures var ps' := ps[cur := ps[cur].(isLoop := true)];
      Following(g, start, ps', e, h, cur, slots, s) && FullTrace(ps', cur) == FullTrace(ps, cur)
  {
    hide SearchInv, FullTrace, AllDone;
    FollowingStable(g, start, ps, ps[cur := ps[cur].(isLoop := true)], e, h, e, h, cur, slots, s);
  }

  /** The path goes on to the first successor, and may be at an exit there. */
  method GoOn(f: FunctionCfg, start: nat, cur: nat, node: nat, step: nat, table: array<MidStart>, ghost s: Search)
    returns (node': nat, step': nat, done: bool, dropped: bool, ghost s': Search)
    requires f.Shaped() && Following(f.succ, start, f.paths, f.loopEdge, f.loopHead, cur, table[..], s)
    requires step == |f.paths[cur].nodes| && node < |f.succ| && |f.succ[node]| > 0 && Unflagged(f.paths[cur])
    requires var w := FullTrace(f.paths, cur); IsWalk(f.succ, w) && Simple(w) && node == Last(w)
    modifies f`paths, table
    ensures f.Shaped() && Following(f.succ, start, f.paths, f.loopEdge, f.loopHead, cur, table[..], s')
    ensures step' == |f.paths[cur].nodes| > 0 && node' == Last(f.paths[cur].nodes)
    ensures if done then Progress(f.succ, start, f.paths, f.loopEdge, f.loopHead, cur + 1)
            else Unflagged(f.paths[cur])
                 && |old(FullTrace(f.paths, cur))| < |FullTrace(f.paths, cur)| <= |f.succ|
    ensures s'.lost <==> s.lost || dropped
  {
    hide SearchInv, FullTrace, Trace, MarksSound, AllDone, MutualLinks, Simple, IsWalk;
    dropped, s' := Advance(f, start, cur, node, step, table, s);
    node', step' := f.succ[node][0], step + 1;
    done := |f.succ[node']| == 0;
    if done {
      ExitDone(f.succ, start, f.paths, f.loopEdge, f.loopHead, cur, table[..], s');
    } else {
      CurrentOpen(f.succ, start, f.paths, table[..], s');
      CurrentWalk(f.succ, f.paths);
    }
  }

  /** One turn of the inner loop: the path closes, ends or goes on to the first successor. */
  method FollowStep(f: FunctionCfg, start: nat, cur: nat, node: nat, step: nat, table: array<MidStart>, ghost s: Search)
    returns (node': nat, step': nat, done: bool, dropped: bool, ghost s': Search)
    requires f.Shaped() && Following(f.succ, start, f.paths, f.loopEdge, f.loopHead, cur, table[..], s)
    requires step == |f.paths[cur].nodes| && step > 0 && node == Last(f.paths[cur].nodes) && Unflagged(f.paths[cur])
    requires TypesFollow(f.nodeType, f.loopHead)
    modifies f`paths, f`loopEdge, f`loopHead, f`nodeType, table
    ensures f.Shaped() && Following(f.succ, start, f.paths, f.loopEdge, f.loopHead, cur, table[..], s')
    ensures step' == |f.paths[cur].nodes| > 0 && node' == Last(f.paths[cur].nodes)
    ensures if done then Progress(f.succ, start, f.paths, f.loopEdge, f.loopHead, cur + 1)
            else Unflagged(f.paths[cur])
                 && |old(FullTrace(f.paths, cur))| < |FullTrace(f.paths, cur)| <= |f.succ|
    ensures s'.lost <==> s.lost || dropped
    ensures TypesFollow(f.nodeType, f.loopHead)
  {
    hide SearchInv, FullTrace, Trace, Stopped, Loops, DonePath, Finished, CycleMarked, MarksSound, MarksGrow, AllDone, Parked,
      Branches, Children, MutualLinks, WellFormed, ValidTable, Simple, IsWalk, Frontier;
    node', step', done, dropped, s' := node, step, true, false, s;
    ghost var ps := f.paths;
    ghost var w := FullTrace(ps, cur);
    CurrentOpen(f.succ, start, ps, table[..], s);
    CurrentWalk(f.succ, ps);
    var loop := PathLoopCheck(f, cur, step - 1, node, |f.succ|);
    if loop != 0 {
      RepeatStops(f.succ, start, w);
      FlagKeepsFollowing(f.succ, start, ps, f.loopEdge, f.loopHead, cur, table[..], s);
      CloseLoop(f, start, cur, node, step, table[..], s);
    } else if |f.succ[node]| == 0 {
      ExitDone(f.succ, start, f.paths, f.loopEdge, f.loopHead, cur, table[..], s);
    } else {
      NoRepeatIsSimple(w);
      node', step', done, dropped, s' := GoOn(f, start, cur, node, step, table, s);
    }
  }

  /** Following path `cur` until it repeats a node or reaches an exit. */
  method FollowPath(f: FunctionCfg, start: nat, cur: nat, table: array<MidStart>, ghost s: Search)
    returns (dropped: bool, ghost s': Search)
    requires f.Shaped() && Following(f.succ, start, f.paths, f.loopEdge, f.loopHead, cur, table[..], s)
    requires |f.paths[cur].nodes| == 1 && Unflagged(f.paths[cur]) && TypesFollow(f.nodeType, f.loopHead)
    modifies f`paths, f`loopEdge, f`loopHead, f`nodeType, table
    ensures f.Shaped() && Following(f.succ, start, f.paths, f.loopEdge, f.loopHead, cur, table[..], s')
    ensures Progress(f.succ, start, f.paths, f.loopEdge, f.loopHead, cur + 1)
    ensures TypesFollow(f.nodeType, f.loopHead)
    ensures s'.lost <==> s.lost || dropped
  {
    hide SearchInv, FullTrace, MarksSound, AllDone, TypesFollow;
    dropped, s' := false, s;
    var step := 1;
    var node := f.paths[cur].nodes[0];
    var done := false;
    CurrentOpen(f.succ, start, f.paths, table[..], s);
    CurrentWalk(f.succ, f.paths);
    while !done
      invariant f.Shaped() && Following(f.succ, start, f.paths, f.loopEdge, f.loopHead, cur, table[..], s')
      invariant step == |f.paths[cur].nodes| > 0 && node == Last(f.paths[cur].nodes)
      invariant !done ==> Unflagged(f.paths[cur]) && |FullTrace(f.paths, cur)| <= |f.succ|
      invariant done ==> Progress(f.succ, start, f.paths, f.loopEdge, f.loopHead, cur + 1)
      invariant TypesFollow(f.nodeType, f.loopHead)
      invariant s'.lost <==> s.lost || dropped
      decreases if done then 0 else |f.succ| + 1 - |FullTrace(f.paths, cur)|
    {
      var more;
      node, step, done, more, s' := FollowStep(f, start, cur, node, step, table, s');
      dropped := dropped || more;
    }
  }

  // ----- The outer loop

  /** The first slot in use. */
  method FindMidStart(table: array<MidStart>) returns (found: bool, n: nat)
    ensures found ==> n < table.Length && table[n].node != 0 && forall i :: 0 <= i < n ==> table[i].node == 0
    ensures !found ==> forall i :: 0 <= i < table.Length ==> table[i].node == 0
  {
    n := 0;
    while n < table.Length
      invariant n <= table.Length
      invariant forall i :: 0 <= i < n ==> table[i].node == 0
    {
      if table[n].node != 0 {
        return true, n;
      }
      n := n + 1;
    }
    return false, 0;
  }

  /** The first path takes the only slot in use. */
  lemma FirstPath(g: Cfg, start: nat, slots: seq<MidStart>, e: seq<seq<bool>>, h: seq<bool>)
    returns (s: Search)
    requires WellFormed(g) && IsNode(g, start) && MarksSound(g, start, e, h)
    requires |slots| == SLOTS && forall i :: 0 <= i < |slots| ==> slots[i].node == 0
    ensures Following(g, start, [Path(0, 0, [start], false, 0)], e, h, 0, slots, s) && !s.lost
    ensures FullTrace([Path(0, 0, [start], false, 0)], 0) == [start]
  {
    var ps := [Path(0, 0, [start], false, 0)];
    assert FullTrace(ps, 0) == [start];
    FrontierStarts(g, start);
    RoutedFirst(g, start, slots);
    s := Search({[start]}, map[[start] := OnPath(0)], false);
  }

  /** Every later path takes over the walk of its slot. */
  lemma NextPath(g: Cfg, start: nat, ps: seq<Path>, e: seq<seq<bool>>, h: seq<bool>, slots: seq<MidStart>, s: Search,
                 i: nat)
    returns (s': Search)
    requires |ps| > 0 && Progress(g, start, ps, e, h, |ps|) && SearchInv(g, start, ps, slots, s)
    requires i < |slots| && slots[i].node != 0
    ensures Following(g, start, ps + [StartedFrom(slots[i])], e, h, |ps|, slots[i := slots[i].(node := 0)], s')
    ensures s'.lost == s.lost
  {
    hide FullTrace, Frontier, AllDone, MarksSound, ValidSlots, ValidTable, Tracked, Routed;
    RoutedTake(g, ps, slots, s.lost, i);
    var x := SlotWalks(ps, slots)[i];
    var ps' := ps + [StartedFrom(slots[i])];
    TakeSlotWalks(ps, slots, i);
    TrackedSlot(PathWalks(ps), SlotWalks(ps, slots), s.places, i);
    TrackTake(PathWalks(ps), SlotWalks(ps, slots), s.places, i);
    s' := s.(places := s.places[x := OnPath(|ps|)]);
    assert Busy(slots) == Busy(slots[i := slots[i].(node := 0)]) + {i};
    forall p | 0 <= p < |ps| ensures ps'[p] == ps[p] && FullTrace(ps', p) == FullTrace(ps, p) {
      assert PathWalks(ps')[p] == PathWalks(ps)[p];
    }
    DoneTakeStable(g, start, ps, ps', |ps|, e, h);
  }

  lemma DoneTakeStable(g: Cfg, start: nat, ps: seq<Path>, ps': seq<Path>, n: nat, e: seq<seq<bool>>, h: seq<bool>)
    requires ValidTable(ps) && ValidTable(ps') && n <= |ps| && n <= |ps'|
    requires forall p :: 0 <= p < n ==> ps'[p] == ps[p] && FullTrace(ps', p) == FullTrace(ps, p)
    requires MarksSound(g, start, e, h) && AllDone(g, start, ps, e, h, n)
    ensures AllDone(g, start, ps', e, h, n)
  {
    DoneStable(g, start, ps, ps', n, e, h, e, h);
  }

  /** When no slot is in use and no branch was lost the table is exact. */
  lemma SearchComplete(g: Cfg, start: nat, ps: seq<Path>, e: seq<seq<bool>>, h: seq<bool>, slots: seq<MidStart>,
                       s: Search)
    requires Progress(g, start, ps, e, h, |ps|) && SearchInv(g, start, ps, slots, s)
    requires Busy(slots) == {} && !s.lost
    ensures ExactTable(g, start, ps)
  {
    var pw := PathWalks(ps);
    forall x | x in s.open ensures Stopped(g, start, x) && exists p :: 0 <= p < |ps| && FullTrace(ps, p) == x {
      assert x in s.places;
      assert s.places[x].OnPath?;
      var p := s.places[x].p;
      assert DonePath(g, start, ps, e, h, p);
    }
    forall w | Stopped(g, start, w) ensures exists p :: 0 <= p < |ps| && FullTrace(ps, p) == w {
      FrontierComplete(g, start, s.open, w);
    }
    PathsDistinct(g, start, ps, slots, s);
    forall p | 0 <= p < |ps| ensures Finished(g, start, ps, p) {
      assert DonePath(g, start, ps, e, h, p);
    }
  }

  /** A lost walk is the beginning of a stopped walk that is no path. */
  lemma LostIsMissing(g: Cfg, start: nat, ps: seq<Path>, slots: seq<MidStart>, s: Search)
    requires WellFormed(g) && SearchInv(g, start, ps, slots, s) && s.lost
    ensures !ExactTable(g, start, ps)
  {
    hide FullTrace, ValidSlots, SlotWalks, Finished;
    var y :| y in s.open && y !in s.places;
    var w := ExtendsToStopped(g, start, y);
    assert w !in s.places;
    forall p | 0 <= p < |ps| ensures FullTrace(ps, p) != w {
      assert PathWalks(ps)[p] == FullTrace(ps, p);
    }
  }

  lemma PathsDistinct(g: Cfg, start: nat, ps: seq<Path>, slots: seq<MidStart>, s: Search)
    requires SearchInv(g, start, ps, slots, s)
    ensures forall p, q :: 0 <= p < q < |ps| ==> FullTrace(ps, p) != FullTrace(ps, q)
  {
    forall p, q | 0 <= p < q < |ps| ensures FullTrace(ps, p) != FullTrace(ps, q) {
      assert s.places[PathWalks(ps)[p]] == OnPath(p) && s.places[PathWalks(ps)[q]] == OnPath(q);
    }
  }

  /** A simple walk and one more node that repeats: a stopped walk whose last edge is `u` to `v`. */
  lemma BackEdgeWalk(g: Cfg, start: nat, u: nat, v: nat) returns (x: seq<nat>)
    requires BackEdge(g, start, u, v)
    ensures Stopped(g, start, x) && Loops(x) && |x| >= 2 && x[|x| - 2] == u && Last(x) == v
  {
    var w :| WalkBetween(g, w, start, u) && Simple(w) && v in w;
    x := w + [v];
    ExtendWalk(g, w, v);
    assert Front(x) == w;
  }

  lemma BackEdgeMarked(g: Cfg, start: nat, ps: seq<Path>, e: seq<seq<bool>>, h: seq<bool>, u: nat, v: nat)
    requires ExactTable(g, start, ps) && Progress(g, start, ps, e, h, |ps|) && BackEdge(g, start, u, v)
    ensures v < |h| && h[v] && EdgeMarked(g, e, u, v)
  {
    var x := BackEdgeWalk(g, start, u, v);
    hide FullTrace, Stopped, Loops, BackEdge;
    var p :| 0 <= p < |ps| && FullTrace(ps, p) == x;
    assert DonePath(g, start, ps, e, h, p);
  }

  /** An exact table with marked cycles has exact marks. */
  lemma MarksComplete(g: Cfg, start: nat, ps: seq<Path>, e: seq<seq<bool>>, h: seq<bool>)
    requires ExactTable(g, start, ps) && Progress(g, start, ps, e, h, |ps|)
    ensures ExactMarks(g, start, e, h)
  {
    hide ExactTable, AllDone, BackEdge;
    forall u: nat, v: nat | BackEdge(g, start, u, v) ensures v < |h| && h[v] && EdgeMarked(g, e, u, v) {
      BackEdgeMarked(g, start, ps, e, h, u, v);
    }
  }

  lemma BlankMarks(f: FunctionCfg, start: nat)
    requires f.Blank()
    ensures MarksSound(f.succ, start, f.loopEdge, f.loopHead)
  {
  }

  /** Before the first path only slot 0 is in use; later the search is under way. */
  ghost predicate Ready(f: FunctionCfg, start: nat, slots: seq<MidStart>, s: Search)
    requires f.Shaped() && |slots| == SLOTS
    reads f
  {
    && TypesFollow(f.nodeType, f.loopHead) && IsNode(f.succ, start)
    && if f.paths == [] then
         && slots[0] == MidStart(start, 0, 0) && (forall i :: 1 <= i < SLOTS ==> slots[i].node == 0)
         && MarksSound(f.succ, start, f.loopEdge, f.loopHead) && !s.lost
       else
         && Progress(f.succ, start, f.paths, f.loopEdge, f.loopHead, |f.paths|)
         && SearchInv(f.succ, start, f.paths, slots, s)
  }

  /** A path is started from slot `n` and followed. */
  method StartPath(f: FunctionCfg, start: nat, table: array<MidStart>, n: nat, ghost s: Search)
    returns (dropped: bool, ghost s': Search)
    requires f.Shaped() && table.Length == SLOTS && n < SLOTS && table[n].node != 0 && Ready(f, start, table[..], s)
    modifies f`paths, f`loopEdge, f`loopHead, f`nodeType, table
    ensures f.Shaped() && |f.paths| == |old(f.paths)| + 1 && Ready(f, start, table[..], s')
    ensures s'.lost <==> s.lost || dropped
  {
    hide SearchInv, Trace, AllDone, MarksSound, MutualLinks, TypesFollow;
    var cur := |f.paths|;
    ghost var slots := table[..];
    ghost var ps := f.paths;
    f.paths := f.paths + [StartedFrom(table[n])];
    table[n] := table[n].(node := 0);
    assert table[..] == slots[n := slots[n].(node := 0)];
    if cur == 0 {
      assert f.paths == [Path(0, 0, [start], false, 0)];
      s' := FirstPath(f.succ, start, table[..], f.loopEdge, f.loopHead);
    } else {
      s' := NextPath(f.succ, start, ps, f.loopEdge, f.loopHead, slots, s, n);
    }
    dropped, s' := FollowPath(f, start, cur, table, s');
  }

  /** Enumerates the stopped walks from `start`. Whatever is recorded is a stopped walk with the
      right flags and marks. When the table did not overflow (return value 0) it is exact if and
      only if no branch was dropped for want of a slot. No branch is dropped if there are no more
      stopped walks than slots. One is if some stopped walk takes first links past more branches than
      fit; a node with too many links that the entry reaches is enough. */
  method BuildControlFlowPaths(f: FunctionCfg, pathsSize: nat, start: nat) returns (ret: int, dropped: bool)
    requires f.Blank() && IsNode(f.succ, start)
    modifies f`paths, f`loopEdge, f`loopHead, f`nodeType
    ensures f.Shaped() && (ret == 0 || ret == 1)
    ensures Progress(f.succ, start, f.paths, f.loopEdge, f.loopHead, |f.paths|)
    ensures forall p, q :: 0 <= p < q < |f.paths| ==> FullTrace(f.paths, p) != FullTrace(f.paths, q)
    ensures TypesFollow(f.nodeType, f.loopHead)
    ensures ret == 0 <==> |f.paths| < pathsSize
    ensures ret == 0 ==> (ExactTable(f.succ, start, f.paths) <==> !dropped)
    ensures ret == 0 && !dropped ==> ExactMarks(f.succ, start, f.loopEdge, f.loopHead)
    ensures ret == 0 && |f.paths| <= SLOTS ==> !dropped
    ensures dropped ==> forall all: set<seq<nat>> :: HoldsStopped(f.succ, start, all) ==> |all| > SLOTS
    ensures (exists w :: Crowded(f.succ, start, w, 0)) ==> dropped
    ensures ret == 0 && (exists w, i: nat :: Crowded(f.succ, start, w, i)) ==> dropped
    ensures |f.succ[start]| > SLOTS + 1 ==> dropped
    ensures ret == 0 && (exists v :: WideNode(f.succ, start, v)) ==> dropped
  {
    hide SearchInv, FullTrace, Trace, AllDone, MarksSound, MutualLinks, Crowded, WideNode, HoldsStopped;
    var table := new MidStart[SLOTS](i => if i == 0 then MidStart(start, 0, 0) else MidStart(0, 0, 0));
    ghost var s: Search := Search({}, map[], false);
    BlankMarks(f, start);
    dropped := false;
    while true
      invariant f.Shaped() && fresh(table) && table.Length == SLOTS
      invariant Ready(f, start, table[..], s) && (f.paths != [] ==> |f.paths| < pathsSize)
      invariant s.lost <==> dropped
      decreases pathsSize - |f.paths|
    {
      var found, n := FindMidStart(table);
      if !found {
        break;
      }
      var more;
      more, s := StartPath(f, start, table, n, s);
      dropped := dropped || more;
      if |f.paths| >= pathsSize {
        PathsDistinct(f.succ, start, f.paths, table[..], s);
        WhenLost(f.succ, start, f.paths, f.loopEdge, f.loopHead, table[..], s);
        return 1, dropped;
      }
    }
    assert table[..][0] == table[0];
    PathsDistinct(f.succ, start, f.paths, table[..], s);
    LostOutgrows(f.succ, start, f.paths, table[..], s);
    WhenLost(f.succ, start, f.paths, f.loopEdge, f.loopHead, table[..], s);
    if dropped {
      LostIsMissing(f.succ, start, f.paths, table[..], s);
    } else {
      SearchComplete(f.succ, start, f.paths, f.loopEdge, f.loopHead, table[..], s);
      MarksComplete(f.succ, start, f.paths, f.loopEdge, f.loopHead);
      NotCrowded(f.succ, start, f.paths, table[..], s);
    }
    return 0, dropped;
  }

  /** The entry reaches `v`, which has more links than fit. */
  ghost predicate WideNode(g: Cfg, start: nat, v: nat) {
    v < |g| && Reaches(g, start, v) && |g[v]| > SLOTS + 1
  }

  /** What the stopped walks say about the search at any time after the first path. */
  lemma WhenLost(g: Cfg, start: nat, ps: seq<Path>, e: seq<seq<bool>>, h: seq<bool>, slots: seq<MidStart>, s: Search)
    requires WellFormed(g) && IsNode(g, start) && ps != []
    requires Progress(g, start, ps, e, h, |ps|) && SearchInv(g, start, ps, slots, s)
    ensures s.lost ==> forall all: set<seq<nat>> :: HoldsStopped(g, start, all) ==> |all| > SLOTS
    ensures (exists w :: Crowded(g, start, w, 0)) ==> s.lost
    ensures |g[start]| > SLOTS + 1 ==> s.lost
  {
    hide SearchInv, FullTrace, Stopped, Crowded;
    if s.lost {
      forall all: set<seq<nat>> | HoldsStopped(g, start, all) ensures |all| > SLOTS {
        LostNeedsMany(g, start, ps, slots, s, all);
      }
    }
    assert DonePath(g, start, ps, e, h, 0);
    if w :| Crowded(g, start, w, 0) {
      CrowdedFirst(g, start, ps, slots, s, w);
    }
    if |g[start]| > SLOTS + 1 {
      assert WalkBetween(g, [start], start, start);
      var w, i := WideCrowds(g, start, start);
      CrowdedFirst(g, start, ps, slots, s, w);
    }
  }

  /** With an exact table no walk is crowded. */
  lemma NotCrowded(g: Cfg, start: nat, ps: seq<Path>, slots: seq<MidStart>, s: Search)
    requires WellFormed(g) && ExactTable(g, start, ps) && SearchInv(g, start, ps, slots, s) && !s.lost
    ensures forall w, i: nat :: !Crowded(g, start, w, i)
    ensures forall v :: !WideNode(g, start, v)
  {
    hide SearchInv, FullTrace;
    forall w, i: nat ensures !Crowded(g, start, w, i) {
      if Crowded(g, start, w, i) {
        var p :| 0 <= p < |ps| && FullTrace(ps, p) == w;
        CrowdedLost(g, start, ps, slots, s, p, i);
      }
    }
    forall v ensures !WideNode(g, start, v) {
      if WideNode(g, start, v) {
        var w, i := WideCrowds(g, start, v);
      }
    }
  }

  lemma LostOutgrows(g: Cfg, start: nat, ps: seq<Path>, slots: seq<MidStart>, s: Search)
    requires SearchInv(g, start, ps, slots, s) && forall i :: 0 <= i < |slots| ==> slots[i].node == 0
    ensures Busy(slots) == {} && (s.lost ==> |ps| > SLOTS)
  {
  }
}
