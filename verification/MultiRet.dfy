/** `analyse_multi_ret`: the exit nodes of a function with more than one of them. */
module MultiRet {
  import opened Graph
  import opened PathTable

  ghost predicate EndsAt(ps: seq<Path>, k: nat, x: nat)
    requires ValidTable(ps) && k <= |ps|
  {
    exists p :: EndOfPath(ps, k, p, x)
  }

  ghost predicate EndOfPath(ps: seq<Path>, k: nat, p: nat, x: nat)
    requires ValidTable(ps) && k <= |ps|
  {
    p < k && ps[p].loopHead == 0 && Last(ps[p].nodes) == x
  }

  /** `x` ends the first path that is not a loop. */
  ghost predicate FirstEnd(ps: seq<Path>, x: nat)
    requires ValidTable(ps)
  {
    exists p :: EndOfPath(ps, |ps|, p, x) && forall q :: 0 <= q < p ==> ps[q].loopHead != 0
  }

  /** Lists, each once and the first one last, the nodes at which paths end, if they are several. */
  method AnalyseMultiRet(ps: seq<Path>) returns (ret: seq<nat>)
    requires ValidTable(ps) && forall p :: 0 <= p < |ps| ==> Last(ps[p].nodes) != 0
    ensures Simple(ret)
    ensures ret == [] <==> forall x: nat, y: nat :: EndsAt(ps, |ps|, x) && EndsAt(ps, |ps|, y) ==> x == y
    ensures ret != [] ==> FirstEnd(ps, Last(ret)) && forall x: nat :: x in ret <==> EndsAt(ps, |ps|, x)
  {
    hide EndsAt, EndOfPath;
    ret := [];
    var first := 0;
    ghost var fp := 0;
    ghost var ends: set<nat> := {};
    NoEnds(ps);
    for n := 0 to |ps|
      invariant Simple(ret) && first !in ret && 0 !in ret
      invariant first == 0 ==> ret == [] && forall p :: 0 <= p < n ==> ps[p].loopHead != 0
      invariant first != 0 ==> fp < n && EndOfPath(ps, |ps|, fp, first) && forall q :: 0 <= q < fp ==> ps[q].loopHead != 0
      invariant forall x: nat :: EndsAt(ps, n, x) <==> x in ends
      invariant forall x: nat :: x in ends <==> first != 0 && (x == first || x in ret)
    {
      forall x: nat ensures EndsAt(ps, n + 1, x) <==> EndsAt(ps, n, x) || (ps[n].loopHead == 0 && x == Last(ps[n].nodes)) {
        EndsStep(ps, n, x);
      }
      if ps[n].loopHead == 0 {
        var end := Last(ps[n].nodes);
        ends := ends + {end};
        if first == 0 {
          first := end;
          fp := n;
          EndsStep(ps, n, end);
        } else if end != first && end !in ret {
          ret := ret + [end];
        }
      }
    }
    if |ret| > 0 {
      assert ret[0] in ends && first in ends;
      ret := ret + [first];
    }
  }

  lemma NoEnds(ps: seq<Path>)
    requires ValidTable(ps)
    ensures forall x: nat :: !EndsAt(ps, 0, x)
  {
  }

  lemma EndsStep(ps: seq<Path>, n: nat, x: nat)
    requires ValidTable(ps) && n < |ps|
    ensures EndsAt(ps, n + 1, x) <==> EndsAt(ps, n, x) || (ps[n].loopHead == 0 && x == Last(ps[n].nodes))
    ensures ps[n].loopHead == 0 && x == Last(ps[n].nodes) ==> EndOfPath(ps, |ps|, n, x)
  {
    if EndsAt(ps, n + 1, x) {
      var p: nat :| EndOfPath(ps, n + 1, p, x);
      assert p == n || EndOfPath(ps, n, p, x);
    }
    if EndsAt(ps, n, x) {
      var p: nat :| EndOfPath(ps, n, p, x);
      assert EndOfPath(ps, n + 1, p, x);
    }
    if ps[n].loopHead == 0 && x == Last(ps[n].nodes) {
      assert EndOfPath(ps, n + 1, n, x);
    }
  }

  /** On an exact table these are the exit nodes that the entry reaches. */
  lemma EndsAreExits(g: Cfg, start: nat, ps: seq<Path>, x: nat)
    requires ExactTable(g, start, ps)
    ensures EndsAt(ps, |ps|, x) <==> ReachedExit(g, start, x)
  {
    hide FullTrace;
    if EndsAt(ps, |ps|, x) {
      var p: nat :| EndOfPath(ps, |ps|, p, x);
      assert Finished(g, start, ps, p);
      LastTwo(ps, p);
      assert WalkBetween(g, FullTrace(ps, p), start, x);
      WalkNodes(g, FullTrace(ps, p));
    }
    if IsExit(g, x) && Reaches(g, start, x) {
      var a :| WalkBetween(g, a, start, x);
      var w := EraseLoops(g, a);
      SimpleWalkStops(g, start, w);
      var p :| 0 <= p < |ps| && FullTrace(ps, p) == w;
      assert Finished(g, start, ps, p);
      LastTwo(ps, p);
      assert EndOfPath(ps, |ps|, p, x);
    }
  }

  /** The pass on an exact table: nothing if the entry reaches at most one exit, else the exits it
      reaches, each once. */
  method ReachedExits(g: Cfg, ghost start: nat, ps: seq<Path>) returns (ret: seq<nat>)
    requires ExactTable(g, start, ps)
    ensures Simple(ret)
    ensures ret == [] <==> forall x: nat, y: nat ::
      ReachedExit(g, start, x) && ReachedExit(g, start, y) ==> x == y
    ensures ret != [] ==> forall x: nat :: x in ret <==> ReachedExit(g, start, x)
  {
    hide EndsAt, Finished, FullTrace, FirstEnd, ReachedExit;
    forall p | 0 <= p < |ps| ensures Last(ps[p].nodes) != 0 {
      EndIsNode(g, start, ps, p);
    }
    forall x: nat ensures EndsAt(ps, |ps|, x) <==> ReachedExit(g, start, x) {
      EndsAreExits(g, start, ps, x);
    }
    ret := AnalyseMultiRet(ps);
  }

  ghost predicate ReachedExit(g: Cfg, start: nat, x: nat) {
    IsExit(g, x) && Reaches(g, start, x)
  }

  lemma EndIsNode(g: Cfg, start: nat, ps: seq<Path>, p: nat)
    requires ExactTable(g, start, ps) && p < |ps|
    ensures ps[p].nodes != [] && Last(ps[p].nodes) != 0
  {
    hide FullTrace;
    assert Finished(g, start, ps, p);
    LastTwo(ps, p);
    WalkNodes(g, FullTrace(ps, p));
  }

  lemma SimpleWalkStops(g: Cfg, start: nat, w: seq<nat>)
    requires IsWalk(g, w) && w[0] == start && Simple(w) && IsExit(g, Last(w))
    ensures Stopped(g, start, w) && !Loops(w)
  {
    forall i | 0 <= i < |w| - 1 ensures Front(w)[i] != Last(w) {
      assert w[i] != w[|w| - 1];
    }
  }
}
