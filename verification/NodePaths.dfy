/** `build_node_paths`, `is_subset` and the backward scans over one path. */
module NodePaths {
  import opened Graph
  import opened PathTable
  import opened FunctionTables

  // ----- Which paths touch a node

  /** Among the first `k` paths, those of the given kind whose trace visits node `n`. */
  ghost function PathsThrough(ps: seq<Path>, looped: bool, n: nat, k: nat): (l: seq<nat>)
    requires ValidTable(ps) && k <= |ps|
  {
    if k == 0 then []
    else PathsThrough(ps, looped, n, k - 1) +
         (if ps[k - 1].isLoop == looped && n in FullTrace(ps, k - 1) then [k - 1] else [])
  }

  ghost predicate Increasing(a: seq<nat>) {
    forall i, j :: 0 <= i < j < |a| ==> a[i] < a[j]
  }

  lemma {:induction false} PathsThroughExact(ps: seq<Path>, looped: bool, n: nat, k: nat)
    requires ValidTable(ps) && k <= |ps|
    ensures Increasing(PathsThrough(ps, looped, n, k))
    ensures forall p: nat :: p in PathsThrough(ps, looped, n, k) <==>
      p < k && ps[p].isLoop == looped && n in FullTrace(ps, p)
  {
    hide FullTrace, Trace, ValidTable;
    if k > 0 {
      PathsThroughExact(ps, looped, n, k - 1);
      var a := PathsThrough(ps, looped, n, k - 1);
      assert forall i :: 0 <= i < |a| ==> a[i] in a;
    }
  }

  /** Appends `path` unless the list already holds it. */
  method AddPath(list: seq<nat>, path: nat) returns (list': seq<nat>)
    ensures list' == if path in list then list else list + [path]
  {
    for n := 0 to |list|
      invariant path !in list[..n]
    {
      if list[n] == path {
        return list;
      }
    }
    assert list[..|list|] == list;
    return list + [path];
  }

  ghost predicate TracesInside(ps: seq<Path>, size: nat)
    requires ValidTable(ps)
  {
    forall p, i :: 0 <= p < |ps| && 0 <= i < |FullTrace(ps, p)| ==> FullTrace(ps, p)[i] < size
  }

  /** Adding path `l` to the list of every node on its trace, last node first. */
  method AddTrace(ps: seq<Path>, l: nat, lists: seq<seq<nat>>) returns (lists': seq<seq<nat>>)
    requires ValidTable(ps) && l < |ps|
    requires forall i :: 0 <= i < |FullTrace(ps, l)| ==> FullTrace(ps, l)[i] < |lists|
    requires forall n :: 0 <= n < |lists| ==> l !in lists[n]
    ensures |lists'| == |lists|
    ensures forall n :: 0 <= n < |lists| ==>
      lists'[n] == if n in FullTrace(ps, l) then lists[n] + [l] else lists[n]
  {
    hide Trace, ValidTable;
    lists' := lists;
    var path: nat, left: nat := l, |ps[l].nodes|;
    ghost var w := FullTrace(ps, l);
    ghost var i: nat := |w|;
    assert w == w[..i];
    while true
      invariant path < |ps| && left <= |ps[path].nodes| && i <= |w|
      invariant Trace(ps, path, left) == w[..i]
      invariant |lists'| == |lists|
      invariant forall n :: 0 <= n < |lists| ==> lists'[n] == if n in w[i..] then lists[n] + [l] else lists[n]
      decreases i
    {
      StepBackIn(ps, path, left, w, i);
      match StepBack(ps, path, left) {
        case AtRoot =>
          assert w[0..] == w;
          return;
        case At(q, k) =>
          path, left := q, k;
      }
      var node := ps[path].nodes[left];
      ghost var before := lists'[node];
      var list := AddPath(lists'[node], l);
      assert w[i - 1..] == [node] + w[i..];
      assert l in before <==> node in w[i..];
      lists' := lists'[node := list];
      i := i - 1;
    }
  }

  /** Every node's two path lists are exactly the paths of that kind that visit it. */
  ghost predicate ExactLists(f: FunctionCfg)
    reads f
  {
    && f.Shaped() && ValidTable(f.paths)
    && ListsUpTo(f.paths, false, f.nodePaths, |f.paths|)
    && ListsUpTo(f.paths, true, f.nodeLoopedPaths, |f.paths|)
  }

  /** The lists of one kind after the first `k` paths. */
  ghost predicate ListsUpTo(ps: seq<Path>, looped: bool, lists: seq<seq<nat>>, k: nat)
    requires ValidTable(ps) && k <= |ps|
  {
    forall n :: 0 <= n < |lists| ==> lists[n] == PathsThrough(ps, looped, n, k)
  }

  lemma ListsFresh(ps: seq<Path>, looped: bool, lists: seq<seq<nat>>, k: nat)
    requires ValidTable(ps) && k <= |ps| && ListsUpTo(ps, looped, lists, k)
    ensures forall n :: 0 <= n < |lists| ==> k !in lists[n]
  {
    forall n | 0 <= n < |lists| ensures k !in lists[n] {
      PathsThroughExact(ps, looped, n, k);
    }
  }

  lemma ListsBegin(ps: seq<Path>, looped: bool, lists: seq<seq<nat>>)
    requires ValidTable(ps) && forall n :: 0 <= n < |lists| ==> lists[n] == []
    ensures ListsUpTo(ps, looped, lists, 0)
  {
  }

  lemma ListsStep(ps: seq<Path>, looped: bool, lists: seq<seq<nat>>, k: nat, lists': seq<seq<nat>>)
    requires ValidTable(ps) && k < |ps| && ListsUpTo(ps, looped, lists, k) && |lists'| == |lists|
    requires forall n :: 0 <= n < |lists| ==>
      lists'[n] == if ps[k].isLoop == looped && n in FullTrace(ps, k) then lists[n] + [k] else lists[n]
    ensures ListsUpTo(ps, looped, lists', k + 1)
  {
  }

  method BuildNodePaths(f: FunctionCfg)
    requires f.Shaped() && ValidTable(f.paths) && TracesInside(f.paths, |f.succ|)
    requires forall n :: 0 <= n < |f.succ| ==> f.nodePaths[n] == f.nodeLoopedPaths[n] == []
    modifies f`nodePaths, f`nodeLoopedPaths
    ensures ExactLists(f)
  {
    hide FullTrace, ValidTable, WellFormed, MutualLinks, ListsUpTo;
    ListsBegin(f.paths, false, f.nodePaths);
    ListsBegin(f.paths, true, f.nodeLoopedPaths);
    for l := 0 to |f.paths|
      invariant f.Shaped()
      invariant ListsUpTo(f.paths, false, f.nodePaths, l)
      invariant ListsUpTo(f.paths, true, f.nodeLoopedPaths, l)
    {
      ListsFresh(f.paths, false, f.nodePaths, l);
      ListsFresh(f.paths, true, f.nodeLoopedPaths, l);
      ghost var plain, looped := f.nodePaths, f.nodeLoopedPaths;
      if f.paths[l].isLoop {
        f.nodeLoopedPaths := AddTrace(f.paths, l, f.nodeLoopedPaths);
      } else {
        f.nodePaths := AddTrace(f.paths, l, f.nodePaths);
      }
      ListsStep(f.paths, false, plain, l, f.nodePaths);
      ListsStep(f.paths, true, looped, l, f.nodeLoopedPaths);
    }
  }

  // ----- Subset test

  /** The scan for the n-th element starts at position n. */
  ghost predicate ScanFinds(a: seq<nat>, b: seq<nat>, n: nat)
    requires n < |a|
  {
    n <= |b| && a[n] in b[n..]
  }

  ghost predicate ScanSubset(a: seq<nat>, b: seq<nat>) {
    |a| <= |b| && forall n :: 0 <= n < |a| ==> ScanFinds(a, b, n)
  }

  lemma SameIsSubset(a: seq<nat>)
    ensures ScanSubset(a, a)
  {
    forall n | 0 <= n < |a| ensures ScanFinds(a, a, n) {
      assert a[n..][0] == a[n];
    }
  }

  /** 0: not a subset, 1: the same list, 2: a subset. */
  method IsSubset(a: seq<nat>, b: seq<nat>) returns (result: int)
    ensures result == 1 <==> a == b
    ensures result == 2 <==> a != b && ScanSubset(a, b)
    ensures result == 0 <==> !ScanSubset(a, b)
  {
    SameIsSubset(a);
    if |b| < |a| {
      return 0;
    }
    if |b| == |a| && a == b {
      return 1;
    }
    for n := 0 to |a|
      invariant forall i :: 0 <= i < n ==> ScanFinds(a, b, i)
    {
      var found := false;
      for m := n to |b|
        invariant !found && forall i :: n <= i < m ==> b[i] != a[n]
      {
        if a[n] == b[m] {
          assert b[n..][m - n] == a[n];
          found := true;
          break;
        }
      }
      if !found {
        assert !ScanFinds(a, b, n);
        return 0;
      }
    }
    return 2;
  }

  /** In increasing lists the n-th element of a subset cannot sit before position n. */
  lemma {:induction false} PositionAtLeast(a: seq<nat>, b: seq<nat>, n: nat) returns (m: nat)
    requires Increasing(a) && Increasing(b) && n < |a|
    requires forall x :: x in a ==> x in b
    ensures n <= m < |b| && b[m] == a[n]
  {
    assert a[n] in b;
    m :| 0 <= m < |b| && b[m] == a[n];
    if n > 0 {
      var k := PositionAtLeast(a, b, n - 1);
      assert a[n - 1] < a[n];
    }
  }

  /** On increasing lists the test decides set inclusion, although the inner scan starts late. */
  lemma IncreasingSubset(a: seq<nat>, b: seq<nat>)
    requires Increasing(a) && Increasing(b)
    ensures ScanSubset(a, b) <==> forall x :: x in a ==> x in b
  {
    if ScanSubset(a, b) {
      forall n | 0 <= n < |a| ensures a[n] in b {
        assert ScanFinds(a, b, n);
      }
    }
    if forall x :: x in a ==> x in b {
      forall n | 0 <= n < |a| ensures ScanFinds(a, b, n) {
        var m := PositionAtLeast(a, b, n);
        assert b[n..][m - n] == a[n];
      }
      if |a| > 0 {
        var m := PositionAtLeast(a, b, |a| - 1);
      }
    }
  }

  /** On unsorted lists the test can miss a subset. */
  lemma UnsortedSubsetMissed()
    ensures (forall x :: x in [1, 2] ==> x in [2, 1]) && !ScanSubset([1, 2], [2, 1])
  {
    assert !ScanFinds([1, 2], [2, 1], 1);
  }

  // ----- Positions on a path

  /** How many nodes of the trace belong to parent paths; positions count from there. */
  ghost function Inherited(ps: seq<Path>, p: nat): (n: nat)
    requires ValidTable(ps) && p < |ps|
  {
    |Trace(ps, p, 0)|
  }

  lemma InheritedLength(ps: seq<Path>, p: nat)
    requires ValidTable(ps) && p < |ps|
    ensures |FullTrace(ps, p)| == Inherited(ps, p) + |ps[p].nodes|
  {
  }

  /** The position of the last visit to `node`; negative positions are in parent paths. */
  method FindNodeInPath(ps: seq<Path>, basePath: nat, node: nat) returns (found: bool, index: int)
    requires ValidTable(ps) && basePath < |ps|
    ensures found <==> node in FullTrace(ps, basePath)
    ensures found ==>
      var i := index + Inherited(ps, basePath); var w := FullTrace(ps, basePath);
      0 <= i < |w| && w[i] == node && node !in w[i + 1..]
  {
    hide Trace, ValidTable;
    InheritedLength(ps, basePath);
    var path: nat, left: nat := basePath, |ps[basePath].nodes|;
    var position: int := left;
    ghost var w := FullTrace(ps, basePath);
    ghost var i: nat := |w|;
    assert w == w[..i];
    while true
      invariant path < |ps| && left <= |ps[path].nodes| && i <= |w|
      invariant Trace(ps, path, left) == w[..i] && node !in w[i..]
      invariant position + Inherited(ps, basePath) == i
      decreases i
    {
      StepBackIn(ps, path, left, w, i);
      match StepBack(ps, path, left) {
        case AtRoot =>
          assert w[0..] == w;
          return false, 0;
        case At(q, k) =>
          path, left := q, k;
      }
      position := position - 1;
      if node == ps[path].nodes[left] {
        return true, position;
      }
      assert w[i - 1..] == [ps[path].nodes[left]] + w[i..];
      i := i - 1;
    }
  }

  /** The node at a position. */
  method FindNodeAtIndexInPath(ps: seq<Path>, basePath: nat, index: int) returns (found: bool, node: nat)
    requires ValidTable(ps) && basePath < |ps|
    ensures found <==> 0 <= index + Inherited(ps, basePath) < |FullTrace(ps, basePath)|
    ensures found ==> node == FullTrace(ps, basePath)[index + Inherited(ps, basePath)]
  {
    hide Trace, ValidTable;
    InheritedLength(ps, basePath);
    var path: nat, left: nat := basePath, |ps[basePath].nodes|;
    var position: int := left;
    ghost var w := FullTrace(ps, basePath);
    ghost var i: nat := |w|;
    assert w == w[..i];
    while true
      invariant path < |ps| && left <= |ps[path].nodes| && i <= |w|
      invariant Trace(ps, path, left) == w[..i]
      invariant position + Inherited(ps, basePath) == i
      invariant !(position <= index && index + Inherited(ps, basePath) < |w|)
      decreases i
    {
      StepBackIn(ps, path, left, w, i);
      match StepBack(ps, path, left) {
        case AtRoot => return false, 0;
        case At(q, k) => path, left := q, k;
      }
      position := position - 1;
      if position == index {
        return true, ps[path].nodes[left];
      }
      i := i - 1;
    }
  }
}
