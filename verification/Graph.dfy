/** Control flow graphs and walks in them.

    A graph lists, for every node number, the nodes its `link_next` entries point to, in
    link order. Nodes are numbered from 1; number 0 stands for "no node". */
module Graph {
  type Cfg = seq<seq<nat>>

  ghost predicate IsNode(g: Cfg, n: nat) {
    1 <= n < |g|
  }

  /** Every link points to a node, and no node links twice to the same node. For the log of
      instructions `TidyLog` says when `tidy_inst_log` gets it there. */
  ghost predicate WellFormed(g: Cfg) {
    && (forall n, i :: 0 <= n < |g| && 0 <= i < |g[n]| ==> IsNode(g, g[n][i]))
    && (forall n, i, j :: 0 <= n < |g| && 0 <= i < j < |g[n]| ==> g[n][i] != g[n][j])
  }

  ghost predicate Edge(g: Cfg, u: nat, v: nat) {
    IsNode(g, u) && IsNode(g, v) && v in g[u]
  }

  ghost predicate IsExit(g: Cfg, n: nat) {
    IsNode(g, n) && g[n] == []
  }

  lemma SubsetSize<T>(a: set<T>, b: set<T>)
    requires a <= b
    ensures |a| <= |b|
  {
    assert b == a + (b - a);
    assert |b| == |a| + |b - a|;
  }

  function Last(w: seq<nat>): (n: nat)
    requires w != []
  {
    w[|w| - 1]
  }

  function Front(w: seq<nat>): (f: seq<nat>)
    requires w != []
  {
    w[..|w| - 1]
  }

  ghost predicate IsWalk(g: Cfg, w: seq<nat>) {
    && w != []
    && IsNode(g, w[0])
    && forall i, j :: 0 <= i && j == i + 1 && j < |w| ==> Edge(g, w[i], w[j])
  }

  ghost predicate WalkBetween(g: Cfg, w: seq<nat>, u: nat, v: nat) {
    IsWalk(g, w) && w[0] == u && Last(w) == v
  }

  ghost predicate Simple(w: seq<nat>) {
    forall i, j :: 0 <= i < j < |w| ==> w[i] != w[j]
  }

  /** No node reaches itself by one or more edges. */
  ghost predicate Acyclic(g: Cfg) {
    forall w :: IsWalk(g, w) && |w| > 1 ==> w[0] != Last(w)
  }

  ghost predicate Reaches(g: Cfg, u: nat, v: nat) {
    exists w :: WalkBetween(g, w, u, v)
  }

  ghost predicate AllReachable(g: Cfg, start: nat) {
    forall n :: IsNode(g, n) ==> Reaches(g, start, n)
  }

  lemma WalkNodes(g: Cfg, w: seq<nat>)
    requires IsWalk(g, w)
    ensures forall i :: 0 <= i < |w| ==> IsNode(g, w[i])
  {
    forall i | 0 <= i < |w| ensures IsNode(g, w[i]) {
      if i > 0 {
        assert Edge(g, w[i - 1], w[i]);
      }
    }
  }

  /** Only the last node of a walk can be without links. */
  lemma FrontHasLinks(g: Cfg, w: seq<nat>)
    requires IsWalk(g, w)
    ensures forall i: nat :: i < |w| - 1 ==> IsNode(g, w[i]) && g[w[i]] != []
  {
    forall i: nat | i < |w| - 1 ensures IsNode(g, w[i]) && g[w[i]] != [] {
      var j := i + 1;
      assert Edge(g, w[i], w[j]);
    }
  }

  lemma SubWalk(g: Cfg, w: seq<nat>, i: nat, j: nat)
    requires IsWalk(g, w) && i < j <= |w|
    ensures IsWalk(g, w[i..j])
  {
    WalkNodes(g, w);
  }

  lemma ExtendWalk(g: Cfg, w: seq<nat>, v: nat)
    requires IsWalk(g, w) && Edge(g, Last(w), v)
    ensures IsWalk(g, w + [v])
  {
  }

  /** Two walks that meet at a node join into one; the shared node is written once. */
  lemma JoinWalks(g: Cfg, a: seq<nat>, b: seq<nat>)
    requires IsWalk(g, a) && IsWalk(g, b) && Last(a) == b[0]
    ensures IsWalk(g, a + b[1..]) && (a + b[1..])[0] == a[0] && Last(a + b[1..]) == Last(b)
  {
    var w := a + b[1..];
    forall i, j | 0 <= i && j == i + 1 && j < |w| ensures Edge(g, w[i], w[j]) {
      if i >= |a| - 1 {
        assert w[j] == b[j - |a| + 1];
        assert w[i] == b[i - |a| + 1];
      }
    }
  }

  // ----- Pigeonhole

  /** A duplicate-free sequence of numbers below `n` has at most `n` elements. */
  lemma {:induction false} Pigeonhole(w: seq<nat>, n: nat)
    requires Simple(w) && forall i :: 0 <= i < |w| ==> w[i] < n
    ensures |w| <= n
    decreases n
  {
    if w == [] {
    } else if exists k :: 0 <= k < |w| && w[k] == n - 1 {
      var k :| 0 <= k < |w| && w[k] == n - 1;
      var rest := w[..k] + w[k + 1..];
      assert forall i :: 0 <= i < |rest| ==> rest[i] == if i < k then w[i] else w[i + 1];
      Pigeonhole(rest, n - 1);
    } else {
      assert w[0] < n;
      Pigeonhole(w, n - 1);
    }
  }

  /** A walk without repetition visits fewer nodes than the table has rows (row 0 is unused). */
  lemma SimpleWalkBound(g: Cfg, w: seq<nat>)
    requires Simple(w) && forall i :: 0 <= i < |w| ==> IsNode(g, w[i])
    ensures |w| < |g| || w == []
  {
    if w != [] {
      assert IsNode(g, w[0]);
      var shifted := seq(|w|, i requires 0 <= i < |w| => if w[i] > 0 then w[i] - 1 else 0);
      assert forall i :: 0 <= i < |w| ==> IsNode(g, w[i]) && shifted[i] == w[i] - 1;
      Pigeonhole(shifted, |g| - 1);
    }
  }

  // ----- First repetitions

  /** The node at `i` is the first one that occurred before. */
  ghost predicate FirstRepeat(w: seq<nat>, i: nat) {
    i < |w| && Simple(w[..i]) && w[i] in w[..i]
  }

  lemma {:induction false} FindFirstRepeat(w: seq<nat>) returns (i: nat)
    requires !Simple(w)
    ensures FirstRepeat(w, i)
  {
    var f := Front(w);
    if Simple(f) {
      i := |f|;
      assert w == f + [Last(w)];
    } else {
      i := FindFirstRepeat(f);
      assert f[..i] == w[..i];
    }
  }

  /** Cutting the detours out of a walk leaves a simple walk between the same nodes. */
  lemma {:induction false} EraseLoops(g: Cfg, w: seq<nat>) returns (s: seq<nat>)
    requires IsWalk(g, w)
    ensures WalkBetween(g, s, w[0], Last(w)) && Simple(s)
    decreases |w|
  {
    if Simple(w) {
      s := w;
    } else {
      var i := FindFirstRepeat(w);
      var k :| 0 <= k < i && w[..i][k] == w[i];
      SubWalk(g, w, 0, k + 1);
      SubWalk(g, w, i, |w|);
      var a, b := w[..k + 1], w[i..];
      assert w[0..k + 1] == a;
      JoinWalks(g, a, b);
      s := EraseLoops(g, a + b[1..]);
    }
  }

  lemma AcyclicWalkIsSimple(g: Cfg, w: seq<nat>)
    requires Acyclic(g) && IsWalk(g, w)
    ensures Simple(w)
  {
    forall i, j | 0 <= i < j < |w| ensures w[i] != w[j] {
      SubWalk(g, w, i, j + 1);
      var c := w[i..j + 1];
      assert c[0] == w[i] && Last(c) == w[j];
    }
  }

  // ----- Rank of a node in an acyclic graph

  ghost predicate HasWalkFrom(g: Cfg, n: nat, k: nat) {
    exists w :: IsWalk(g, w) && w[0] == n && |w| == k
  }

  ghost predicate IsHeight(g: Cfg, n: nat, k: nat) {
    HasWalkFrom(g, n, k) && forall m: nat :: HasWalkFrom(g, n, m) ==> m <= k
  }

  lemma HeightExists(g: Cfg, n: nat)
    requires Acyclic(g) && IsNode(g, n)
    ensures exists k: nat :: IsHeight(g, n, k)
  {
    forall m: nat | HasWalkFrom(g, n, m) ensures m < |g| {
      var w :| IsWalk(g, w) && w[0] == n && |w| == m;
      AcyclicWalkIsSimple(g, w);
      WalkNodes(g, w);
      SimpleWalkBound(g, w);
    }
    assert IsWalk(g, [n]);
    var k: nat := 1;
    while exists m: nat :: m > k && HasWalkFrom(g, n, m)
      invariant HasWalkFrom(g, n, k)
      decreases |g| - k
    {
      var m: nat :| m > k && HasWalkFrom(g, n, m);
      k := m;
    }
    assert IsHeight(g, n, k);
  }

  /** The number of nodes on the longest walk that begins at `n`. */
  ghost function Height(g: Cfg, n: nat): (k: nat)
    requires Acyclic(g) && IsNode(g, n)
    ensures IsHeight(g, n, k)
  {
    HeightExists(g, n);
    var k: nat :| IsHeight(g, n, k);
    k
  }

  lemma HeightDecreases(g: Cfg, u: nat, v: nat)
    requires Acyclic(g) && Edge(g, u, v)
    ensures Height(g, v) < Height(g, u)
  {
    var k := Height(g, v);
    var w :| IsWalk(g, w) && w[0] == v && |w| == k;
    assert IsWalk(g, [u]);
    assert IsWalk(g, [u, v]);
    JoinWalks(g, [u, v], w);
    assert |[u, v] + w[1..]| == k + 1;
    assert HasWalkFrom(g, u, k + 1);
  }

  /** Every node of an acyclic graph reaches an exit. */
  lemma {:induction false} WalkToExit(g: Cfg, n: nat) returns (w: seq<nat>)
    requires WellFormed(g) && Acyclic(g) && IsNode(g, n)
    ensures IsWalk(g, w) && w[0] == n && IsExit(g, Last(w))
    decreases Height(g, n)
  {
    if g[n] == [] {
      w := [n];
    } else {
      var s := g[n][0];
      assert Edge(g, n, s);
      HeightDecreases(g, n, s);
      var rest := WalkToExit(g, s);
      assert IsWalk(g, [n, s]);
      JoinWalks(g, [n, s], rest);
      w := [n, s] + rest[1..];
    }
  }
}
