/** Basic blocks of an instruction log: where they start and end, and that they partition it. */
module Blocks {
  import opened Graph

  /** The prev and next lists of the instructions. Instruction 0 stands for "outside". */
  datatype Log = Log(next: Cfg, prev: seq<seq<nat>>)

  /** The lists agree, no next list repeats an instruction, and no prev list says just [0]. For
      recorded lists this is so after `tidy_inst_log` exactly if `TidyLog.TidyConsistent` says. */
  ghost predicate Consistent(l: Log) {
    && WellFormed(l.next) && |l.prev| == |l.next| > 0
    && l.next[0] == [] && l.prev[0] == []
    && (forall n: nat :: n < |l.prev| ==> l.prev[n] != [0])
    && (forall n: nat, m: nat :: n < |l.prev| && m < |l.prev[n]| && l.prev[n][m] != 0 ==> Edge(l.next, l.prev[n][m], n))
    && (forall p: nat, s: nat :: Edge(l.next, p, s) ==> p in l.prev[s])
  }

  predicate Branches(l: Log, n: nat) {
    n < |l.next| && |l.next[n]| != 1
  }

  predicate Joins(l: Log, n: nat) {
    n < |l.prev| && |l.prev[n]| != 1
  }

  /** A start: not just the one successor of one predecessor. */
  ghost predicate IsStart(l: Log, n: nat) {
    IsNode(l.next, n) && |l.prev| == |l.next| && (Joins(l, n) || Branches(l, l.prev[n][0]))
  }

  ghost predicate IsEnd(l: Log, n: nat) {
    IsNode(l.next, n) && |l.prev| == |l.next| && (Branches(l, n) || Joins(l, l.next[n][0]))
  }

  /** Along an edge blocks are cut at both sides or at neither. */
  lemma CutBothSides(l: Log, p: nat, s: nat)
    requires Consistent(l) && Edge(l.next, p, s)
    ensures IsEnd(l, p) <==> IsStart(l, s)
    ensures !IsEnd(l, p) ==> l.next[p] == [s] && l.prev[s] == [p]
  {
    assert p in l.prev[s];
    var m: nat :| m < |l.prev[s]| && l.prev[s][m] == p;
    var i: nat :| i < |l.next[p]| && l.next[p][i] == s;
  }

  /** An instruction that is no start has one predecessor, in the same block. */
  lemma InnerPrev(l: Log, n: nat) returns (p: nat)
    requires Consistent(l) && IsNode(l.next, n) && !IsStart(l, n)
    ensures Edge(l.next, p, n) && l.prev[n] == [p] && l.next[p] == [n] && !IsEnd(l, p)
  {
    assert |l.prev[n]| == 1 && l.prev[n] != [0];
    p := l.prev[n][0];
    assert l.prev[n] == [p];
    CutBothSides(l, p, n);
  }

  lemma InnerNext(l: Log, n: nat) returns (s: nat)
    requires Consistent(l) && IsNode(l.next, n) && !IsEnd(l, n)
    ensures Edge(l.next, n, s) && l.next[n] == [s] && l.prev[s] == [n] && !IsStart(l, s)
  {
    s := l.next[n][0];
    assert l.next[n] == [s] && Edge(l.next, n, s);
    CutBothSides(l, n, s);
  }

  // ----- Chains

  /** The one successor within a block. */
  ghost predicate Linked(l: Log, a: nat, b: nat) {
    IsNode(l.next, a) && !IsEnd(l, a) && l.next[a] == [b]
  }

  /** Each instruction but the last is no end and followed by its one successor. */
  ghost predicate Links(l: Log, w: seq<nat>) {
    && w != []
    && (forall i: nat :: i < |w| ==> IsNode(l.next, w[i]))
    && (forall i: nat, j: nat :: j == i + 1 && j < |w| ==> Linked(l, w[i], w[j]))
  }

  /** A block as far as it has been followed. */
  ghost predicate Chain(l: Log, w: seq<nat>) {
    Links(l, w) && IsStart(l, w[0])
  }

  ghost predicate Body(l: Log, w: seq<nat>) {
    Chain(l, w) && IsEnd(l, Last(w))
  }

  lemma LinkedBack(l: Log, w: seq<nat>, i: nat)
    requires Consistent(l) && Links(l, w) && 0 < i < |w|
    ensures l.prev[w[i]] == [w[i - 1]] && !IsStart(l, w[i])
  {
    var k := i - 1;
    assert Linked(l, w[k], w[i]);
    assert l.next[w[k]][0] == w[i] && w[i] in l.next[w[k]];
    CutBothSides(l, w[k], w[i]);
  }

  /** Two chains that meet run together from their starts. */
  lemma {:induction false} ChainsMeet(l: Log, v: seq<nat>, w: seq<nat>, i: nat, j: nat)
    requires Consistent(l) && Chain(l, v) && Chain(l, w) && i < |v| && j < |w| && v[i] == w[j]
    ensures i == j && v[0] == w[0]
  {
    if i > 0 {
      LinkedBack(l, v, i);
    }
    if j > 0 {
      LinkedBack(l, w, j);
    }
    if i > 0 && j > 0 {
      ChainsMeet(l, v, w, i - 1, j - 1);
    }
  }

  lemma ChainSimple(l: Log, w: seq<nat>)
    requires Consistent(l) && Chain(l, w)
    ensures Simple(w) && |w| < |l.next|
  {
    forall i, j | 0 <= i < j < |w| ensures w[i] != w[j] {
      if w[i] == w[j] {
        ChainsMeet(l, w, w, i, j);
      }
    }
    SimpleWalkBound(l.next, w);
  }

  lemma ChainExtends(l: Log, w: seq<nat>)
    requires Consistent(l) && Chain(l, w) && !IsEnd(l, Last(w))
    ensures l.next[Last(w)] != [] && l.next[Last(w)][0] < |l.next| && Chain(l, w + [l.next[Last(w)][0]])
  {
    var s := InnerNext(l, Last(w));
    var v := w + [s];
    forall i: nat, j: nat | j == i + 1 && j < |v| ensures Linked(l, v[i], v[j]) {
      if j < |w| {
        assert Linked(l, w[i], w[j]);
      }
    }
  }

  /** Bodies with a common instruction are the same. */
  lemma {:induction false} BodyPrefix(l: Log, v: seq<nat>, w: seq<nat>, n: nat)
    requires Consistent(l) && Body(l, v) && Body(l, w) && v[0] == w[0] && n <= |v|
    ensures n <= |w| && v[..n] == w[..n]
  {
    if n > 1 {
      BodyPrefix(l, v, w, n - 1);
      assert v[..n - 1][n - 2] == v[n - 2] && w[..n - 1][n - 2] == w[n - 2];
      var k, i := n - 2, n - 1;
      assert IsEnd(l, Last(w)) && Linked(l, v[k], v[i]) && w[k] == v[k];
      assert Linked(l, w[k], w[i]);
      assert [v[i]][0] == [w[i]][0];
      assert v[..n] == v[..i] + [v[i]] && w[..n] == w[..i] + [w[i]];
    } else if n == 1 {
      assert v[..1] == [v[0]] && w[..1] == [w[0]];
    }
  }

  lemma BodyUnique(l: Log, v: seq<nat>, w: seq<nat>, i: nat, j: nat)
    requires Consistent(l) && Body(l, v) && Body(l, w) && i < |v| && j < |w| && v[i] == w[j]
    ensures v == w && i == j
  {
    ChainsMeet(l, v, w, i, j);
    BodyPrefix(l, v, w, |v|);
    BodyPrefix(l, w, v, |w|);
    assert v[..|v|] == v && w[..|w|] == w;
  }

  // ----- The partition

  /** The bodies in order of their starts; number 0 is no block. */
  ghost predicate BodiesUpTo(l: Log, bodies: seq<seq<nat>>, n: nat) {
    && bodies != [] && bodies[0] == []
    && (forall k: nat :: 1 <= k < |bodies| ==> Body(l, bodies[k]) && bodies[k][0] < n)
    && (forall j: nat, k: nat :: 1 <= j < k < |bodies| ==> bodies[j][0] < bodies[k][0])
  }

  /** Every start below `n` has its body, and `member` is the number of the body. */
  ghost predicate MembersUpTo(l: Log, bodies: seq<seq<nat>>, member: seq<nat>, n: nat) {
    && |member| == |l.next|
    && (forall x: nat :: x < |member| ==> member[x] < |bodies| && (member[x] > 0 ==> x in bodies[member[x]]))
    && (forall k: nat, i: nat :: 1 <= k < |bodies| && i < |bodies[k]| ==>
          bodies[k][i] < |member| && member[bodies[k][i]] == k)
    && (forall x: nat :: x < n && IsStart(l, x) ==> member[x] > 0 && bodies[member[x]][0] == x)
  }

  ghost predicate Partition(l: Log, bodies: seq<seq<nat>>, member: seq<nat>) {
    BodiesUpTo(l, bodies, |l.next|) && MembersUpTo(l, bodies, member, |l.next|)
  }

  /** No instruction is in two blocks, and none twice in one. */
  lemma InOneBlock(l: Log, bodies: seq<seq<nat>>, member: seq<nat>, j: nat, k: nat, a: nat, b: nat)
    requires Consistent(l) && Partition(l, bodies, member)
    requires 1 <= j < |bodies| && 1 <= k < |bodies| && a < |bodies[j]| && b < |bodies[k]| && bodies[j][a] == bodies[k][b]
    ensures j == k && a == b
  {
    BodyUnique(l, bodies[j], bodies[k], a, b);
  }

  /** What follows a covered instruction is covered. */
  lemma CoveredNext(l: Log, bodies: seq<seq<nat>>, member: seq<nat>, p: nat, s: nat)
    requires Consistent(l) && Partition(l, bodies, member) && Edge(l.next, p, s) && member[p] > 0
    ensures member[s] > 0
    ensures IsEnd(l, p) ==> p == Last(bodies[member[p]]) && s == bodies[member[s]][0]
    ensures !IsEnd(l, p) ==> member[s] == member[p]
  {
    CutBothSides(l, p, s);
    var w := bodies[member[p]];
    var i: nat :| i < |w| && w[i] == p;
    if i + 1 < |w| {
      var j := i + 1;
      assert Linked(l, w[i], w[j]);
      assert l.next[p][0] == w[j] && member[w[j]] == member[p];
    }
  }

  /** Every instruction reached from a start is in a block. */
  lemma {:induction false} ReachedIsCovered(l: Log, bodies: seq<seq<nat>>, member: seq<nat>, w: seq<nat>)
    requires Consistent(l) && Partition(l, bodies, member) && IsWalk(l.next, w) && IsStart(l, w[0])
    ensures IsNode(l.next, Last(w)) && member[Last(w)] > 0
  {
    if |w| > 1 {
      var f := Front(w);
      SubWalk(l.next, w, 0, |f|);
      assert w[0..|f|] == f;
      ReachedIsCovered(l, bodies, member, f);
      var i, j := |f| - 1, |f|;
      assert Edge(l.next, w[i], w[j]);
      CoveredNext(l, bodies, member, w[i], w[j]);
    }
  }

  // ----- Ends are always covered

  /** A chain read backwards from an end. */
  lemma EndLinksSimple(l: Log, w: seq<nat>)
    requires Consistent(l) && Links(l, w) && IsEnd(l, Last(w))
    ensures Simple(w) && |w| < |l.next|
  {
    forall i, j | 0 <= i < j < |w| ensures w[i] != w[j] {
      if w[i] == w[j] {
        LinksRepeat(l, w, i, j);
      }
    }
    SimpleWalkBound(l.next, w);
  }

  /** A repetition in a chain goes on to its end. */
  lemma {:induction false} LinksRepeat(l: Log, w: seq<nat>, i: nat, j: nat)
    requires Links(l, w) && i < j < |w| && w[i] == w[j] && IsEnd(l, Last(w))
    ensures false
    decreases |w| - j
  {
    var i', j' := i + 1, j + 1;
    assert Linked(l, w[i], w[i']);
    assert w[j] != Last(w);
    assert Linked(l, w[j], w[j']);
    assert [w[i']][0] == [w[j']][0];
    LinksRepeat(l, w, i', j');
  }

  /** Every end lies in a block, even if no start is known to lead to it. */
  lemma {:induction false} EndIsCovered(l: Log, bodies: seq<seq<nat>>, member: seq<nat>, w: seq<nat>)
    requires Consistent(l) && Partition(l, bodies, member) && Links(l, w) && IsEnd(l, Last(w))
    ensures member[Last(w)] > 0 && Last(bodies[member[Last(w)]]) == Last(w)
    decreases |l.next| - |w|
  {
    EndLinksSimple(l, w);
    if IsStart(l, w[0]) {
      var k := member[w[0]];
      assert Body(l, bodies[k]) && bodies[k][0] == w[0];
      BodyUnique(l, w, bodies[k], 0, 0);
      assert bodies[k][|w| - 1] == Last(w);
    } else {
      var p := InnerPrev(l, w[0]);
      var v := [p] + w;
      forall i: nat, j: nat | j == i + 1 && j < |v| ensures Linked(l, v[i], v[j]) {
        if i > 0 {
          var k: nat := i - 1;
          assert Linked(l, w[k], w[i]);
        }
      }
      EndIsCovered(l, bodies, member, v);
    }
  }
}
