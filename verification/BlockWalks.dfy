/** Walks through the blocks and walks through the instructions are the same walks. */
module BlockWalks {
  import opened Graph
  import opened FunctionTables
  import opened Blocks
  import opened BlockBuilder

  /** The instructions of a sequence of blocks. */
  ghost function Expand(bodies: seq<seq<nat>>, blocks: seq<nat>): (w: seq<nat>)
    requires forall k: nat :: k < |blocks| ==> blocks[k] < |bodies|
  {
    if blocks == [] then [] else bodies[blocks[0]] + Expand(bodies, blocks[1..])
  }

  /** The tables that belong to a log. */
  ghost predicate Cut(l: Log, bodies: seq<seq<nat>>, member: seq<nat>, succ: Cfg, back: seq<seq<PrevLink>>) {
    Consistent(l) && Partition(l, bodies, member) && LinkTables(l, bodies, member, succ, back, |bodies|)
  }

  lemma BodyIsWalk(l: Log, w: seq<nat>)
    requires Body(l, w)
    ensures IsWalk(l.next, w)
  {
    forall i, j | 0 <= i && j == i + 1 && j < |w| ensures Edge(l.next, w[i], w[j]) {
      assert Linked(l, w[i], w[j]);
      assert w[j] == l.next[w[i]][0];
    }
  }

  lemma EdgeBetween(l: Log, bodies: seq<seq<nat>>, member: seq<nat>, succ: Cfg, back: seq<seq<PrevLink>>, u: nat, v: nat)
    requires Cut(l, bodies, member, succ, back) && Edge(succ, u, v)
    ensures v < |bodies| && bodies[u] != [] && bodies[v] != [] && Edge(l.next, Last(bodies[u]), bodies[v][0])
  {
    hide Consistent, Partition;
    var i: nat :| i < |succ[u]| && succ[u][i] == v;
    SuccEntry(l, bodies, member, succ, back, u, i);
  }

  lemma ConcatWalks(g: Cfg, a: seq<nat>, b: seq<nat>)
    requires IsWalk(g, a) && IsWalk(g, b) && Edge(g, Last(a), b[0])
    ensures IsWalk(g, a + b)
  {
    ExtendWalk(g, a, b[0]);
    JoinWalks(g, a + [b[0]], b);
    assert a + b == (a + [b[0]]) + b[1..];
  }

  /** Going through blocks along their links goes through instructions along theirs. */
  lemma {:induction false} BlockWalkExpands(l: Log, bodies: seq<seq<nat>>, member: seq<nat>, succ: Cfg,
                                            back: seq<seq<PrevLink>>, blocks: seq<nat>)
    requires Cut(l, bodies, member, succ, back) && IsWalk(succ, blocks)
    ensures forall k: nat :: k < |blocks| ==> 1 <= blocks[k] < |bodies|
    ensures IsWalk(l.next, Expand(bodies, blocks))
    ensures bodies[blocks[0]] != [] && Expand(bodies, blocks)[0] == bodies[blocks[0]][0]
    ensures IsEnd(l, Last(Expand(bodies, blocks)))
    decreases |blocks|
  {
    hide Consistent, IsEnd, IsStart, Links;
    WalkNodes(succ, blocks);
    forall k: nat | k < |blocks| ensures 1 <= blocks[k] < |bodies| { assert IsNode(succ, blocks[k]); }
    var u := blocks[0];
    BodyIsWalk(l, bodies[u]);
    if |blocks| == 1 {
      assert blocks[1..] == [];
      assert Expand(bodies, blocks) == bodies[u];
    } else {
      var rest := blocks[1..];
      SubWalk(succ, blocks, 1, |blocks|);
      assert blocks[1..|blocks|] == rest;
      BlockWalkExpands(l, bodies, member, succ, back, rest);
      assert Edge(succ, blocks[0], blocks[1]);
      EdgeBetween(l, bodies, member, succ, back, u, rest[0]);
      ConcatWalks(l.next, bodies[u], Expand(bodies, rest));
    }
  }

  /** A walk from a start runs through its block. */
  lemma {:induction false} FollowsBody(l: Log, body: seq<nat>, w: seq<nat>, n: nat)
    requires Consistent(l) && Body(l, body) && IsWalk(l.next, w) && w[0] == body[0] && IsEnd(l, Last(w)) && 1 <= n <= |body|
    ensures n <= |w| && w[..n] == body[..n]
  {
    if n == 1 {
      assert w[..1] == [w[0]] && body[..1] == [body[0]];
    } else {
      FollowsBody(l, body, w, n - 1);
      var k: nat, i: nat := n - 2, n - 1;
      assert w[..i][k] == w[k] && body[..i][k] == body[k];
      assert IsEnd(l, Last(w)) && Linked(l, body[k], body[i]) && w[k] == body[k];
      assert i < |w|;
      assert Edge(l.next, w[k], w[i]);
      assert w[..n] == w[..i] + [w[i]] && body[..n] == body[..i] + [body[i]];
    }
  }

  /** A walk through instructions from a start to an end goes through whole blocks along links. */
  lemma {:induction false} InstWalkIsBlockWalk(l: Log, bodies: seq<seq<nat>>, member: seq<nat>, succ: Cfg,
                                               back: seq<seq<PrevLink>>, w: seq<nat>) returns (blocks: seq<nat>)
    requires Cut(l, bodies, member, succ, back) && IsWalk(l.next, w) && IsStart(l, w[0]) && IsEnd(l, Last(w))
    ensures IsWalk(succ, blocks) && (forall k: nat :: k < |blocks| ==> blocks[k] < |bodies|)
    ensures blocks[0] == NodeOf(member, w[0]) && Expand(bodies, blocks) == w
    decreases |w|
  {
    hide Cut, IsStart, IsEnd, IsWalk;
    var u := FirstBlock(l, bodies, member, succ, back, w);
    var body := bodies[u];
    var n := |body|;
    assert w == body + w[n..];
    if |w| == n {
      blocks := [u];
      assert blocks[1..] == [] && Expand(bodies, blocks) == body + [] == w;
    } else {
      var tail := InstWalkIsBlockWalk(l, bodies, member, succ, back, w[n..]);
      blocks := [u] + tail;
      assert blocks[1..] == tail;
      LinkBetween(l, bodies, member, succ, back, u, w[n]);
      WalkNonEmpty(succ, tail);
      ConcatWalks(succ, [u], tail);
    }
  }

  lemma WalkNonEmpty(g: Cfg, w: seq<nat>)
    requires IsWalk(g, w)
    ensures w != []
  {
  }

  /** The block a walk begins with, and what remains of the walk. */
  lemma FirstBlock(l: Log, bodies: seq<seq<nat>>, member: seq<nat>, succ: Cfg, back: seq<seq<PrevLink>>, w: seq<nat>)
    returns (u: nat)
    requires Cut(l, bodies, member, succ, back) && IsWalk(l.next, w) && IsStart(l, w[0]) && IsEnd(l, Last(w))
    ensures 1 <= u < |bodies| && u == NodeOf(member, w[0]) && IsWalk(succ, [u])
    ensures var n := |bodies[u]|; 0 < n <= |w| && w[..n] == bodies[u]
    ensures var n := |bodies[u]|; n < |w| ==>
      && IsNode(l.next, Last(bodies[u])) && w[n] in l.next[Last(bodies[u])]
      && IsWalk(l.next, w[n..]) && IsStart(l, w[n]) && Last(w[n..]) == Last(w)
  {
    hide LinkTables, Links;
    u := member[w[0]];
    var body := bodies[u];
    var n := |body|;
    assert u > 0 && body[0] == w[0] && Body(l, body);
    FollowsBody(l, body, w, n);
    assert body[..n] == body;
    assert |succ| == |bodies| by { TableSize(l, bodies, member, succ, back); }
    if n < |w| {
      var i: nat := n - 1;
      assert w[..n][i] == w[i];
      assert Edge(l.next, w[i], w[n]) && w[i] == Last(body);
      CutBothSides(l, w[i], w[n]);
      SubWalk(l.next, w, n, |w|);
      assert w[n..|w|] == w[n..];
    }
  }

  lemma TableSize(l: Log, bodies: seq<seq<nat>>, member: seq<nat>, succ: Cfg, back: seq<seq<PrevLink>>)
    requires Cut(l, bodies, member, succ, back)
    ensures |succ| == |bodies|
  {
  }

  lemma LinkBetween(l: Log, bodies: seq<seq<nat>>, member: seq<nat>, succ: Cfg, back: seq<seq<PrevLink>>, u: nat, s: nat)
    requires Cut(l, bodies, member, succ, back) && 1 <= u < |bodies| && bodies[u] != []
    requires IsNode(l.next, Last(bodies[u])) && s in l.next[Last(bodies[u])]
    ensures Edge(succ, u, NodeOf(member, s)) && IsWalk(succ, [u])
  {
    assert LinkRow(l, bodies[u], member, succ[u], back[u]);
    var i: nat :| i < |l.next[Last(bodies[u])]| && l.next[Last(bodies[u])][i] == s;
    SuccEntry(l, bodies, member, succ, back, u, i);
    assert succ[u][i] == NodeOf(member, s);
  }
}
