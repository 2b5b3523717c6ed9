/** `build_control_flow_nodes`: the instruction log cut into blocks, and the blocks linked. */
module BlockBuilder {
  import opened Graph
  import opened FunctionTables
  import opened Blocks

  /** inst_start and inst_end. */
  datatype Block = Block(instStart: nat, instEnd: nat)

  // ----- Marks

  ghost predicate Marked(flags: seq<bool>, n: nat) {
    n < |flags| && flags[n]
  }

  /** Only real starts and ends are marked (instruction 0 is no instruction). */
  ghost predicate MarksSound(l: Log, starts: seq<bool>, ends: seq<bool>) {
    && |starts| == |ends| == |l.next| > 0 && !starts[0]
    && forall n: nat :: 1 <= n < |l.next| ==> (starts[n] ==> IsStart(l, n)) && (ends[n] ==> IsEnd(l, n))
  }

  /** A branch and what follows it, as far as `m` links, are marked. */
  ghost predicate BranchMarked(l: Log, starts: seq<bool>, ends: seq<bool>, n: nat, m: nat) {
    n < |l.next| && Marked(ends, n) && forall i: nat :: i < m && i < |l.next[n]| ==> Marked(starts, l.next[n][i])
  }

  ghost predicate JoinMarked(l: Log, starts: seq<bool>, ends: seq<bool>, n: nat, m: nat) {
    n < |l.prev| && Marked(starts, n) && forall i: nat :: i < m && i < |l.prev[n]| ==> Marked(ends, l.prev[n][i])
  }

  ghost predicate MarkedUpTo(l: Log, starts: seq<bool>, ends: seq<bool>, n: nat) {
    forall x: nat :: 1 <= x < n && x < |l.next| && |l.prev| == |l.next| ==>
      && (Branches(l, x) ==> BranchMarked(l, starts, ends, x, |l.next[x]|))
      && (Joins(l, x) ==> JoinMarked(l, starts, ends, x, |l.prev[x]|))
  }

  /** Flags are only ever set. */
  ghost predicate Grown(before: seq<bool>, after: seq<bool>) {
    |after| == |before| && forall n: nat :: n < |before| && before[n] ==> after[n]
  }

  lemma GrownKeeps(l: Log, starts: seq<bool>, ends: seq<bool>, starts': seq<bool>, ends': seq<bool>, n: nat)
    requires Grown(starts, starts') && Grown(ends, ends') && MarkedUpTo(l, starts, ends, n)
    ensures MarkedUpTo(l, starts', ends', n)
  {
    forall x: nat | 1 <= x < n && x < |l.next| && |l.prev| == |l.next|
      ensures Branches(l, x) ==> BranchMarked(l, starts', ends', x, |l.next[x]|)
      ensures Joins(l, x) ==> JoinMarked(l, starts', ends', x, |l.prev[x]|)
    {
      if Branches(l, x) {
        assert BranchMarked(l, starts, ends, x, |l.next[x]|);
      }
      if Joins(l, x) {
        assert JoinMarked(l, starts, ends, x, |l.prev[x]|);
      }
    }
  }

  /** Once all instructions are visited exactly the starts and ends are marked. */
  lemma MarksExact(l: Log, starts: seq<bool>, ends: seq<bool>)
    requires Consistent(l) && MarksSound(l, starts, ends) && MarkedUpTo(l, starts, ends, |l.next|)
    ensures forall n: nat :: 1 <= n < |l.next| ==> (starts[n] <==> IsStart(l, n)) && (ends[n] <==> IsEnd(l, n))
  {
    forall n: nat | 1 <= n < |l.next| ensures IsStart(l, n) ==> starts[n] {
      if IsStart(l, n) && !Joins(l, n) {
        var p := l.prev[n][0];
        assert l.prev[n] == [p] && p != 0;
        assert Edge(l.next, p, n);
        var i: nat :| i < |l.next[p]| && l.next[p][i] == n;
        assert BranchMarked(l, starts, ends, p, |l.next[p]|);
      }
    }
    forall n: nat | 1 <= n < |l.next| ensures IsEnd(l, n) ==> ends[n] {
      if IsEnd(l, n) && !Branches(l, n) {
        var s := l.next[n][0];
        assert l.next[n] == [s] && Edge(l.next, n, s);
        assert n in l.prev[s];
        var i: nat :| i < |l.prev[s]| && l.prev[s][i] == n;
        assert JoinMarked(l, starts, ends, s, |l.prev[s]|);
      }
    }
  }

  // ----- Numbers

  ghost predicate BlocksOf(blocks: seq<Block>, bodies: seq<seq<nat>>) {
    && |blocks| == |bodies|
    && forall k: nat :: 1 <= k < |bodies| && bodies[k] != [] ==> blocks[k] == Block(bodies[k][0], Last(bodies[k]))
  }

  /** Exactly the instructions of the body got the number. */
  ghost predicate Renumbered(before: seq<nat>, after: seq<nat>, body: seq<nat>, node: nat) {
    && |after| == |before|
    && forall x: nat :: x < |before| ==> after[x] == if x in body then node else before[x]
  }

  lemma NextMember(l: Log, before: seq<nat>, after: seq<nat>, body: seq<nat>, x: nat, node: nat)
    requires Renumbered(before, after, body, node) && x < |after|
    ensures Renumbered(before, after[x := node], body + [x], node)
  {
  }

  /** The new body shares no instruction with the earlier ones. */
  lemma NextBody(l: Log, bodies: seq<seq<nat>>, before: seq<nat>, after: seq<nat>, body: seq<nat>, n: nat)
    requires Consistent(l) && BodiesUpTo(l, bodies, n) && MembersUpTo(l, bodies, before, n)
    requires Body(l, body) && body[0] == n && Renumbered(before, after, body, |bodies|)
    ensures BodiesUpTo(l, bodies + [body], n + 1) && MembersUpTo(l, bodies + [body], after, n + 1)
  {
    hide Consistent, Body, IsStart, Links;
    BodyNodes(l, body);
    forall k: nat, i: nat | 1 <= k < |bodies| && i < |bodies[k]| ensures bodies[k][i] !in body {
      if j: nat :| j < |body| && body[j] == bodies[k][i] {
        BodyUnique(l, body, bodies[k], j, i);
      }
    }
    forall x: nat | x < |after| && after[x] > 0 ensures x in (bodies + [body])[after[x]] {
      if x !in body {
        assert x in bodies[before[x]];
      }
    }
    forall i: nat | i < |body| ensures body[i] < |after| && after[body[i]] == |bodies| {
      assert body[i] in body;
    }
    forall x: nat | x < n + 1 && IsStart(l, x) ensures after[x] > 0 && (bodies + [body])[after[x]][0] == x {
      if x < n {
        assert bodies[before[x]][0] == x;
        var k := before[x];
        assert bodies[k] != [];
        assert bodies[k][0] !in body;
      } else {
        assert body[0] in body;
      }
    }
  }

  lemma BodyNodes(l: Log, body: seq<nat>)
    requires Body(l, body)
    ensures body != [] && forall i: nat :: i < |body| ==> body[i] < |l.next|
  {
  }

  lemma NoBodies(l: Log, member: seq<nat>)
    requires Consistent(l) && member == seq(|l.next|, i => 0)
    ensures |l.next| > 0 && BodiesUpTo(l, [[]], 1) && MembersUpTo(l, [[]], member, 1)
  {
  }

  lemma NoBody(l: Log, bodies: seq<seq<nat>>, member: seq<nat>, n: nat)
    requires BodiesUpTo(l, bodies, n) && MembersUpTo(l, bodies, member, n) && !IsStart(l, n)
    ensures BodiesUpTo(l, bodies, n + 1) && MembersUpTo(l, bodies, member, n + 1)
  {
  }

  lemma StartOfBody(l: Log, w: seq<nat>, i: nat)
    requires Consistent(l) && Body(l, w) && i < |w| && IsStart(l, w[i])
    ensures i == 0
  {
    if i > 0 {
      LinkedBack(l, w, i);
    }
  }

  // ----- Links between blocks

  /** The number of the block of a predecessor; 0 for an unknown one. */
  ghost function NodeOf(member: seq<nat>, inst: nat): (n: nat) {
    if inst == 0 || inst >= |member| then 0 else member[inst]
  }

  /** The predecessors of the block that starts at `start`, as far as `m` of them. */
  ghost predicate PredRow(l: Log, member: seq<nat>, start: nat, row: seq<PrevLink>, m: nat) {
    && start < |l.prev| && m == |row| <= |l.prev[start]|
    && forall i: nat :: i < m ==> row[i].node == NodeOf(member, l.prev[start][i])
  }

  ghost predicate SuccRow(l: Log, member: seq<nat>, end: nat, row: seq<nat>, m: nat) {
    && end < |l.next| && m == |row| <= |l.next[end]|
    && forall i: nat :: i < m ==> row[i] == NodeOf(member, l.next[end][i])
  }

  /** The rows of the blocks below `n`. */
  ghost predicate LinkTables(l: Log, bodies: seq<seq<nat>>, member: seq<nat>, succ: Cfg, back: seq<seq<PrevLink>>,
                             n: nat) {
    && |succ| == |back| == n && 1 <= n <= |bodies| && succ[0] == [] && back[0] == []
    && forall k: nat :: 1 <= k < n ==> LinkRow(l, bodies[k], member, succ[k], back[k])
  }

  ghost predicate LinkRow(l: Log, body: seq<nat>, member: seq<nat>, succs: seq<nat>, preds: seq<PrevLink>) {
    && body != [] && body[0] < |l.prev| && Last(body) < |l.next|
    && PredRow(l, member, body[0], preds, |l.prev[body[0]]|)
    && SuccRow(l, member, Last(body), succs, |l.next[Last(body)]|)
  }

  lemma FirstRow(l: Log, bodies: seq<seq<nat>>, member: seq<nat>)
    requires Partition(l, bodies, member)
    ensures LinkTables(l, bodies, member, [[]], [[]], 1)
  {
  }

  lemma NextRow(l: Log, bodies: seq<seq<nat>>, member: seq<nat>, succ: Cfg, back: seq<seq<PrevLink>>, n: nat,
                succs: seq<nat>, preds: seq<PrevLink>)
    requires LinkTables(l, bodies, member, succ, back, n) && n < |bodies| && LinkRow(l, bodies[n], member, succs, preds)
    ensures LinkTables(l, bodies, member, succ + [succs], back + [preds], n + 1)
  {
  }

  lemma BlockEnds(l: Log, bodies: seq<seq<nat>>, member: seq<nat>, n: nat)
    requires Consistent(l) && Partition(l, bodies, member) && 1 <= n < |bodies|
    ensures bodies[n] != [] && IsStart(l, bodies[n][0]) && IsEnd(l, Last(bodies[n]))
    ensures bodies[n][0] < |l.prev| && Last(bodies[n]) < |l.next|
    ensures member[bodies[n][0]] == member[Last(bodies[n])] == n
  {
    assert Body(l, bodies[n]);
    assert member[bodies[n][|bodies[n]| - 1]] == n;
  }

  /** What comes before a start is outside or the end of a block. */
  lemma EndsBefore(l: Log, bodies: seq<seq<nat>>, member: seq<nat>, s: nat, m: nat)
    requires Consistent(l) && Partition(l, bodies, member) && IsStart(l, s) && m < |l.prev[s]|
    ensures var p := l.prev[s][m];
      p == 0 || (p < |l.next| && |member| == |l.next| && member[p] > 0 && Edge(l.next, p, s) && IsEnd(l, p)
                 && member[p] < |bodies| && bodies[member[p]] != [] && Last(bodies[member[p]]) == p)
  {
    var p := l.prev[s][m];
    if p != 0 {
      assert Edge(l.next, p, s);
      CutBothSides(l, p, s);
      EndIsCovered(l, bodies, member, [p]);
      BlockEnds(l, bodies, member, member[p]);
    }
  }

  /** What comes after an end is the start of a block. */
  lemma StartsAfter(l: Log, bodies: seq<seq<nat>>, member: seq<nat>, e: nat, m: nat)
    requires Consistent(l) && Partition(l, bodies, member) && IsEnd(l, e) && m < |l.next[e]|
    ensures var s := l.next[e][m];
      s != 0 && s < |l.next| && |member| == |l.next| && Edge(l.next, e, s) && IsStart(l, s)
      && 0 < member[s] < |bodies| && bodies[member[s]] != [] && bodies[member[s]][0] == s
  {
    var s := l.next[e][m];
    assert IsNode(l.next, l.next[e][m]);
    assert Edge(l.next, e, s);
    CutBothSides(l, e, s);
    BlockEnds(l, bodies, member, member[s]);
  }

  // ----- Link indexes

  ghost predicate Entry(back: seq<seq<PrevLink>>, t: nat, k: nat) {
    t < |back| && k < |back[t]|
  }

  /** Only link indexes differ. */
  ghost predicate SameNodes(back: seq<seq<PrevLink>>, back': seq<seq<PrevLink>>) {
    && |back'| == |back|
    && (forall t: nat :: t < |back| ==> |back'[t]| == |back[t]|)
    && (forall t: nat, k: nat :: Entry(back, t, k) ==> back'[t][k].node == back[t][k].node)
  }

  /** The entries for the first `i` links of node `n` and all links of earlier nodes are good. */
  ghost predicate IndexedUpTo(succ: Cfg, back: seq<seq<PrevLink>>, n: nat, i: nat) {
    forall t: nat, k: nat, j: nat :: Entry(back, t, k) && VisitedLink(succ, back[t][k].node, j, n, i) && succ[back[t][k].node][j] == t
      ==> IsLink(succ, back[t][k], t)
  }

  ghost predicate VisitedLink(succ: Cfg, u: nat, j: nat, n: nat, i: nat) {
    1 <= u < |succ| && j < |succ[u]| && (u < n || (u == n && j < i))
  }

  ghost predicate RowIndexed(succ: Cfg, row: seq<PrevLink>, t: nat, n: nat, k: nat) {
    forall j: nat :: j < k && j < |row| && row[j].node == n ==> IsLink(succ, row[j], t)
  }

  lemma IndexStep(succ: Cfg, back: seq<seq<PrevLink>>, n: nat, i: nat, t: nat, k: nat)
    requires IndexedUpTo(succ, back, n, i) && Entry(back, t, k) && RowIndexed(succ, back[t], t, n, k)
    requires 1 <= n < |succ| && i < |succ[n]| && succ[n][i] == t
    ensures var row := if back[t][k].node == n then back[t][k := PrevLink(n, i)] else back[t];
      && IndexedUpTo(succ, back[t := row], n, i) && RowIndexed(succ, row, t, n, k + 1)
      && SameNodes(back, back[t := row])
  {
    var row := if back[t][k].node == n then back[t][k := PrevLink(n, i)] else back[t];
    var back' := back[t := row];
    forall t': nat, k': nat, j: nat
      | Entry(back', t', k') && VisitedLink(succ, back'[t'][k'].node, j, n, i) && succ[back'[t'][k'].node][j] == t'
      ensures IsLink(succ, back'[t'][k'], t')
    {
      assert Entry(back, t', k');
      assert back'[t'][k'].node == back[t'][k'].node;
    }
  }

  lemma IndexNext(succ: Cfg, back: seq<seq<PrevLink>>, n: nat, i: nat)
    requires IndexedUpTo(succ, back, n, i) && 1 <= n < |succ| && i < |succ[n]|
    requires succ[n][i] < |back| ==> RowIndexed(succ, back[succ[n][i]], succ[n][i], n, |back[succ[n][i]]|)
    ensures IndexedUpTo(succ, back, n, i + 1)
  {
  }

  lemma NodeDone(succ: Cfg, back: seq<seq<PrevLink>>, n: nat)
    requires n < |succ| && IndexedUpTo(succ, back, n, |succ[n]|)
    ensures IndexedUpTo(succ, back, n + 1, 0)
  {
  }

  lemma SameNodesTrans(a: seq<seq<PrevLink>>, b: seq<seq<PrevLink>>, c: seq<seq<PrevLink>>)
    requires SameNodes(a, b) && SameNodes(b, c)
    ensures SameNodes(a, c)
  {
    forall t: nat, k: nat | Entry(a, t, k) ensures c[t][k].node == a[t][k].node {
      assert Entry(b, t, k);
    }
  }

  /** Fills in prev_link_index[] once both tables are complete. */
  method SetLinkIndexes(succ: Cfg, back: seq<seq<PrevLink>>) returns (back': seq<seq<PrevLink>>)
    requires |succ| == |back|
    requires forall n: nat, i: nat :: 1 <= n < |succ| && i < |succ[n]| ==> succ[n][i] < |back|
    ensures SameNodes(back, back')
    ensures forall t: nat, k: nat :: Entry(back', t, k) && 1 <= back'[t][k].node < |succ| && t in succ[back'[t][k].node] ==>
      IsLink(succ, back'[t][k], t)
  {
    hide IndexedUpTo, RowIndexed, SameNodes;
    back' := back;
    assert SameNodes(back, back') && IndexedUpTo(succ, back', 1, 0) by { NothingIndexed(succ, back); }
    var n: nat := 1;
    while n < |succ|
      invariant n >= 1 && |back'| == |back|
      invariant SameNodes(back, back') && IndexedUpTo(succ, back', n, 0)
    {
      for i := 0 to |succ[n]|
        invariant |back'| == |back|
        invariant SameNodes(back, back') && IndexedUpTo(succ, back', n, i)
      {
        var t := succ[n][i];
        EmptyRow(succ, back'[t], t, n);
        SameLengths(back, back', t);
        for k := 0 to |back'[t]|
          invariant |back'| == |back|
          invariant SameNodes(back, back') && IndexedUpTo(succ, back', n, i)
          invariant k <= |back'[t]| == |back[t]| && RowIndexed(succ, back'[t], t, n, k)
        {
          IndexStep(succ, back', n, i, t, k);
          ghost var before := back';
          if back'[t][k].node == n {
            back' := back'[t := back'[t][k := PrevLink(n, i)]];
          } else {
            assert back'[t := back'[t]] == back';
          }
          SameNodesTrans(back, before, back');
          assert |back'[t]| == |before[t]|;
        }
        IndexNext(succ, back', n, i);
      }
      NodeDone(succ, back', n);
      n := n + 1;
    }
    AllIndexed(succ, back', n);
  }

  lemma NothingIndexed(succ: Cfg, back: seq<seq<PrevLink>>)
    ensures SameNodes(back, back) && IndexedUpTo(succ, back, 1, 0)
  {
  }

  lemma SameLengths(back: seq<seq<PrevLink>>, back': seq<seq<PrevLink>>, t: nat)
    requires SameNodes(back, back') && t < |back|
    ensures |back'[t]| == |back[t]|
  {
  }

  lemma EmptyRow(succ: Cfg, row: seq<PrevLink>, t: nat, n: nat)
    ensures RowIndexed(succ, row, t, n, 0)
  {
  }

  lemma AllIndexed(succ: Cfg, back: seq<seq<PrevLink>>, n: nat)
    requires IndexedUpTo(succ, back, n, 0) && n >= |succ|
    ensures forall t: nat, k: nat :: Entry(back, t, k) && 1 <= back[t][k].node < |succ| && t in succ[back[t][k].node] ==>
      IsLink(succ, back[t][k], t)
  {
    forall t: nat, k: nat | Entry(back, t, k) && 1 <= back[t][k].node < |succ| && t in succ[back[t][k].node]
      ensures IsLink(succ, back[t][k], t)
    {
      var u := back[t][k].node;
      var j: nat :| j < |succ[u]| && succ[u][j] == t;
      assert VisitedLink(succ, u, j, n, 0);
    }
  }

  // ----- The finished tables

  lemma SuccEntry(l: Log, bodies: seq<seq<nat>>, member: seq<nat>, succ: Cfg, back: seq<seq<PrevLink>>, n: nat, i: nat)
    requires Consistent(l) && Partition(l, bodies, member) && LinkTables(l, bodies, member, succ, back, |bodies|)
    requires 1 <= n < |bodies| && i < |succ[n]|
    ensures bodies[n] != [] && Last(bodies[n]) < |l.next| && i < |l.next[Last(bodies[n])]|
    ensures var s := l.next[Last(bodies[n])][i];
      0 < succ[n][i] < |bodies| && bodies[succ[n][i]] != [] && bodies[succ[n][i]][0] == s && Edge(l.next, Last(bodies[n]), s)
  {
    hide Consistent, Partition, IsStart, IsEnd;
    BlockEnds(l, bodies, member, n);
    assert LinkRow(l, bodies[n], member, succ[n], back[n]);
    StartsAfter(l, bodies, member, Last(bodies[n]), i);
  }

  lemma SuccWellFormed(l: Log, bodies: seq<seq<nat>>, member: seq<nat>, succ: Cfg, back: seq<seq<PrevLink>>)
    requires Consistent(l) && Partition(l, bodies, member) && LinkTables(l, bodies, member, succ, back, |bodies|)
    ensures WellFormed(succ)
  {
    hide Partition, IsStart, IsEnd, LinkRow;
    forall n, i | 0 <= n < |succ| && 0 <= i < |succ[n]| ensures IsNode(succ, succ[n][i]) {
      SuccEntry(l, bodies, member, succ, back, n, i);
    }
    forall n, i, j | 0 <= n < |succ| && 0 <= i < j < |succ[n]| ensures succ[n][i] != succ[n][j] {
      SuccEntry(l, bodies, member, succ, back, n, i);
      SuccEntry(l, bodies, member, succ, back, n, j);
    }
  }

  /** An entry of a predecessor table names a block that links here. */
  lemma BackEntry(l: Log, bodies: seq<seq<nat>>, member: seq<nat>, succ: Cfg, back: seq<seq<PrevLink>>, t: nat, k: nat)
    requires Consistent(l) && Partition(l, bodies, member) && LinkTables(l, bodies, member, succ, back, |bodies|)
    requires 1 <= t < |bodies| && k < |back[t]| && back[t][k].node != 0
    ensures 1 <= back[t][k].node < |succ| && t in succ[back[t][k].node]
  {
    hide Consistent, Partition, IsStart, IsEnd;
    BlockEnds(l, bodies, member, t);
    assert LinkRow(l, bodies[t], member, succ[t], back[t]);
    var s := bodies[t][0];
    EndsBefore(l, bodies, member, s, k);
    var u, p := back[t][k].node, l.prev[s][k];
    assert LinkRow(l, bodies[u], member, succ[u], back[u]);
    var i: nat :| i < |l.next[p]| && l.next[p][i] == s;
    assert succ[u][i] == NodeOf(member, s) == t;
  }

  /** A link is met by an entry of the table it leads to. */
  lemma LinkMet(l: Log, bodies: seq<seq<nat>>, member: seq<nat>, succ: Cfg, back: seq<seq<PrevLink>>, u: nat, i: nat)
    returns (k: nat)
    requires Consistent(l) && Partition(l, bodies, member) && LinkTables(l, bodies, member, succ, back, |bodies|)
    requires 1 <= u < |bodies| && i < |succ[u]|
    ensures succ[u][i] < |back| && k < |back[succ[u][i]]| && back[succ[u][i]][k].node == u
  {
    hide Partition, IsStart, IsEnd;
    SuccEntry(l, bodies, member, succ, back, u, i);
    BlockEnds(l, bodies, member, u);
    var t, e := succ[u][i], Last(bodies[u]);
    var s := l.next[e][i];
    assert e in l.prev[s];
    k :| k < |l.prev[s]| && l.prev[s][k] == e;
    assert LinkRow(l, bodies[t], member, succ[t], back[t]);
    assert back[t][k].node == NodeOf(member, e);
    StartsAfter(l, bodies, member, e, i);
  }

  lemma TablesAgree(l: Log, bodies: seq<seq<nat>>, member: seq<nat>, succ: Cfg, back: seq<seq<PrevLink>>,
                    back': seq<seq<PrevLink>>)
    requires Consistent(l) && Partition(l, bodies, member) && LinkTables(l, bodies, member, succ, back, |bodies|)
    requires SameNodes(back, back')
    requires forall t: nat, k: nat :: Entry(back', t, k) && 1 <= back'[t][k].node < |succ| && t in succ[back'[t][k].node] ==>
      IsLink(succ, back'[t][k], t)
    ensures WellFormed(succ) && MutualLinks(succ, back')
  {
    hide Consistent, Partition, IsStart, IsEnd, LinkRow;
    SuccWellFormed(l, bodies, member, succ, back);
    forall n, m | 0 <= n < |succ| && 0 <= m < |back'[n]| && back'[n][m].node != 0 ensures IsLink(succ, back'[n][m], n) {
      assert Entry(back, n, m) && Entry(back', n, m);
      BackEntry(l, bodies, member, succ, back, n, m);
    }
    forall u, i | 1 <= u < |succ| && 0 <= i < |succ[u]| ensures PrevLink(u, i) in back'[succ[u][i]] {
      var k := LinkMet(l, bodies, member, succ, back, u, i);
      var t := succ[u][i];
      assert Entry(back, t, k) && Entry(back', t, k);
      assert IsLink(succ, back'[t][k], t);
      assert back'[t][k] == PrevLink(u, i);
    }
  }

  class InstLog {
    const log: Log
    var nodeStart: seq<bool>
    var nodeEnd: seq<bool>
    var nodeMember: seq<nat>

    constructor (l: Log)
      ensures log == l
      ensures nodeStart == nodeEnd == seq(|l.next|, i => false)
      ensures nodeMember == seq(|l.next|, i => 0)
    {
      log := l;
      nodeStart, nodeEnd := seq(|l.next|, i => false), seq(|l.next|, i => false);
      nodeMember := seq(|l.next|, i => 0);
    }

    /** An instruction without exactly one successor ends a block; its successors start blocks. */
    method MarkBranch(n: nat)
      requires Consistent(log) && IsNode(log.next, n) && |log.next[n]| != 1
      requires MarksSound(log, nodeStart, nodeEnd)
      modifies this`nodeStart, this`nodeEnd
      ensures MarksSound(log, nodeStart, nodeEnd)
      ensures Grown(old(nodeStart), nodeStart) && Grown(old(nodeEnd), nodeEnd)
      ensures BranchMarked(log, nodeStart, nodeEnd, n, |log.next[n]|)
    {
      nodeEnd := nodeEnd[n := true];
      for m := 0 to |log.next[n]|
        invariant MarksSound(log, nodeStart, nodeEnd)
        invariant Grown(old(nodeStart), nodeStart) && Grown(old(nodeEnd), nodeEnd)
        invariant BranchMarked(log, nodeStart, nodeEnd, n, m)
      {
        var s := log.next[n][m];
        assert Edge(log.next, n, s) by { assert IsNode(log.next, log.next[n][m]); }
        CutBothSides(log, n, s);
        nodeStart := nodeStart[s := true];
      }
    }

    /** An instruction without exactly one predecessor starts a block; its predecessors end
        blocks, and so the one successor of such a predecessor starts one. */
    method MarkJoin(n: nat)
      requires Consistent(log) && IsNode(log.next, n) && |log.prev[n]| != 1
      requires MarksSound(log, nodeStart, nodeEnd)
      modifies this`nodeStart, this`nodeEnd
      ensures MarksSound(log, nodeStart, nodeEnd)
      ensures Grown(old(nodeStart), nodeStart) && Grown(old(nodeEnd), nodeEnd)
      ensures JoinMarked(log, nodeStart, nodeEnd, n, |log.prev[n]|)
    {
      nodeStart := nodeStart[n := true];
      for m := 0 to |log.prev[n]|
        invariant MarksSound(log, nodeStart, nodeEnd)
        invariant Grown(old(nodeStart), nodeStart) && Grown(old(nodeEnd), nodeEnd)
        invariant JoinMarked(log, nodeStart, nodeEnd, n, m)
      {
        var p := log.prev[n][m];
        PrevEntry(log, n, m);
        nodeEnd := nodeEnd[p := true];
        if |log.next[p]| == 1 {
          nodeStart := nodeStart[log.next[p][0] := true];
        }
      }
    }

    method MarkBoundaries()
      requires Consistent(log) && MarksSound(log, nodeStart, nodeEnd)
      modifies this`nodeStart, this`nodeEnd
      ensures |nodeStart| == |nodeEnd| == |log.next| && !nodeStart[0]
      ensures forall n: nat :: 1 <= n < |log.next| ==>
        (nodeStart[n] <==> IsStart(log, n)) && (nodeEnd[n] <==> IsEnd(log, n))
    {
      hide MarksSound, Consistent, BranchMarked, JoinMarked, Grown;
      var n: nat := 1;
      while n < |log.next|
        invariant n >= 1
        invariant MarksSound(log, nodeStart, nodeEnd)
        invariant MarkedUpTo(log, nodeStart, nodeEnd, n)
      {
        MarkInstruction(n);
        n := n + 1;
      }
      MarksExact(log, nodeStart, nodeEnd);
      assert |nodeStart| == |nodeEnd| == |log.next| > 0 && !nodeStart[0] by { MarkLengths(log, nodeStart, nodeEnd); }
    }

    method MarkInstruction(n: nat)
      requires Consistent(log) && IsNode(log.next, n) && MarksSound(log, nodeStart, nodeEnd)
      requires MarkedUpTo(log, nodeStart, nodeEnd, n)
      modifies this`nodeStart, this`nodeEnd
      ensures MarksSound(log, nodeStart, nodeEnd) && MarkedUpTo(log, nodeStart, nodeEnd, n + 1)
    {
      hide MarksSound, MarkedUpTo;
      ghost var starts, ends := nodeStart, nodeEnd;
      if |log.next[n]| != 1 {
        MarkBranch(n);
      }
      ghost var starts', ends' := nodeStart, nodeEnd;
      if |log.prev[n]| != 1 {
        MarkJoin(n);
      }
      GrownKeeps(log, starts, ends, nodeStart, nodeEnd, n);
      MarkedNext(log, nodeStart, nodeEnd, n);
    }

    /** Follows a block from its start to its end and gives its instructions number `node`. */
    method FollowBlock(start: nat, node: nat) returns (end: nat, ghost body: seq<nat>)
      requires Consistent(log) && IsStart(log, start) && node > 0
      requires |nodeEnd| == |nodeMember| == |log.next|
      requires forall n: nat :: 1 <= n < |log.next| ==> (nodeEnd[n] <==> IsEnd(log, n))
      modifies this`nodeMember
      ensures Body(log, body) && body[0] == start && end == Last(body)
      ensures Renumbered(old(nodeMember), nodeMember, body, node)
    {
      hide Consistent;
      ghost var before := nodeMember;
      end, body := start, [start];
      nodeMember := nodeMember[start := node];
      if !nodeEnd[start] {
        ChainExtends(log, body);
        end := log.next[start][0];
        body := body + [end];
        ChainSimple(log, body);
        NextMember(log, before, nodeMember, [start], end, node);
        nodeMember := nodeMember[end := node];
        while !nodeEnd[end]
          invariant Chain(log, body) && body[0] == start && end == Last(body) && end < |nodeEnd|
          invariant Renumbered(before, nodeMember, body, node)
          invariant |body| < |log.next|
          decreases |log.next| - |body|
        {
          ChainExtends(log, body);
          ghost var v := body;
          end := log.next[end][0];
          body := body + [end];
          ChainSimple(log, body);
          NextMember(log, before, nodeMember, v, end, node);
          nodeMember := nodeMember[end := node];
        }
      }
    }

    /** Numbers the blocks in the order of their starts. */
    method NumberBlocks() returns (blocks: seq<Block>, ghost bodies: seq<seq<nat>>)
      requires Consistent(log) && |nodeStart| == |nodeEnd| == |log.next|
      requires forall n: nat :: 1 <= n < |log.next| ==>
        (nodeStart[n] <==> IsStart(log, n)) && (nodeEnd[n] <==> IsEnd(log, n))
      requires nodeMember == seq(|log.next|, i => 0)
      modifies this`nodeMember
      ensures Partition(log, bodies, nodeMember) && BlocksOf(blocks, bodies)
    {
      hide Consistent, Body, IsStart, IsEnd;
      blocks, bodies := [Block(0, 0)], [[]];
      NoBodies(log, nodeMember);
      var n: nat := 1;
      while n < |log.next|
        invariant 1 <= n <= |log.next|
        invariant nodeStart == old(nodeStart) && nodeEnd == old(nodeEnd)
        invariant BodiesUpTo(log, bodies, n) && MembersUpTo(log, bodies, nodeMember, n) && BlocksOf(blocks, bodies)
      {
        if nodeStart[n] {
          ghost var before, body := nodeMember, [];
          var end;
          end, body := FollowBlock(n, |blocks|);
          NextBody(log, bodies, before, nodeMember, body, n);
          blocks, bodies := blocks + [Block(n, end)], bodies + [body];
        } else {
          NoBody(log, bodies, nodeMember, n);
        }
        n := n + 1;
      }
    }

    /** Walks back to the start of the block; 0 for instruction 0. */
    method FindNodeFromInst(inst: nat, ghost bodies: seq<seq<nat>>) returns (found: nat)
      requires Consistent(log) && Partition(log, bodies, nodeMember)
      requires |nodeStart| == |log.next| && !nodeStart[0]
      requires forall n: nat :: 1 <= n < |log.next| ==> (nodeStart[n] <==> IsStart(log, n))
      requires inst == 0 || (inst < |log.next| && nodeMember[inst] > 0)
      ensures found == if inst == 0 then 0 else nodeMember[inst]
    {
      hide IsStart;
      found := 0;
      if inst == 0 {
        return;
      }
      ghost var w := bodies[nodeMember[inst]];
      ghost var i: nat :| i < |w| && w[i] == inst;
      var cur := inst;
      while true
        invariant i < |w| && w[i] == cur && 1 <= cur < |log.next|
        decreases i
      {
        if nodeStart[cur] {
          assert i == 0 by { StartOfBody(log, w, i); }
          return nodeMember[cur];
        }
        assert Chain(log, w) && i > 0;
        LinkedBack(log, w, i);
        i := i - 1;
        cur := log.prev[cur][0];
      }
    }

    /** Links the blocks: from the last instruction forward and from the first one back. */
    method BuildLinks(blocks: seq<Block>, ghost bodies: seq<seq<nat>>)
        returns (succ: Cfg, back: seq<seq<PrevLink>>)
      requires Consistent(log) && Partition(log, bodies, nodeMember) && BlocksOf(blocks, bodies)
      requires |nodeStart| == |log.next| && !nodeStart[0]
      requires forall n: nat :: 1 <= n < |log.next| ==> (nodeStart[n] <==> IsStart(log, n))
      ensures LinkTables(log, bodies, nodeMember, succ, back, |bodies|)
    {
      hide Consistent, Partition, IsStart, LinkTables, BodiesUpTo, MembersUpTo;
      succ, back := [[]], [[]];
      FirstRow(log, bodies, nodeMember);
      var n: nat := 1;
      while n < |blocks|
        invariant 1 <= n <= |blocks|
        invariant LinkTables(log, bodies, nodeMember, succ, back, n)
      {
        BlockEnds(log, bodies, nodeMember, n);
        var preds := [];
        for m := 0 to |log.prev[blocks[n].instStart]|
          invariant PredRow(log, nodeMember, blocks[n].instStart, preds, m)
        {
          EndsBefore(log, bodies, nodeMember, blocks[n].instStart, m);
          var node := FindNodeFromInst(log.prev[blocks[n].instStart][m], bodies);
          preds := preds + [PrevLink(node, 0)];
        }
        var succs := [];
        for m := 0 to |log.next[blocks[n].instEnd]|
          invariant SuccRow(log, nodeMember, blocks[n].instEnd, succs, m)
        {
          StartsAfter(log, bodies, nodeMember, blocks[n].instEnd, m);
          var node := FindNodeFromInst(log.next[blocks[n].instEnd][m], bodies);
          succs := succs + [node];
        }
        NextRow(log, bodies, nodeMember, succ, back, n, succs, preds);
        succ, back := succ + [succs], back + [preds];
        n := n + 1;
      }
    }

    /** Cuts the log into blocks. They partition the covered instructions, their links are those of
        their last instructions, and the successor and predecessor tables agree. */
    method BuildControlFlowNodes()
        returns (blocks: seq<Block>, succ: Cfg, back: seq<seq<PrevLink>>, ghost bodies: seq<seq<nat>>)
      requires Consistent(log)
      requires nodeStart == nodeEnd == seq(|log.next|, i => false) && nodeMember == seq(|log.next|, i => 0)
      modifies this
      ensures Partition(log, bodies, nodeMember) && BlocksOf(blocks, bodies)
      ensures LinkTables(log, bodies, nodeMember, succ, back, |bodies|)
      ensures WellFormed(succ) && MutualLinks(succ, back)
    {
      hide Consistent, Partition, LinkTables, IsStart, IsEnd, SameNodes, MutualLinks, WellFormed, BlocksOf;
      assert MarksSound(log, nodeStart, nodeEnd) by { NothingMarked(log, nodeStart, nodeEnd); }
      MarkBoundaries();
      blocks, bodies := NumberBlocks();
      succ, back := BuildLinks(blocks, bodies);
      LinksInRange(log, bodies, nodeMember, succ, back);
      ghost var back0 := back;
      back := SetLinkIndexes(succ, back);
      TablesAgree(log, bodies, nodeMember, succ, back0, back);
      SameTables(log, bodies, nodeMember, succ, back0, back);
    }
  }

  lemma NothingMarked(l: Log, starts: seq<bool>, ends: seq<bool>)
    requires Consistent(l) && starts == ends == seq(|l.next|, i => false)
    ensures MarksSound(l, starts, ends)
  {
  }

  lemma LinksInRange(l: Log, bodies: seq<seq<nat>>, member: seq<nat>, succ: Cfg, back: seq<seq<PrevLink>>)
    requires Consistent(l) && Partition(l, bodies, member) && LinkTables(l, bodies, member, succ, back, |bodies|)
    ensures |succ| == |back|
    ensures forall n: nat, i: nat :: 1 <= n < |succ| && i < |succ[n]| ==> succ[n][i] < |back|
  {
    hide Consistent, Partition;
    forall n: nat, i: nat | 1 <= n < |succ| && i < |succ[n]| ensures succ[n][i] < |back| {
      SuccEntry(l, bodies, member, succ, back, n, i);
    }
  }

  lemma SameTables(l: Log, bodies: seq<seq<nat>>, member: seq<nat>, succ: Cfg, back: seq<seq<PrevLink>>,
                   back': seq<seq<PrevLink>>)
    requires LinkTables(l, bodies, member, succ, back, |bodies|) && SameNodes(back, back')
    ensures LinkTables(l, bodies, member, succ, back', |bodies|)
  {
    forall k: nat | 1 <= k < |bodies| ensures LinkRow(l, bodies[k], member, succ[k], back'[k]) {
      assert LinkRow(l, bodies[k], member, succ[k], back[k]);
      forall i: nat | i < |back[k]| ensures back'[k][i].node == back[k][i].node {
        assert Entry(back, k, i);
      }
    }
  }

  lemma MarkLengths(l: Log, starts: seq<bool>, ends: seq<bool>)
    requires MarksSound(l, starts, ends)
    ensures |starts| == |ends| == |l.next| > 0 && !starts[0]
  {
  }

  lemma MarkedNext(l: Log, starts: seq<bool>, ends: seq<bool>, n: nat)
    requires MarkedUpTo(l, starts, ends, n) && Consistent(l) && IsNode(l.next, n)
    requires |l.next[n]| != 1 ==> BranchMarked(l, starts, ends, n, |l.next[n]|)
    requires |l.prev[n]| != 1 ==> JoinMarked(l, starts, ends, n, |l.prev[n]|)
    ensures MarkedUpTo(l, starts, ends, n + 1)
  {
  }

  /** A predecessor of a join: 0, or an end whose one successor, if it has one, is that join. */
  lemma PrevEntry(l: Log, n: nat, m: nat)
    requires Consistent(l) && IsNode(l.next, n) && m < |l.prev[n]| && |l.prev[n]| != 1
    ensures var p := l.prev[n][m];
      && p < |l.next| && (p != 0 ==> IsEnd(l, p))
      && (|l.next[p]| == 1 ==> l.next[p] == [n]) && IsStart(l, n)
  {
    var p := l.prev[n][m];
    if p != 0 {
      assert Edge(l.next, p, n);
      CutBothSides(l, p, n);
      var i: nat :| i < |l.next[p]| && l.next[p][i] == n;
      assert |l.next[p]| == 1 ==> l.next[p] == [l.next[p][0]];
    }
  }
}
