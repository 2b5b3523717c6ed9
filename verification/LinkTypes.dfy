/** The passes between the loop table and the if-tails: loop membership, link types, node types. */
module LinkTypes {
  import opened Graph
  import opened PathTable
  import opened PathBuilder
  import opened FunctionTables
  import opened NodePaths
  import opened LoopTables

  // ----- Loop membership

  /** The heads of the first `k` rows that list node `n`. */
  ghost function HeadsOf(loops: seq<Loop>, n: nat, k: nat): (heads: seq<nat>)
    requires k <= |loops|
  {
    if k == 0 then []
    else HeadsOf(loops, n, k - 1) + (if n in loops[k - 1].list then [loops[k - 1].head] else [])
  }

  ghost predicate RowsInside(loops: seq<Loop>, size: nat) {
    forall m, i :: 0 <= m < |loops| && 0 <= i < |loops[m].list| ==> loops[m].list[i] < size
  }

  /** Appends the head of a row to every node it lists. */
  method AddRow(row: Loop, members: seq<seq<nat>>) returns (members': seq<seq<nat>>)
    requires Simple(row.list) && forall i :: 0 <= i < |row.list| ==> row.list[i] < |members|
    ensures |members'| == |members|
    ensures forall n :: 0 <= n < |members| ==>
      members'[n] == if n in row.list then members[n] + [row.head] else members[n]
  {
    members' := members;
    for i := 0 to |row.list|
      invariant |members'| == |members|
      invariant forall n :: 0 <= n < |members| ==>
        members'[n] == if n in row.list[..i] then members[n] + [row.head] else members[n]
    {
      var node := row.list[i];
      assert row.list[..i + 1] == row.list[..i] + [node];
      assert node !in row.list[..i];
      members' := members'[node := members'[node] + [row.head]];
    }
    assert row.list[..|row.list|] == row.list;
  }

  /** Records for every node the heads of the loops it belongs to. */
  method BuildLoopMembers(f: FunctionCfg, loops: seq<Loop>)
    requires f.Shaped() && RowsInside(loops, |f.succ|) && forall m :: 0 <= m < |loops| ==> Simple(loops[m].list)
    requires forall n :: 0 <= n < |f.succ| ==> f.memberOfLoop[n] == []
    modifies f`memberOfLoop
    ensures f.Shaped()
    ensures forall n :: 0 <= n < |f.succ| ==> f.memberOfLoop[n] == HeadsOf(loops, n, |loops|)
  {
    for m := 0 to |loops|
      invariant f.Shaped()
      invariant forall n :: 0 <= n < |f.succ| ==> f.memberOfLoop[n] == HeadsOf(loops, n, m)
    {
      f.memberOfLoop := AddRow(loops[m], f.memberOfLoop);
    }
  }

  /** A node is a member of exactly the loops whose row lists it. */
  lemma {:induction false} MembersExact(loops: seq<Loop>, n: nat, k: nat, head: nat)
    requires k <= |loops|
    ensures head in HeadsOf(loops, n, k) <==> exists m :: 0 <= m < k && loops[m].head == head && n in loops[m].list
  {
    if k > 0 {
      MembersExact(loops, n, k - 1, head);
    }
  }

  /** Only unused rows have the same head, and they list nothing. */
  ghost predicate DistinctRows(loops: seq<Loop>) {
    && DistinctHeads(loops)
    && (forall m :: 0 <= m < |loops| && loops[m].head == 0 ==> loops[m].list == [])
  }

  /** The table of the loop pass is such a table. */
  lemma TableRows(ps: seq<Path>, loops: seq<Loop>)
    requires ValidTable(ps) && LoopsUpTo(ps, |ps|, loops)
    ensures DistinctRows(loops) && forall m :: 0 <= m < |loops| ==> Simple(loops[m].list)
  {
    hide OnLoop;
    forall m | 0 <= m < |loops| ensures Simple(loops[m].list) && (loops[m].head == 0 ==> loops[m].list == []) {
      assert RowExact(ps, |ps|, loops[m]);
    }
  }

  ghost predicate Lists(loops: seq<Loop>, m: nat, n: nat) {
    m < |loops| && n in loops[m].list
  }

  /** Lists that agree on all rows are the same, and one that names a head has its row. */
  lemma {:induction false} SameHeads(loops: seq<Loop>, n: nat, n': nat, k: nat)
    requires k <= |loops| && forall m: nat :: m < k ==> (Lists(loops, m, n) <==> Lists(loops, m, n'))
    ensures HeadsOf(loops, n, k) == HeadsOf(loops, n', k)
  {
    if k > 0 {
      SameHeads(loops, n, n', k - 1);
      var last: nat := k - 1;
      assert Lists(loops, last, n) <==> Lists(loops, last, n');
    }
  }

  lemma HeadListed(loops: seq<Loop>, m: nat, n: nat)
    requires DistinctRows(loops) && m < |loops| && loops[m].head != 0
    ensures loops[m].head in HeadsOf(loops, n, |loops|) <==> Lists(loops, m, n)
  {
    MembersExact(loops, n, |loops|, loops[m].head);
    if k: nat :| k < |loops| && loops[k].head == loops[m].head && n in loops[k].list {
      assert k == m;
    }
  }

  /** Every loop of `n` is one of `n'`. */
  lemma PartOfLoops(loops: seq<Loop>, n: nat, n': nat)
    requires DistinctRows(loops)
    ensures (forall x :: x in HeadsOf(loops, n, |loops|) ==> x in HeadsOf(loops, n', |loops|))
      <==> forall m: nat :: Lists(loops, m, n) ==> Lists(loops, m, n')
  {
    hide DistinctRows;
    forall m: nat | Lists(loops, m, n) ensures loops[m].head in HeadsOf(loops, n, |loops|) {
      UsedRow(loops, m, n);
      HeadListed(loops, m, n);
    }
    forall m: nat | m < |loops| && loops[m].head != 0
      ensures loops[m].head in HeadsOf(loops, n', |loops|) <==> Lists(loops, m, n')
    {
      HeadListed(loops, m, n');
    }
    forall m: nat | Lists(loops, m, n) ensures loops[m].head != 0 { UsedRow(loops, m, n); }
    forall x | x in HeadsOf(loops, n, |loops|) ensures exists m: nat :: Lists(loops, m, n) && loops[m].head == x {
      MembersExact(loops, n, |loops|, x);
      var m: nat :| m < |loops| && loops[m].head == x && n in loops[m].list;
      assert Lists(loops, m, n);
    }
  }

  lemma UsedRow(loops: seq<Loop>, m: nat, n: nat)
    requires DistinctRows(loops) && Lists(loops, m, n)
    ensures loops[m].head != 0
  {
  }

  /** The heads of the rows that list `x`. */
  ghost function LoopsOf(loops: seq<Loop>, x: nat): (heads: set<nat>) {
    set m: nat | m < |loops| && Lists(loops, m, x) :: loops[m].head
  }

  lemma {:induction false} NoRows(loops: seq<Loop>, x: nat, k: nat)
    requires k <= |loops|
    ensures HeadsOf(loops, x, k) == [] <==> forall m: nat :: m < k ==> !Lists(loops, m, x)
  {
    if k > 0 {
      NoRows(loops, x, k - 1);
      var last: nat := k - 1;
      assert Lists(loops, last, x) <==> x in loops[last].list;
    }
  }

  /** Only the row of `h` lists `x`. */
  lemma {:induction false} OneRow(loops: seq<Loop>, x: nat, h: nat, k: nat)
    requires DistinctRows(loops) && k <= |loops|
    ensures HeadsOf(loops, x, k) == [h] <==>
      (exists m: nat :: m < k && Lists(loops, m, x)) && forall m: nat :: m < k && Lists(loops, m, x) ==> loops[m].head == h
  {
    if k > 0 {
      var last: nat := k - 1;
      OneRow(loops, x, h, last);
      NoRows(loops, x, last);
      assert Lists(loops, last, x) <==> x in loops[last].list;
      var before := HeadsOf(loops, x, last);
      if Lists(loops, last, x) {
        UsedRow(loops, last, x);
        if m: nat :| m < last && Lists(loops, m, x) {
          UsedRow(loops, m, x);
          assert loops[m].head != loops[last].head;
          assert |before + [loops[last].head]| > 1;
        } else {
          assert HeadsOf(loops, x, k) == [loops[last].head];
          assert HeadsOf(loops, x, k)[0] == loops[last].head && last < k;
        }
      } else {
        assert before + [] == before;
      }
    }
  }

  /** A node is a pure member of the loop of `h` exactly if that is its only loop. */
  lemma PureMember(loops: seq<Loop>, x: nat, h: nat)
    requires DistinctRows(loops)
    ensures HeadsOf(loops, x, |loops|) == [h] <==> LoopsOf(loops, x) == {h}
  {
    OneRow(loops, x, h, |loops|);
    if LoopsOf(loops, x) == {h} {
      assert h in LoopsOf(loops, x);
      forall m: nat | m < |loops| && Lists(loops, m, x) ensures loops[m].head == h {
        assert loops[m].head in LoopsOf(loops, x);
      }
    }
  }

  /** Lists name the loops, and differ only if the loops do. */
  lemma ListedLoops(loops: seq<Loop>, x: nat, y: nat)
    requires DistinctRows(loops)
    ensures forall h :: h in HeadsOf(loops, x, |loops|) <==> h in LoopsOf(loops, x)
    ensures HeadsOf(loops, x, |loops|) == HeadsOf(loops, y, |loops|) <==> LoopsOf(loops, x) == LoopsOf(loops, y)
  {
    forall h, z | z == x || z == y ensures h in HeadsOf(loops, z, |loops|) <==> h in LoopsOf(loops, z) {
      MembersExact(loops, z, |loops|, h);
    }
    if LoopsOf(loops, x) == LoopsOf(loops, y) {
      forall m: nat | m < |loops| ensures Lists(loops, m, x) <==> Lists(loops, m, y) {
        if loops[m].head != 0 {
          HeadListed(loops, m, x);
          HeadListed(loops, m, y);
        }
      }
      SameHeads(loops, x, y, |loops|);
    }
  }

  // ----- The order of membership lists

  /** The place of `x`. */
  ghost function Rank(order: seq<nat>, x: nat): (i: nat)
    requires x in order
    ensures i < |order| && order[i] == x
  {
    var i: nat :| i < |order| && order[i] == x;
    i
  }

  ghost function Ranks(a: seq<nat>, order: seq<nat>): (r: seq<nat>)
    requires forall i :: 0 <= i < |a| ==> a[i] in order
    ensures |r| == |a| && forall i :: 0 <= i < |a| ==> r[i] == Rank(order, a[i])
  {
    seq(|a|, i requires 0 <= i < |a| => Rank(order, a[i]))
  }

  /** The elements of `a` in the order in which `order` has them. */
  ghost predicate Ordered(a: seq<nat>, order: seq<nat>) {
    (forall i :: 0 <= i < |a| ==> a[i] in order) && Increasing(Ranks(a, order))
  }

  lemma RankScan(a: seq<nat>, b: seq<nat>, order: seq<nat>)
    requires Ordered(a, order) && Ordered(b, order)
    ensures ScanSubset(a, b) <==> ScanSubset(Ranks(a, order), Ranks(b, order))
  {
    var x, y := Ranks(a, order), Ranks(b, order);
    forall n | 0 <= n < |a| ensures ScanFinds(a, b, n) <==> ScanFinds(x, y, n) {
      if ScanFinds(a, b, n) {
        var k :| n <= k < |b| && b[k] == a[n];
        assert y[n..][k - n] == x[n];
      }
      if ScanFinds(x, y, n) {
        var k :| n <= k < |y| && y[k] == x[n];
        assert b[n..][k - n] == a[n];
      }
    }
  }

  lemma RankMembers(a: seq<nat>, b: seq<nat>, order: seq<nat>)
    requires Ordered(a, order) && Ordered(b, order)
    ensures (forall x :: x in a ==> x in b) <==> (forall r :: r in Ranks(a, order) ==> r in Ranks(b, order))
  {
    var x, y := Ranks(a, order), Ranks(b, order);
    if forall e :: e in a ==> e in b {
      forall r | r in x ensures r in y {
        var i :| 0 <= i < |x| && x[i] == r;
        assert a[i] in b;
        var k :| 0 <= k < |b| && b[k] == a[i];
        assert y[k] == r;
      }
    }
    if forall r :: r in x ==> r in y {
      forall e | e in a ensures e in b {
        var i :| 0 <= i < |a| && a[i] == e;
        assert x[i] in y;
        var k :| 0 <= k < |y| && y[k] == x[i];
        assert b[k] == e;
      }
    }
  }

  /** On lists in a common order the test decides inclusion, although they need not be increasing. */
  lemma OrderedSubset(a: seq<nat>, b: seq<nat>, order: seq<nat>)
    requires Ordered(a, order) && Ordered(b, order)
    ensures ScanSubset(a, b) <==> forall x :: x in a ==> x in b
  {
    hide ScanSubset, Increasing;
    RankScan(a, b, order);
    RankMembers(a, b, order);
    IncreasingSubset(Ranks(a, order), Ranks(b, order));
  }

  /** The heads of the used ones among the first `k` rows. */
  ghost function UsedHeads(loops: seq<Loop>, k: nat): (heads: seq<nat>)
    requires k <= |loops|
  {
    if k == 0 then [] else UsedHeads(loops, k - 1) + (if loops[k - 1].head != 0 then [loops[k - 1].head] else [])
  }

  lemma {:induction false} UsedHeadsSimple(loops: seq<Loop>, k: nat)
    requires DistinctRows(loops) && k <= |loops|
    ensures Simple(UsedHeads(loops, k))
    ensures forall x :: x in UsedHeads(loops, k) ==> exists m :: 0 <= m < k && loops[m].head == x != 0
  {
    if k > 0 {
      UsedHeadsSimple(loops, k - 1);
      var h := loops[k - 1].head;
      assert h != 0 ==> forall m :: 0 <= m < k - 1 ==> loops[m].head != h;
      assert h != 0 ==> h !in UsedHeads(loops, k - 1);
    }
  }

  lemma OrderedOn(a: seq<nat>, order: seq<nat>, x: nat)
    requires Ordered(a, order) && Simple(order + [x])
    ensures Ordered(a, order + [x]) && Ordered(a + [x], order + [x])
  {
    var longer := order + [x];
    assert longer[|order|] == x;
    forall i | 0 <= i < |a| ensures a[i] in longer && Rank(longer, a[i]) == Rank(order, a[i]) {
      assert longer[Rank(order, a[i])] == a[i];
    }
    assert Rank(longer, x) == |order|;
    var r := Ranks(a + [x], longer);
    assert forall i :: 0 <= i < |a| ==> r[i] == Ranks(a, order)[i];
  }

  /** Membership lists are all in the order of the rows. */
  lemma {:induction false} MembersOrdered(loops: seq<Loop>, n: nat, k: nat)
    requires DistinctRows(loops) && k <= |loops|
    ensures Ordered(HeadsOf(loops, n, k), UsedHeads(loops, k))
  {
    hide Ordered;
    if k == 0 {
      assert Ordered([], []) by { NoneOrdered([]); }
    } else {
      MembersOrdered(loops, n, k - 1);
      UsedHeadsSimple(loops, k);
      var a, order := HeadsOf(loops, n, k - 1), UsedHeads(loops, k - 1);
      if loops[k - 1].head != 0 {
        OrderedOn(a, order, loops[k - 1].head);
        assert a + [] == a;
      } else {
        assert a + [] == a && order + [] == order;
      }
    }
  }

  lemma NoneOrdered(order: seq<nat>)
    ensures Ordered([], order)
  {
  }

  // ----- Link types

  /** A link that leaves a loop: out of a head to anything but a pure member of its loop, or to a
      node that is in some, but not all, of the loops of the source and in no other. */
  ghost predicate LeavesLoop(g: Cfg, heads: seq<bool>, members: seq<seq<nat>>, n: nat, l: nat)
    requires |heads| == |members| == |g| && WellFormed(g) && n < |g| && l < |g[n]|
  {
    var next := g[n][l];
    assert IsNode(g, next);
    if heads[n] then members[next] != [n]
    else members[next] != members[n] && forall x :: x in members[next] ==> x in members[n]
  }

  /** The columns the link scans read. */
  ghost predicate Columns(g: Cfg, edges: seq<seq<bool>>, heads: seq<bool>, members: seq<seq<nat>>) {
    WellFormed(g) && |edges| == |heads| == |members| == |g| && forall n :: 0 <= n < |g| ==> |edges[n]| == |g[n]|
  }

  /** What that says about the table of loops. */
  lemma LeavesSomeLoop(loops: seq<Loop>, g: Cfg, heads: seq<bool>, members: seq<seq<nat>>, n: nat, l: nat)
    requires DistinctRows(loops) && |heads| == |members| == |g| && WellFormed(g) && n < |g| && l < |g[n]| && !heads[n]
    requires forall k :: 0 <= k < |g| ==> members[k] == HeadsOf(loops, k, |loops|)
    ensures LeavesLoop(g, heads, members, n, l) <==>
      && (forall m: nat :: Lists(loops, m, g[n][l]) ==> Lists(loops, m, n))
      && (exists m: nat :: Lists(loops, m, n) && !Lists(loops, m, g[n][l]))
  {
    hide DistinctRows, Lists;
    var next := g[n][l];
    assert IsNode(g, next);
    PartOfLoops(loops, next, n);
    PartOfLoops(loops, n, next);
    if forall m: nat :: Lists(loops, m, next) <==> Lists(loops, m, n) {
      SameHeads(loops, next, n, |loops|);
    }
  }

  /** A link out of a head leaves a loop unless the loop of the head is the only one of its target; a
      link of another node if its target is in some, but not all, of its loops, and in no other. */
  ghost predicate LeavesRows(loops: seq<Loop>, head: bool, n: nat, next: nat) {
    if head then LoopsOf(loops, next) != {n} else LoopsOf(loops, next) < LoopsOf(loops, n)
  }

  /** So a link of an inner head into its own loop counts as an exit: the outer loop lists the target
      as well. */
  lemma InnerHeadLeaves(loops: seq<Loop>, n: nat, m: nat, k: nat, next: nat)
    requires DistinctRows(loops) && Lists(loops, m, next) && Lists(loops, k, next) && m != k
    ensures LeavesRows(loops, true, n, next)
  {
    UsedRow(loops, m, next);
    UsedRow(loops, k, next);
    assert loops[m].head in LoopsOf(loops, next) && loops[k].head in LoopsOf(loops, next);
    assert loops[m].head != loops[k].head;
  }

  lemma LeavesByRows(loops: seq<Loop>, g: Cfg, heads: seq<bool>, members: seq<seq<nat>>, n: nat, l: nat)
    requires DistinctRows(loops) && |heads| == |members| == |g| && WellFormed(g) && n < |g| && l < |g[n]|
    requires forall k :: 0 <= k < |g| ==> members[k] == HeadsOf(loops, k, |loops|)
    ensures LeavesLoop(g, heads, members, n, l) <==> LeavesRows(loops, heads[n], n, g[n][l])
  {
    hide DistinctRows, LoopsOf;
    var next := g[n][l];
    assert IsNode(g, next);
    PureMember(loops, next, n);
    ListedLoops(loops, next, n);
    ListedLoops(loops, n, next);
  }

  ghost predicate LinkAt(g: Cfg, n: nat, l: nat) {
    1 <= n < |g| && l < |g[n]| && IsNode(g, g[n][l])
  }

  /** A loop edge keeps no flags; any other link is an exit or normal, not both, and is an entry
      if it leads to a loop head. */
  ghost predicate Typed(g: Cfg, edges: seq<seq<bool>>, heads: seq<bool>, members: seq<seq<nat>>, n: nat, l: nat,
                        t: LinkFlags)
    requires Columns(g, edges, heads, members) && LinkAt(g, n, l)
  {
    && (t.isExit <==> !edges[n][l] && LeavesLoop(g, heads, members, n, l))
    && (t.isNormal <==> !edges[n][l] && !t.isExit)
    && (t.isEntry <==> !edges[n][l] && heads[g[n][l]])
  }

  /** After the first scan, links that join equal loop lists or stay in a head's loop are normal. */
  ghost predicate HalfTyped(g: Cfg, edges: seq<seq<bool>>, heads: seq<bool>, members: seq<seq<nat>>, n: nat, l: nat,
                            t: LinkFlags)
    requires Columns(g, edges, heads, members) && LinkAt(g, n, l)
  {
    && (t.isExit <==> !edges[n][l] && LeavesLoop(g, heads, members, n, l))
    && (t.isNormal ==> !edges[n][l] && !t.isExit)
    && (t.isEntry <==> !edges[n][l] && heads[g[n][l]])
  }

  /** First scan, one link. The membership lists have a common order. */
  method ScanLink(g: Cfg, edges: seq<seq<bool>>, heads: seq<bool>, members: seq<seq<nat>>, n: nat, l: nat,
                  ghost order: seq<nat>) returns (t: LinkFlags)
    requires Columns(g, edges, heads, members) && LinkAt(g, n, l) && AllOrdered(members, order)
    ensures HalfTyped(g, edges, heads, members, n, l, t)
  {
    hide ScanSubset, Ordered, WellFormed;
    t := LinkFlags(false, false, false);
    if edges[n][l] {
      return t;
    }
    var next := g[n][l];
    if heads[next] {
      t := t.(isEntry := true);
    }
    if heads[n] {
      if |members[next]| == 1 && members[next][0] == n {
        assert members[next] == [n];
        t := t.(isNormal := true);
      } else {
        t := t.(isExit := true);
      }
    } else {
      var tmp := IsSubset(members[next], members[n]);
      OrderedSubset(members[next], members[n], order);
      if tmp == 2 {
        t := t.(isExit := true);
      } else if tmp == 1 {
        t := t.(isNormal := true);
      }
    }
  }

  ghost predicate AllOrdered(members: seq<seq<nat>>, order: seq<nat>) {
    forall n :: 0 <= n < |members| ==> Ordered(members[n], order)
  }

  ghost predicate AllHalfTyped(g: Cfg, edges: seq<seq<bool>>, heads: seq<bool>, members: seq<seq<nat>>, n: nat,
                               row: seq<LinkFlags>)
    requires Columns(g, edges, heads, members) && 1 <= n < |g|
  {
    |row| == |g[n]| && forall l :: 0 <= l < |row| ==> LinkAt(g, n, l) && HalfTyped(g, edges, heads, members, n, l, row[l])
  }

  ghost predicate AllTyped(g: Cfg, edges: seq<seq<bool>>, heads: seq<bool>, members: seq<seq<nat>>, n: nat,
                           row: seq<LinkFlags>)
    requires Columns(g, edges, heads, members) && 1 <= n < |g|
  {
    |row| == |g[n]| && forall l :: 0 <= l < |row| ==> LinkAt(g, n, l) && Typed(g, edges, heads, members, n, l, row[l])
  }

  ghost predicate HalfTypedFrom(f: FunctionCfg, lo: nat, hi: nat)
    requires f.Shaped() && lo >= 1
    reads f
  {
    forall k: nat :: lo <= k < hi && k < |f.succ| ==> AllHalfTyped(f.succ, f.loopEdge, f.loopHead, f.memberOfLoop, k, f.linkFlags[k])
  }

  /** The first scan: entries, exits and links outside of loops. */
  method ScanLinks(f: FunctionCfg, ghost order: seq<nat>)
    requires f.Shaped() && |f.succ| > 0 && AllOrdered(f.memberOfLoop, order)
    requires forall n, i :: 0 <= n < |f.succ| && 0 <= i < |f.succ[n]| ==> f.linkFlags[n][i] == LinkFlags(false, false, false)
    modifies f`linkFlags
    ensures f.Shaped() && HalfTypedFrom(f, 1, |f.succ|)
  {
    hide LeavesLoop, MutualLinks, AllOrdered;
    for n := 1 to |f.succ|
      invariant f.Shaped() && HalfTypedFrom(f, 1, n)
    {
      var row := f.linkFlags[n];
      ghost var before := f.linkFlags;
      for l := 0 to |f.succ[n]|
        invariant f.linkFlags == before && |row| == |f.succ[n]|
        invariant forall i :: 0 <= i < l ==>
          LinkAt(f.succ, n, i) && HalfTyped(f.succ, f.loopEdge, f.loopHead, f.memberOfLoop, n, i, row[i])
      {
        assert IsNode(f.succ, f.succ[n][l]);
        var t := ScanLink(f.succ, f.loopEdge, f.loopHead, f.memberOfLoop, n, l, order);
        row := row[l := t];
      }
      f.linkFlags := f.linkFlags[n := row];
    }
  }

  /** The second scan: loop edges and exits are not normal. */
  method ClearNormal(f: FunctionCfg)
    requires f.Shaped() && |f.succ| > 0 && HalfTypedFrom(f, 1, |f.succ|)
    modifies f`linkFlags
    ensures f.Shaped() && HalfTypedFrom(f, 1, |f.succ|)
  {
    hide LeavesLoop, MutualLinks, WellFormed;
    for n := 1 to |f.succ|
      invariant f.Shaped() && HalfTypedFrom(f, 1, |f.succ|)
    {
      for l := 0 to |f.succ[n]|
        invariant f.Shaped() && HalfTypedFrom(f, 1, |f.succ|)
      {
        var t := f.linkFlags[n][l];
        var normal := t.isNormal && !f.loopEdge[n][l] && !t.isExit;
        f.linkFlags := f.linkFlags[n := f.linkFlags[n][l := t.(isNormal := normal)]];
      }
    }
  }

  /** The third scan: everything else is. */
  method SetNormal(f: FunctionCfg)
    requires f.Shaped() && |f.succ| > 0 && HalfTypedFrom(f, 1, |f.succ|)
    modifies f`linkFlags
    ensures f.Shaped()
    ensures forall n :: 1 <= n < |f.succ| ==> AllTyped(f.succ, f.loopEdge, f.loopHead, f.memberOfLoop, n, f.linkFlags[n])
  {
    hide LeavesLoop, MutualLinks, WellFormed;
    for n := 1 to |f.succ|
      invariant f.Shaped() && HalfTypedFrom(f, n, |f.succ|)
      invariant forall k :: 1 <= k < n ==> AllTyped(f.succ, f.loopEdge, f.loopHead, f.memberOfLoop, k, f.linkFlags[k])
    {
      var row := f.linkFlags[n];
      for l := 0 to |f.succ[n]|
        invariant |row| == |f.succ[n]|
        invariant forall i :: l <= i < |row| ==>
          LinkAt(f.succ, n, i) && HalfTyped(f.succ, f.loopEdge, f.loopHead, f.memberOfLoop, n, i, row[i])
        invariant forall i :: 0 <= i < l ==>
          LinkAt(f.succ, n, i) && Typed(f.succ, f.loopEdge, f.loopHead, f.memberOfLoop, n, i, row[i])
      {
        if !f.loopEdge[n][l] && !row[l].isNormal && !row[l].isExit {
          row := row[l := row[l].(isNormal := true)];
        }
      }
      f.linkFlags := f.linkFlags[n := row];
    }
  }

  /** The three scans over all links. */
  method AnalyseControlFlowNodeLinks(f: FunctionCfg, ghost order: seq<nat>)
    requires f.Shaped() && |f.succ| > 0 && AllOrdered(f.memberOfLoop, order)
    requires forall n, i :: 0 <= n < |f.succ| && 0 <= i < |f.succ[n]| ==> f.linkFlags[n][i] == LinkFlags(false, false, false)
    modifies f`linkFlags
    ensures f.Shaped()
    ensures forall n :: 1 <= n < |f.succ| ==> AllTyped(f.succ, f.loopEdge, f.loopHead, f.memberOfLoop, n, f.linkFlags[n])
  {
    hide AllTyped, AllHalfTyped, MutualLinks, WellFormed, AllOrdered;
    ScanLinks(f, order);
    ClearNormal(f);
    SetNormal(f);
  }

  /** The rows of an exact table of paths list nodes of the graph. */
  lemma ExactRowsInside(g: Cfg, start: nat, ps: seq<Path>, loops: seq<Loop>)
    requires ExactTable(g, start, ps) && LoopsUpTo(ps, |ps|, loops)
    ensures RowsInside(loops, |g|)
  {
    hide FullTrace;
    forall m, i | 0 <= m < |loops| && 0 <= i < |loops[m].list| ensures loops[m].list[i] < |g| {
      var x := loops[m].list[i];
      assert RowExact(ps, |ps|, loops[m]) && x in loops[m].list;
      var p :| LoopPath(ps, |ps|, loops[m].head, p) && OnCycle(FullTrace(ps, p), x);
      assert Finished(g, start, ps, p);
      WalkNodes(g, FullTrace(ps, p));
    }
  }

  /** The flags of a link, from the loop table alone: a loop edge has none, any other is an exit or
      normal, and an entry if it leads to the head of a loop. */
  ghost predicate RowsMean(loops: seq<Loop>, edge: bool, n: nat, next: nat, t: LinkFlags) {
    && (t.isExit <==> !edge && LeavesRows(loops, HasRow(loops, n), n, next))
    && (t.isNormal <==> !edge && !LeavesRows(loops, HasRow(loops, n), n, next))
    && (t.isEntry <==> !edge && HasRow(loops, next))
  }

  /** With exact marks the loop heads are the heads of the rows. */
  lemma HeadsHaveRows(g: Cfg, start: nat, ps: seq<Path>, e: seq<seq<bool>>, h: seq<bool>, loops: seq<Loop>, n: nat)
    requires ExactTable(g, start, ps) && ExactMarks(g, start, e, h) && RowHeads(loops) == HeadSet(ps, |ps|) && 1 <= n < |g|
    ensures h[n] <==> HasRow(loops, n)
  {
    hide FullTrace, Stopped, Loops, BackEdge;
    assert HasRow(loops, n) <==> n in RowHeads(loops);
    if h[n] {
      var u: nat :| BackEdge(g, start, u, n);
      var w := BackEdgeWalk(g, start, u, n);
      var p :| 0 <= p < |ps| && FullTrace(ps, p) == w;
      assert Finished(g, start, ps, p);
      assert n in HeadSet(ps, |ps|);
    }
    if n in HeadSet(ps, |ps|) {
      var p: nat :| p < |ps| && ps[p].loopHead != 0 && ps[p].loopHead == n;
      assert Finished(g, start, ps, p);
      LoopCloses(g, start, FullTrace(ps, p));
    }
  }

  /** The passes from the path table of any function to its link types. */
  method TypeLinks(f: FunctionCfg, loopSize: nat, ghost start: nat) returns (loops: seq<Loop>, failed: bool)
    requires f.Shaped() && |f.succ| > 0 && ExactTable(f.succ, start, f.paths)
    requires forall n :: 0 <= n < |f.succ| ==> f.memberOfLoop[n] == []
    requires forall n, i :: 0 <= n < |f.succ| && 0 <= i < |f.succ[n]| ==> f.linkFlags[n][i] == LinkFlags(false, false, false)
    modifies f`memberOfLoop, f`linkFlags
    ensures f.Shaped() && (failed <==> |HeadSet(f.paths, |f.paths|)| > loopSize)
    ensures !failed ==> LoopsUpTo(f.paths, |f.paths|, loops) && RowHeads(loops) == HeadSet(f.paths, |f.paths|)
    ensures !failed ==> forall n :: 0 <= n < |f.succ| ==> f.memberOfLoop[n] == HeadsOf(loops, n, |loops|)
    ensures !failed ==>
      forall n :: 1 <= n < |f.succ| ==> AllTyped(f.succ, f.loopEdge, f.loopHead, f.memberOfLoop, n, f.linkFlags[n])
    ensures !failed && ExactMarks(f.succ, start, f.loopEdge, f.loopHead) ==>
      forall n, l :: 1 <= n < |f.succ| && 0 <= l < |f.succ[n]| ==>
        RowsMean(loops, f.loopEdge[n][l], n, f.succ[n][l], f.linkFlags[n][l])
  {
    hide AllTyped, Ordered, MutualLinks, WellFormed, DistinctRows, ExactTable, LoopsUpTo, NestsUpTo, HeadSet, RowsInside, FullTrace,
      ExactMarks, RowsMean, RowHeads;
    ExactTableCloses(f.succ, start, f.paths);
    loops, failed := BuildControlFlowLoops(f.paths, loopSize);
    if failed {
      return;
    }
    ExactRowsInside(f.succ, start, f.paths, loops);
    TableRows(f.paths, loops);
    BuildLoopMembers(f, loops);
    forall n | 0 <= n < |f.succ| ensures Ordered(f.memberOfLoop[n], UsedHeads(loops, |loops|)) {
      MembersOrdered(loops, n, |loops|);
    }
    AnalyseControlFlowNodeLinks(f, UsedHeads(loops, |loops|));
    if ExactMarks(f.succ, start, f.loopEdge, f.loopHead) {
      forall n, l | 1 <= n < |f.succ| && 0 <= l < |f.succ[n]|
        ensures RowsMean(loops, f.loopEdge[n][l], n, f.succ[n][l], f.linkFlags[n][l])
      {
        TypedByRows(f.succ, start, f.paths, f.loopEdge, f.loopHead, f.memberOfLoop, loops, n, l, f.linkFlags[n]);
      }
    }
  }

  lemma TypedByRows(g: Cfg, start: nat, ps: seq<Path>, edges: seq<seq<bool>>, heads: seq<bool>, members: seq<seq<nat>>,
                    loops: seq<Loop>, n: nat, l: nat, row: seq<LinkFlags>)
    requires ExactTable(g, start, ps) && ExactMarks(g, start, edges, heads)
    requires DistinctRows(loops) && RowHeads(loops) == HeadSet(ps, |ps|)
    requires Columns(g, edges, heads, members) && 1 <= n < |g| && AllTyped(g, edges, heads, members, n, row) && l < |g[n]|
    requires forall k :: 0 <= k < |g| ==> members[k] == HeadsOf(loops, k, |loops|)
    ensures RowsMean(loops, edges[n][l], n, g[n][l], row[l])
  {
    hide ExactTable, ExactMarks, LeavesLoop, LeavesRows, HasRow, DistinctRows, HeadsOf, HeadSet, RowHeads;
    assert LinkAt(g, n, l) && Typed(g, edges, heads, members, n, l, row[l]);
    LeavesByRows(loops, g, heads, members, n, l);
    HeadsHaveRows(g, start, ps, edges, heads, loops, n);
    HeadsHaveRows(g, start, ps, edges, heads, loops, g[n][l]);
  }

  // ----- Node types

  /** The type of a branch node; other nodes keep the type they have. */
  ghost function BranchType(links: nat, head: bool, row: seq<LinkFlags>, before: NodeType): (t: NodeType)
    requires |row| == links
  {
    if links < 2 then before
    else if links > 2 then JumpTableNode
    else if row[0].isExit || row[1].isExit then (if head then LoopNode else IfThenGotoNode)
    else if row[0].isNormal && row[1].isNormal then (if head then LoopThenElseNode else IfThenElseNode)
    else before
  }

  method BuildNodeType(f: FunctionCfg)
    requires f.Shaped() && |f.succ| > 0
    modifies f`nodeType
    ensures f.Shaped()
    ensures forall n :: 1 <= n < |f.succ| ==>
      f.nodeType[n] == BranchType(|f.succ[n]|, f.loopHead[n], f.linkFlags[n], old(f.nodeType[n]))
  {
    for n := 1 to |f.succ|
      invariant f.Shaped()
      invariant forall k :: n <= k < |f.succ| ==> f.nodeType[k] == old(f.nodeType[k])
      invariant forall k :: 1 <= k < n ==>
        f.nodeType[k] == BranchType(|f.succ[k]|, f.loopHead[k], f.linkFlags[k], old(f.nodeType[k]))
    {
      var type_ := UnknownNode;
      if |f.succ[n]| != 2 {
        if |f.succ[n]| > 2 {
          type_ := JumpTableNode;
        } else {
          continue;
        }
      } else if f.loopHead[n] {
        if f.linkFlags[n][0].isExit {
          type_ := LoopNode;
        } else if f.linkFlags[n][1].isExit {
          type_ := LoopNode;
        } else if f.linkFlags[n][0].isNormal && f.linkFlags[n][1].isNormal {
          type_ := LoopThenElseNode;
        }
      } else {
        if f.linkFlags[n][0].isExit {
          type_ := IfThenGotoNode;
        } else if f.linkFlags[n][1].isExit {
          type_ := IfThenGotoNode;
        } else if f.linkFlags[n][0].isNormal && f.linkFlags[n][1].isNormal {
          type_ := IfThenElseNode;
        }
      }
      if type_ == UnknownNode {
        continue;
      }
      f.nodeType := f.nodeType[n := type_];
    }
  }

  /** A branch with more than two links is a jump table, and only that; a node with fewer keeps its
      type. */
  lemma JumpTableType(links: nat, head: bool, row: seq<LinkFlags>, before: NodeType)
    requires |row| == links
    ensures before != JumpTableNode ==> (BranchType(links, head, row, before) == JumpTableNode <==> links >= 3)
    ensures links <= 1 ==> BranchType(links, head, row, before) == before
  {
  }

  /** What the type says about the two links of a branch: one leaves a loop; or none does and none
      is a loop edge; otherwise the node keeps the type it had. */
  lemma BranchMeaning(g: Cfg, edges: seq<seq<bool>>, heads: seq<bool>, members: seq<seq<nat>>, n: nat,
                      row: seq<LinkFlags>, before: NodeType)
    requires Columns(g, edges, heads, members) && 1 <= n < |g| && AllTyped(g, edges, heads, members, n, row)
    requires |g[n]| == 2 && before in {UnknownNode, LoopNode} && (before == LoopNode <==> heads[n])
    ensures var t := BranchType(2, heads[n], row, before);
      var leaves := exists l: nat :: l < 2 && !edges[n][l] && LeavesLoop(g, heads, members, n, l);
      var loops := exists l: nat :: l < 2 && edges[n][l];
      && (t == IfThenGotoNode <==> leaves && !heads[n])
      && (t == IfThenElseNode <==> !leaves && !loops && !heads[n])
      && (t == LoopThenElseNode <==> !leaves && !loops && heads[n])
      && (t == LoopNode <==> (leaves || loops) && heads[n])
      && (t == UnknownNode <==> !leaves && loops && !heads[n])
  {
    hide LeavesLoop, WellFormed;
    assert Typed(g, edges, heads, members, n, 0, row[0]) && Typed(g, edges, heads, members, n, 1, row[1]);
  }

  /** A two-way node outside all loops, without marks around, is an if-then-else. */
  lemma PlainBranchType(g: Cfg, edges: seq<seq<bool>>, heads: seq<bool>, members: seq<seq<nat>>, n: nat,
                        row: seq<LinkFlags>)
    requires Columns(g, edges, heads, members) && 1 <= n < |g| && AllTyped(g, edges, heads, members, n, row)
    requires |g[n]| == 2 && !edges[n][0] && !edges[n][1] && !heads[n]
    requires forall k :: 0 <= k < |g| ==> members[k] == []
    ensures BranchType(2, heads[n], row, UnknownNode) == IfThenElseNode
  {
    assert Typed(g, edges, heads, members, n, 0, row[0]) && Typed(g, edges, heads, members, n, 1, row[1]);
  }
}
