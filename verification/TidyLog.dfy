/** `tidy_inst_log`: repeated successors and predecessors are taken out of the log, mostly. */
module TidyLog {
  import opened Graph
  import opened Blocks

  // ----- What the two loops over one list compute

  /** The element at `i` comes again later. */
  ghost predicate Again(s: seq<nat>, i: nat) {
    i < |s| && s[i] in s[i + 1..]
  }

  /** The first loop overwrites all but the last of equal elements. */
  ghost function Zeroed(s: seq<nat>): (z: seq<nat>)
    ensures |z| == |s| && forall i :: 0 <= i < |s| ==> z[i] == if Again(s, i) then 0 else s[i]
  {
    seq(|s|, i requires 0 <= i < |s| => if Again(s, i) then 0 else s[i])
  }

  /** The second loop closes the gap of an overwritten element and goes on behind the element that
      has moved into it. It never looks at the last element. */
  ghost function Compact(s: seq<nat>): (c: seq<nat>) {
    if |s| <= 1 then s
    else if s[0] == 0 then [s[1]] + Compact(s[2..])
    else [s[0]] + Compact(s[1..])
  }

  ghost function Tidy(s: seq<nat>): (t: seq<nat>) {
    Compact(Zeroed(s))
  }

  /** A predecessor list that is left with the placeholder alone is emptied. */
  ghost function TidyPrev(s: seq<nat>): (t: seq<nat>) {
    if Tidy(s) == [0] then [] else Tidy(s)
  }

  lemma SliceNext(s: seq<nat>, from: nat, to: nat, x: nat)
    requires from <= to < |s|
    ensures x in s[from..to + 1] <==> x in s[from..to] || x == s[to]
  {
    assert s[from..to + 1] == s[from..to] + [s[to]];
  }

  /** The inner loop of the first pair. */
  method ZeroRepeat(list: seq<nat>, m: nat) returns (s: seq<nat>)
    requires m + 1 < |list|
    ensures s == list[m := if Again(list, m) then 0 else list[m]]
  {
    s := list;
    for l := m + 1 to |list|
      invariant |s| == |list| && forall i :: 0 <= i < |s| && i != m ==> s[i] == list[i]
      invariant s[m] == if list[m] in list[m + 1..l] then 0 else list[m]
    {
      SliceNext(list, m + 1, l, list[m]);
      if s[m] == s[l] {
        s := s[m := 0];
      }
    }
    assert list[m + 1..|list|] == list[m + 1..];
  }

  lemma AgainLater(list: seq<nat>, s: seq<nat>, m: nat)
    requires m < |list| == |s| && s[m..] == list[m..]
    ensures Again(s, m) == Again(list, m)
  {
    assert s[m + 1..] == s[m..][1..] && list[m + 1..] == list[m..][1..];
  }

  method ZeroRepeats(list: seq<nat>) returns (s: seq<nat>)
    requires |list| > 1
    ensures s == Zeroed(list)
  {
    hide Again;
    s := list;
    ghost var z := Zeroed(list);
    for m := 0 to |list| - 1
      invariant |s| == |list| && s[m..] == list[m..]
      invariant forall i :: 0 <= i < m ==> s[i] == z[i]
    {
      AgainLater(list, s, m);
      assert s[m] == s[m..][0] == list[m];
      ghost var before := s;
      s := ZeroRepeat(s, m);
      assert s[m + 1..] == before[m..][1..] == list[m + 1..];
    }
    var last := |list| - 1;
    assert s[last] == s[last..][0] == list[last];
    assert !Again(list, last) by { LastOnce(list); }
  }

  lemma LastOnce(s: seq<nat>)
    requires s != []
    ensures !Again(s, |s| - 1)
  {
  }

  lemma CompactStep(s: seq<nat>, m: nat)
    requires m + 1 < |s|
    ensures var s' := if s[m] == 0 then s[..m] + s[m + 1..] else s;
      s'[..m + 1] + Compact(s'[m + 1..]) == s[..m] + Compact(s[m..])
  {
    var s' := if s[m] == 0 then s[..m] + s[m + 1..] else s;
    var rest := s[m..];
    if s[m] == 0 {
      assert s'[m + 1..] == rest[2..];
    } else {
      assert s'[m + 1..] == rest[1..];
    }
    assert s'[..m + 1] == s[..m] + [s'[m]];
  }

  /** One list, as the source works on it. */
  method TidyList(list: seq<nat>) returns (s: seq<nat>)
    requires |list| > 1
    ensures s == Tidy(list)
  {
    hide Zeroed;
    s := ZeroRepeats(list);
    var m := 0;
    assert s[..0] + Compact(s[0..]) == Tidy(list);
    while m < |s| - 1
      invariant m <= |s| && Tidy(list) == s[..m] + Compact(s[m..])
      decreases |s| - m
    {
      CompactStep(s, m);
      if s[m] == 0 {
        s := s[..m] + s[m + 1..];
      }
      m := m + 1;
    }
    assert s[..m] + s[m..] == s;
  }

  // ----- What becomes of a list

  /** Two neighbours are zero. */
  ghost predicate ZeroPair(z: seq<nat>) {
    exists i: nat, j: nat :: j == i + 1 && j < |z| && z[i] == 0 && z[j] == 0
  }

  /** Nothing but zeros goes away, and the rest stays as often as it was there. */
  lemma {:induction false} CompactKeeps(z: seq<nat>, x: nat)
    requires x != 0
    ensures x in Compact(z) <==> x in z
    ensures (forall i, j :: 0 <= i < j < |z| && z[i] == z[j] ==> z[i] != x) ==>
      forall i, j :: 0 <= i < j < |Compact(z)| && Compact(z)[i] == Compact(z)[j] ==> Compact(z)[i] != x
    decreases |z|
  {
    if |z| > 1 {
      var k := if z[0] == 0 then 2 else 1;
      CompactKeeps(z[k..], x);
      assert z == z[..k] + z[k..];
    }
  }

  /** A zero is left exactly if there were two in a row. */
  lemma {:induction false} CompactZero(z: seq<nat>)
    requires z != [] ==> Last(z) != 0
    ensures 0 in Compact(z) <==> ZeroPair(z)
    decreases |z|
  {
    if |z| > 1 {
      var k := if z[0] == 0 then 2 else 1;
      var rest := z[k..];
      if rest != [] {
        assert Last(rest) == Last(z);
      }
      CompactZero(rest);
      if z[0] == 0 && z[1] == 0 {
        assert ZeroPair(z);
      } else {
        if ZeroPair(z) {
          var i: nat, j: nat :| j == i + 1 && j < |z| && z[i] == 0 && z[j] == 0;
          assert rest[i - k] == 0 && rest[j - k] == 0;
        }
        if ZeroPair(rest) {
          var i: nat, j: nat :| j == i + 1 && j < |rest| && rest[i] == 0 && rest[j] == 0;
          assert z[i + k] == 0 && z[j + k] == 0;
        }
      }
    }
  }

  lemma {:induction false} LastOccurrence(s: seq<nat>, x: nat) returns (i: nat)
    requires x in s
    ensures i < |s| && s[i] == x && !Again(s, i)
  {
    if Last(s) == x {
      i := |s| - 1;
    } else {
      assert s == Front(s) + [Last(s)];
      i := LastOccurrence(Front(s), x);
      assert s[i + 1..] == Front(s)[i + 1..] + [Last(s)];
    }
  }

  /** Real elements stay, each once. */
  lemma TidyKeeps(s: seq<nat>, x: nat)
    requires x != 0
    ensures x in Tidy(s) <==> x in s
    ensures forall i, j :: 0 <= i < j < |Tidy(s)| && Tidy(s)[i] == Tidy(s)[j] ==> Tidy(s)[i] != x
  {
    var z := Zeroed(s);
    if x in s {
      var i := LastOccurrence(s, x);
      assert z[i] == x;
    }
    forall i, j | 0 <= i < j < |z| && z[i] == z[j] ensures z[i] != x {
      if s[i] == s[j] {
        assert s[i + 1..][j - i - 1] == s[i];
        assert Again(s, i);
      }
    }
    CompactKeeps(z, x);
  }

  /** Two neighbours that both come again later. */
  ghost predicate RepeatedPair(s: seq<nat>) {
    exists i: nat, j: nat :: j == i + 1 && Again(s, i) && Again(s, j)
  }

  /** A list of real instructions loses exactly its duplicates, unless two neighbours both come
      again later: then a 0 is left. */
  lemma TidyExact(s: seq<nat>)
    requires 0 !in s
    ensures forall x: nat :: x != 0 ==> (x in Tidy(s) <==> x in s)
    ensures 0 in Tidy(s) <==> RepeatedPair(s)
    ensures (0 !in Tidy(s) && Simple(Tidy(s))) <==> !RepeatedPair(s)
  {
    var z, t := Zeroed(s), Tidy(s);
    forall x: nat | x != 0
      ensures (x in t <==> x in s) && forall i, j :: 0 <= i < j < |t| && t[i] == t[j] ==> t[i] != x
    {
      TidyKeeps(s, x);
    }
    if s != [] {
      assert z[|s| - 1] == s[|s| - 1];
    }
    CompactZero(z);
    forall i: nat, j: nat | j == i + 1 && j < |s| ensures (z[i] == 0 && z[j] == 0) <==> (Again(s, i) && Again(s, j)) {
      assert s[i] in s && s[j] in s;
    }
    if RepeatedPair(s) {
      var i: nat, j: nat :| j == i + 1 && Again(s, i) && Again(s, j);
      assert z[i] == 0 && z[j] == 0;
    }
    if 0 !in t {
      forall i, j | 0 <= i < j < |t| ensures t[i] != t[j] {
        assert t[i] in t;
      }
    }
  }

  /** Three equal targets of a jump table leave a 0 in front. */
  lemma ThreeEqual(p: nat)
    requires p != 0
    ensures Tidy([p, p, p]) == TidyPrev([p, p, p]) == [0, p]
  {
    var s := [p, p, p];
    assert s[1..][0] == p && s[2..][0] == p;
    assert Again(s, 0) && Again(s, 1) && !Again(s, 2);
    var z := Zeroed(s);
    assert z == [0, 0, p];
    assert z[2..] == [p] && Compact(z) == [z[1]] + Compact(z[2..]);
  }

  // ----- The whole log

  /** Links and predecessors as they are recorded: they agree, but may repeat, and the placeholder
      0 may stand among the predecessors. */
  ghost predicate Recorded(l: Log) {
    && |l.prev| == |l.next| > 0 && l.next[0] == [] && l.prev[0] == []
    && (forall n: nat, i: nat :: n < |l.next| && i < |l.next[n]| ==> IsNode(l.next, l.next[n][i]))
    && (forall n: nat, m: nat :: n < |l.prev| && m < |l.prev[n]| && l.prev[n][m] != 0 ==> Edge(l.next, l.prev[n][m], n))
    && (forall p: nat, s: nat :: Edge(l.next, p, s) ==> p in l.prev[s])
  }

  ghost function Tidied(l: Log): (t: Log) {
    Log(seq(|l.next|, n requires 0 <= n < |l.next| => Tidy(l.next[n])),
        seq(|l.prev|, n requires 0 <= n < |l.prev| => TidyPrev(l.prev[n])))
  }

  lemma TidyEmpty()
    ensures Tidy([]) == []
  {
  }

  lemma TidyPrevKeeps(s: seq<nat>, x: nat)
    requires x != 0
    ensures x in TidyPrev(s) <==> x in s
  {
    TidyKeeps(s, x);
  }

  lemma TidiedEdges(l: Log, p: nat, s: nat)
    requires Recorded(l)
    ensures Edge(Tidied(l).next, p, s) <==> Edge(l.next, p, s)
  {
    if IsNode(l.next, p) && s != 0 {
      TidyKeeps(l.next[p], s);
    }
  }

  lemma NoZeroTargets(l: Log, n: nat)
    requires Recorded(l) && n < |l.next|
    ensures 0 !in l.next[n]
  {
  }

  /** The tidied predecessor lists agree with the tidied links in any case. */
  lemma TidiedPrev(l: Log)
    requires Recorded(l)
    ensures var t := Tidied(l);
      && (forall n: nat :: n < |t.prev| ==> t.prev[n] != [0])
      && (forall n: nat, m: nat :: n < |t.prev| && m < |t.prev[n]| && t.prev[n][m] != 0 ==> Edge(t.next, t.prev[n][m], n))
      && (forall p: nat, s: nat :: Edge(t.next, p, s) ==> p in t.prev[s])
  {
    hide Tidy, TidyPrev;
    var t := Tidied(l);
    forall n: nat | n < |t.prev| ensures t.prev[n] != [0] {
      EmptiedPrev(l.prev[n]);
    }
    forall n: nat, m: nat | n < |t.prev| && m < |t.prev[n]| && t.prev[n][m] != 0 ensures Edge(t.next, t.prev[n][m], n) {
      var p := t.prev[n][m];
      assert p in TidyPrev(l.prev[n]);
      TidyPrevKeeps(l.prev[n], p);
      var k: nat :| k < |l.prev[n]| && l.prev[n][k] == p;
      TidiedEdges(l, p, n);
    }
    forall p: nat, s: nat | Edge(t.next, p, s) ensures p in t.prev[s] {
      TidiedEdges(l, p, s);
      TidyPrevKeeps(l.prev[s], p);
    }
  }

  lemma EmptiedPrev(s: seq<nat>)
    ensures TidyPrev(s) != [0]
  {
  }

  /** The tidied log is what the block builder needs if and only if no instruction has two
      neighbouring successors that both come again later. */
  lemma TidyConsistent(l: Log)
    requires Recorded(l)
    ensures Consistent(Tidied(l)) <==> forall n: nat :: n < |l.next| ==> !RepeatedPair(l.next[n])
  {
    hide Tidy, TidyPrev, RepeatedPair, Recorded;
    var t := Tidied(l);
    TidiedPrev(l);
    TidyEmpty();
    assert Recorded(l);
    forall n: nat | n < |l.next| ensures GoodRow(t.next, n) <==> !RepeatedPair(l.next[n]) {
      NoZeroTargets(l, n);
      TidyExact(l.next[n]);
      TargetsInside(l, n);
    }
    GoodRows(t.next);
    FirstRow(l);
  }

  /** Successors are nodes and distinct. */
  ghost predicate GoodRow(g: Cfg, n: nat) {
    n < |g| && Simple(g[n]) && forall i :: 0 <= i < |g[n]| ==> IsNode(g, g[n][i])
  }

  lemma GoodRows(g: Cfg)
    ensures WellFormed(g) <==> forall n: nat :: n < |g| ==> GoodRow(g, n)
  {
    if forall n: nat :: n < |g| ==> GoodRow(g, n) {
      forall n, i | 0 <= n < |g| && 0 <= i < |g[n]| ensures IsNode(g, g[n][i]) {
        assert GoodRow(g, n);
      }
      forall n, i, j | 0 <= n < |g| && 0 <= i < j < |g[n]| ensures g[n][i] != g[n][j] {
        assert GoodRow(g, n);
      }
    }
  }

  lemma FirstRow(l: Log)
    requires Recorded(l)
    ensures var t := Tidied(l); |t.prev| == |t.next| > 0 && t.next[0] == [] && t.prev[0] == []
  {
    TidyEmpty();
  }

  lemma TargetsInside(l: Log, n: nat)
    requires Recorded(l) && n < |l.next|
    ensures (forall i :: 0 <= i < |Tidy(l.next[n])| ==> IsNode(Tidied(l).next, Tidy(l.next[n])[i])) <==> 0 !in Tidy(l.next[n])
  {
    var t := Tidy(l.next[n]);
    forall i | 0 <= i < |t| && t[i] != 0 ensures IsNode(Tidied(l).next, t[i]) {
      TidyKeeps(l.next[n], t[i]);
      assert t[i] in l.next[n];
    }
    if 0 in t {
      var i :| 0 <= i < |t| && t[i] == 0;
      assert !IsNode(Tidied(l).next, t[i]);
    }
  }

  /** The instruction log with the lists that the pass works on. */
  class LogLists {
    var next: Cfg
    var prev: seq<seq<nat>>

    constructor (l: Log)
      ensures next == l.next && prev == l.prev
    {
      next, prev := l.next, l.prev;
    }

    /** All instructions from the first on. */
    method TidyInstLog()
      requires |next| == |prev| > 0 && next[0] == [] && prev[0] == []
      modifies this
      ensures Log(next, prev) == old(Tidied(Log(next, prev)))
    {
      hide Tidy;
      ghost var t := Tidied(Log(next, prev));
      TidyEmpty();
      for n := 1 to |next|
        invariant |next| == |prev| == old(|next|)
        invariant forall i :: 0 <= i < |next| ==> next[i] == if i < n then t.next[i] else old(next[i])
        invariant forall i :: 0 <= i < |prev| ==> prev[i] == if i < n then t.prev[i] else old(prev[i])
      {
        if |next[n]| > 1 {
          var s := TidyList(next[n]);
          next := next[n := s];
        } else {
          ShortList(next[n]);
        }
        if |prev[n]| > 1 {
          var s := TidyList(prev[n]);
          prev := prev[n := s];
        } else {
          ShortList(prev[n]);
        }
        if |prev[n]| == 1 && prev[n][0] == 0 {
          assert prev[n] == [0];
          prev := prev[n := []];
        }
      }
      assert next == t.next && prev == t.prev;
    }
  }

  lemma ShortList(s: seq<nat>)
    requires |s| <= 1
    ensures Tidy(s) == s
  {
  }
}
