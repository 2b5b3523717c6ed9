/** `search_back_local_reg_stack`: the definitions of a register or stack slot that reach an
    instruction. */
module SearchBack {
  import opened Graph
  import opened Rtl

  /** The fields of an instruction log entry that the search reads. */
  datatype LogEntry = LogEntry(
    prev: seq<nat>,
    dstStore: Store,
    dstIndirect: Indirect,
    dstIndex: nat,
    valueScope: int,
    indirectInit: nat,
    indirectOffset: nat)

  /** What is searched for: reg_stack 1 is a register, 2 a local stack slot. */
  datatype Query = Query(regStack: int, init: nat, offset: nat)

  predicate Defines(e: LogEntry, q: Query) {
    if q.regStack == 2 then
      e.dstStore == StoreReg && e.valueScope == 2 && e.dstIndirect == IndStack
      && e.indirectInit == q.init && e.indirectOffset == q.offset
    else
      q.regStack == 1 && e.dstStore == StoreReg && e.dstIndirect == IndDirect && e.dstIndex == q.init
  }

  /** The predecessors the search follows: none when the first one is the placeholder 0. */
  function Followed(e: LogEntry): (p: seq<nat>) {
    if |e.prev| > 0 && e.prev[0] != 0 then e.prev else []
  }

  /** The search goes on from `x` to `y`. */
  ghost predicate Passes(log: seq<LogEntry>, q: Query, x: nat, y: nat) {
    x < |log| && !Defines(log[x], q) && y in Followed(log[x])
  }

  /** A backward walk from a start that passes no definition before its last node. */
  ghost predicate ClearWalk(log: seq<LogEntry>, starts: set<nat>, q: Query, w: seq<nat>) {
    && w != [] && w[0] in starts && (forall i :: 0 <= i < |w| ==> w[i] < |log|)
    && forall i, j :: 0 <= i && j == i + 1 && j < |w| ==> Passes(log, q, w[i], w[j])
  }

  ghost predicate Reached(log: seq<LogEntry>, starts: set<nat>, q: Query, x: nat) {
    exists w :: ClearWalk(log, starts, q, w) && Last(w) == x
  }

  /** A definition from which control reaches the start without meeting another definition. */
  ghost predicate ReachingDefinition(log: seq<LogEntry>, starts: set<nat>, q: Query, d: nat) {
    d < |log| && Defines(log[d], q) && Reached(log, starts, q, d)
  }

  ghost predicate ValidLog(log: seq<LogEntry>) {
    forall x, i :: 0 <= x < |log| && 0 <= i < |log[x].prev| ==> log[x].prev[i] < |log|
  }

  // ----- The worklist

  datatype MidStart = MidStart(inst: nat, valid: bool)

  ghost function Waiting(slots: seq<MidStart>): (s: set<nat>) {
    set i | 0 <= i < |slots| && slots[i].valid :: slots[i].inst
  }

  ghost function Count(slots: seq<MidStart>): (n: nat) {
    if slots == [] then 0 else Count(slots[..|slots| - 1]) + (if slots[|slots| - 1].valid then 1 else 0)
  }

  lemma {:induction false} CountClear(slots: seq<MidStart>, n: nat)
    requires n < |slots| && slots[n].valid
    ensures Count(slots[n := slots[n].(valid := false)]) == Count(slots) - 1
  {
    var k := |slots| - 1;
    var slots' := slots[n := slots[n].(valid := false)];
    if n < k {
      assert slots'[..k] == slots[..k][n := slots[n].(valid := false)];
      CountClear(slots[..k], n);
    } else {
      assert slots'[..k] == slots[..k];
    }
  }

  /** Takes the first waiting instruction out. */
  method TakeStart(slots: seq<MidStart>) returns (found: bool, n: nat)
    ensures found ==> n < |slots| && slots[n].valid && forall i :: 0 <= i < n ==> !slots[i].valid
    ensures !found ==> Waiting(slots) == {}
  {
    for m := 0 to |slots|
      invariant forall i :: 0 <= i < m ==> !slots[i].valid
    {
      if slots[m].valid {
        return true, m;
      }
    }
    return false, 0;
  }

  ghost function Elements(s: seq<nat>): (t: set<nat>) {
    set i | 0 <= i < |s| :: s[i]
  }

  /** Puts the predecessors into unused slots, then appends new slots for the rest. */
  method AddStarts(slots: seq<MidStart>, prev: seq<nat>) returns (slots': seq<MidStart>, found: bool)
    requires prev != []
    ensures Waiting(slots') == Waiting(slots) + Elements(prev)
    ensures (exists i :: 0 <= i < |slots| && !slots[i].valid) ==> found
  {
    slots' := slots;
    found := false;
    var index := 0;
    for n := 0 to |slots|
      invariant |slots'| == |slots| && index < |prev|
      invariant forall i :: n <= i < |slots| ==> slots'[i] == slots[i]
      invariant Waiting(slots') == Waiting(slots) + Elements(prev[..index])
      invariant (exists i :: 0 <= i < n && !slots[i].valid) ==> found
    {
      if !slots'[n].valid {
        FillOne(slots', n, prev[index]);
        assert prev[..index + 1] == prev[..index] + [prev[index]];
        slots' := slots'[n := MidStart(prev[index], true)];
        index := index + 1;
        found := true;
      }
      if index >= |prev| {
        assert prev[..index] == prev;
        return;
      }
    }
    while index < |prev|
      invariant |slots| <= |slots'| && index <= |prev|
      invariant Waiting(slots') == Waiting(slots) + Elements(prev[..index])
    {
      GrowOne(slots', prev[index]);
      assert prev[..index + 1] == prev[..index] + [prev[index]];
      slots' := slots' + [MidStart(prev[index], true)];
      index := index + 1;
    }
    assert prev[..index] == prev;
  }

  lemma FillOne(slots: seq<MidStart>, n: nat, x: nat)
    requires n < |slots| && !slots[n].valid
    ensures Waiting(slots[n := MidStart(x, true)]) == Waiting(slots) + {x}
  {
    var slots' := slots[n := MidStart(x, true)];
    forall y | y in Waiting(slots) + {x} ensures y in Waiting(slots') {
      if y == x {
        assert slots'[n].valid && slots'[n].inst == x;
      } else {
        var i :| 0 <= i < |slots| && slots[i].valid && slots[i].inst == y;
        assert slots'[i] == slots[i];
      }
    }
  }

  lemma GrowOne(slots: seq<MidStart>, x: nat)
    ensures Waiting(slots + [MidStart(x, true)]) == Waiting(slots) + {x}
  {
    var slots' := slots + [MidStart(x, true)];
    assert slots'[|slots|] == MidStart(x, true);
    forall y | y in Waiting(slots) ensures y in Waiting(slots') {
      var i :| 0 <= i < |slots| && slots[i].valid && slots[i].inst == y;
      assert slots'[i] == slots[i];
    }
  }

  lemma ClearOne(slots: seq<MidStart>, n: nat)
    requires n < |slots| && slots[n].valid
    ensures var slots' := slots[n := slots[n].(valid := false)];
      Waiting(slots') <= Waiting(slots) <= Waiting(slots') + {slots[n].inst} && slots[n].inst in Waiting(slots)
  {
    var slots' := slots[n := slots[n].(valid := false)];
    forall y | y in Waiting(slots) ensures y in Waiting(slots') + {slots[n].inst} {
      var i :| 0 <= i < |slots| && slots[i].valid && slots[i].inst == y;
      if i != n { assert slots'[i] == slots[i]; }
    }
  }

  // ----- The search

  /** The state of the search: `done` are the instructions marked seen. */
  ghost predicate SearchState(log: seq<LogEntry>, starts: set<nat>, q: Query, done: set<nat>, waiting: set<nat>,
                              list: seq<nat>) {
    && (forall x :: x in done + waiting ==> x < |log| && Reached(log, starts, q, x))
    && starts <= done + waiting
    && (forall x :: x in done && x < |log| && !Defines(log[x], q) ==> Elements(Followed(log[x])) <= done + waiting)
    && (forall x :: x in list <==> x in done && x < |log| && Defines(log[x], q))
    && Simple(list)
  }

  lemma StartReached(log: seq<LogEntry>, starts: set<nat>, q: Query, x: nat)
    requires x in starts && x < |log|
    ensures Reached(log, starts, q, x)
  {
    assert ClearWalk(log, starts, q, [x]) && Last([x]) == x;
  }

  lemma StepReached(log: seq<LogEntry>, starts: set<nat>, q: Query, x: nat, y: nat)
    requires Reached(log, starts, q, x) && x < |log| && !Defines(log[x], q)
    requires y in Followed(log[x]) && y < |log|
    ensures Reached(log, starts, q, y)
  {
    var w :| ClearWalk(log, starts, q, w) && Last(w) == x;
    var v := w + [y];
    forall i, j | 0 <= i && j == i + 1 && j < |v| ensures Passes(log, q, v[i], v[j]) {
      if j < |w| {
        assert Passes(log, q, w[i], w[j]);
      }
    }
    assert ClearWalk(log, starts, q, v) && Last(v) == y;
  }

  /** When nothing waits, everything reached has been seen. */
  lemma {:induction false} AllSeen(log: seq<LogEntry>, starts: set<nat>, q: Query, done: set<nat>, list: seq<nat>,
                                   w: seq<nat>)
    requires SearchState(log, starts, q, done, {}, list) && ClearWalk(log, starts, q, w)
    ensures Last(w) in done
    decreases |w|
  {
    if |w| > 1 {
      var v := Front(w);
      forall i, j | 0 <= i && j == i + 1 && j < |v| ensures Passes(log, q, v[i], v[j]) {
        assert Passes(log, q, w[i], w[j]);
      }
      AllSeen(log, starts, q, done, list, v);
      var i, j := |w| - 2, |w| - 1;
      var x, y := w[i], w[j];
      assert Passes(log, q, w[i], w[j]);
      assert y in Elements(Followed(log[x]));
    }
  }

  lemma SearchExact(log: seq<LogEntry>, starts: set<nat>, q: Query, done: set<nat>, list: seq<nat>)
    requires SearchState(log, starts, q, done, {}, list)
    ensures Simple(list) && forall d :: d in list <==> ReachingDefinition(log, starts, q, d)
  {
    forall d | ReachingDefinition(log, starts, q, d) ensures d in list {
      var w :| ClearWalk(log, starts, q, w) && Last(w) == d;
      AllSeen(log, starts, q, done, list, w);
    }
  }

  /** Instruction `x` has been taken out of the worklist and was seen before. */
  lemma SkipSeen(log: seq<LogEntry>, starts: set<nat>, q: Query, done: set<nat>, waiting: set<nat>,
                 waiting': set<nat>, list: seq<nat>, x: nat)
    requires SearchState(log, starts, q, done, waiting, list) && x in done
    requires waiting' <= waiting <= waiting' + {x}
    ensures SearchState(log, starts, q, done, waiting', list)
  {
    hide Elements, Followed, Defines, Reached, Simple;
    assert done + waiting' == done + waiting;
  }

  /** A definition is recorded, and the search does not go beyond it. */
  lemma SeeDefinition(log: seq<LogEntry>, starts: set<nat>, q: Query, done: set<nat>, waiting: set<nat>,
                      waiting': set<nat>, list: seq<nat>, x: nat)
    requires SearchState(log, starts, q, done, waiting, list) && x in waiting && x !in done
    requires waiting' <= waiting <= waiting' + {x}
    requires Defines(log[x], q)
    ensures SearchState(log, starts, q, done + {x}, waiting', list + [x])
  {
    hide Reached, Defines, Followed, Elements;
    var done' := done + {x};
    assert done' + waiting' == done + waiting;
    assert x !in list;
  }

  /** Any other instruction hands its predecessors to the worklist. */
  lemma SeeOther(log: seq<LogEntry>, starts: set<nat>, q: Query, done: set<nat>, waiting: set<nat>,
                 waiting': set<nat>, list: seq<nat>, x: nat)
    requires ValidLog(log) && SearchState(log, starts, q, done, waiting, list) && x in waiting && x !in done
    requires waiting' <= waiting <= waiting' + {x}
    requires !Defines(log[x], q)
    ensures SearchState(log, starts, q, done + {x}, waiting' + Elements(Followed(log[x])), list)
  {
    hide Reached, Defines;
    var more := Elements(Followed(log[x]));
    forall y | y in more ensures y < |log| && Reached(log, starts, q, y) {
      assert y in Followed(log[x]);
      StepReached(log, starts, q, x, y);
    }
    hide Followed, Elements;
    assert done + {x} + (waiting' + more) == done + waiting + more;
  }

  ghost predicate SeenTable(seen: array<int>, done: set<nat>)
    reads seen
  {
    forall x: nat :: x in done <==> x < seen.Length && seen[x] != 0
  }

  /** One unseen instruction: recorded, or replaced by its predecessors. */
  method Visit(log: seq<LogEntry>, q: Query, slots: seq<MidStart>, list: seq<nat>, x: nat,
               ghost starts: set<nat>, ghost done: set<nat>, ghost waiting: set<nat>)
    returns (slots': seq<MidStart>, list': seq<nat>)
    requires ValidLog(log) && SearchState(log, starts, q, done, waiting, list) && x in waiting && x !in done && x < |log|
    requires Waiting(slots) <= waiting <= Waiting(slots) + {x}
    requires exists i :: 0 <= i < |slots| && !slots[i].valid
    ensures SearchState(log, starts, q, done + {x}, Waiting(slots'), list')
  {
    hide SearchState, Defines, Followed, Waiting, Elements, ValidLog, Reached;
    slots', list' := slots, list;
    if Defines(log[x], q) {
      SeeDefinition(log, starts, q, done, waiting, Waiting(slots), list, x);
      list' := list + [x];
    } else {
      SeeOther(log, starts, q, done, waiting, Waiting(slots), list, x);
      FollowedElements(log[x]);
      if |log[x].prev| > 0 && log[x].prev[0] != 0 {
        var found;
        slots', found := AddStarts(slots, log[x].prev);
        assert found;
      } else {
        assert Waiting(slots) + {} == Waiting(slots);
      }
    }
  }

  /** The search. Without starts it fails; otherwise it returns, each once, exactly the
      definitions that reach a start. */
  method SearchBackLocalRegStack(log: seq<LogEntry>, midStart: seq<MidStart>, q: Query, seen: array<int>)
    returns (ret: int, list: seq<nat>)
    requires ValidLog(log) && |log| <= seen.Length
    requires forall i :: 0 <= i < |midStart| ==> midStart[i].inst < |log|
    modifies seen
    ensures ret == if |midStart| == 0 then 1 else 0
    ensures ret == 1 ==> list == []
    ensures ret == 0 ==> Simple(list) && forall d :: d in list <==> ReachingDefinition(log, Waiting(midStart), q, d)
  {
    hide SearchState, Defines, Followed, Waiting, Elements, Count, ValidLog, Reached, ReachingDefinition;
    list := [];
    for n := 0 to seen.Length
      invariant forall i :: 0 <= i < n ==> seen[i] == 0
    {
      seen[n] := 0;
    }
    if |midStart| == 0 {
      return 1, [];
    }
    ghost var starts := Waiting(midStart);
    ghost var done: set<nat> := {};
    var slots := midStart;
    SearchBegins(log, midStart, q);
    while true
      invariant SearchState(log, starts, q, done, Waiting(slots), list)
      invariant SeenTable(seen, done) && forall x :: x in done ==> x < |log|
      decreases |log| - |done|, Count(slots)
    {
      var found, n := TakeStart(slots);
      if !found {
        SearchExact(log, starts, q, done, list);
        return 0, list;
      }
      ghost var waiting := Waiting(slots);
      var x := slots[n].inst;
      ClearOne(slots, n);
      CountClear(slots, n);
      WaitingInside(log, starts, q, done, waiting, list, x);
      slots := slots[n := slots[n].(valid := false)];
      if seen[x] != 0 {
        SkipSeen(log, starts, q, done, waiting, Waiting(slots), list, x);
        continue;
      }
      BoundedSet(done + {x}, |log|);
      seen[x] := 1;
      assert !slots[n].valid;
      slots, list := Visit(log, q, slots, list, x, starts, done, waiting);
      done := done + {x};
    }
  }

  lemma SearchBegins(log: seq<LogEntry>, midStart: seq<MidStart>, q: Query)
    requires forall i :: 0 <= i < |midStart| ==> midStart[i].inst < |log|
    ensures SearchState(log, Waiting(midStart), q, {}, Waiting(midStart), [])
  {
    forall x | x in Waiting(midStart) ensures x < |log| && Reached(log, Waiting(midStart), q, x) {
      StartReached(log, Waiting(midStart), q, x);
    }
  }

  lemma {:induction false} BoundedSet(s: set<nat>, n: nat)
    requires forall x :: x in s ==> x < n
    ensures |s| <= n
  {
    if n > 0 {
      BoundedSet(s - {n - 1}, n - 1);
      assert s <= s - {n - 1} + {n - 1};
      if n - 1 in s {
        assert s == s - {n - 1} + {n - 1};
      } else {
        assert s == s - {n - 1};
      }
    } else {
      assert s == {};
    }
  }

  lemma WaitingInside(log: seq<LogEntry>, starts: set<nat>, q: Query, done: set<nat>, waiting: set<nat>,
                      list: seq<nat>, x: nat)
    requires SearchState(log, starts, q, done, waiting, list) && x in waiting
    ensures x < |log|
  {
  }

  lemma FollowedElements(e: LogEntry)
    ensures Elements(Followed(e)) == if |e.prev| > 0 && e.prev[0] != 0 then Elements(e.prev) else {}
  {
  }

  // ----- What the placeholder hides

  /** `y` really comes before `x`, which defines nothing. */
  ghost predicate ComesBefore(log: seq<LogEntry>, q: Query, x: nat, y: nat) {
    x < |log| && y < |log| && !Defines(log[x], q) && y in log[x].prev && y != 0
  }

  ghost predicate RealWalk(log: seq<LogEntry>, starts: set<nat>, q: Query, w: seq<nat>) {
    && w != [] && w[0] in starts && w[0] < |log|
    && forall i, j :: 0 <= i && j == i + 1 && j < |w| ==> ComesBefore(log, q, w[i], w[j])
  }

  /** Control can come from `x` to a start with no definition in between. */
  ghost predicate ReallyReached(log: seq<LogEntry>, starts: set<nat>, q: Query, x: nat) {
    exists w :: RealWalk(log, starts, q, w) && Last(w) == x
  }

  /** The list of `x` begins with the placeholder and goes on with another instruction: `tidy_inst_log`
      leaves such a list where a predecessor was entered three times. */
  ghost predicate Loses(log: seq<LogEntry>, q: Query, x: nat) {
    && x < |log| && log[x].prev != [] && log[x].prev[0] == 0
    && exists y: nat :: ComesBefore(log, q, x, y) && y != x
  }

  lemma {:induction false} RealWalkFound(log: seq<LogEntry>, starts: set<nat>, q: Query, w: seq<nat>)
    requires RealWalk(log, starts, q, w) && forall x :: !Loses(log, q, x)
    ensures Last(w) < |log| && Reached(log, starts, q, Last(w))
    decreases |w|
  {
    hide Defines, Reached;
    if |w| == 1 {
      StartReached(log, starts, q, w[0]);
    } else {
      var v := Front(w);
      forall i, j | 0 <= i && j == i + 1 && j < |v| ensures ComesBefore(log, q, v[i], v[j]) {
        assert ComesBefore(log, q, w[i], w[j]);
      }
      RealWalkFound(log, starts, q, v);
      var i, j := |w| - 2, |w| - 1;
      var x, y := w[i], w[j];
      assert ComesBefore(log, q, w[i], w[j]) && Last(v) == x;
      assert !Loses(log, q, x);
      if y != x {
        StepReached(log, starts, q, x, y);
      }
    }
  }

  /** What the search follows is real, except that it may end in entry 0. */
  lemma {:induction false} FollowedIsReal(log: seq<LogEntry>, starts: set<nat>, q: Query, w: seq<nat>)
    requires log != [] && log[0].prev == [] && ClearWalk(log, starts, q, w) && Last(w) != 0
    ensures RealWalk(log, starts, q, w)
  {
    hide Defines;
    forall i, j | 0 <= i && j == i + 1 && j < |w| ensures ComesBefore(log, q, w[i], w[j]) {
      assert Passes(log, q, w[i], w[j]);
      if j < |w| - 1 {
        var k := j + 1;
        assert Passes(log, q, w[j], w[k]);
      }
    }
  }

  /** From `x` itself the search goes nowhere, so it misses what comes before. */
  lemma LosesMisses(log: seq<LogEntry>, q: Query, x: nat, y: nat)
    requires x < |log| && log[x].prev != [] && log[x].prev[0] == 0 && ComesBefore(log, q, x, y) && y != x
    ensures ReallyReached(log, {x}, q, y) && !Reached(log, {x}, q, y)
  {
    hide Defines;
    assert RealWalk(log, {x}, q, [x, y]) && Last([x, y]) == y;
    forall w | ClearWalk(log, {x}, q, w) ensures Last(w) != y {
      assert w[0] == x && (|w| > 1 ==> Passes(log, q, w[0], w[1]));
    }
  }

  /** The search sees everything that is really reached, whatever it starts from, if and only if no
      list begins with the placeholder and goes on with another instruction. Entry 0 is blank. */
  lemma PlaceholderHides(log: seq<LogEntry>, q: Query)
    requires log != [] && log[0].prev == []
    ensures (forall starts: set<nat>, z: nat :: z != 0 ==>
              (Reached(log, starts, q, z) <==> ReallyReached(log, starts, q, z)))
            <==> (forall x :: !Loses(log, q, x))
  {
    hide Defines, Reached, ReallyReached, Loses;
    if x :| Loses(log, q, x) {
      var y := Hidden(log, q, x);
      assert !(Reached(log, {x}, q, y) <==> ReallyReached(log, {x}, q, y));
    } else {
      forall starts: set<nat>, z: nat | z != 0
        ensures Reached(log, starts, q, z) <==> ReallyReached(log, starts, q, z)
      {
        SameReached(log, starts, q, z);
      }
    }
  }

  lemma Hidden(log: seq<LogEntry>, q: Query, x: nat) returns (y: nat)
    requires Loses(log, q, x)
    ensures y != 0 && ReallyReached(log, {x}, q, y) && !Reached(log, {x}, q, y)
  {
    y :| ComesBefore(log, q, x, y) && y != x;
    LosesMisses(log, q, x, y);
  }

  lemma SameReached(log: seq<LogEntry>, starts: set<nat>, q: Query, z: nat)
    requires log != [] && log[0].prev == [] && z != 0 && forall x :: !Loses(log, q, x)
    ensures Reached(log, starts, q, z) <==> ReallyReached(log, starts, q, z)
  {
    hide Defines, Loses;
    if Reached(log, starts, q, z) {
      var w :| ClearWalk(log, starts, q, w) && Last(w) == z;
      FollowedIsReal(log, starts, q, w);
    }
    if ReallyReached(log, starts, q, z) {
      var w :| RealWalk(log, starts, q, w) && Last(w) == z;
      RealWalkFound(log, starts, q, w);
    }
  }

  /** So it does where the placeholder only ever stands alone. */
  lemma PlaceholderAlone(log: seq<LogEntry>, q: Query, starts: set<nat>, d: nat)
    requires log != [] && log[0].prev == [] && d != 0
    requires forall x :: 0 <= x < |log| && 0 in log[x].prev ==> log[x].prev == [0]
    ensures ReachingDefinition(log, starts, q, d) <==> d < |log| && Defines(log[d], q) && ReallyReached(log, starts, q, d)
  {
    hide Defines, Reached, ReallyReached;
    SameReached(log, starts, q, d);
  }

  /** Entry 1 writes the register and comes before entry 2, whose list is [0, 1]: searching from 2,
      the definition is missed. */
  lemma DefinitionMissed(blank: LogEntry, def: LogEntry, use: LogEntry, q: Query)
    requires blank.prev == [] && def.prev == [] && use.prev == [0, 1] && Defines(def, q) && !Defines(use, q)
    ensures var log := [blank, def, use];
      Defines(log[1], q) && ReallyReached(log, {2}, q, 1) && !ReachingDefinition(log, {2}, q, 1)
  {
    LosesMisses([blank, def, use], q, 2, 1);
  }
}
