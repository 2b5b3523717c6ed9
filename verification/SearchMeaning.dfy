/** What counts as a definition, against what instructions do, and what backward search finds for a
    run of the program. */
module SearchMeaning {
  import opened Graph
  import opened Rtl
  import opened SearchBack

  /** The entry has the destination of the instruction. */
  ghost predicate EntryFor(e: LogEntry, i: Instruction) {
    e.dstStore == i.dstA.store && e.dstIndirect == i.dstA.indirect && e.dstIndex == i.dstA.index
  }

  predicate Copies(i: Instruction) {
    i.opcode == Load || i.opcode == StoreTo
  }

  // ----- Registers

  /** A copy of the register to itself. */
  predicate CopiesRegister(i: Instruction, r: Word) {
    Copies(i) && i.srcA.store == StoreReg && i.srcA.indirect == IndDirect && i.srcA.index == r
  }

  /** What is no definition of a register leaves it alone. */
  lemma RegisterKept(alu: Alu, e: LogEntry, i: Instruction, q: Query, r: Word, m: Machine)
    requires EntryFor(e, i) && q.regStack == 1 && q.init == r && !Defines(e, q)
    ensures Reg(Step(alu, i, m), r) == Reg(m, r)
  {
  }

  /** A machine on which the instruction changes the register. */
  lemma RegisterChanged(i: Instruction, r: Word) returns (alu: Alu, m: Machine)
    requires i.opcode != Nop && !CopiesRegister(i, r)
    requires i.dstA.store == StoreReg && i.dstA.indirect == IndDirect && i.dstA.index == r
    ensures Reg(Step(alu, i, m), r) != Reg(m, r)
  {
    alu := (o: Opcode, n: int, a: Word, b: Word) => 1;
    var o := i.srcA;
    if !Copies(i) {
      m := Machine(map[], map[]);
    } else if o.indirect == IndDirect && o.store == StoreDirect {
      m := Machine(map[r := if o.index == 0 then 1 else 0], map[]);
    } else if o.indirect == IndDirect {
      m := Machine(map[o.index := 1], map[]);
    } else {
      m := Machine(map[], map[(o.indirect, if o.store == StoreDirect then o.index else 0) := 1]);
    }
  }

  /** Other instructions than NOP are definitions of a register if and only if they can change it,
      on some machine and for some meaning of the operators; a copy of the register to itself counts
      as one although it cannot. */
  lemma RegisterDefinition(e: LogEntry, i: Instruction, q: Query, r: Word)
    requires EntryFor(e, i) && i.opcode != Nop && q.regStack == 1 && q.init == r
    ensures (exists alu: Alu, m: Machine :: Reg(Step(alu, i, m), r) != Reg(m, r))
            <==> Defines(e, q) && !CopiesRegister(i, r)
  {
    if Defines(e, q) && !CopiesRegister(i, r) {
      var alu, m := RegisterChanged(i, r);
    } else {
      forall alu: Alu, m: Machine ensures Reg(Step(alu, i, m), r) == Reg(m, r) {
        if !Defines(e, q) {
          RegisterKept(alu, e, i, q, r, m);
        }
      }
    }
  }

  /** A NOP with a register destination, as RET is lowered to, counts as a definition too. */
  lemma NopDefines(e: LogEntry, i: Instruction, q: Query)
    requires EntryFor(e, i) && i.opcode == Nop && q.regStack == 1
    requires i.dstA.store == StoreReg && i.dstA.indirect == IndDirect && i.dstA.index == q.init
    ensures Defines(e, q) && forall alu: Alu, m: Machine :: Step(alu, i, m) == m
  {
  }

  // ----- Stack slots

  function SlotOf(q: Query): (a: Word) {
    Wrap(q.init + q.offset)
  }

  /** The address register holds what the entry has recorded. */
  ghost predicate Addressed(e: LogEntry, i: Instruction, m: Machine) {
    Reg(m, i.dstA.index) == Wrap(e.indirectInit + e.indirectOffset)
  }

  /** A stack destination is a local, addressed by a register and recorded from the same start value
      as in the query. */
  ghost predicate Local(e: LogEntry, i: Instruction, q: Query) {
    q.offset < W64 && (i.dstA.indirect == IndStack ==>
      i.dstA.store == StoreReg && e.valueScope == 2 && e.indirectInit == q.init && e.indirectOffset < W64)
  }

  predicate CopiesSlot(i: Instruction, q: Query) {
    Copies(i) && i.srcA.indirect == IndStack
    && if i.srcA.store == StoreReg then i.srcA.index == i.dstA.index else i.srcA.index == SlotOf(q)
  }

  lemma SameOffset(init: nat, x: nat, y: nat)
    requires x < W64 && y < W64
    ensures Wrap(init + x) == Wrap(init + y) <==> x == y
  {
    if Wrap(init + x) == Wrap(init + y) {
      var j, k := (init + x) / W64, (init + y) / W64;
      assert init + x == W64 * j + Wrap(init + x) && init + y == W64 * k + Wrap(init + y);
      assert x - y == W64 * (j - k);
    }
  }

  lemma SlotKept(alu: Alu, e: LogEntry, i: Instruction, q: Query, m: Machine)
    requires EntryFor(e, i) && q.regStack == 2 && Local(e, i, q) && !Defines(e, q)
    requires i.dstA.indirect == IndStack ==> Addressed(e, i, m)
    ensures Cell(Step(alu, i, m), IndStack, SlotOf(q)) == Cell(m, IndStack, SlotOf(q))
  {
    if i.dstA.indirect == IndStack {
      SameOffset(q.init, e.indirectOffset, q.offset);
    }
  }

  lemma SlotChanged(e: LogEntry, i: Instruction, q: Query) returns (alu: Alu, m: Machine)
    requires EntryFor(e, i) && i.opcode != Nop && q.regStack == 2 && Defines(e, q) && !CopiesSlot(i, q)
    ensures Addressed(e, i, m) && Cell(Step(alu, i, m), IndStack, SlotOf(q)) != Cell(m, IndStack, SlotOf(q))
  {
    var a, r, s := SlotOf(q), i.dstA.index, i.srcA.index;
    var next: Word := if a == 0 then 1 else 0;
    var regs: map<Word, Word> := map[s := next][r := a];
    alu := (o: Opcode, n: int, x: Word, y: Word) => 1;
    var v := if Copies(i) then Read(Machine(regs, map[]), i.srcA) else 1;
    m := Machine(regs, map[(IndStack, a) := if v == 0 then 1 else 0]);
    assert Reg(m, r) == a && (s != r ==> Reg(m, s) != a);
    assert Copies(i) ==> Read(m, i.srcA) == v;
  }

  /** The same for a slot: on machines that hold the recorded address, a local entry is a definition
      if and only if the instruction can change the cell of the slot. */
  lemma SlotDefinition(e: LogEntry, i: Instruction, q: Query)
    requires EntryFor(e, i) && i.opcode != Nop && q.regStack == 2 && Local(e, i, q)
    ensures (exists alu: Alu, m: Machine :: Addressed(e, i, m)
              && Cell(Step(alu, i, m), IndStack, SlotOf(q)) != Cell(m, IndStack, SlotOf(q)))
            <==> Defines(e, q) && !CopiesSlot(i, q)
  {
    if Defines(e, q) && !CopiesSlot(i, q) {
      var alu, m := SlotChanged(e, i, q);
    } else {
      forall alu: Alu, m: Machine | Addressed(e, i, m)
        ensures Cell(Step(alu, i, m), IndStack, SlotOf(q)) == Cell(m, IndStack, SlotOf(q))
      {
        if !Defines(e, q) {
          SlotKept(alu, e, i, q, m);
        }
      }
    }
  }

  /** Slots of the caller are never definitions, although the instruction may write them. */
  lemma CallerSlotMissed(e: LogEntry, i: Instruction, q: Query)
    requires EntryFor(e, i) && q.regStack == 2 && e.valueScope == 1
    ensures !Defines(e, q)
  {
  }

  /** Start value and offset are compared one by one: another split of the same address is missed. */
  lemma SplitMissed(e: LogEntry, i: Instruction)
    requires EntryFor(e, i) && i.dstA.store == StoreReg && i.dstA.indirect == IndStack
    requires e.valueScope == 2 && e.indirectInit == 8 && e.indirectOffset == 0
    ensures var q := Query(2, 0, 8);
      !Defines(e, q) && forall m: Machine :: Addressed(e, i, m) ==> Reg(m, i.dstA.index) == SlotOf(q)
  {
  }

  // ----- Runs

  /** What the query asks about. */
  function Value(q: Query, m: Machine): (v: Word)
    requires q.init < W64
  {
    if q.regStack == 1 then Reg(m, q.init) else Cell(m, IndStack, SlotOf(q))
  }

  ghost predicate Matches(log: seq<LogEntry>, code: seq<Instruction>) {
    |code| == |log| && forall x :: 0 <= x < |log| ==> EntryFor(log[x], code[x])
  }

  /** The machine after the instructions of `w`, the last one first: `w` leads backwards. */
  ghost function Replay(alu: Alu, code: seq<Instruction>, w: seq<nat>, m: Machine): (m': Machine)
    requires forall k :: 0 <= k < |w| ==> w[k] < |code|
  {
    if w == [] then m else Step(alu, code[w[0]], Replay(alu, code, w[1..], m))
  }

  /** Stack destinations on the way are local and hold the recorded addresses when they are reached. */
  ghost predicate Regular(alu: Alu, log: seq<LogEntry>, code: seq<Instruction>, q: Query, w: seq<nat>, m: Machine)
    requires Matches(log, code) && forall k :: 0 <= k < |w| ==> w[k] < |code|
  {
    q.regStack == 2 && w != [] ==>
      && Local(log[w[0]], code[w[0]], q)
      && (code[w[0]].dstA.indirect == IndStack ==> Addressed(log[w[0]], code[w[0]], Replay(alu, code, w[1..], m)))
      && Regular(alu, log, code, q, w[1..], m)
  }

  lemma Kept(alu: Alu, e: LogEntry, i: Instruction, q: Query, m: Machine)
    requires EntryFor(e, i) && q.init < W64 && (q.regStack == 1 || q.regStack == 2) && !Defines(e, q)
    requires q.regStack == 2 ==> Local(e, i, q) && (i.dstA.indirect == IndStack ==> Addressed(e, i, m))
    ensures Value(q, Step(alu, i, m)) == Value(q, m)
  {
    if q.regStack == 1 {
      RegisterKept(alu, e, i, q, q.init, m);
    } else {
      SlotKept(alu, e, i, q, m);
    }
  }

  /** Nothing behind position `n` defines it: it is as it was there. */
  lemma {:induction false} KeptAlong(alu: Alu, log: seq<LogEntry>, code: seq<Instruction>, q: Query, w: seq<nat>, n: nat,
                                     m: Machine)
    requires Matches(log, code) && q.init < W64 && (q.regStack == 1 || q.regStack == 2) && n <= |w|
    requires (forall k :: 0 <= k < |w| ==> w[k] < |code|) && forall k :: 0 <= k < n ==> !Defines(log[w[k]], q)
    requires Regular(alu, log, code, q, w, m)
    ensures Value(q, Replay(alu, code, w, m)) == Value(q, Replay(alu, code, w[n..], m))
    decreases n
  {
    hide Defines, Step, Value, Local, Addressed;
    if n == 0 {
      assert w[0..] == w;
    } else {
      KeptAlong(alu, log, code, q, w[1..], n - 1, m);
      assert w[1..][n - 1..] == w[n..];
      Kept(alu, log[w[0]], code[w[0]], q, Replay(alu, code, w[1..], m));
    }
  }

  /** Backwards from a start over the predecessors that the search follows. */
  ghost predicate FollowedWalk(log: seq<LogEntry>, starts: set<nat>, w: seq<nat>) {
    && w != [] && w[0] in starts && (forall k :: 0 <= k < |w| ==> w[k] < |log|)
    && forall i, j :: 0 <= i && j == i + 1 && j < |w| ==> w[j] in Followed(log[w[i]])
  }

  lemma {:induction false} FirstDefinition(log: seq<LogEntry>, q: Query, w: seq<nat>, n: nat) returns (k: nat)
    requires n <= |w| && forall i :: 0 <= i < |w| ==> w[i] < |log|
    ensures k <= n && (forall i :: 0 <= i < k ==> !Defines(log[w[i]], q)) && (k < n ==> Defines(log[w[k]], q))
  {
    if n == 0 {
      k := 0;
    } else {
      k := FirstDefinition(log, q, w, n - 1);
      if k == n - 1 && !Defines(log[w[k]], q) {
        k := n;
      }
    }
  }

  /** Whatever way the program came, what a register or slot holds behind the start is what one of the
      reaching definitions left there, or it has not been written on the way. */
  lemma HeldComesFrom(alu: Alu, log: seq<LogEntry>, starts: set<nat>, code: seq<Instruction>, q: Query, w: seq<nat>,
                      m: Machine)
    requires Matches(log, code) && q.init < W64 && (q.regStack == 1 || q.regStack == 2)
    requires FollowedWalk(log, starts, w) && Regular(alu, log, code, q, w, m)
    ensures Value(q, Replay(alu, code, w, m)) == Value(q, m)
      || exists k: nat :: k < |w| && ReachingDefinition(log, starts, q, w[k])
           && Value(q, Replay(alu, code, w, m)) == Value(q, Replay(alu, code, w[k..], m))
  {
    hide Defines, Value, Step, Followed;
    var k := FirstDefinition(log, q, w, |w|);
    KeptAlong(alu, log, code, q, w, k, m);
    if k < |w| {
      var v := w[..k + 1];
      forall i, j | 0 <= i && j == i + 1 && j < |v| ensures Passes(log, q, v[i], v[j]) {
        assert w[j] in Followed(log[w[i]]);
      }
      assert ClearWalk(log, starts, q, v) && Last(v) == w[k];
    } else {
      assert w[k..] == [];
    }
  }

  /** And each reaching definition is one: on some way from it to a start the register keeps what it
      wrote. */
  lemma ReachingIsHeld(log: seq<LogEntry>, starts: set<nat>, code: seq<Instruction>, q: Query, d: nat) returns (w: seq<nat>)
    requires Matches(log, code) && q.init < W64 && q.regStack == 1 && ReachingDefinition(log, starts, q, d)
    ensures FollowedWalk(log, starts, w) && Last(w) == d
    ensures forall alu: Alu, m: Machine :: Value(q, Replay(alu, code, w, m)) == Value(q, Step(alu, code[d], m))
  {
    hide Defines, Value, Step, Followed;
    w :| ClearWalk(log, starts, q, w) && Last(w) == d;
    var n := |w| - 1;
    forall i, j | 0 <= i && j == i + 1 && j < |w| ensures w[j] in Followed(log[w[i]]) && !Defines(log[w[i]], q) {
      assert Passes(log, q, w[i], w[j]);
    }
    forall i | 0 <= i < n ensures !Defines(log[w[i]], q) {
      var j := i + 1;
      assert Passes(log, q, w[i], w[j]);
    }
    forall alu: Alu, m: Machine ensures Value(q, Replay(alu, code, w, m)) == Value(q, Step(alu, code[d], m)) {
      NoSlots(alu, log, code, q, w, m);
      KeptAlong(alu, log, code, q, w, n, m);
      assert w[n..] == [d] && [d][1..] == [];
    }
  }

  lemma NoSlots(alu: Alu, log: seq<LogEntry>, code: seq<Instruction>, q: Query, w: seq<nat>, m: Machine)
    requires Matches(log, code) && (forall k :: 0 <= k < |w| ==> w[k] < |code|) && q.regStack == 1
    ensures Regular(alu, log, code, q, w, m)
  {
  }
}
