/** Executing the lowered pushes and pops: the scanned stores give every saved register back. */
module StackRuns {
  import opened Rtl
  import opened StackCode
  import opened Execute

  // ----- Runs

  /** Code of covered instructions that add and subtract immediates only. */
  ghost predicate Runnable(code: seq<Instruction>) {
    forall k: nat :: k < |code| ==> RunnableInst(code[k])
  }

  ghost predicate RunnableInst(i: Instruction) {
    Executable(i) && (i.opcode == Add || i.opcode == Sub ==>
      i.dstA.valueSize == 64 && i.srcB.store == StoreDirect && i.srcB.indirect == IndDirect)
  }

  ghost function Run(code: seq<Instruction>, s: State): (r: Outcome)
    requires Runnable(code)
  {
    if code == [] then Done(s)
    else if Run(code[..|code| - 1], s).Exit? then Exit
    else StepState(Run(code[..|code| - 1], s).s, code[|code| - 1])
  }

  lemma RunSnoc(code: seq<Instruction>, i: Instruction, s: State)
    requires Runnable(code) && RunnableInst(i)
    ensures Runnable(code + [i])
    ensures Run(code + [i], s) == if Run(code, s).Exit? then Exit else StepState(Run(code, s).s, i)
  {
    assert (code + [i])[..|code|] == code;
  }

  lemma {:induction false} RunAppend(code: seq<Instruction>, more: seq<Instruction>, s: State)
    requires Runnable(code) && Runnable(more)
    ensures Runnable(code + more)
    ensures Run(code + more, s) == if Run(code, s).Exit? then Exit else Run(more, Run(code, s).s)
  {
    hide StepState, RunnableInst;
    if more == [] {
      assert code + more == code;
    } else {
      var n := |more| - 1;
      RunAppend(code, more[..n], s);
      RunSnoc(code + more[..n], more[n], s);
      assert code + more == (code + more[..n]) + [more[n]];
    }
  }

  /** A run that does not end early changes the values as the plain meaning of its code says. */
  lemma {:induction false} RunRefines(alu: Alu, code: seq<Instruction>, s: State, m: Machine)
    requires PlainAlu(alu) && Runnable(code) && Represents(s, m) && Run(code, s).Done?
    ensures Represents(Run(code, s).s, Exec(alu, code, m))
  {
    hide Represents, StepState, Step, PlainAlu;
    if code != [] {
      var n := |code| - 1;
      RunRefines(alu, code[..n], s, m);
      var s1 := Run(code[..n], s).s;
      assert RunnableInst(code[n]);
      ImmediateExact(s1, code[n]);
      StepRefines(alu, s1, Exec(alu, code[..n], m), code[n]);
    }
  }

  lemma ImmediateExact(s: State, i: Instruction)
    requires RunnableInst(i)
    ensures ExactSum(s, i)
  {
  }

  // ----- Pushes and pops run to their end

  /** The stack pointer is known. */
  ghost predicate SpKnown(s: State) {
    REG_SP in s.regs && s.regs[REG_SP].valueScope != 0
  }

  /** Known, or not met yet: the first push enters it. */
  ghost predicate SpUsable(s: State) {
    REG_SP in s.regs ==> s.regs[REG_SP].valueScope != 0
  }

  lemma SpSums(s: State, up: bool, bytes: Word)
    requires SpUsable(s)
    ensures var i := if up then AddSp(bytes) else SubSp(bytes);
      RunnableInst(i) && StepState(s, i).Done? && SpKnown(StepState(s, i).s)
  {
  }

  lemma SlotStores(s: State, o: LlOperand)
    requires SpKnown(s) && SavedOperand(o)
    ensures var i := PushCode(o)[1]; RunnableInst(i) && StepState(s, i).Done? && SpKnown(StepState(s, i).s)
  {
  }

  lemma SlotLoads(s: State, o: LlOperand)
    requires SpKnown(s) && SavedOperand(o)
    ensures var i := PopCode(o)[0]; RunnableInst(i) && StepState(s, i).Done? && SpKnown(StepState(s, i).s)
  {
  }

  ghost predicate RunsOn(code: seq<Instruction>, s: State) {
    Runnable(code) && Run(code, s).Done? && SpKnown(Run(code, s).s)
  }

  lemma PairRuns(i: Instruction, j: Instruction, s: State)
    requires RunnableInst(i) && RunnableInst(j) && StepState(s, i).Done?
    requires StepState(StepState(s, i).s, j).Done? && SpKnown(StepState(StepState(s, i).s, j).s)
    ensures RunsOn([i, j], s)
  {
    hide StepState, RunnableInst;
    RunSnoc([], i, s);
    RunSnoc([] + [i], j, s);
    assert [] + [i] + [j] == [i, j];
  }

  lemma PushRuns(s: State, o: LlOperand)
    requires SpUsable(s) && SavedOperand(o)
    ensures RunsOn(PushCode(o), s)
  {
    hide StepState, RunnableInst, RunsOn;
    SpSums(s, false, o.size / 8);
    var i, j := PushCode(o)[0], PushCode(o)[1];
    SlotStores(StepState(s, i).s, o);
    PairRuns(i, j, s);
    assert PushCode(o) == [i, j];
  }

  lemma PopRuns(s: State, o: LlOperand)
    requires SpKnown(s) && SavedOperand(o)
    ensures RunsOn(PopCode(o), s)
  {
    hide StepState, RunnableInst, RunsOn;
    SlotLoads(s, o);
    var i, j := PopCode(o)[0], PopCode(o)[1];
    SpSums(StepState(s, i).s, true, o.size / 8);
    PairRuns(i, j, s);
    assert PopCode(o) == [i, j];
  }

  /** A POP ends the program exactly when the stack pointer is not known. */
  lemma PopEnds(s: State, o: LlOperand)
    requires SavedOperand(o)
    ensures Runnable(PopCode(o)) && (Run(PopCode(o), s).Exit? <==> !SpKnown(s))
  {
    var i, j := PopCode(o)[0], PopCode(o)[1];
    assert RunnableInst(i) && RunnableInst(j);
    RunSnoc([], i, s);
    RunSnoc([] + [i], j, s);
    assert [] + [i] + [j] == PopCode(o);
    assert StepState(s, i).Done?;
  }

  lemma {:induction false} PushAllRuns(s: State, ops: seq<LlOperand>)
    requires SpUsable(s) && (ops == [] ==> SpKnown(s)) && Saved(ops)
    ensures RunsOn(PushAll(ops), s)
  {
    if ops != [] {
      var n := |ops| - 1;
      if n > 0 {
        PushAllRuns(s, ops[..n]);
      }
      PushRuns(Run(PushAll(ops[..n]), s).s, ops[n]);
      RunAppend(PushAll(ops[..n]), PushCode(ops[n]), s);
    }
  }

  lemma {:induction false} PopAllRuns(s: State, ops: seq<LlOperand>)
    requires SpKnown(s) && Saved(ops)
    ensures RunsOn(PopAll(ops), s)
    decreases |ops|
  {
    if ops != [] {
      var n := |ops| - 1;
      PopRuns(s, ops[n]);
      PopAllRuns(Run(PopCode(ops[n]), s).s, ops[..n]);
      RunAppend(PopCode(ops[n]), PopAll(ops[..n]), s);
    }
  }

  // ----- The whole discipline

  /** What the code between the pushes and the pops must leave alone. */
  ghost predicate KeepsFrame(n: nat, sp: Word, s1: State, s2: State) {
    && SpKnown(s2)
    && Held(s2.regs, REG_SP) == Held(s1.regs, REG_SP)
    && forall k: nat :: 1 <= k <= n ==> Held(s2.stack, Slot(sp, k)) == Held(s1.stack, Slot(sp, k))
  }

  /** A machine with the values of a state. */
  ghost function MachineOf(s: State): (m: Machine)
    ensures Represents(s, m)
  {
    var regs := map r | r in s.regs :: ValueOf(s.regs[r]);
    var cells := map a | a in s.stack :: (IndStack, a) := ValueOf(s.stack[a]);
    Machine(regs, cells)
  }

  function PlainOperator(opcode: Opcode, width: int, a: Word, b: Word): (v: Word) {
    match opcode
    case Add => Wrap(a + b)
    case Sub => Wrap(a - b)
    case Imul => Wrap(a * b)
    case _ => a
  }

  /** There is a plain meaning. */
  ghost function SomeAlu(): (alu: Alu)
    ensures PlainAlu(alu)
  {
    PlainOperator
  }

  /** Pushes of any registers but the stack pointer, fewer than 2^61, then any code that keeps the
      stack pointer and the pushed slots, then the pops in reverse: nothing ends the execution,
      every pushed register and the stack pointer have their values from before the pushes, and
      every other register the value it had before the pops. The stack pointer need not be in the
      store before the first push. */
  lemma SavedRegistersReturn(ops: seq<LlOperand>, s0: State, s2: State)
    requires Saved(ops) && |ops| < 0x2000_0000_0000_0000
    requires SpUsable(s0) && (ops == [] ==> SpKnown(s0))
    requires RunsOn(PushAll(ops), s0) ==> KeepsFrame(|ops|, Held(s0.regs, REG_SP), Run(PushAll(ops), s0).s, s2)
    ensures RunsOn(PushAll(ops), s0) && RunsOn(PopAll(ops), s2)
    ensures var s3 := Run(PopAll(ops), s2).s;
      && Held(s3.regs, REG_SP) == Held(s0.regs, REG_SP)
      && (forall k: nat :: k < |ops| ==> Held(s3.regs, RegOf(ops[k])) == Held(s0.regs, RegOf(ops[k])))
      && (forall r: Word :: r != REG_SP && NotSaved(ops, r) ==> Held(s3.regs, r) == Held(s2.regs, r))
  {
    hide Run, Exec, PlainAlu, PushAll, PopAll, MachineOf;
    PushAllRuns(s0, ops);
    PopAllRuns(s2, ops);
    var alu, m0, m2 := SomeAlu(), MachineOf(s0), MachineOf(s2);
    RunRefines(alu, PushAll(ops), s0, m0);
    var m1 := Exec(alu, PushAll(ops), m0);
    assert SameSlots(|ops|, Reg(m0, REG_SP), m1, m2);
    PushPopRestores(alu, ops, m0, m2);
    RunRefines(alu, PopAll(ops), s2, m2);
  }

  // ----- A whole function frame

  ghost predicate Known(s: State, r: Word) {
    r in s.regs && s.regs[r].valueScope != 0
  }

  /** The instruction runs, its destination register is then known, and no register is forgotten. */
  ghost predicate RunsInto(s: State, i: Instruction, dst: Word) {
    && RunnableInst(i) && StepState(s, i).Done?
    && Known(StepState(s, i).s, dst) && forall r: Word :: Known(s, r) ==> Known(StepState(s, i).s, r)
  }

  lemma MoveRuns(s: State, src: Word, dst: Word, unset: Operand)
    requires Known(s, src) && Covered(unset)
    ensures RunsInto(s, Instruction(Mov, 0, RegisterOperand(src), unset, RegisterOperand(dst)), dst)
  {
  }

  lemma LoadRuns(s: State, dst: Word)
    requires SpKnown(s)
    ensures RunsInto(s, Instruction(Load, 0, StackTop(64), SP_OPERAND, RegisterOperand(dst)), dst)
  {
  }

  lemma AddRuns(s: State, bytes: Word)
    requires SpKnown(s)
    ensures RunsInto(s, AddSp(bytes), REG_SP)
  {
  }

  lemma NopRuns(s: State, o: Operand)
    requires Covered(o)
    ensures var i := Instruction(Nop, 0, o, o, o); RunnableInst(i) && StepState(s, i) == Done(s)
  {
  }

  lemma RunOn(code: seq<Instruction>, i: Instruction, s: State, dst: Word)
    requires Runnable(code) && Run(code, s).Done? && RunsInto(Run(code, s).s, i, dst)
    ensures Runnable(code + [i]) && Run(code + [i], s) == StepState(Run(code, s).s, i)
  {
    RunSnoc(code, i, s);
  }

  lemma PrologueRuns(s: State, bp: LlOperand, unset: Operand)
    requires SpUsable(s) && SavedOperand(bp) && Covered(unset)
    ensures Runnable(PrologueCode(bp, unset)) && Run(PrologueCode(bp, unset), s).Done?
  {
    hide StepState, RunnableInst, Run, RunsInto;
    PushRuns(s, bp);
    var s1 := Run(PushCode(bp), s).s;
    MoveRuns(s1, REG_SP, REG_BP, unset);
    RunOn(PushCode(bp), Instruction(Mov, 0, SP_OPERAND, unset, BP_OPERAND), s, REG_BP);
    assert RunsInto(s1, Instruction(Mov, 0, SP_OPERAND, unset, BP_OPERAND), REG_BP);
    assert Run(PrologueCode(bp, unset), s).Done? by { RunsDone(s1, Instruction(Mov, 0, SP_OPERAND, unset, BP_OPERAND), REG_BP); }
  }

  lemma RunsDone(s: State, i: Instruction, dst: Word)
    requires RunsInto(s, i, dst)
    ensures RunnableInst(i) && StepState(s, i).Done? && Known(StepState(s, i).s, dst)
    ensures forall r: Word :: Known(s, r) ==> Known(StepState(s, i).s, r)
  {
  }

  lemma EpilogueRuns(s: State, unset: Operand)
    requires Known(s, REG_BP) && Covered(unset)
    ensures Runnable(LeaveCode(unset) + RetCode()) && Run(LeaveCode(unset) + RetCode(), s).Done?
  {
    hide StepState, RunnableInst, Run, RunsInto, Known;
    var c0 := Instruction(Mov, 0, BP_OPERAND, unset, SP_OPERAND);
    var c1 := Instruction(Load, 0, StackTop(64), SP_OPERAND, BP_OPERAND);
    var c3 := Instruction(Load, 0, StackTop(64), SP_OPERAND, TMP1_OPERAND);
    var c5 := Instruction(Nop, 0, AX_OPERAND, AX_OPERAND, AX_OPERAND);
    var c6 := Instruction(Mov, 0, TMP1_OPERAND, TMP1_OPERAND, IP_OPERAND);
    NoRun(s);
    MoveRuns(s, REG_BP, REG_SP, unset);
    var s1 := OneMore([], c0, s, s, REG_SP);
    var k1 := [] + [c0];
    SpFromKnown(s1);
    LoadRuns(s1, REG_BP);
    var s2 := OneMore(k1, c1, s, s1, REG_BP);
    var k2 := k1 + [c1];
    SpFromKnown(s2);
    AddRuns(s2, 8);
    var s3 := OneMore(k2, AddSp(8), s, s2, REG_SP);
    var k3 := k2 + [AddSp(8)];
    SpFromKnown(s3);
    LoadRuns(s3, REG_TMP1);
    var s4 := OneMore(k3, c3, s, s3, REG_TMP1);
    var k4 := k3 + [c3];
    SpFromKnown(s4);
    AddRuns(s4, 8);
    var s5 := OneMore(k4, AddSp(8), s, s4, REG_SP);
    var k5 := k4 + [AddSp(8)];
    NopRuns(s5, AX_OPERAND);
    RunSnoc(k5, c5, s);
    MoveRuns(s5, REG_TMP1, REG_IP, TMP1_OPERAND);
    var s6 := OneMore(k5 + [c5], c6, s, s5, REG_IP);
    assert LeaveCode(unset) + RetCode() == k5 + [c5] + [c6];
  }

  lemma NoRun(s: State)
    ensures Runnable([]) && Run([], s) == Done(s)
  {
  }

  lemma SpFromKnown(s: State)
    ensures Known(s, REG_SP) <==> SpKnown(s)
  {
  }

  lemma OneMore(code: seq<Instruction>, i: Instruction, s: State, s1: State, dst: Word) returns (s2: State)
    requires Runnable(code) && Run(code, s) == Done(s1) && RunsInto(s1, i, dst)
    ensures Runnable(code + [i]) && Run(code + [i], s) == Done(s2)
    ensures Known(s2, dst) && forall r: Word :: Known(s1, r) ==> Known(s2, r)
  {
    RunOn(code, i, s, dst);
    s2 := StepState(s1, i).s;
  }

  /** What the body must leave alone: BP, known and pointing at its old value, and the return address. */
  ghost predicate KeepsCaller(s0: State, s1: State, s2: State) {
    var bp, sp := Held(s1.regs, REG_BP), Held(s0.regs, REG_SP);
    && Known(s2, REG_BP) && Held(s2.regs, REG_BP) == bp
    && Held(s2.stack, bp) == Held(s1.stack, bp) && Held(s2.stack, sp) == Held(s0.stack, sp)
  }

  /** Prologue, any body that keeps BP, its saved value and the return address, LEAVE and RET: nothing
      ends the execution, BP and the stack pointer have the caller's values, control is at the return
      address, and every other register and all of the stack are as the body left them. */
  lemma FrameRuns(bp: LlOperand, unset: Operand, s0: State, s2: State)
    requires SavedOperand(bp) && RegOf(bp) == REG_BP && Covered(unset) && SpUsable(s0)
    requires Runnable(PrologueCode(bp, unset)) && Run(PrologueCode(bp, unset), s0).Done? ==>
      KeepsCaller(s0, Run(PrologueCode(bp, unset), s0).s, s2)
    ensures Runnable(PrologueCode(bp, unset)) && Run(PrologueCode(bp, unset), s0).Done?
    ensures Runnable(LeaveCode(unset) + RetCode()) && Run(LeaveCode(unset) + RetCode(), s2).Done?
    ensures var s3 := Run(LeaveCode(unset) + RetCode(), s2).s;
      && Held(s3.regs, REG_BP) == Held(s0.regs, REG_BP)
      && Held(s3.regs, REG_SP) == Wrap(Held(s0.regs, REG_SP) + 8)
      && Held(s3.regs, REG_IP) == Held(s0.stack, Held(s0.regs, REG_SP))
      && (forall r: Word :: r !in {REG_BP, REG_SP, REG_IP, REG_TMP1} ==> Held(s3.regs, r) == Held(s2.regs, r))
      && (forall a: Word :: Held(s3.stack, a) == Held(s2.stack, a))
  {
    hide Run, Exec, PlainAlu, PrologueCode, LeaveCode, RetCode, MachineOf;
    PrologueRuns(s0, bp, unset);
    EpilogueRuns(s2, unset);
    var alu, m0, m2 := SomeAlu(), MachineOf(s0), MachineOf(s2);
    RunRefines(alu, PrologueCode(bp, unset), s0, m0);
    var m1 := Exec(alu, PrologueCode(bp, unset), m0);
    FrameReturns(alu, bp, unset, m0, m2);
    RunRefines(alu, LeaveCode(unset) + RetCode(), s2, m2);
    var m3 := Exec(alu, LeaveCode(unset) + RetCode(), m2);
    assert forall a: Word :: Cell(m3, IndStack, a) == Cell(m2, IndStack, a);
  }
}
