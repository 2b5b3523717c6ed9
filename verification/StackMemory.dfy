/** Memory operands over the stack pointer and BP against PUSH and POP: they name the same cells. */
module StackMemory {
  import opened Rtl
  import opened MemoryOperands
  import opened StackCode

  /** The address in register `base`, without index and displacement. */
  ghost predicate Plainly(sc: LlOperand, base: Word) {
    ValidOperand(sc) && sc.kind == KindIndScale && BaseReg(sc) == base && IndexReg(sc) == 0 && Disp(sc) == 0
  }

  /** MOV from that address to register `q`. */
  ghost predicate LoadsFrom(inst: LlInst, base: Word, q: Word) {
    && MemoryInst(inst) && inst.opcode == Mov && Plainly(inst.srcA, base) && inst.srcB.kind == KindEmpty
    && inst.dstA.kind == KindReg && RegOf(inst.dstA) == q
  }

  /** MOV from register `r` to that address. */
  ghost predicate StoresTo(inst: LlInst, base: Word, r: Word) {
    && MemoryInst(inst) && inst.opcode == Mov && Plainly(inst.dstA, base) && inst.srcB.kind == KindEmpty
    && inst.srcA.kind == KindReg && RegOf(inst.srcA) == r
  }

  lemma PlainAddress(sc: LlOperand, base: Word, m: Machine)
    requires Plainly(sc, base) && base != 0
    ensures EffectiveAddress(sc, m) == Reg(m, base)
  {
  }

  /** What such a load leaves in its register is the stack cell, for SP and BP. */
  lemma LoadedCell(alu: Alu, inst: LlInst, base: Word, q: Word, m: Machine, m': Machine)
    requires PlainAlu(alu) && LoadsFrom(inst, base, q) && (base == 0x28 || base == 0x30) && SameEffect(alu, inst, m, m')
    ensures Reg(m', q) == Cell(m, IndStack, Reg(m, base))
  {
    PlainAddress(inst.srcA, base, m);
  }

  lemma StoredCell(alu: Alu, inst: LlInst, base: Word, r: Word, m: Machine, m': Machine)
    requires PlainAlu(alu) && StoresTo(inst, base, r) && (base == 0x28 || base == 0x30) && SameEffect(alu, inst, m, m')
    ensures Cell(m', IndStack, Reg(m, base)) == Reg(m, r) && Reg(m', REG_SP) == Reg(m, REG_SP)
  {
    PlainAddress(inst.dstA, base, m);
    var x := EffectiveAddress(inst.dstA, m);
    assert ArchStep(alu, inst, m).cells == m.cells[(Space(inst.dstA), x) := Result(alu, inst, m)];
    assert ArchStep(alu, inst, m).regs == m.regs;
  }

  /** Other bases than SP and BP, which are 0x28 and 0x30, never reach the stack, and these two nothing
      else. */
  lemma StoreStays(alu: Alu, inst: LlInst, m: Machine, m': Machine, space: Indirect, a: Word)
    requires MemoryInst(inst) && SameEffect(alu, inst, m, m')
    requires var base := BaseReg(AddressOperand(inst));
      if space == IndStack then base < 0x28 || base > 0x30 else space != IndMem || (0x28 <= base <= 0x30)
    ensures Cell(m', space, a) == Cell(m, space, a)
  {
  }

  /** What has been pushed is read at the stack pointer. */
  method PushThenLoad(d: DisInstructions, o: LlOperand, inst: LlInst, ghost q: Word)
    requires SavedOperand(o) && LoadsFrom(inst, REG_SP, q)
    modifies d
    ensures |d.code| >= |old(d.code)| && d.code[..|old(d.code)|] == old(d.code)
    ensures forall alu: Alu, m: Machine :: PlainAlu(alu) ==>
      Reg(Exec(alu, d.code[|old(d.code)|..], m), q) == Reg(m, RegOf(o))
  {
    hide Exec, PlainAlu, IsPush, Pushed, SameEffect, MemoryInst;
    ghost var n := |d.code|;
    ConvertPush(d, o);
    ghost var push, k := d.code[n..], |d.code|;
    assert push == PushCode(o);
    assert IndexReg(AddressOperand(inst)) == 0;
    var ok := ConvertMemoryInst(d, inst, 0);
    ghost var load := d.code[k..];
    assert d.code[n..] == push + load;
    forall alu: Alu, m: Machine | PlainAlu(alu) ensures Reg(Exec(alu, d.code[n..], m), q) == Reg(m, RegOf(o)) {
      ExecAppend(alu, push, load, m);
      PushPushes(alu, o, m);
      var m1 := Exec(alu, push, m);
      LoadedCell(alu, inst, REG_SP, q, m1, Exec(alu, load, m1));
      PushedCell(o, m, m1);
    }
  }

  lemma PushedCell(o: LlOperand, m: Machine, m1: Machine)
    requires SavedOperand(o) && Pushed(o, m, m1)
    ensures Cell(m1, IndStack, Reg(m1, REG_SP)) == Reg(m, RegOf(o))
  {
  }

  /** What has been stored at the stack pointer is popped. */
  method StoreThenPop(d: DisInstructions, inst: LlInst, o: LlOperand, ghost r: Word)
    requires StoresTo(inst, REG_SP, r) && SavedOperand(o)
    modifies d
    ensures |d.code| >= |old(d.code)| && d.code[..|old(d.code)|] == old(d.code)
    ensures forall alu: Alu, m: Machine :: PlainAlu(alu) ==>
      Reg(Exec(alu, d.code[|old(d.code)|..], m), RegOf(o)) == Reg(m, r)
  {
    hide Exec, PlainAlu, IsPop, Popped, SameEffect, MemoryInst;
    ghost var n := |d.code|;
    assert IndexReg(AddressOperand(inst)) == 0 by { StoreAddress(inst, r); }
    var ok := ConvertMemoryInst(d, inst, 0);
    ghost var store, k := d.code[n..], |d.code|;
    ConvertPop(d, o);
    assert d.code[n..] == store + PopCode(o);
    forall alu: Alu, m: Machine | PlainAlu(alu) ensures Reg(Exec(alu, d.code[n..], m), RegOf(o)) == Reg(m, r) {
      ExecAppend(alu, store, PopCode(o), m);
      var m1 := Exec(alu, store, m);
      StoredCell(alu, inst, REG_SP, r, m, m1);
      PopPops(alu, o, m1);
      PoppedCell(o, m1, Exec(alu, PopCode(o), m1));
    }
  }

  lemma StoreAddress(inst: LlInst, r: Word)
    requires StoresTo(inst, REG_SP, r)
    ensures AddressOperand(inst) == inst.dstA
  {
  }

  lemma PoppedCell(o: LlOperand, m: Machine, m': Machine)
    requires SavedOperand(o) && Popped(o, m, m')
    ensures Reg(m', RegOf(o)) == Cell(m, IndStack, Reg(m, REG_SP))
  {
  }

  /** Behind the prologue BP addresses the caller's BP. */
  lemma SavedBpRead(alu: Alu, bp: LlOperand, unset: Operand, inst: LlInst, q: Word, m: Machine, m': Machine)
    requires PlainAlu(alu) && SavedOperand(bp) && RegOf(bp) == REG_BP && LoadsFrom(inst, REG_BP, q)
    requires SameEffect(alu, inst, Exec(alu, PrologueCode(bp, unset), m), m')
    ensures Reg(m', q) == Reg(m, REG_BP)
  {
    hide Exec, PlainAlu, PrologueCode, SameEffect, MemoryInst;
    PrologueEffect(alu, bp, unset, m);
    var m1 := Exec(alu, PrologueCode(bp, unset), m);
    LoadedCell(alu, inst, REG_BP, q, m1, m');
    WrittenCell(m, m1, Reg(m1, REG_BP), Reg(m, REG_BP));
  }
}
