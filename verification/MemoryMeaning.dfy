/** What lowered memory instructions leave, operand by operand. */
module MemoryMeaning {
  import opened Rtl
  import opened MemoryOperands

  /** What a source operand stands for: memory in the space of its base, a register or an immediate. */
  ghost predicate Means(o: LlOperand, sc: LlOperand, m: Machine, v: Word)
    requires ValidOperand(o) && ValidOperand(sc)
  {
    && (o.kind == KindReg ==> v == Reg(m, o.operand[0].value))
    && (o.kind == KindImm ==> v == o.operand[0].value)
    && (o.kind == KindIndScale ==> v == Cell(m, Space(sc), EffectiveAddress(sc, m)))
    && (o.kind == KindEmpty ==> v == 0)
  }

  /** A memory destination gets the operator applied to both sources, at its own width. */
  lemma MemoryResult(alu: Alu, inst: LlInst, m: Machine, m': Machine, a: Word, b: Word)
    requires MemoryInst(inst) && inst.dstA.kind == KindIndScale && SameEffect(alu, inst, m, m')
    requires var sc := AddressOperand(inst); Means(inst.srcA, sc, m, a) && Means(inst.srcB, sc, m, b)
    ensures var sc := AddressOperand(inst);
      Cell(m', Space(sc), EffectiveAddress(sc, m)) == alu(inst.opcode, inst.dstA.size, a, b)
  {
    hide EffectiveAddress;
  }

  /** So does a register destination, at the width of the register. */
  lemma RegisterResult(alu: Alu, inst: LlInst, m: Machine, m': Machine, a: Word, b: Word)
    requires MemoryInst(inst) && inst.dstA.kind == KindReg && SameEffect(alu, inst, m, m')
    requires var sc := AddressOperand(inst); Means(inst.srcA, sc, m, a) && Means(inst.srcB, sc, m, b)
    ensures Reg(m', inst.dstA.operand[0].value) == alu(inst.opcode, inst.dstA.operand[0].size, a, b)
    ensures m'.cells == m.cells
  {
    hide EffectiveAddress;
  }

  /** Adding a register to 64 bits of memory. */
  lemma AddToMemory(alu: Alu, inst: LlInst, m: Machine, m': Machine)
    requires PlainAlu(alu) && MemoryInst(inst) && inst.opcode == Add && SameEffect(alu, inst, m, m')
    requires inst.dstA.kind == KindIndScale && inst.dstA.size == 64 && inst.srcA.kind == KindIndScale && inst.srcB.kind == KindReg
    ensures var a := EffectiveAddress(inst.dstA, m);
      Cell(m', Space(inst.dstA), a) == Wrap(Cell(m, Space(inst.dstA), a) + Reg(m, inst.srcB.operand[0].value))
  {
    hide EffectiveAddress, SameEffect;
    var sc := AddressOperand(inst);
    SameAddress(inst, m);
    MemoryResult(alu, inst, m, m', Cell(m, Space(sc), EffectiveAddress(sc, m)), Reg(m, inst.srcB.operand[0].value));
  }

  lemma SameAddress(inst: LlInst, m: Machine)
    requires MemoryInst(inst) && inst.dstA.kind == KindIndScale
    ensures var sc := AddressOperand(inst);
      EffectiveAddress(inst.dstA, m) == EffectiveAddress(sc, m) && Space(inst.dstA) == Space(sc)
  {
  }
}
