/** RTL instructions and their plain meaning "A = B op C", and the low-level x86 operands they
    are made from. */
module Rtl {
  const W64: int := 0x1_0000_0000_0000_0000
  const W32: int := 0x1_0000_0000

  type Word = x: int | 0 <= x < 0x1_0000_0000_0000_0000

  const REG_AX: Word := 0x08
  const REG_SP: Word := 0x28
  const REG_BP: Word := 0x30
  const REG_IP: Word := 0x48
  const REG_TMP1: Word := 0x160
  const REG_TMP2: Word := 0x180

  datatype Store = StoreDirect | StoreReg
  datatype Indirect = IndDirect | IndMem | IndStack | IndIo

  datatype Opcode = Nop | Mov | Add | Sub | Mul | Imul | Sar | Sex | Trunc | Load | StoreTo | Other(code: int)

  datatype Operand = Operand(store: Store, indirect: Indirect, indirectSize: int, index: Word, valueSize: int)

  datatype Instruction = Instruction(opcode: Opcode, flags: int, srcA: Operand, srcB: Operand, dstA: Operand)

  // ----- Plain meaning

  /** Registers and memory cells; what has never been written is 0. A cell is known by its space
      and start address only, as in `search_store`. */
  datatype Machine = Machine(regs: map<Word, Word>, cells: map<(Indirect, Word), Word>)

  function Reg(m: Machine, r: Word): (v: Word) {
    if r in m.regs then m.regs[r] else 0
  }

  function SetReg(m: Machine, r: Word, v: Word): (m': Machine)
    ensures forall k: Word :: Reg(m', k) == if k == r then v else Reg(m, k)
    ensures m'.cells == m.cells
  {
    m.(regs := m.regs[r := v])
  }

  function Cell(m: Machine, space: Indirect, a: Word): (v: Word) {
    if (space, a) in m.cells then m.cells[(space, a)] else 0
  }

  /** The meaning of every operator, given the operand width in bits. */
  type Alu = (Opcode, int, Word, Word) -> Word

  function Wrap(x: int): (w: Word) {
    x % W64
  }

  /** Moves, and 64-bit additions, subtractions and products, wrap around. */
  ghost predicate PlainAlu(alu: Alu) {
    && (forall n: int, a: Word, b: Word :: alu(Mov, n, a, b) == a)
    && (forall a: Word, b: Word :: alu(Add, 64, a, b) == Wrap(a + b))
    && (forall a: Word, b: Word :: alu(Sub, 64, a, b) == Wrap(a - b))
    && (forall a: Word, b: Word :: alu(Imul, 64, a, b) == Wrap(a * b))
  }

  function Read(m: Machine, o: Operand): (v: Word) {
    if o.indirect == IndDirect then (if o.store == StoreDirect then o.index else Reg(m, o.index))
    else Cell(m, o.indirect, if o.store == StoreDirect then o.index else Reg(m, o.index))
  }

  function Write(m: Machine, o: Operand, v: Word): (m': Machine) {
    if o.indirect == IndDirect then
      (if o.store == StoreDirect then m else SetReg(m, o.index, v))
    else
      m.(cells := m.cells[(o.indirect, if o.store == StoreDirect then o.index else Reg(m, o.index)) := v])
  }

  function Step(alu: Alu, i: Instruction, m: Machine): (m': Machine) {
    match i.opcode
    case Nop => m
    case Load => Write(m, i.dstA, Read(m, i.srcA))
    case StoreTo => Write(m, i.dstA, Read(m, i.srcA))
    case _ => Write(m, i.dstA, alu(i.opcode, i.dstA.valueSize, Read(m, i.srcA), Read(m, i.srcB)))
  }

  function Exec(alu: Alu, code: seq<Instruction>, m: Machine): (m': Machine) {
    if code == [] then m else Step(alu, code[|code| - 1], Exec(alu, code[..|code| - 1], m))
  }

  lemma ExecSnoc(alu: Alu, code: seq<Instruction>, i: Instruction, m: Machine)
    ensures Exec(alu, code + [i], m) == Step(alu, i, Exec(alu, code, m))
  {
    assert (code + [i])[..|code|] == code;
  }

  lemma {:induction false} ExecAppend(alu: Alu, code: seq<Instruction>, more: seq<Instruction>, m: Machine)
    ensures Exec(alu, code + more, m) == Exec(alu, more, Exec(alu, code, m))
  {
    if more == [] {
      assert code + more == code;
    } else {
      var n := |more| - 1;
      assert code + more == (code + more[..n]) + [more[n]];
      ExecSnoc(alu, code + more[..n], more[n], m);
      ExecAppend(alu, code, more[..n], m);
    }
  }

  // ----- Low-level operands

  datatype Kind = KindEmpty | KindReg | KindImm | KindScale | KindIndReg | KindIndImm | KindIndScale

  datatype SubOperand = SubOperand(value: Word, size: int)

  /** Address operands hold base register, scale, index register and displacement in 0 to 3. */
  datatype LlOperand = LlOperand(kind: Kind, size: int, operand: seq<SubOperand>)

  datatype LlInst = LlInst(opcode: Opcode, srcA: LlOperand, srcB: LlOperand, dstA: LlOperand)

  ghost predicate ValidOperand(o: LlOperand) {
    |o.operand| == 16
  }

  /** The instructions disassembled so far. */
  class DisInstructions {
    var code: seq<Instruction>

    constructor ()
      ensures code == []
    {
      code := [];
    }

    method Emit(i: Instruction)
      modifies this
      ensures code == old(code) + [i]
    {
      code := code + [i];
    }
  }

  function RegOperand(size: int, r: SubOperand): (o: Operand) {
    Operand(StoreReg, IndDirect, size, r.value, r.size)
  }

  function ImmOperand(size: int, value: Word, valueSize: int): (o: Operand) {
    Operand(StoreDirect, IndDirect, size, value, valueSize)
  }

  /** Converts one sub-operand; relocation fields do not affect values. The kinds of indirect
      register and immediate are not convertible. */
  function ConvertOperand(ll: LlOperand, k: nat): (o: Operand)
    requires ValidOperand(ll) && k < 4 && ll.kind != KindIndReg && ll.kind != KindIndImm
  {
    if ll.kind == KindEmpty then EMPTY_OPERAND
    else if ll.kind == KindReg then RegOperand(ll.size, ll.operand[k])
    else if ll.kind == KindImm then ImmOperand(ll.size, ll.operand[k].value, ll.size)
    else if k == 0 || k == 2 then RegOperand(ll.size, ll.operand[k])
    else ImmOperand(ll.size, ll.operand[k].value, ll.operand[k].size)
  }

  const EMPTY_OPERAND: Operand := Operand(StoreDirect, IndDirect, 0, 0, 0)
  const TMP1_OPERAND: Operand := Operand(StoreReg, IndDirect, 64, REG_TMP1, 64)
  const TMP2_OPERAND: Operand := Operand(StoreReg, IndDirect, 64, REG_TMP2, 64)
}
