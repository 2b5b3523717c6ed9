/** `convert_base`: x86 memory operands lowered to address arithmetic, LOAD and STORE. */
module MemoryOperands {
  import opened Rtl

  // ----- The architectural address

  function BaseReg(sc: LlOperand): (r: Word)
    requires ValidOperand(sc)
  {
    sc.operand[0].value
  }

  function IndexReg(sc: LlOperand): (r: Word)
    requires ValidOperand(sc)
  {
    sc.operand[2].value
  }

  function ScaleOf(sc: LlOperand): (s: Word)
    requires ValidOperand(sc)
  {
    sc.operand[1].value
  }

  /** The displacement as a 64-bit word. */
  function Disp(sc: LlOperand): (d: Word)
    requires ValidOperand(sc)
  {
    sc.operand[3].value
  }

  function IsNegative(d: Word): (b: bool) {
    d >= 0x8000_0000_0000_0000
  }

  /** The absolute value of a displacement; that of the least one is itself. */
  function Magnitude(d: Word): (v: Word) {
    if IsNegative(d) then W64 - d else d
  }

  function IndexTerm(sc: LlOperand, m: Machine): (t: Word)
    requires ValidOperand(sc)
  {
    if IndexReg(sc) == 0 then 0 else Wrap(Reg(m, IndexReg(sc)) * ScaleOf(sc))
  }

  function BaseTerm(sc: LlOperand, m: Machine): (t: Word)
    requires ValidOperand(sc)
  {
    if BaseReg(sc) == 0 then 0 else Reg(m, BaseReg(sc))
  }

  /** base + index * scale + displacement, modulo 2^64; register 0 means none. */
  function EffectiveAddress(sc: LlOperand, m: Machine): (a: Word)
    requires ValidOperand(sc)
  {
    Wrap(BaseTerm(sc, m) + IndexTerm(sc, m) + Disp(sc))
  }

  /** Operands never name the temporaries of the lowering. */
  ghost predicate NoTemps(sc: LlOperand)
    requires ValidOperand(sc)
  {
    BaseReg(sc) != REG_TMP1 && BaseReg(sc) != REG_TMP2 && IndexReg(sc) != REG_TMP1 && IndexReg(sc) != REG_TMP2
  }

  // ----- Computing the address in TMP1

  /** Where the partial address is. */
  datatype Partial = NoPartial | InReg(reg: SubOperand) | InTmp1

  ghost function PartialValue(p: Partial, m: Machine): (v: Word) {
    match p
    case NoPartial => 0
    case InReg(r) => Reg(m, r.value)
    case InTmp1 => Reg(m, REG_TMP1)
  }

  /** The partial address as an operand of the next instruction. */
  function PartialOperand(p: Partial): (o: Operand)
    requires p != NoPartial
  {
    if p.InReg? then RegOperand(64, p.reg) else TMP1_OPERAND
  }

  /** Everything but TMP1 is as before. */
  ghost predicate OnlyTmp1(m: Machine, m': Machine) {
    m'.cells == m.cells && forall r: Word :: r != REG_TMP1 ==> Reg(m', r) == Reg(m, r)
  }

  /** How much of the address has been added up. */
  datatype Stage = IndexOnly | IndexAndBase | Whole

  function AddressAt(sc: LlOperand, stage: Stage, m: Machine): (a: Word)
    requires ValidOperand(sc)
  {
    match stage
    case IndexOnly => IndexTerm(sc, m)
    case IndexAndBase => Wrap(BaseTerm(sc, m) + IndexTerm(sc, m))
    case Whole => EffectiveAddress(sc, m)
  }

  /** From any machine the code leaves that part of the address in `p`. */
  ghost predicate Leaves(code: seq<Instruction>, p: Partial, sc: LlOperand, stage: Stage)
    requires ValidOperand(sc)
  {
    forall alu: Alu, m: Machine :: PlainAlu(alu) ==> LeavesFrom(alu, m, Exec(alu, code, m), p, sc, stage)
  }

  ghost predicate LeavesFrom(alu: Alu, m: Machine, m': Machine, p: Partial, sc: LlOperand, stage: Stage)
    requires ValidOperand(sc)
  {
    OnlyTmp1(m, m') && PartialValue(p, m') == AddressAt(sc, stage, m)
  }

  /** The next instruction writes TMP1 and turns `p` into the next stage. */
  ghost predicate AddsUp(i: Instruction, p: Partial, sc: LlOperand, stage: Stage, stage': Stage)
    requires ValidOperand(sc)
  {
    && i.dstA == TMP1_OPERAND && i.opcode != Nop && i.opcode != Load && i.opcode != StoreTo
    && forall alu: Alu, m: Machine, m': Machine :: PlainAlu(alu) && LeavesFrom(alu, m, m', p, sc, stage) ==>
         alu(i.opcode, 64, Read(m', i.srcA), Read(m', i.srcB)) == AddressAt(sc, stage', m)
  }

  lemma LeavesStep(code: seq<Instruction>, i: Instruction, p: Partial, sc: LlOperand, stage: Stage, stage': Stage)
    requires ValidOperand(sc) && Leaves(code, p, sc, stage) && AddsUp(i, p, sc, stage, stage')
    ensures Leaves(code + [i], InTmp1, sc, stage')
  {
    forall alu: Alu, m: Machine | PlainAlu(alu) ensures LeavesFrom(alu, m, Exec(alu, code + [i], m), InTmp1, sc, stage') {
      ExecSnoc(alu, code, i, m);
      assert LeavesFrom(alu, m, Exec(alu, code, m), p, sc, stage);
    }
  }

  lemma LeavesNothing(sc: LlOperand, p: Partial, stage: Stage)
    requires ValidOperand(sc) && forall m: Machine :: PartialValue(p, m) == AddressAt(sc, stage, m)
    ensures Leaves([], p, sc, stage)
  {
  }

  /** Index times scale. */
  method ScaleIndex(d: DisInstructions, sc: LlOperand, ghost n: nat) returns (ok: bool, p: Partial)
    requires ValidOperand(sc) && NoTemps(sc) && sc.kind == KindIndScale && n == |d.code|
    modifies d
    ensures n <= |d.code| && d.code[..n] == old(d.code)
    ensures ok <==> IndexReg(sc) == 0 || ScaleOf(sc) > 0
    ensures ok ==> (p == NoPartial <==> IndexReg(sc) == 0) && (p.InReg? ==> p.reg.value != REG_TMP1)
    ensures ok ==> Leaves(d.code[n..], p, sc, IndexOnly)
  {
    hide Leaves, AddsUp, Exec;
    ok, p := true, NoPartial;
    assert d.code[n..] == [];
    if IndexReg(sc) == 0 {
      LeavesNothing(sc, NoPartial, IndexOnly);
    } else if ScaleOf(sc) == 1 {
      p := InReg(sc.operand[2]);
      LeavesNothing(sc, p, IndexOnly);
    } else if ScaleOf(sc) > 1 {
      var i := Instruction(Imul, 0, ConvertOperand(sc, 2), ConvertOperand(sc, 1).(valueSize := 64), TMP1_OPERAND);
      d.Emit(i);
      ScaledStep(sc, i);
      assert d.code[n..] == [i];
      p := InTmp1;
    } else {
      ok := false;
    }
  }

  lemma ScaledStep(sc: LlOperand, i: Instruction)
    requires ValidOperand(sc) && NoTemps(sc) && IndexReg(sc) != 0
    requires i.opcode == Imul && i.dstA == TMP1_OPERAND
    requires i.srcA == RegOperand(sc.size, sc.operand[2])
    requires i.srcB.store == StoreDirect && i.srcB.indirect == IndDirect && i.srcB.index == ScaleOf(sc)
    ensures Leaves([i], InTmp1, sc, IndexOnly)
  {
    hide Exec, Step, PlainAlu, LeavesFrom;
    forall alu: Alu, m: Machine | PlainAlu(alu) ensures LeavesFrom(alu, m, Exec(alu, [i], m), InTmp1, sc, IndexOnly) {
      ExecOne(alu, i, m);
      ProductStep(alu, i, m);
      ProductLeft(alu, sc, m, Wrap(Read(m, i.srcA) * Read(m, i.srcB)));
    }
  }

  lemma ExecOne(alu: Alu, i: Instruction, m: Machine)
    ensures Exec(alu, [i], m) == Step(alu, i, m)
  {
    ExecSnoc(alu, [], i, m);
    assert [] + [i] == [i];
  }

  lemma ProductStep(alu: Alu, i: Instruction, m: Machine)
    requires PlainAlu(alu) && i.opcode == Imul && i.dstA == TMP1_OPERAND
    ensures Step(alu, i, m) == SetReg(m, REG_TMP1, Wrap(Read(m, i.srcA) * Read(m, i.srcB)))
  {
    hide Read, Wrap;
  }

  lemma ProductLeft(alu: Alu, sc: LlOperand, m: Machine, v: Word)
    requires ValidOperand(sc) && v == IndexTerm(sc, m)
    ensures LeavesFrom(alu, m, SetReg(m, REG_TMP1, v), InTmp1, sc, IndexOnly)
  {
    hide IndexTerm;
  }

  /** Adds the base register. */
  method AddBase(d: DisInstructions, sc: LlOperand, p: Partial, ghost n: nat) returns (p': Partial)
    requires ValidOperand(sc) && NoTemps(sc) && sc.kind == KindIndScale && n <= |d.code|
    requires Leaves(d.code[n..], p, sc, IndexOnly) && (p == NoPartial <==> IndexReg(sc) == 0)
    requires p.InReg? ==> p.reg.value != REG_TMP1
    modifies d
    ensures n <= |d.code| && d.code[..n] == old(d.code[..n])
    ensures Leaves(d.code[n..], p', sc, IndexAndBase)
    ensures p'.InReg? ==> p'.reg.value != REG_TMP1
    ensures p' == NoPartial <==> BaseReg(sc) == 0 && IndexReg(sc) == 0
  {
    hide Leaves, AddsUp, Exec;
    p' := p;
    if BaseReg(sc) > 0 && p == NoPartial {
      p' := InReg(sc.operand[0]);
      BaseAlone(d.code[n..], sc);
    } else if BaseReg(sc) > 0 {
      var i := Instruction(Add, 0, PartialOperand(p), ConvertOperand(sc, 0), TMP1_OPERAND);
      ghost var code := d.code[n..];
      d.Emit(i);
      BaseStep(sc, p, i);
      LeavesStep(code, i, p, sc, IndexOnly, IndexAndBase);
      assert d.code[n..] == code + [i];
      p' := InTmp1;
    } else {
      NoBase(d.code[n..], p, sc);
    }
  }

  lemma BaseAlone(code: seq<Instruction>, sc: LlOperand)
    requires ValidOperand(sc) && NoTemps(sc) && BaseReg(sc) > 0 && IndexReg(sc) == 0
    requires Leaves(code, NoPartial, sc, IndexOnly)
    ensures Leaves(code, InReg(sc.operand[0]), sc, IndexAndBase)
  {
    forall alu: Alu, m: Machine | PlainAlu(alu)
      ensures LeavesFrom(alu, m, Exec(alu, code, m), InReg(sc.operand[0]), sc, IndexAndBase)
    {
      assert LeavesFrom(alu, m, Exec(alu, code, m), NoPartial, sc, IndexOnly);
    }
  }

  lemma NoBase(code: seq<Instruction>, p: Partial, sc: LlOperand)
    requires ValidOperand(sc) && BaseReg(sc) == 0 && Leaves(code, p, sc, IndexOnly)
    ensures Leaves(code, p, sc, IndexAndBase)
  {
    forall alu: Alu, m: Machine | PlainAlu(alu) ensures LeavesFrom(alu, m, Exec(alu, code, m), p, sc, IndexAndBase) {
      assert LeavesFrom(alu, m, Exec(alu, code, m), p, sc, IndexOnly);
    }
  }

  lemma BaseStep(sc: LlOperand, p: Partial, i: Instruction)
    requires ValidOperand(sc) && NoTemps(sc) && BaseReg(sc) > 0 && p != NoPartial
    requires i.opcode == Add && i.dstA == TMP1_OPERAND
    requires i.srcA == PartialOperand(p) && i.srcB == RegOperand(sc.size, sc.operand[0])
    ensures AddsUp(i, p, sc, IndexOnly, IndexAndBase)
  {
  }

  /** Adds the displacement, or subtracts its magnitude when it is negative. */
  method AddDisplacement(d: DisInstructions, sc: LlOperand, p: Partial, ghost n: nat)
    requires ValidOperand(sc) && n <= |d.code| && Leaves(d.code[n..], p, sc, IndexAndBase)
    modifies d
    ensures n <= |d.code| && d.code[..n] == old(d.code[..n])
    ensures Leaves(d.code[n..], InTmp1, sc, Whole)
  {
    hide Leaves, AddsUp, Exec;
    var opcode := if IsNegative(Disp(sc)) then Sub else Add;
    var srcA := if p == NoPartial then ImmOperand(64, 0, 64) else PartialOperand(p);
    var i := Instruction(opcode, 0, srcA, ImmOperand(64, Magnitude(Disp(sc)), 64), TMP1_OPERAND);
    ghost var code := d.code[n..];
    d.Emit(i);
    DisplacementStep(sc, p, i);
    LeavesStep(code, i, p, sc, IndexAndBase, Whole);
    assert d.code[n..] == code + [i];
  }

  lemma DisplacementStep(sc: LlOperand, p: Partial, i: Instruction)
    requires ValidOperand(sc) && i.dstA == TMP1_OPERAND
    requires i.opcode == if IsNegative(Disp(sc)) then Sub else Add
    requires i.srcA == if p == NoPartial then ImmOperand(64, 0, 64) else PartialOperand(p)
    requires i.srcB == ImmOperand(64, Magnitude(Disp(sc)), 64)
    ensures AddsUp(i, p, sc, IndexAndBase, Whole)
  {
    hide IndexTerm, BaseTerm, PlainAlu, Magnitude;
    forall alu: Alu, m: Machine, m': Machine | PlainAlu(alu) && LeavesFrom(alu, m, m', p, sc, IndexAndBase)
      ensures alu(i.opcode, 64, Read(m', i.srcA), Read(m', i.srcB)) == EffectiveAddress(sc, m)
    {
      var a := BaseTerm(sc, m) + IndexTerm(sc, m);
      PartialRead(sc, p, i.srcA, m, m');
      DisplacementSum(alu, i.opcode, a, Disp(sc));
    }
  }

  lemma PartialRead(sc: LlOperand, p: Partial, o: Operand, m: Machine, m': Machine)
    requires ValidOperand(sc) && PartialValue(p, m') == AddressAt(sc, IndexAndBase, m)
    requires o == if p == NoPartial then ImmOperand(64, 0, 64) else PartialOperand(p)
    ensures Read(m', o) == Wrap(BaseTerm(sc, m) + IndexTerm(sc, m))
  {
  }

  lemma DisplacementSum(alu: Alu, opcode: Opcode, a: int, d: Word)
    requires PlainAlu(alu) && opcode == if IsNegative(d) then Sub else Add
    ensures alu(opcode, 64, Wrap(a), Magnitude(d)) == Wrap(a + d)
  {
    WrapDisplacement(a, d);
  }

  lemma WrapDisplacement(a: int, d: Word)
    ensures Wrap(a + d) == if IsNegative(d) then Wrap(Wrap(a) - Magnitude(d)) else Wrap(Wrap(a) + d)
  {
  }

  // ----- The memory instruction and its lowering

  ghost predicate PlainRegister(o: LlOperand)
    requires ValidOperand(o)
  {
    o.kind == KindReg ==> o.operand[0].value != REG_TMP1 && o.operand[0].value != REG_TMP2
  }

  /** The operand whose address is computed: sources override the destination. */
  function AddressOperand(inst: LlInst): (sc: LlOperand) {
    if inst.srcB.kind == KindIndScale then inst.srcB
    else if inst.srcA.kind == KindIndScale then inst.srcA
    else inst.dstA
  }

  /** A source is empty, a register, an immediate or the one memory operand of the instruction. */
  ghost predicate ValidSource(o: LlOperand, sc: LlOperand) {
    && ValidOperand(o) && ValidOperand(sc) && PlainRegister(o)
    && (o.kind == KindEmpty || o.kind == KindReg || o.kind == KindImm || (o.kind == KindIndScale && o.operand == sc.operand))
  }

  ghost predicate MemoryInst(inst: LlInst) {
    var sc := AddressOperand(inst);
    && ValidSource(inst.srcA, sc) && ValidSource(inst.srcB, sc) && ValidSource(inst.dstA, sc)
    && inst.dstA.kind != KindImm && sc.kind == KindIndScale && NoTemps(sc)
    && inst.opcode != Nop && inst.opcode != Load && inst.opcode != StoreTo
  }

  /** Addresses based on SP or BP are on the stack. */
  function Space(sc: LlOperand): (s: Indirect)
    requires ValidOperand(sc)
  {
    if REG_SP <= BaseReg(sc) <= REG_BP then IndStack else IndMem
  }

  ghost function SourceValue(o: LlOperand, sc: LlOperand, m: Machine): (v: Word)
    requires ValidSource(o, sc)
  {
    match o.kind
    case KindReg => Reg(m, o.operand[0].value)
    case KindImm => o.operand[0].value
    case KindIndScale => Cell(m, Space(sc), EffectiveAddress(sc, m))
    case _ => 0
  }

  ghost function DestinationWidth(o: LlOperand): (n: int)
    requires ValidOperand(o)
  {
    match o.kind
    case KindReg => o.operand[0].size
    case KindIndScale => o.size
    case _ => 0
  }

  ghost function Result(alu: Alu, inst: LlInst, m: Machine): (v: Word)
    requires MemoryInst(inst)
  {
    alu(inst.opcode, DestinationWidth(inst.dstA), SourceValue(inst.srcA, AddressOperand(inst), m),
        SourceValue(inst.srcB, AddressOperand(inst), m))
  }

  /** What the instruction does in one go. */
  ghost function ArchStep(alu: Alu, inst: LlInst, m: Machine): (m': Machine)
    requires MemoryInst(inst)
  {
    match inst.dstA.kind
    case KindReg => SetReg(m, inst.dstA.operand[0].value, Result(alu, inst, m))
    case KindIndScale =>
      m.(cells := m.cells[(Space(AddressOperand(inst)), EffectiveAddress(AddressOperand(inst), m)) := Result(alu, inst, m)])
    case _ => m
  }

  /** The same cells and registers, temporaries aside, and the address in TMP1. */
  ghost predicate SameEffect(alu: Alu, inst: LlInst, m: Machine, m': Machine)
    requires MemoryInst(inst)
  {
    && SameButTemps(ArchStep(alu, inst, m), m')
    && Reg(m', REG_TMP1) == EffectiveAddress(AddressOperand(inst), m)
  }

  ghost predicate SameButTemps(m: Machine, m': Machine) {
    m'.cells == m.cells && forall r: Word :: r != REG_TMP1 && r != REG_TMP2 ==> Reg(m', r) == Reg(m, r)
  }

  /** The instruction that loads the memory operand into TMP2. */
  function LoadInst(inst: LlInst, sc: LlOperand): (i: Instruction)
    requires ValidOperand(sc)
  {
    Instruction(Load, 0, TMP1_OPERAND.(valueSize := inst.srcA.size, indirect := Space(sc)), TMP1_OPERAND,
                TMP2_OPERAND.(valueSize := inst.srcA.size))
  }

  /** A source of the operation: TMP2 stands for the memory operand. */
  function SourceOperand(o: LlOperand): (r: Operand)
    requires ValidOperand(o) && o.kind != KindIndReg && o.kind != KindIndImm
  {
    (if o.kind == KindIndScale then TMP2_OPERAND else ConvertOperand(o, 0)).(valueSize := o.size)
  }

  function DestinationOperand(o: LlOperand): (r: Operand)
    requires ValidOperand(o) && o.kind != KindIndReg && o.kind != KindIndImm
  {
    if o.kind == KindIndScale then TMP2_OPERAND.(valueSize := o.size) else ConvertOperand(o, 0)
  }

  function StoreInst(inst: LlInst, sc: LlOperand): (i: Instruction)
    requires ValidOperand(sc)
  {
    Instruction(StoreTo, 0, TMP2_OPERAND.(valueSize := inst.srcA.size), TMP1_OPERAND,
                TMP1_OPERAND.(valueSize := inst.dstA.size, indirect := Space(sc)))
  }

  /** The machine with the address in TMP1 and, if wanted, the memory operand in TMP2. */
  ghost predicate Fetched(sc: LlOperand, m: Machine, m': Machine, loaded: bool)
    requires ValidOperand(sc)
  {
    && m'.cells == m.cells
    && (forall r: Word :: r != REG_TMP1 && r != REG_TMP2 ==> Reg(m', r) == Reg(m, r))
    && Reg(m', REG_TMP1) == EffectiveAddress(sc, m)
    && (loaded ==> Reg(m', REG_TMP2) == Cell(m, Space(sc), EffectiveAddress(sc, m)))
  }

  lemma LoadFetches(alu: Alu, inst: LlInst, m: Machine, m': Machine)
    requires MemoryInst(inst) && Fetched(AddressOperand(inst), m, m', false)
    ensures Fetched(AddressOperand(inst), m, Step(alu, LoadInst(inst, AddressOperand(inst)), m'), true)
  {
  }

  function Operation(inst: LlInst, flags: int): (i: Instruction)
    requires ValidOperand(inst.srcA) && ValidOperand(inst.srcB) && ValidOperand(inst.dstA)
    requires inst.srcA.kind != KindIndReg && inst.srcA.kind != KindIndImm
    requires inst.srcB.kind != KindIndReg && inst.srcB.kind != KindIndImm
    requires inst.dstA.kind != KindIndReg && inst.dstA.kind != KindIndImm
  {
    Instruction(inst.opcode, flags, SourceOperand(inst.srcA), SourceOperand(inst.srcB), DestinationOperand(inst.dstA))
  }

  lemma SourceRead(inst: LlInst, o: LlOperand, m: Machine, m': Machine, loaded: bool)
    requires ValidSource(o, AddressOperand(inst)) && Fetched(AddressOperand(inst), m, m', loaded)
    requires o.kind == KindIndScale ==> loaded
    ensures Read(m', SourceOperand(o)) == SourceValue(o, AddressOperand(inst), m)
  {
  }

  /** The operation on TMP2 and registers, then the store, finish the instruction. */
  lemma OperationFinishes(alu: Alu, inst: LlInst, flags: int, m: Machine, m': Machine)
    requires MemoryInst(inst)
    requires Fetched(AddressOperand(inst), m, m', inst.srcA.kind == KindIndScale || inst.srcB.kind == KindIndScale)
    ensures var m1 := Step(alu, Operation(inst, flags), m');
      if inst.dstA.kind == KindIndScale then SameEffect(alu, inst, m, Step(alu, StoreInst(inst, AddressOperand(inst)), m1))
      else SameEffect(alu, inst, m, m1)
  {
    var sc := AddressOperand(inst);
    var loaded := inst.srcA.kind == KindIndScale || inst.srcB.kind == KindIndScale;
    SourceRead(inst, inst.srcA, m, m', loaded);
    SourceRead(inst, inst.srcB, m, m', loaded);
    var x := Result(alu, inst, m);
    hide SourceValue, SourceOperand, Read, EffectiveAddress;
    assert Step(alu, Operation(inst, flags), m') == Write(m', DestinationOperand(inst.dstA), x);
    WrittenBack(alu, inst, m, m', x, loaded);
  }

  lemma WrittenBack(alu: Alu, inst: LlInst, m: Machine, m': Machine, x: Word, loaded: bool)
    requires MemoryInst(inst) && Fetched(AddressOperand(inst), m, m', loaded)
    requires x == Result(alu, inst, m)
    ensures var m1 := Write(m', DestinationOperand(inst.dstA), x);
      if inst.dstA.kind == KindIndScale then SameEffect(alu, inst, m, Step(alu, StoreInst(inst, AddressOperand(inst)), m1))
      else SameEffect(alu, inst, m, m1)
  {
    hide Result, EffectiveAddress, Reg, SetReg;
    var m1 := Write(m', DestinationOperand(inst.dstA), x);
    if inst.dstA.kind == KindIndScale {
      assert m1 == SetReg(m', REG_TMP2, x);
      SetRegCells(m', REG_TMP2, x);
      var m2 := Step(alu, StoreInst(inst, AddressOperand(inst)), m1);
      SameRegs(m1, m2);
      var ea := EffectiveAddress(AddressOperand(inst), m);
      assert Reg(m1, REG_TMP1) == ea && Reg(m1, REG_TMP2) == x;
      assert m2.cells == m.cells[(Space(AddressOperand(inst)), ea) := x];
      assert ArchStep(alu, inst, m).cells == m2.cells;
      assert ArchStep(alu, inst, m).regs == m.regs;
      SameRegs(m, ArchStep(alu, inst, m));
    } else if inst.dstA.kind == KindReg {
      SetRegCells(m', inst.dstA.operand[0].value, x);
      SetRegCells(m, inst.dstA.operand[0].value, x);
    }
  }

  lemma SameRegs(m: Machine, m': Machine)
    requires m'.regs == m.regs
    ensures forall r: Word :: Reg(m', r) == Reg(m, r)
  {
  }

  lemma SetRegCells(m: Machine, r: Word, v: Word)
    ensures SetReg(m, r, v).cells == m.cells
  {
  }

  /** Lowers an instruction with a memory operand. It fails only on an index with scale 0; else
      the code has, for every meaning of the operator and every machine, the effect of the
      instruction on everything except TMP1 and TMP2. */
  method ConvertMemoryInst(d: DisInstructions, inst: LlInst, flags: int) returns (ok: bool)
    requires MemoryInst(inst)
    modifies d
    ensures |d.code| >= |old(d.code)| && d.code[..|old(d.code)|] == old(d.code)
    ensures ok <==> IndexReg(AddressOperand(inst)) == 0 || ScaleOf(AddressOperand(inst)) > 0
    ensures ok ==> forall alu: Alu, m: Machine :: PlainAlu(alu) ==>
      SameEffect(alu, inst, m, Exec(alu, d.code[|old(d.code)|..], m))
  {
    hide Leaves, Exec, ValidSource, SameEffect, Fetched;
    ghost var n := |d.code|;
    var sc := AddressOperand(inst);
    assert ValidOperand(sc) && ValidOperand(inst.srcA) && ValidOperand(inst.srcB) && ValidOperand(inst.dstA) by { KnownKinds(inst); }
    KnownKinds(inst);
    var p;
    ok, p := ScaleIndex(d, sc, n);
    if !ok {
      return false;
    }
    p := AddBase(d, sc, p, n);
    AddDisplacement(d, sc, p, n);
    ghost var address := d.code[n..];
    var op := Operation(inst, flags);
    if inst.srcA.kind == KindIndScale || inst.srcB.kind == KindIndScale {
      d.Emit(LoadInst(inst, sc));
    }
    d.Emit(op);
    if inst.dstA.kind == KindIndScale {
      d.Emit(StoreInst(inst, sc));
    }
    forall alu: Alu, m: Machine | PlainAlu(alu) ensures SameEffect(alu, inst, m, Exec(alu, d.code[n..], m)) {
      assert d.code[n..] == address + Tail(inst, flags);
      TailEffect(alu, inst, flags, address, m);
    }
  }

  lemma KnownKinds(inst: LlInst)
    requires MemoryInst(inst)
    ensures ValidOperand(AddressOperand(inst)) && ValidOperand(inst.srcA) && ValidOperand(inst.srcB) && ValidOperand(inst.dstA)
    ensures NoTemps(AddressOperand(inst)) && AddressOperand(inst).kind == KindIndScale
    ensures forall o :: o == inst.srcA || o == inst.srcB || o == inst.dstA ==> o.kind != KindIndReg && o.kind != KindIndImm
  {
  }

  /** What follows the address computation. */
  ghost function Tail(inst: LlInst, flags: int): (code: seq<Instruction>)
    requires MemoryInst(inst)
  {
    var sc := AddressOperand(inst);
    (if inst.srcA.kind == KindIndScale || inst.srcB.kind == KindIndScale then [LoadInst(inst, sc)] else [])
    + [Operation(inst, flags)]
    + (if inst.dstA.kind == KindIndScale then [StoreInst(inst, sc)] else [])
  }

  lemma TailEffect(alu: Alu, inst: LlInst, flags: int, address: seq<Instruction>, m: Machine)
    requires MemoryInst(inst) && PlainAlu(alu) && Leaves(address, InTmp1, AddressOperand(inst), Whole)
    ensures SameEffect(alu, inst, m, Exec(alu, address + Tail(inst, flags), m))
  {
    hide SameEffect, Exec, Step, PlainAlu, EffectiveAddress, SourceOperand, DestinationOperand;
    KnownKinds(inst);
    var sc := AddressOperand(inst);
    var op := Operation(inst, flags);
    var load := inst.srcA.kind == KindIndScale || inst.srcB.kind == KindIndScale;
    assert LeavesFrom(alu, m, Exec(alu, address, m), InTmp1, sc, Whole);
    var code := address;
    if load {
      ExecSnoc(alu, code, LoadInst(inst, sc), m);
      LoadFetches(alu, inst, m, Exec(alu, code, m));
      code := code + [LoadInst(inst, sc)];
    }
    ExecSnoc(alu, code, op, m);
    OperationFinishes(alu, inst, flags, m, Exec(alu, code, m));
    code := code + [op];
    if inst.dstA.kind == KindIndScale {
      ExecSnoc(alu, code, StoreInst(inst, sc), m);
      code := code + [StoreInst(inst, sc)];
    }
    assert code == address + Tail(inst, flags);
  }
}
