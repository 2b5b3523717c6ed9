/** Lowering of PUSH, POP, LEAVE and RET, and what runs of them do to the stack. */
module StackCode {
  import opened Rtl

  // ----- The lowering

  function RegisterOperand(r: Word): (o: Operand)
    ensures o.store == StoreReg && o.indirect == IndDirect && o.index == r
  {
    Operand(StoreReg, IndDirect, 64, r, 64)
  }

  const SP_OPERAND: Operand := RegisterOperand(REG_SP)
  const BP_OPERAND: Operand := RegisterOperand(REG_BP)
  const IP_OPERAND: Operand := RegisterOperand(REG_IP)
  const AX_OPERAND: Operand := RegisterOperand(REG_AX)

  function StackTop(size: int): (o: Operand) {
    Operand(StoreReg, IndStack, 64, REG_SP, size)
  }

  /** What PUSH and POP are applied to: a register or an immediate, of whole bytes. */
  ghost predicate StackOperand(o: LlOperand) {
    ValidOperand(o) && (o.kind == KindReg || o.kind == KindImm) && 0 <= o.size < W64
  }

  function SubSp(bytes: Word): (i: Instruction) {
    Instruction(Sub, 0, SP_OPERAND, ImmOperand(64, bytes, 64), SP_OPERAND)
  }

  function AddSp(bytes: Word): (i: Instruction) {
    Instruction(Add, 0, SP_OPERAND, ImmOperand(64, bytes, 64), SP_OPERAND)
  }

  function PushCode(o: LlOperand): (code: seq<Instruction>)
    requires StackOperand(o)
  {
    [SubSp(o.size / 8), Instruction(StoreTo, 0, ConvertOperand(o, 0), SP_OPERAND, StackTop(o.size))]
  }

  function PopCode(o: LlOperand): (code: seq<Instruction>)
    requires StackOperand(o)
  {
    [Instruction(Load, 0, StackTop(o.size), SP_OPERAND.(valueSize := o.size), ConvertOperand(o, 0)), AddSp(o.size / 8)]
  }

  function LeaveCode(unset: Operand): (code: seq<Instruction>) {
    [Instruction(Mov, 0, BP_OPERAND, unset, SP_OPERAND), Instruction(Load, 0, StackTop(64), SP_OPERAND, BP_OPERAND), AddSp(8)]
  }

  function RetCode(): (code: seq<Instruction>) {
    [Instruction(Load, 0, StackTop(64), SP_OPERAND, TMP1_OPERAND), AddSp(8),
     Instruction(Nop, 0, AX_OPERAND, AX_OPERAND, AX_OPERAND),
     Instruction(Mov, 0, TMP1_OPERAND, TMP1_OPERAND, IP_OPERAND)]
  }

  // ----- One push, one pop

  /** The value an operand stands for. */
  function OperandValue(o: LlOperand, m: Machine): (v: Word)
    requires StackOperand(o)
  {
    if o.kind == KindImm then o.operand[0].value else Reg(m, o.operand[0].value)
  }

  predicate NamesSp(o: LlOperand)
    requires StackOperand(o)
  {
    o.kind == KindReg && o.operand[0].value == REG_SP
  }

  /** PUSH: the value goes below the stack pointer, which moves down to it. */
  ghost predicate Pushed(o: LlOperand, m: Machine, m': Machine)
    requires StackOperand(o)
  {
    var a := Wrap(Reg(m, REG_SP) - o.size / 8);
    && Reg(m', REG_SP) == a
    && (forall r: Word :: r != REG_SP ==> Reg(m', r) == Reg(m, r))
    && m'.cells == m.cells[(IndStack, a) := OperandValue(o, m)]
  }

  /** POP: the register takes the value at the stack pointer, which moves up past it. */
  ghost predicate Popped(o: LlOperand, m: Machine, m': Machine)
    requires StackOperand(o) && o.kind == KindReg
  {
    var dst, sp := o.operand[0].value, Reg(m, REG_SP);
    && m'.cells == m.cells
    && Reg(m', dst) == Cell(m, IndStack, sp)
    && (dst != REG_SP ==> Reg(m', REG_SP) == Wrap(sp + o.size / 8))
    && (forall r: Word :: r != dst && r != REG_SP ==> Reg(m', r) == Reg(m, r))
  }

  lemma TwoSteps(alu: Alu, code: seq<Instruction>, m: Machine)
    requires |code| == 2
    ensures Exec(alu, code, m) == Step(alu, code[1], Step(alu, code[0], m))
  {
    assert code[..1] == [code[0]] && [code[0]][..0] == [];
    assert Exec(alu, [code[0]], m) == Step(alu, code[0], m);
  }

  lemma SpStep(alu: Alu, up: bool, bytes: Word, m: Machine)
    requires PlainAlu(alu)
    ensures Step(alu, if up then AddSp(bytes) else SubSp(bytes), m)
            == SetReg(m, REG_SP, Wrap(if up then Reg(m, REG_SP) + bytes else Reg(m, REG_SP) - bytes))
  {
  }

  lemma PushPushes(alu: Alu, o: LlOperand, m: Machine)
    requires PlainAlu(alu) && StackOperand(o) && !NamesSp(o)
    ensures Pushed(o, m, Exec(alu, PushCode(o), m))
  {
    hide Exec, PlainAlu;
    TwoSteps(alu, PushCode(o), m);
    SpStep(alu, false, o.size / 8, m);
  }

  lemma PopPops(alu: Alu, o: LlOperand, m: Machine)
    requires PlainAlu(alu) && StackOperand(o) && o.kind == KindReg && !NamesSp(o)
    ensures Popped(o, m, Exec(alu, PopCode(o), m))
  {
    hide Exec, PlainAlu;
    TwoSteps(alu, PopCode(o), m);
    SpStep(alu, true, o.size / 8, Step(alu, PopCode(o)[0], m));
  }

  /** The lowering stores the stack pointer after moving it, and moves it after loading it: with
      the stack pointer as operand neither is a PUSH or a POP. */
  lemma SpDiffers(alu: Alu, o: LlOperand)
    requires PlainAlu(alu) && StackOperand(o) && NamesSp(o) && o.size >= 8
    ensures exists m: Machine :: !Pushed(o, m, Exec(alu, PushCode(o), m))
    ensures exists m: Machine :: !Popped(o, m, Exec(alu, PopCode(o), m))
  {
    hide Exec, PlainAlu;
    var m, bytes := Machine(map[], map[]), o.size / 8;
    TwoSteps(alu, PushCode(o), m);
    TwoSteps(alu, PopCode(o), m);
    SpStep(alu, false, bytes, m);
    SpStep(alu, true, bytes, Step(alu, PopCode(o)[0], m));
    var a := Wrap(0 - bytes);
    var m1 := Exec(alu, PushCode(o), m);
    assert m1.cells[(IndStack, a)] == a != 0;
    assert Reg(Exec(alu, PopCode(o), m), REG_SP) == bytes != 0;
    assert !Pushed(o, m, m1) && !Popped(o, m, Exec(alu, PopCode(o), m));
  }

  /** The code is a PUSH, or a POP, on every machine. */
  ghost predicate IsPush(alu: Alu, code: seq<Instruction>, o: LlOperand)
    requires StackOperand(o)
  {
    forall m: Machine :: Pushed(o, m, Exec(alu, code, m))
  }

  ghost predicate IsPop(alu: Alu, code: seq<Instruction>, o: LlOperand)
    requires StackOperand(o) && o.kind == KindReg
  {
    forall m: Machine :: Popped(o, m, Exec(alu, code, m))
  }

  lemma PushExact(alu: Alu, o: LlOperand)
    requires PlainAlu(alu) && StackOperand(o) && o.size >= 8
    ensures IsPush(alu, PushCode(o), o) <==> !NamesSp(o)
  {
    hide Exec, PlainAlu, Pushed;
    if NamesSp(o) {
      SpDiffers(alu, o);
    } else {
      forall m: Machine ensures Pushed(o, m, Exec(alu, PushCode(o), m)) { PushPushes(alu, o, m); }
    }
  }

  lemma PopExact(alu: Alu, o: LlOperand)
    requires PlainAlu(alu) && StackOperand(o) && o.kind == KindReg && o.size >= 8
    ensures IsPop(alu, PopCode(o), o) <==> !NamesSp(o)
  {
    hide Exec, PlainAlu, Popped;
    if NamesSp(o) {
      SpDiffers(alu, o);
    } else {
      forall m: Machine ensures Popped(o, m, Exec(alu, PopCode(o), m)) { PopPops(alu, o, m); }
    }
  }

  /** Lowers PUSH; a PUSH on every machine if and only if the stack pointer is not pushed. */
  method ConvertPush(d: DisInstructions, o: LlOperand)
    requires StackOperand(o) && o.size >= 8
    modifies d
    ensures d.code == old(d.code) + PushCode(o)
    ensures forall alu: Alu :: PlainAlu(alu) ==>
      (IsPush(alu, d.code[|old(d.code)|..], o) <==> !NamesSp(o))
  {
    hide Exec, PlainAlu, IsPush;
    ghost var n := |d.code|;
    d.Emit(SubSp(o.size / 8));
    d.Emit(Instruction(StoreTo, 0, ConvertOperand(o, 0), SP_OPERAND, StackTop(o.size)));
    assert d.code[n..] == PushCode(o);
    forall alu: Alu | PlainAlu(alu) ensures IsPush(alu, d.code[n..], o) <==> !NamesSp(o) { PushExact(alu, o); }
  }

  /** Lowers POP; a POP on every machine if and only if the stack pointer is not popped. */
  method ConvertPop(d: DisInstructions, o: LlOperand)
    requires StackOperand(o) && o.kind == KindReg && o.size >= 8
    modifies d
    ensures d.code == old(d.code) + PopCode(o)
    ensures forall alu: Alu :: PlainAlu(alu) ==>
      (IsPop(alu, d.code[|old(d.code)|..], o) <==> !NamesSp(o))
  {
    hide Exec, PlainAlu, IsPop;
    ghost var n := |d.code|;
    d.Emit(Instruction(Load, 0, StackTop(o.size), SP_OPERAND.(valueSize := o.size), ConvertOperand(o, 0)));
    d.Emit(AddSp(o.size / 8));
    assert d.code[n..] == PopCode(o);
    forall alu: Alu | PlainAlu(alu) ensures IsPop(alu, d.code[n..], o) <==> !NamesSp(o) { PopExact(alu, o); }
  }

  // ----- Runs of pushes and pops

  /** A 64-bit register other than the stack pointer. */
  ghost predicate SavedOperand(o: LlOperand) {
    StackOperand(o) && o.kind == KindReg && o.size == 64 && o.operand[0].value != REG_SP
  }

  ghost predicate Saved(ops: seq<LlOperand>) {
    forall k: nat :: k < |ops| ==> SavedOperand(ops[k])
  }

  function RegOf(o: LlOperand): (r: Word)
    requires ValidOperand(o)
  {
    o.operand[0].value
  }

  ghost function PushAll(ops: seq<LlOperand>): (code: seq<Instruction>)
    requires Saved(ops)
  {
    if ops == [] then [] else PushAll(ops[..|ops| - 1]) + PushCode(ops[|ops| - 1])
  }

  /** The pops in reverse order. */
  ghost function PopAll(ops: seq<LlOperand>): (code: seq<Instruction>)
    requires Saved(ops)
  {
    if ops == [] then [] else PopCode(ops[|ops| - 1]) + PopAll(ops[..|ops| - 1])
  }

  /** The address of the k-th pushed value, counted from 1. */
  function Slot(sp: Word, k: nat): (a: Word) {
    Wrap(sp - 8 * k)
  }

  lemma SlotsDiffer(sp: Word, j: nat, k: nat)
    requires j < k < 0x2000_0000_0000_0000
    ensures Slot(sp, j) != Slot(sp, k)
  {
  }

  lemma NextSlot(sp: Word, k: nat)
    ensures Wrap(Slot(sp, k) - 8) == Slot(sp, k + 1)
    ensures Wrap(Slot(sp, k + 1) + 8) == Slot(sp, k)
  {
    WrapTwice(sp - 8 * k, -8);
    WrapTwice(sp - 8 * (k + 1), 8);
  }

  lemma WrapTwice(x: int, d: int)
    ensures Wrap(Wrap(x) + d) == Wrap(x + d)
  {
    var q := x / W64;
    var r := Wrap(x) + d;
    assert x + d == W64 * (q + r / W64) + Wrap(r);
  }

  /** The slots of the pushed registers hold what the registers held in `m0`. */
  ghost predicate SlotsHold(ops: seq<LlOperand>, sp: Word, m0: Machine, m: Machine)
    requires Saved(ops)
  {
    forall k: nat :: k < |ops| ==> Cell(m, IndStack, Slot(sp, k + 1)) == Reg(m0, RegOf(ops[k]))
  }

  lemma {:induction false} PushAllEffect(alu: Alu, ops: seq<LlOperand>, m0: Machine)
    requires PlainAlu(alu) && Saved(ops) && |ops| < 0x2000_0000_0000_0000
    ensures var sp, m1 := Reg(m0, REG_SP), Exec(alu, PushAll(ops), m0);
      && Reg(m1, REG_SP) == Slot(sp, |ops|)
      && (forall r: Word :: r != REG_SP ==> Reg(m1, r) == Reg(m0, r))
      && SlotsHold(ops, sp, m0, m1)
  {
    hide Exec, PlainAlu;
    var sp, n := Reg(m0, REG_SP), |ops| - 1;
    if ops == [] {
      assert Exec(alu, [], m0) == m0 by { EmptyRun(alu, m0); }
    } else {
      PushAllEffect(alu, ops[..n], m0);
      var m := Exec(alu, PushAll(ops[..n]), m0);
      var m1 := Exec(alu, PushCode(ops[n]), m);
      ExecAppend(alu, PushAll(ops[..n]), PushCode(ops[n]), m0);
      PushPushes(alu, ops[n], m);
      NextSlot(sp, n);
      forall k: nat | k < |ops| ensures Cell(m1, IndStack, Slot(sp, k + 1)) == Reg(m0, RegOf(ops[k])) {
        if k < n {
          SlotsDiffer(sp, k + 1, n + 1);
          assert ops[..n][k] == ops[k];
        }
      }
    }
  }

  lemma EmptyRun(alu: Alu, m: Machine)
    ensures Exec(alu, [], m) == m
  {
  }

  lemma {:induction false} PopAllEffect(alu: Alu, ops: seq<LlOperand>, sp: Word, m0: Machine, m2: Machine)
    requires PlainAlu(alu) && Saved(ops)
    requires Reg(m2, REG_SP) == Slot(sp, |ops|) && SlotsHold(ops, sp, m0, m2)
    ensures Restored(ops, sp, m0, m2, Exec(alu, PopAll(ops), m2))
  {
    hide Exec, PlainAlu, PopCode, Popped, Slot, Restored;
    var n := |ops| - 1;
    if ops == [] {
      EmptyRun(alu, m2);
      assert Restored(ops, sp, m0, m2, m2) by { NothingPopped(ops, sp, m0, m2); }
    } else {
      var m := Exec(alu, PopCode(ops[n]), m2);
      PopPops(alu, ops[n], m2);
      PoppedSlot(ops[n], sp, n, m2, m);
      assert SlotsHold(ops[..n], sp, m0, m) by {
        forall k: nat | k < n ensures Cell(m, IndStack, Slot(sp, k + 1)) == Reg(m0, RegOf(ops[..n][k])) {
          assert ops[..n][k] == ops[k];
        }
      }
      PopAllEffect(alu, ops[..n], sp, m0, m);
      ExecAppend(alu, PopCode(ops[n]), PopAll(ops[..n]), m2);
      RestoredStep(ops, sp, m0, m2, m, Exec(alu, PopAll(ops), m2));
    }
  }

  lemma NothingPopped(ops: seq<LlOperand>, sp: Word, m0: Machine, m: Machine)
    requires ops == [] && Reg(m, REG_SP) == Slot(sp, 0)
    ensures Restored(ops, sp, m0, m, m)
  {
  }

  lemma PoppedSlot(o: LlOperand, sp: Word, n: nat, m: Machine, m': Machine)
    requires SavedOperand(o) && Reg(m, REG_SP) == Slot(sp, n + 1) && Popped(o, m, m')
    ensures Reg(m', REG_SP) == Slot(sp, n) && m'.cells == m.cells
  {
    NextSlot(sp, n);
  }

  /** The registers and the stack pointer have their values in `m0`, all others those in `m2`. */
  ghost predicate Restored(ops: seq<LlOperand>, sp: Word, m0: Machine, m2: Machine, m3: Machine)
    requires Saved(ops)
  {
    && m3.cells == m2.cells
    && Reg(m3, REG_SP) == sp
    && (forall k: nat :: k < |ops| ==> Reg(m3, RegOf(ops[k])) == Reg(m0, RegOf(ops[k])))
    && (forall r: Word :: r != REG_SP && NotSaved(ops, r) ==> Reg(m3, r) == Reg(m2, r))
  }

  ghost predicate NotSaved(ops: seq<LlOperand>, r: Word)
    requires Saved(ops)
  {
    forall k: nat :: k < |ops| ==> RegOf(ops[k]) != r
  }

  lemma RestoredStep(ops: seq<LlOperand>, sp: Word, m0: Machine, m2: Machine, m: Machine, m3: Machine)
    requires Saved(ops) && ops != [] && Popped(ops[|ops| - 1], m2, m) && SlotsHold(ops, sp, m0, m2)
    requires Reg(m2, REG_SP) == Slot(sp, |ops|)
    requires Restored(ops[..|ops| - 1], sp, m0, m, m3)
    ensures Restored(ops, sp, m0, m2, m3)
  {
    var n := |ops| - 1;
    var last := RegOf(ops[n]);
    assert forall k: nat :: k < n ==> ops[..n][k] == ops[k];
    assert Reg(m3, last) == Reg(m0, last) by {
      if k: nat :| k < n && RegOf(ops[k]) == last {
        assert Reg(m3, RegOf(ops[..n][k])) == Reg(m0, RegOf(ops[..n][k]));
      } else {
        assert NotSaved(ops[..n], last);
      }
    }
    forall k: nat | k < |ops| ensures Reg(m3, RegOf(ops[k])) == Reg(m0, RegOf(ops[k])) {
      if k < n {
        assert RegOf(ops[..n][k]) == RegOf(ops[k]);
      }
    }
    forall r: Word | r != REG_SP && NotSaved(ops, r) ensures Reg(m3, r) == Reg(m2, r) {
      assert NotSaved(ops[..n], r);
    }
  }

  ghost predicate SameSlots(n: nat, sp: Word, m1: Machine, m2: Machine) {
    forall k: nat :: 1 <= k <= n ==> Cell(m2, IndStack, Slot(sp, k)) == Cell(m1, IndStack, Slot(sp, k))
  }

  /** Whatever happens between, if it keeps the stack pointer and the pushed slots, the pops
      restore every pushed register and the stack pointer and change no other register. */
  lemma PushPopRestores(alu: Alu, ops: seq<LlOperand>, m0: Machine, m2: Machine)
    requires PlainAlu(alu) && Saved(ops) && |ops| < 0x2000_0000_0000_0000
    requires Reg(m2, REG_SP) == Reg(Exec(alu, PushAll(ops), m0), REG_SP)
    requires SameSlots(|ops|, Reg(m0, REG_SP), Exec(alu, PushAll(ops), m0), m2)
    ensures Restored(ops, Reg(m0, REG_SP), m0, m2, Exec(alu, PopAll(ops), m2))
  {
    hide Exec, PlainAlu;
    PushAllEffect(alu, ops, m0);
    PopAllEffect(alu, ops, Reg(m0, REG_SP), m0, m2);
  }

  // ----- A whole function frame

  /** The prologue saves BP and points it at the saved value. */
  ghost function PrologueCode(bp: LlOperand, unset: Operand): (code: seq<Instruction>)
    requires StackOperand(bp)
  {
    PushCode(bp) + [Instruction(Mov, 0, SP_OPERAND, unset, BP_OPERAND)]
  }

  /** The caller of the frame entered with `m0` sees its BP again, the stack pointer past the
      return address, and control at that address. */
  ghost predicate Returned(m0: Machine, m2: Machine, m3: Machine) {
    && m3.cells == m2.cells
    && Reg(m3, REG_BP) == Reg(m0, REG_BP)
    && Reg(m3, REG_SP) == Wrap(Reg(m0, REG_SP) + 8)
    && Reg(m3, REG_IP) == Cell(m0, IndStack, Reg(m0, REG_SP))
    && forall r: Word :: r != REG_BP && r != REG_SP && r != REG_IP && r != REG_TMP1 ==> Reg(m3, r) == Reg(m2, r)
  }

  lemma MovStep(alu: Alu, a: Operand, b: Operand, dst: Operand, m: Machine)
    requires PlainAlu(alu)
    ensures Step(alu, Instruction(Mov, 0, a, b, dst), m) == Write(m, dst, Read(m, a))
    ensures dst.store == StoreReg && dst.indirect == IndDirect ==> Write(m, dst, Read(m, a)) == SetReg(m, dst.index, Read(m, a))
  {
  }

  lemma PrologueEffect(alu: Alu, bp: LlOperand, unset: Operand, m0: Machine)
    requires PlainAlu(alu) && SavedOperand(bp) && RegOf(bp) == REG_BP
    ensures var m1 := Exec(alu, PrologueCode(bp, unset), m0);
      && Reg(m1, REG_BP) == Reg(m1, REG_SP) == Wrap(Reg(m0, REG_SP) - 8)
      && m1.cells == m0.cells[(IndStack, Wrap(Reg(m0, REG_SP) - 8)) := Reg(m0, REG_BP)]
  {
    hide Exec, PlainAlu, PushCode;
    var m := Exec(alu, PushCode(bp), m0);
    ExecSnoc(alu, PushCode(bp), Instruction(Mov, 0, SP_OPERAND, unset, BP_OPERAND), m0);
    MovStep(alu, SP_OPERAND, unset, BP_OPERAND, m);
    PushPushes(alu, bp, m0);
  }

  lemma LoadStep(alu: Alu, dst: Operand, m: Machine)
    requires dst.store == StoreReg && dst.indirect == IndDirect
    ensures Step(alu, Instruction(Load, 0, StackTop(64), SP_OPERAND, dst), m)
            == SetReg(m, dst.index, Cell(m, IndStack, Reg(m, REG_SP)))
  {
  }

  /** SP := BP; BP := [SP]; SP := SP + 8. */
  ghost predicate Left(m: Machine, m': Machine) {
    && m'.cells == m.cells
    && Reg(m', REG_BP) == Cell(m, IndStack, Reg(m, REG_BP))
    && Reg(m', REG_SP) == Wrap(Reg(m, REG_BP) + 8)
    && forall r: Word :: r != REG_BP && r != REG_SP ==> Reg(m', r) == Reg(m, r)
  }

  lemma LeaveEffect(alu: Alu, unset: Operand, m: Machine)
    requires PlainAlu(alu)
    ensures Left(m, Exec(alu, LeaveCode(unset), m))
  {
    hide *;
    var code := LeaveCode(unset);
    LeaveParts(unset);
    ThreeSteps(alu, code, m);
    var m1 := Step(alu, code[0], m);
    var m2 := Step(alu, code[1], m1);
    MovStep(alu, BP_OPERAND, unset, SP_OPERAND, m);
    ReadReg(m, BP_OPERAND);
    LoadStep(alu, BP_OPERAND, m1);
    SpStep(alu, true, 8, m2);
    LeftBySets(m, m1, m2);
  }

  lemma LeaveParts(unset: Operand)
    ensures var code := LeaveCode(unset);
      && |code| == 3 && code[0] == Instruction(Mov, 0, BP_OPERAND, unset, SP_OPERAND)
      && code[1] == Instruction(Load, 0, StackTop(64), SP_OPERAND, BP_OPERAND) && code[2] == AddSp(8)
    ensures SP_OPERAND == RegisterOperand(REG_SP) && BP_OPERAND == RegisterOperand(REG_BP)
  {
  }

  lemma LeftBySets(m: Machine, m1: Machine, m2: Machine)
    requires m1 == SetReg(m, REG_SP, Reg(m, REG_BP))
    requires m2 == SetReg(m1, REG_BP, Cell(m1, IndStack, Reg(m1, REG_SP)))
    ensures Left(m, SetReg(m2, REG_SP, Wrap(Reg(m2, REG_SP) + 8)))
  {
    hide SetReg, Reg;
  }

  lemma SameCell(m: Machine, m': Machine, a: Word)
    requires m'.cells == m.cells
    ensures Cell(m', IndStack, a) == Cell(m, IndStack, a)
  {
  }

  lemma ThreeSteps(alu: Alu, code: seq<Instruction>, m: Machine)
    requires |code| >= 3
    ensures Exec(alu, code[..3], m) == Step(alu, code[2], Step(alu, code[1], Step(alu, code[0], m)))
    ensures |code| == 3 ==> code[..3] == code
  {
    hide Step;
    var c := code[..3];
    assert c[..2] == code[..2] && c[..2][..1] == [c[0]] && [c[0]][..0] == [];
    assert Exec(alu, [c[0]], m) == Step(alu, c[0], m);
    assert Exec(alu, c[..2], m) == Step(alu, c[1], Step(alu, c[0], m));
  }

  lemma ReadReg(m: Machine, o: Operand)
    requires o.store == StoreReg && o.indirect == IndDirect
    ensures Read(m, o) == Reg(m, o.index)
  {
  }

  /** TMP1 := [SP]; SP := SP + 8; IP := TMP1. */
  ghost predicate JumpedBack(m: Machine, m': Machine) {
    && m'.cells == m.cells
    && Reg(m', REG_IP) == Cell(m, IndStack, Reg(m, REG_SP))
    && Reg(m', REG_SP) == Wrap(Reg(m, REG_SP) + 8)
    && forall r: Word :: r != REG_IP && r != REG_SP && r != REG_TMP1 ==> Reg(m', r) == Reg(m, r)
  }

  lemma RetEffect(alu: Alu, m: Machine)
    requires PlainAlu(alu)
    ensures JumpedBack(m, Exec(alu, RetCode(), m))
  {
    hide *;
    var code := RetCode();
    RetParts();
    ThreeSteps(alu, code, m);
    ExecSnoc(alu, code[..3], code[3], m);
    var m1 := Step(alu, code[0], m);
    var m2 := Step(alu, code[1], m1);
    LoadStep(alu, TMP1_OPERAND, m);
    SpStep(alu, true, 8, m1);
    NopStep(alu, code[2], m2);
    MovStep(alu, TMP1_OPERAND, TMP1_OPERAND, IP_OPERAND, m2);
    ReadReg(m2, TMP1_OPERAND);
    JumpedBySets(m, m1, m2);
  }

  lemma RetParts()
    ensures var code := RetCode();
      && |code| == 4 && code[0] == Instruction(Load, 0, StackTop(64), SP_OPERAND, TMP1_OPERAND)
      && code[1] == AddSp(8) && code[2].opcode == Nop && code[..3] + [code[3]] == code
      && code[3] == Instruction(Mov, 0, TMP1_OPERAND, TMP1_OPERAND, IP_OPERAND)
    ensures TMP1_OPERAND == RegisterOperand(REG_TMP1) && IP_OPERAND == RegisterOperand(REG_IP)
  {
  }

  lemma JumpedBySets(m: Machine, m1: Machine, m2: Machine)
    requires m1 == SetReg(m, REG_TMP1, Cell(m, IndStack, Reg(m, REG_SP)))
    requires m2 == SetReg(m1, REG_SP, Wrap(Reg(m1, REG_SP) + 8))
    ensures JumpedBack(m, SetReg(m2, REG_IP, Reg(m2, REG_TMP1)))
  {
    hide SetReg, Reg;
  }

  lemma NopStep(alu: Alu, i: Instruction, m: Machine)
    requires i.opcode == Nop
    ensures Step(alu, i, m) == m
  {
  }

  /** A body that keeps BP, the saved BP and the return address, whatever it does to the stack
      pointer and everything else, is left by LEAVE and RET as the caller expects. */
  lemma FrameReturns(alu: Alu, bp: LlOperand, unset: Operand, m0: Machine, m2: Machine)
    requires PlainAlu(alu) && SavedOperand(bp) && RegOf(bp) == REG_BP
    requires var m1 := Exec(alu, PrologueCode(bp, unset), m0);
      && Reg(m2, REG_BP) == Reg(m1, REG_BP)
      && Cell(m2, IndStack, Reg(m1, REG_BP)) == Cell(m1, IndStack, Reg(m1, REG_BP))
      && Cell(m2, IndStack, Reg(m0, REG_SP)) == Cell(m0, IndStack, Reg(m0, REG_SP))
    ensures Returned(m0, m2, Exec(alu, LeaveCode(unset) + RetCode(), m2))
  {
    hide Exec, PlainAlu, LeaveCode, RetCode, PrologueCode, Reg, Left, JumpedBack, Returned, Wrap, Cell;
    PrologueEffect(alu, bp, unset, m0);
    LeaveEffect(alu, unset, m2);
    ExecAppend(alu, LeaveCode(unset), RetCode(), m2);
    var m := Exec(alu, LeaveCode(unset), m2);
    RetEffect(alu, m);
    FrameBySteps(m0, Exec(alu, PrologueCode(bp, unset), m0), m2, m, Exec(alu, RetCode(), m));
  }

  lemma FrameBySteps(m0: Machine, m1: Machine, m2: Machine, m: Machine, m3: Machine)
    requires Reg(m1, REG_BP) == Wrap(Reg(m0, REG_SP) - 8)
    requires m1.cells == m0.cells[(IndStack, Wrap(Reg(m0, REG_SP) - 8)) := Reg(m0, REG_BP)]
    requires Reg(m2, REG_BP) == Reg(m1, REG_BP)
    requires Cell(m2, IndStack, Reg(m1, REG_BP)) == Cell(m1, IndStack, Reg(m1, REG_BP))
    requires Cell(m2, IndStack, Reg(m0, REG_SP)) == Cell(m0, IndStack, Reg(m0, REG_SP))
    requires Left(m2, m) && JumpedBack(m, m3)
    ensures Returned(m0, m2, m3)
  {
    hide Reg, Wrap, Cell;
    var sp := Reg(m0, REG_SP);
    NextSlot(sp, 0);
    assert Wrap(sp - 8 * 0) == sp by { WrapWord(sp); }
    SameCell(m2, m, sp);
    WrittenCell(m0, m1, Reg(m1, REG_BP), Reg(m0, REG_BP));
  }

  lemma WrapWord(w: Word)
    ensures Wrap(w) == w
  {
  }

  lemma WrittenCell(m: Machine, m': Machine, a: Word, v: Word)
    requires m'.cells == m.cells[(IndStack, a) := v]
    ensures Cell(m', IndStack, a) == v
  {
  }

  /** Lowers LEAVE; the second source of its MOV is not set. */
  method ConvertLeave(d: DisInstructions, unset: Operand)
    modifies d
    ensures d.code == old(d.code) + LeaveCode(unset)
    ensures forall alu: Alu, m: Machine :: PlainAlu(alu) ==> Left(m, Exec(alu, d.code[|old(d.code)|..], m))
  {
    hide Exec, PlainAlu, Left;
    ghost var n := |d.code|;
    d.Emit(Instruction(Mov, 0, BP_OPERAND, unset, SP_OPERAND));
    d.Emit(Instruction(Load, 0, StackTop(64), SP_OPERAND, BP_OPERAND));
    d.Emit(AddSp(8));
    assert d.code[n..] == LeaveCode(unset);
    forall alu: Alu, m: Machine | PlainAlu(alu) ensures Left(m, Exec(alu, d.code[n..], m)) {
      LeaveEffect(alu, unset, m);
    }
  }

  /** Lowers RET. */
  method ConvertRet(d: DisInstructions)
    modifies d
    ensures d.code == old(d.code) + RetCode()
    ensures forall alu: Alu, m: Machine :: PlainAlu(alu) ==> JumpedBack(m, Exec(alu, d.code[|old(d.code)|..], m))
  {
    hide Exec, PlainAlu, JumpedBack;
    ghost var n := |d.code|;
    d.Emit(Instruction(Load, 0, StackTop(64), SP_OPERAND, TMP1_OPERAND));
    d.Emit(AddSp(8));
    d.Emit(Instruction(Nop, 0, AX_OPERAND, AX_OPERAND, AX_OPERAND));
    d.Emit(Instruction(Mov, 0, TMP1_OPERAND, TMP1_OPERAND, IP_OPERAND));
    assert d.code[n..] == RetCode();
    forall alu: Alu, m: Machine | PlainAlu(alu) ensures JumpedBack(m, Exec(alu, d.code[n..], m)) {
      RetEffect(alu, m);
    }
  }
}
