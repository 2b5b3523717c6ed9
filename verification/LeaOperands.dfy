/** The LEA path of `convert_base`: an address operand used as a value. */
module LeaOperands {
  import opened Rtl
  import opened MemoryOperands

  // ----- What the lowering computes

  /** The scaled index as the lowering sees it; scale 0 drops the index. */
  ghost function LeaIndex(sc: LlOperand, m: Machine): (t: Word)
    requires ValidOperand(sc)
  {
    if IndexReg(sc) == 0 || ScaleOf(sc) == 0 then 0 else Wrap(Reg(m, IndexReg(sc)) * ScaleOf(sc))
  }

  predicate HasIndex(sc: LlOperand)
    requires ValidOperand(sc)
  {
    IndexReg(sc) != 0 && ScaleOf(sc) != 0
  }

  /** The value that ends up in the destination. The sign of the displacement is used twice when
      there is an index: once for the displacement and once more for adding the base. */
  ghost function LeaValue(sc: LlOperand, m: Machine): (v: Word)
    requires ValidOperand(sc)
  {
    if !HasIndex(sc) then Wrap(Reg(m, BaseReg(sc)) + Disp(sc))
    else if IsNegative(Disp(sc)) then Wrap(Reg(m, BaseReg(sc)) - (LeaIndex(sc, m) - Magnitude(Disp(sc))))
    else Wrap(Reg(m, BaseReg(sc)) + LeaIndex(sc, m) + Disp(sc))
  }

  // ----- The lowering

  function IndexInst(sc: LlOperand): (i: Instruction)
    requires ValidOperand(sc) && sc.kind == KindScale
  {
    Instruction(Imul, 0, ConvertOperand(sc, 2), ConvertOperand(sc, 1), TMP1_OPERAND)
  }

  function SignedInst(negative: bool, a: Operand, b: Operand): (i: Instruction) {
    Instruction(if negative then Sub else Add, 0, a, b, TMP1_OPERAND)
  }

  /** The first part: the scaled index, if it needs an instruction. */
  ghost function IndexCode(sc: LlOperand): (code: seq<Instruction>)
    requires ValidOperand(sc) && sc.kind == KindScale
  {
    if IndexReg(sc) != 0 && ScaleOf(sc) > 1 then [IndexInst(sc)] else []
  }

  /** What the first part leaves. */
  function IndexPartial(sc: LlOperand): (p: Partial)
    requires ValidOperand(sc)
  {
    if !HasIndex(sc) then NoPartial else if ScaleOf(sc) == 1 then InReg(sc.operand[2]) else InTmp1
  }

  lemma IndexLeft(alu: Alu, sc: LlOperand, m: Machine)
    requires PlainAlu(alu) && ValidOperand(sc) && NoTemps(sc) && sc.kind == KindScale
    ensures var m1 := Exec(alu, IndexCode(sc), m);
      OnlyTmp1(m, m1) && PartialValue(IndexPartial(sc), m1) == LeaIndex(sc, m)
  {
    hide Exec, Leaves;
    var code := IndexCode(sc);
    if IndexReg(sc) != 0 && ScaleOf(sc) > 1 {
      ScaledStep(sc, IndexInst(sc));
      LeavesAt(alu, code, InTmp1, sc, m);
    } else {
      LeavesNothing(sc, IndexPartial(sc), IndexOnly);
      LeavesAt(alu, code, IndexPartial(sc), sc, m);
    }
  }

  lemma LeavesAt(alu: Alu, code: seq<Instruction>, p: Partial, sc: LlOperand, m: Machine)
    requires ValidOperand(sc) && PlainAlu(alu) && Leaves(code, p, sc, IndexOnly)
    ensures LeavesFrom(alu, m, Exec(alu, code, m), p, sc, IndexOnly)
  {
    hide Exec;
  }

  lemma SumStep(alu: Alu, negative: bool, a: Operand, b: Operand, m: Machine)
    requires PlainAlu(alu)
    ensures Step(alu, SignedInst(negative, a, b), m)
            == SetReg(m, REG_TMP1, Wrap(if negative then Read(m, a) - Read(m, b) else Read(m, a) + Read(m, b)))
  {
    hide Read;
  }

  lemma MoveStep(alu: Alu, a: Operand, m: Machine)
    requires PlainAlu(alu)
    ensures Step(alu, Instruction(Mov, 0, a, EMPTY_OPERAND, TMP1_OPERAND), m) == SetReg(m, REG_TMP1, Read(m, a))
  {
    hide Read;
  }

  function Displacement(sc: LlOperand): (o: Operand)
    requires ValidOperand(sc)
  {
    ImmOperand(64, Magnitude(Disp(sc)), 64)
  }

  /** The last addition without an index. */
  function BaseOnlyInst(sc: LlOperand): (i: Instruction)
    requires ValidOperand(sc) && sc.kind == KindScale
  {
    if Disp(sc) == 0 then Instruction(Mov, 0, ConvertOperand(sc, 0), EMPTY_OPERAND, TMP1_OPERAND)
    else SignedInst(IsNegative(Disp(sc)), ConvertOperand(sc, 0), Displacement(sc))
  }

  /** The last additions with an index: the displacement joins the index, the result the base. */
  ghost function IndexedCode(sc: LlOperand): (code: seq<Instruction>)
    requires ValidOperand(sc) && sc.kind == KindScale && HasIndex(sc)
  {
    if Disp(sc) == 0 then [SignedInst(false, ConvertOperand(sc, 0), PartialOperand(IndexPartial(sc)))]
    else [SignedInst(IsNegative(Disp(sc)), PartialOperand(IndexPartial(sc)), Displacement(sc)),
          SignedInst(IsNegative(Disp(sc)), ConvertOperand(sc, 0), TMP1_OPERAND)]
  }

  ghost function LeaCode(sc: LlOperand): (code: seq<Instruction>)
    requires ValidOperand(sc) && sc.kind == KindScale
  {
    IndexCode(sc) + if HasIndex(sc) then IndexedCode(sc) else [BaseOnlyInst(sc)]
  }

  /** What `LeaExec` says, for the machine `m1` after the index code. */
  ghost predicate LeftInTmp1(sc: LlOperand, m: Machine, m': Machine)
    requires ValidOperand(sc)
  {
    OnlyTmp1(m, m') && Reg(m', REG_TMP1) == LeaValue(sc, m)
  }

  lemma BaseOnlyStep(alu: Alu, sc: LlOperand, m: Machine, m1: Machine)
    requires PlainAlu(alu) && ValidOperand(sc) && NoTemps(sc) && sc.kind == KindScale && !HasIndex(sc) && OnlyTmp1(m, m1)
    ensures LeftInTmp1(sc, m, Step(alu, BaseOnlyInst(sc), m1))
  {
    hide Step, PlainAlu, Wrap, LeaIndex;
    assert Read(m1, ConvertOperand(sc, 0)) == Reg(m, BaseReg(sc));
    MagnitudeSum(Reg(m, BaseReg(sc)), Disp(sc));
    MoveStep(alu, ConvertOperand(sc, 0), m1);
    SumStep(alu, IsNegative(Disp(sc)), ConvertOperand(sc, 0), Displacement(sc), m1);
  }

  lemma MagnitudeSum(x: Word, d: Word)
    ensures Wrap(if IsNegative(d) then x - Magnitude(d) else x + Magnitude(d)) == Wrap(x + d)
    ensures Wrap(x + 0) == x
  {
  }

  lemma IndexedStep(alu: Alu, sc: LlOperand, m: Machine, m1: Machine)
    requires PlainAlu(alu) && ValidOperand(sc) && NoTemps(sc) && sc.kind == KindScale && HasIndex(sc)
    requires OnlyTmp1(m, m1) && PartialValue(IndexPartial(sc), m1) == LeaIndex(sc, m)
    ensures Disp(sc) == 0 ==> LeftInTmp1(sc, m, Step(alu, IndexedCode(sc)[0], m1))
    ensures Disp(sc) != 0 ==> LeftInTmp1(sc, m, Step(alu, IndexedCode(sc)[1], Step(alu, IndexedCode(sc)[0], m1)))
  {
    hide Step, PlainAlu, LeaIndex, Wrap;
    var p, base, d := PartialOperand(IndexPartial(sc)), ConvertOperand(sc, 0), Magnitude(Disp(sc));
    var x, b := LeaIndex(sc, m), Reg(m, BaseReg(sc));
    assert Read(m1, base) == b && Read(m1, p) == x && Read(m1, Displacement(sc)) == d;
    if Disp(sc) == 0 {
      SumStep(alu, false, base, p, m1);
    } else {
      SumStep(alu, IsNegative(Disp(sc)), p, Displacement(sc), m1);
      var m2 := Step(alu, IndexedCode(sc)[0], m1);
      assert Read(m2, base) == b;
      SumStep(alu, IsNegative(Disp(sc)), base, TMP1_OPERAND, m2);
      WrapNested(b, x, d);
      assert !IsNegative(Disp(sc)) ==> d == Disp(sc);
    }
  }

  lemma LeaExec(alu: Alu, sc: LlOperand, m: Machine)
    requires PlainAlu(alu) && ValidOperand(sc) && NoTemps(sc) && sc.kind == KindScale
    ensures LeftInTmp1(sc, m, Exec(alu, LeaCode(sc), m))
  {
    hide Exec, Step, PlainAlu, IndexCode, LeftInTmp1;
    var code := IndexCode(sc);
    IndexLeft(alu, sc, m);
    if !HasIndex(sc) {
      ExecSnoc(alu, code, BaseOnlyInst(sc), m);
      BaseOnlyStep(alu, sc, m, Exec(alu, code, m));
    } else {
      IndexedStep(alu, sc, m, Exec(alu, code, m));
      ExecSnoc(alu, code, IndexedCode(sc)[0], m);
      if Disp(sc) == 0 {
        assert LeaCode(sc) == code + [IndexedCode(sc)[0]];
      } else {
        ExecSnoc(alu, code + [IndexedCode(sc)[0]], IndexedCode(sc)[1], m);
        assert LeaCode(sc) == code + [IndexedCode(sc)[0]] + [IndexedCode(sc)[1]];
      }
    }
  }

  lemma WrapNested(a: int, b: int, c: int)
    ensures Wrap(a - Wrap(b - c)) == Wrap(a - (b - c))
    ensures Wrap(a + Wrap(b + c)) == Wrap(a + b + c)
  {
  }

  /** Destination register and machine after the whole sequence. */
  ghost predicate LeaEffect(m: Machine, m': Machine, dst: Word, v: Word) {
    && m'.cells == m.cells
    && Reg(m', dst) == v
    && forall r: Word :: r != dst && r != REG_TMP1 ==> Reg(m', r) == Reg(m, r)
  }

  /** Lowers an instruction without memory operand whose second source is an address operand. */
  method ConvertLea(d: DisInstructions, inst: LlInst, flags: int)
    requires ValidOperand(inst.srcB) && inst.srcB.kind == KindScale && NoTemps(inst.srcB)
    requires ValidOperand(inst.dstA) && inst.dstA.kind == KindReg && inst.dstA.operand[0].value != REG_TMP1
    modifies d
    ensures |d.code| >= |old(d.code)| && d.code[..|old(d.code)|] == old(d.code)
    ensures forall alu: Alu, m: Machine :: PlainAlu(alu) ==>
      LeaEffect(m, Exec(alu, d.code[|old(d.code)|..], m), inst.dstA.operand[0].value, LeaValue(inst.srcB, m))
  {
    hide Exec;
    ghost var n := |d.code|;
    var sc := inst.srcB;
    var disp := Disp(sc);
    var p := NoPartial;
    var negative := false;
    if IndexReg(sc) == 0 {
    } else if ScaleOf(sc) == 1 {
      p := InReg(sc.operand[2]);
    } else if ScaleOf(sc) > 1 {
      d.Emit(IndexInst(sc));
      p := InTmp1;
    }
    var last: Operand;
    var none := false;
    if disp > 0 && p == NoPartial {
      negative := IsNegative(disp);
      last := ImmOperand(64, Magnitude(disp), 64);
    } else if disp > 0 {
      negative := IsNegative(disp);
      d.Emit(SignedInst(negative, PartialOperand(p), ImmOperand(64, Magnitude(disp), 64)));
      last := TMP1_OPERAND;
    } else if p == NoPartial {
      none := true;
      last := TMP1_OPERAND;
    } else {
      last := PartialOperand(p);
    }
    if none {
      d.Emit(Instruction(Mov, 0, ConvertOperand(sc, 0), EMPTY_OPERAND, TMP1_OPERAND));
    } else {
      d.Emit(SignedInst(negative, ConvertOperand(sc, 0), last));
    }
    assert d.code[n..] == LeaCode(sc);
    var final := Instruction(Mov, flags, TMP1_OPERAND, ConvertOperand(sc, 0), ConvertOperand(inst.dstA, 0));
    d.Emit(final);
    assert d.code[n..] == LeaCode(sc) + [final];
    forall alu: Alu, m: Machine | PlainAlu(alu)
      ensures LeaEffect(m, Exec(alu, d.code[n..], m), inst.dstA.operand[0].value, LeaValue(sc, m))
    {
      ExecSnoc(alu, LeaCode(sc), final, m);
      LeaExec(alu, sc, m);
    }
  }

  // ----- When that value is the address

  const HALF: Word := 0x8000_0000_0000_0000

  /** The index is then 0 or half of the range, and so is the displacement: their sign is no matter. */
  predicate SignFree(sc: LlOperand)
    requires ValidOperand(sc)
  {
    Disp(sc) == HALF && ScaleOf(sc) == HALF
  }

  /** The operands for which the sequence is right on every machine. */
  predicate LeaSafe(sc: LlOperand)
    requires ValidOperand(sc)
  {
    BaseReg(sc) != 0 && (HasIndex(sc) && Disp(sc) >= 0x8000_0000_0000_0000 ==> SignFree(sc))
  }

  /** A machine in which register `r` holds `v` and every other register 0. */
  ghost function OneReg(r: Word, v: Word): (m: Machine) {
    Machine(map[r := v], map[])
  }

  /** With base 0 the sequence reads register 0, which is no part of the address. */
  lemma NoBaseDiffers(sc: LlOperand)
    requires ValidOperand(sc) && BaseReg(sc) == 0
    ensures exists m: Machine :: LeaValue(sc, m) != EffectiveAddress(sc, m)
  {
    var m0, m1 := OneReg(0, 0), OneReg(0, 1);
    assert Reg(m0, 0) == 0 && Reg(m1, 0) == 1;
    assert Reg(m0, IndexReg(sc)) == 0 && (IndexReg(sc) != 0 ==> Reg(m1, IndexReg(sc)) == 0);
    assert LeaIndex(sc, m0) == LeaIndex(sc, m1) && EffectiveAddress(sc, m0) == EffectiveAddress(sc, m1);
    assert LeaValue(sc, m0) != LeaValue(sc, m1);
  }

  /** With an index and a negative displacement the index is subtracted from the base. */
  lemma NegativeIndexDiffers(sc: LlOperand)
    requires ValidOperand(sc) && BaseReg(sc) != 0 && HasIndex(sc) && Disp(sc) >= HALF && !SignFree(sc)
    ensures exists m: Machine :: LeaValue(sc, m) != EffectiveAddress(sc, m)
  {
    var k, s, d := IndexReg(sc), ScaleOf(sc), Disp(sc);
    var m0, m1 := OneReg(k, 0), OneReg(k, 1);
    assert Reg(m0, k) == 0 && Reg(m1, k) == 1;
    assert LeaIndex(sc, m0) == IndexTerm(sc, m0) == 0;
    assert LeaIndex(sc, m1) == IndexTerm(sc, m1) == s;
    assert Reg(m0, BaseReg(sc)) == 0 && Reg(m1, BaseReg(sc)) == if BaseReg(sc) == k then 1 else 0;
    if d != HALF {
      assert LeaValue(sc, m0) != EffectiveAddress(sc, m0);
    } else {
      assert LeaValue(sc, m1) != EffectiveAddress(sc, m1);
    }
  }

  lemma HalfTurns(r: Word)
    ensures Wrap(r * HALF) == if r % 2 == 0 then 0 else HALF
  {
    assert r * HALF == (r / 2) * 0x1_0000_0000_0000_0000 + (r % 2) * HALF;
  }

  /** The sequence computes base + index * scale + displacement on every machine if and only if
      there is a base and no index meets a negative displacement, unless scale and displacement are
      both half of the range. */
  lemma LeaExact(sc: LlOperand)
    requires ValidOperand(sc)
    ensures (forall m: Machine :: LeaValue(sc, m) == EffectiveAddress(sc, m)) <==> LeaSafe(sc)
  {
    if LeaSafe(sc) {
      forall m: Machine ensures LeaValue(sc, m) == EffectiveAddress(sc, m) {
        assert ScaleOf(sc) == 0 ==> Reg(m, IndexReg(sc)) * ScaleOf(sc) == 0;
        HalfTurns(Reg(m, IndexReg(sc)));
      }
    } else if BaseReg(sc) == 0 {
      NoBaseDiffers(sc);
    } else {
      NegativeIndexDiffers(sc);
    }
  }
}
