/** `rmb` of the ia32 decoder: ModR/M, SIB and displacement bytes turned into address arithmetic. */
module Rmb {
  import opened Rtl

  type Byte = x: int | 0 <= x < 0x100

  /** The bytes in front of the decoder. */
  type Stream = nat -> Byte

  // ----- Fields and displacements

  function Reg3(b: Byte): (r: nat)
    ensures r < 8
  {
    b / 8 % 8
  }

  function Rm3(b: Byte): (r: nat)
    ensures r < 8
  {
    b % 8
  }

  function Mod2(b: Byte): (m: nat)
    ensures m < 4
  {
    b / 64
  }

  function Dword(s: Stream, at: nat): (v: Word)
    ensures v < W32
  {
    s(at) + 0x100 * s(at + 1) + 0x1_0000 * s(at + 2) + 0x100_0000 * s(at + 3)
  }

  method GetDword(s: Stream, at: nat) returns (v: Word)
    ensures v == Dword(s, at)
  {
    v := s(at);
    v := v + s(at + 1) * 0x100;
    v := v + s(at + 2) * 0x1_0000;
    v := v + s(at + 3) * 0x100_0000;
  }

  /** EAX, ECX, EDX, EBX, ESP, EBP, ESI, EDI. */
  const REG_TABLE: seq<Word> := [0x08, 0x10, 0x18, 0x20, 0x28, 0x30, 0x38, 0x40]

  // ----- The architectural address: Intel SDM Volume 2A, section 2.1.5, Tables 2-2 and 2-3

  datatype OptReg = NoReg | SomeReg(r: nat)

  /** R/M 4 announces a SIB byte. */
  predicate HasSib(s: Stream, at: nat) {
    Rm3(s(at)) == 4
  }

  /** The displacement bytes: one or four by Mod; four for Mod 0 without a base. */
  function DispSize(s: Stream, at: nat): (n: nat) {
    if Mod2(s(at)) == 1 then 1
    else if Mod2(s(at)) == 2 || (Mod2(s(at)) == 0 && ArchBase(s, at) == NoReg) then 4
    else 0
  }

  /** Base 5 with Mod 0 means none, with or without SIB. */
  function ArchBase(s: Stream, at: nat): (r: OptReg)
    ensures r.SomeReg? ==> r.r < 8
  {
    var b: nat := if HasSib(s, at) then Rm3(s(at + 1)) else Rm3(s(at));
    if b == 5 && Mod2(s(at)) == 0 then NoReg else SomeReg(b)
  }

  /** Index 4 means none. */
  function ArchIndex(s: Stream, at: nat): (r: OptReg)
    ensures r.SomeReg? ==> r.r < 8
  {
    if HasSib(s, at) && Reg3(s(at + 1)) != 4 then SomeReg(Reg3(s(at + 1))) else NoReg
  }

  function ArchScale(s: Stream, at: nat): (n: nat) {
    var ss := Mod2(s(at + 1));
    if ss == 0 then 1 else if ss == 1 then 2 else if ss == 2 then 4 else 8
  }

  function DispAt(s: Stream, at: nat): (p: nat) {
    at + 1 + if HasSib(s, at) then 1 else 0
  }

  /** Eight-bit displacements are sign-extended. */
  function ArchDisp(s: Stream, at: nat): (d: int) {
    if DispSize(s, at) == 4 then Dword(s, DispAt(s, at))
    else if DispSize(s, at) == 0 then 0
    else if s(DispAt(s, at)) > 0x7f then s(DispAt(s, at)) - 0x100
    else s(DispAt(s, at))
  }

  function RegTerm(r: OptReg, m: Machine): (v: int)
    requires r.SomeReg? ==> r.r < 8
  {
    if r.SomeReg? then Reg(m, REG_TABLE[r.r]) else 0
  }

  function Wrap32(x: int): (v: Word) {
    x % W32
  }

  function EffectiveAddress(s: Stream, at: nat, m: Machine): (a: Word) {
    Wrap32(RegTerm(ArchBase(s, at), m) + RegTerm(ArchIndex(s, at), m) * ArchScale(s, at) + ArchDisp(s, at))
  }

  /** ModR/M, SIB and displacement. */
  function Length(s: Stream, at: nat): (n: nat) {
    1 + (if HasSib(s, at) then 1 else 0) + DispSize(s, at)
  }

  // ----- Two-operand instructions: the destination is the first factor or summand

  datatype TwoOperand = TwoOperand(opcode: Opcode, srcA: Operand, dstA: Operand)

  function Combine(opcode: Opcode, d: Word, a: Word): (v: Word) {
    match opcode
    case Add => Wrap32(d + a)
    case Sub => Wrap32(d - a)
    case Mul => Wrap32(d * a)
    case _ => Wrap32(a)
  }

  function Step2(i: TwoOperand, m: Machine): (m': Machine) {
    Write(m, i.dstA, Combine(i.opcode, Read(m, i.dstA), Read(m, i.srcA)))
  }

  function Exec2(code: seq<TwoOperand>, m: Machine): (m': Machine) {
    if code == [] then m else Step2(code[|code| - 1], Exec2(code[..|code| - 1], m))
  }

  lemma Exec2Snoc(code: seq<TwoOperand>, i: TwoOperand, m: Machine)
    ensures Exec2(code + [i], m) == Step2(i, Exec2(code, m))
  {
    assert (code + [i])[..|code|] == code;
  }

  // ----- Partial sums in TMP1

  const TMP1: Operand := Operand(StoreReg, IndDirect, 4, REG_TMP1, 4)

  function Reg32(k: nat): (o: Operand)
    requires k < 8
  {
    Operand(StoreReg, IndDirect, 4, REG_TABLE[k], 4)
  }

  function Imm(v: Word, size: int): (o: Operand) {
    Operand(StoreDirect, IndDirect, 4, v, size)
  }

  datatype Stage = IndexOnly | IndexAndBase | Whole

  /** What the second stage adds: the base, or the displacement that stands in for it. */
  function BaseTerm(s: Stream, at: nat, m: Machine): (v: int) {
    if ArchBase(s, at) == NoReg then ArchDisp(s, at) else RegTerm(ArchBase(s, at), m)
  }

  function SumAt(s: Stream, at: nat, stage: Stage, m: Machine): (v: int) {
    match stage
    case IndexOnly => RegTerm(ArchIndex(s, at), m) * ArchScale(s, at)
    case IndexAndBase => RegTerm(ArchIndex(s, at), m) * ArchScale(s, at) + BaseTerm(s, at, m)
    case Whole => RegTerm(ArchBase(s, at), m) + RegTerm(ArchIndex(s, at), m) * ArchScale(s, at) + ArchDisp(s, at)
  }

  /** Everything but TMP1 is as before. */
  ghost predicate OnlyTmp1(m: Machine, m': Machine) {
    m'.cells == m.cells && forall r: Word :: r != REG_TMP1 ==> Reg(m', r) == Reg(m, r)
  }

  /** From any machine the code leaves the sum of that stage in TMP1; without code it is 0. */
  ghost predicate Leaves(code: seq<TwoOperand>, s: Stream, at: nat, stage: Stage) {
    forall m: Machine :: LeavesFrom(code, s, at, stage, m, Exec2(code, m))
  }

  ghost predicate LeavesFrom(code: seq<TwoOperand>, s: Stream, at: nat, stage: Stage, m: Machine, m': Machine) {
    && OnlyTmp1(m, m')
    && (if code == [] then SumAt(s, at, stage, m) == 0 else Reg(m', REG_TMP1) == Wrap32(SumAt(s, at, stage, m)))
  }

  /** The instruction turns the sum of one stage into that of the next. */
  ghost predicate Advances(code: seq<TwoOperand>, i: TwoOperand, s: Stream, at: nat, stage: Stage, stage': Stage) {
    && i.dstA == TMP1
    && forall m: Machine, m': Machine :: LeavesFrom(code, s, at, stage, m, m') ==>
         Combine(i.opcode, Reg(m', REG_TMP1), Read(m', i.srcA)) == Wrap32(SumAt(s, at, stage', m))
  }

  lemma LeavesNext(code: seq<TwoOperand>, i: TwoOperand, s: Stream, at: nat, stage: Stage, stage': Stage)
    requires Leaves(code, s, at, stage) && Advances(code, i, s, at, stage, stage')
    ensures Leaves(code + [i], s, at, stage')
  {
    hide SumAt, Combine;
    forall m: Machine ensures LeavesFrom(code + [i], s, at, stage', m, Exec2(code + [i], m)) {
      Exec2Snoc(code, i, m);
      assert LeavesFrom(code, s, at, stage, m, Exec2(code, m));
    }
  }

  lemma Wrap32Sum(x: int, y: int)
    ensures Wrap32(Wrap32(x) + y) == Wrap32(x + y)
    ensures Wrap32(Wrap32(x) - y) == Wrap32(x - y)
  {
    var k := x / W32;
    assert x == W32 * k + Wrap32(x);
    Wrap32Shift(Wrap32(x) + y, k);
    Wrap32Shift(Wrap32(x) - y, k);
  }

  lemma Wrap32Product(x: int, y: int)
    ensures Wrap32(Wrap32(x) * y) == Wrap32(x * y)
  {
    var k := x / W32;
    assert x == W32 * k + Wrap32(x);
    assert x * y == W32 * (k * y) + Wrap32(x) * y;
    Wrap32Shift(Wrap32(x) * y, k * y);
  }

  lemma Wrap32Shift(x: int, k: int)
    ensures Wrap32(W32 * k + x) == Wrap32(x)
  {
    var q := x / W32;
    assert W32 * k + x == W32 * (k + q) + Wrap32(x);
  }

  // ----- The decoder

  /** What the caller still has to fill in: with Mod 3 the operands of a register instruction. */
  datatype Pending = Nothing | Registers(srcA: Operand, dstA: Operand)

  lemma NoIndex(s: Stream, at: nat)
    requires ArchIndex(s, at) == NoReg
    ensures Leaves([], s, at, IndexOnly)
  {
  }

  lemma IndexMoved(s: Stream, at: nat, i: TwoOperand)
    requires ArchIndex(s, at).SomeReg? && i == TwoOperand(Mov, Reg32(ArchIndex(s, at).r), TMP1)
    ensures forall m: Machine :: OnlyTmp1(m, Exec2([i], m)) && Reg(Exec2([i], m), REG_TMP1) == Wrap32(RegTerm(ArchIndex(s, at), m))
    ensures ArchScale(s, at) == 1 ==> Leaves([i], s, at, IndexOnly)
  {
    forall m: Machine
      ensures OnlyTmp1(m, Exec2([i], m)) && Reg(Exec2([i], m), REG_TMP1) == Wrap32(RegTerm(ArchIndex(s, at), m))
    {
      Exec2Snoc([], i, m);
      assert [] + [i] == [i];
    }
  }

  lemma IndexScaled(s: Stream, at: nat, i: TwoOperand, j: TwoOperand)
    requires ArchIndex(s, at).SomeReg? && i == TwoOperand(Mov, Reg32(ArchIndex(s, at).r), TMP1)
    requires j == TwoOperand(Mul, Imm(ArchScale(s, at), 4), TMP1)
    ensures Leaves([i, j], s, at, IndexOnly)
  {
    hide Exec2, RegTerm, ArchScale, ArchIndex;
    IndexMoved(s, at, i);
    forall m: Machine ensures LeavesFrom([i, j], s, at, IndexOnly, m, Exec2([i, j], m)) {
      Exec2Snoc([i], j, m);
      assert [i] + [j] == [i, j];
      Wrap32Product(RegTerm(ArchIndex(s, at), m), ArchScale(s, at));
    }
  }

  /** The base register, or the 32-bit displacement without one. */
  lemma BaseAdvances(code: seq<TwoOperand>, s: Stream, at: nat, i: TwoOperand)
    requires i.dstA == TMP1 && i.opcode == if code == [] then Mov else Add
    requires i.srcA == match ArchBase(s, at) case SomeReg(r) => Reg32(r) case NoReg => Imm(Dword(s, DispAt(s, at)), 4)
    requires Mod2(s(at)) != 3
    ensures Advances(code, i, s, at, IndexOnly, IndexAndBase)
  {
    hide ArchIndex, ArchScale, Dword;
    forall m: Machine, m': Machine | LeavesFrom(code, s, at, IndexOnly, m, m')
      ensures Combine(i.opcode, Reg(m', REG_TMP1), Read(m', i.srcA)) == Wrap32(SumAt(s, at, IndexAndBase, m))
    {
      assert Read(m', i.srcA) == BaseTerm(s, at, m);
      Wrap32Sum(SumAt(s, at, IndexOnly, m), BaseTerm(s, at, m));
    }
  }

  /** Without Mod 1 or 2 the sum is complete. */
  lemma NoDisplacement(code: seq<TwoOperand>, s: Stream, at: nat)
    requires Leaves(code, s, at, IndexAndBase) && Mod2(s(at)) == 0
    ensures Leaves(code, s, at, Whole)
  {
    hide Exec2, ArchIndex, ArchScale, Dword;
    forall m: Machine ensures LeavesFrom(code, s, at, Whole, m, Exec2(code, m)) {
      assert LeavesFrom(code, s, at, IndexAndBase, m, Exec2(code, m));
      assert SumAt(s, at, IndexAndBase, m) == SumAt(s, at, Whole, m);
    }
  }

  /** A negative eight-bit displacement is subtracted. */
  lemma DisplacementAdvances(code: seq<TwoOperand>, s: Stream, at: nat, i: TwoOperand)
    requires (Mod2(s(at)) == 1 || Mod2(s(at)) == 2) && code != [] && i.dstA == TMP1
    requires i.opcode == if ArchDisp(s, at) < 0 then Sub else Add
    requires i.srcA.store == StoreDirect && i.srcA.indirect == IndDirect
    requires i.srcA.index == if ArchDisp(s, at) < 0 then -ArchDisp(s, at) else ArchDisp(s, at)
    ensures Advances(code, i, s, at, IndexAndBase, Whole)
  {
    hide ArchIndex, ArchScale, Dword, ArchDisp;
    forall m: Machine, m': Machine | LeavesFrom(code, s, at, IndexAndBase, m, m')
      ensures Combine(i.opcode, Reg(m', REG_TMP1), Read(m', i.srcA)) == Wrap32(SumAt(s, at, Whole, m))
    {
      Wrap32Sum(SumAt(s, at, IndexAndBase, m), i.srcA.index);
      assert SumAt(s, at, Whole, m) == SumAt(s, at, IndexAndBase, m) + ArchDisp(s, at);
    }
  }

  class Decoder {
    var code: seq<TwoOperand>
    var bytesUsed: nat

    method Emit(i: TwoOperand)
      modifies this`code
      ensures code == old(code) + [i]
    {
      code := code + [i];
    }

    /** The SIB byte's index, moved to TMP1 and scaled. */
    method ScaleIndex(ghost s: Stream, ghost at: nat, index: nat, mul: nat)
      requires HasSib(s, at) && index == Reg3(s(at + 1)) && mul == Mod2(s(at + 1))
      modifies this`code
      ensures |code| >= |old(code)| && code[..|old(code)|] == old(code)
      ensures Leaves(code[|old(code)|..], s, at, IndexOnly)
    {
      hide Leaves;
      ghost var n := |code|;
      if index != 4 {
        var i := TwoOperand(Mov, Reg32(index), TMP1);
        Emit(i);
        if mul > 0 {
          var factor := if mul == 1 then 2 else if mul == 2 then 4 else 8;
          var j := TwoOperand(Mul, Imm(factor, 4), TMP1);
          Emit(j);
          assert code[n..] == [i, j];
          IndexScaled(s, at, i, j);
        } else {
          assert code[n..] == [i];
          IndexMoved(s, at, i);
        }
      } else {
        assert code[n..] == [];
        NoIndex(s, at);
      }
    }

    /** MOV for the first summand, ADD for the others. */
    method AddBase(ghost s: Stream, ghost at: nat, srcA: Operand, ghost n: nat, number: nat)
      requires n == number <= |code| && Mod2(s(at)) != 3 && Leaves(code[n..], s, at, IndexOnly)
      requires srcA == match ArchBase(s, at) case SomeReg(r) => Reg32(r) case NoReg => Imm(Dword(s, DispAt(s, at)), 4)
      modifies this`code
      ensures |code| > number && code[..n] == old(code[..n])
      ensures Leaves(code[n..], s, at, IndexAndBase)
    {
      hide Leaves, Advances;
      ghost var before := code[n..];
      var i := TwoOperand(if |code| > number then Add else Mov, srcA, TMP1);
      Emit(i);
      BaseAdvances(before, s, at, i);
      LeavesNext(before, i, s, at, IndexOnly, IndexAndBase);
      assert code[n..] == before + [i];
    }

    method AddDisplacement(s: Stream, ghost at: nat, mod: nat, offset: nat, ghost n: nat)
      requires n < |code| && mod == Mod2(s(at)) != 3 && Leaves(code[n..], s, at, IndexAndBase)
      requires Mod2(s(at)) > 0 ==> offset + bytesUsed == DispAt(s, at)
      modifies this
      ensures n < |code| && code[..n] == old(code[..n])
      ensures Leaves(code[n..], s, at, Whole)
      ensures bytesUsed == old(bytesUsed) + if Mod2(s(at)) > 0 then DispSize(s, at) else 0
    {
      hide Leaves, Advances, Dword;
      ghost var before := code[n..];
      if mod > 0 {
        var opcode, operand := Add, Imm(0, 4);
        if mod == 1 {
          var disp: int := s(offset + bytesUsed);
          if disp > 0x7f {
            opcode := Sub;
            disp := 0x100 - disp;
          }
          operand := Imm(disp, 1);
          bytesUsed := bytesUsed + 1;
        } else {
          var disp := GetDword(s, offset + bytesUsed);
          operand := Imm(disp, 4);
          bytesUsed := bytesUsed + 4;
        }
        var i := TwoOperand(opcode, operand, TMP1);
        Emit(i);
        DisplacementAdvances(before, s, at, i);
        LeavesNext(before, i, s, at, IndexAndBase, Whole);
        assert code[n..] == before + [i];
      } else {
        NoDisplacement(before, s, at);
      }
    }

    /** Decodes the ModR/M byte at `offset + bytesUsed`. Unless it names a register, the code added
        leaves the effective address in TMP1 on every machine and changes nothing else. */
    method Rmb(s: Stream, offset: nat) returns (reg: nat, pending: Pending)
      modifies this
      ensures reg == Reg3(s(offset + old(bytesUsed)))
      ensures |code| >= |old(code)| && code[..|old(code)|] == old(code)
      ensures Mod2(s(offset + old(bytesUsed))) == 3 ==>
        && code == old(code) && bytesUsed == old(bytesUsed) + 1
        && pending == Registers(Reg32(Rm3(s(offset + old(bytesUsed)))), Reg32(Rm3(s(offset + old(bytesUsed)))))
      ensures Mod2(s(offset + old(bytesUsed))) != 3 ==>
        && pending == Nothing
        && bytesUsed == old(bytesUsed) + Length(s, offset + old(bytesUsed))
        && AddressLeft(code[|old(code)|..], s, offset + old(bytesUsed))
    {
      hide Leaves, Dword;
      ghost var at := offset + bytesUsed;
      var number := |code|;
      var b := s(offset + bytesUsed);
      bytesUsed := bytesUsed + 1;
      reg, pending := Reg3(b), Nothing;
      if Mod2(b) == 3 {
        pending := Registers(Reg32(Rm3(b)), Reg32(Rm3(b)));
        return;
      }
      if Rm3(b) == 4 {
        var sib := s(offset + bytesUsed);
        bytesUsed := bytesUsed + 1;
        ScaleIndex(s, at, Reg3(sib), Mod2(sib));
        var srcA := Reg32(Rm3(sib));
        if Rm3(sib) == 5 && Mod2(b) == 0 {
          var disp := GetDword(s, offset + bytesUsed);
          bytesUsed := bytesUsed + 4;
          srcA := Imm(disp, 4);
        }
        AddBase(s, at, srcA, number, number);
      } else {
        NoIndex(s, at);
        assert code[number..] == [];
        var srcA := Reg32(Rm3(b));
        if Rm3(b) == 5 && Mod2(b) == 0 {
          var disp := GetDword(s, offset + bytesUsed);
          bytesUsed := bytesUsed + 4;
          srcA := Imm(disp, 4);
        }
        AddBase(s, at, srcA, number, number);
      }
      AddDisplacement(s, at, Mod2(b), offset, number);
      assert AddressLeft(code[number..], s, at) by { WholeIsAddress(code[number..], s, at); }
    }
  }

  /** On every machine the code leaves the effective address in TMP1, all else unchanged. */
  ghost predicate AddressLeft(code: seq<TwoOperand>, s: Stream, at: nat) {
    forall m: Machine :: OnlyTmp1(m, Exec2(code, m)) && Reg(Exec2(code, m), REG_TMP1) == EffectiveAddress(s, at, m)
  }

  lemma WholeIsAddress(code: seq<TwoOperand>, s: Stream, at: nat)
    requires Leaves(code, s, at, Whole) && code != []
    ensures AddressLeft(code, s, at)
  {
    hide Exec2, ArchIndex, ArchScale, ArchBase, ArchDisp, RegTerm;
    forall m: Machine
      ensures OnlyTmp1(m, Exec2(code, m)) && Reg(Exec2(code, m), REG_TMP1) == EffectiveAddress(s, at, m)
    {
      assert LeavesFrom(code, s, at, Whole, m, Exec2(code, m));
    }
  }
}
