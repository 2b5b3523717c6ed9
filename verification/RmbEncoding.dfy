/** Addresses encoded as ModR/M, SIB and displacement, and decoded again. */
module RmbEncoding {
  import opened Rtl
  import opened Rmb

  // ----- Registers

  /** The eight registers follow each other in steps of eight, AX first. */
  lemma RegistersInOrder(k: nat)
    requires k < |REG_TABLE|
    ensures |REG_TABLE| == 8 && REG_TABLE[k] == REG_AX + 8 * k
    ensures REG_TABLE[4] == REG_SP && REG_TABLE[5] == REG_BP
  {
  }

  // ----- Encoding

  /** base + index * 2^scale + displacement. Register 4 is no index. */
  datatype Address = Address(base: OptReg, index: OptReg, scale: nat, disp: int)

  ghost predicate Encodable(a: Address) {
    && (a.base.SomeReg? ==> a.base.r < 8) && (a.index.SomeReg? ==> a.index.r < 8 && a.index.r != 4) && a.scale < 4
    && -0x8000_0000 <= a.disp < 0x8000_0000
  }

  function Term(r: OptReg, m: Machine): (v: int)
    requires r.SomeReg? ==> r.r < 8
  {
    if r.SomeReg? then Reg(m, REG_AX + 8 * r.r) else 0
  }

  function Factor(scale: nat): (n: nat)
    requires scale < 4
  {
    [1, 2, 4, 8][scale]
  }

  /** What the address means on a 32-bit machine. */
  ghost function Meant(a: Address, m: Machine): (v: int)
    requires Encodable(a)
  {
    (Term(a.base, m) + Term(a.index, m) * Factor(a.scale) + a.disp) % 0x1_0000_0000
  }

  function Bits(hi: nat, mid: nat, lo: nat): (b: Byte)
    requires hi < 4 && mid < 8 && lo < 8
  {
    64 * hi + 8 * mid + lo
  }

  function Low32(d: int): (v: nat)
    ensures v < 0x1_0000_0000
  {
    d % 0x1_0000_0000
  }

  function Joined(a: int, b: int, c: int, d: int): (v: int) {
    a + 0x100 * (b + 0x100 * (c + 0x100 * d))
  }

  /** Four bytes, the lowest first. */
  function Bytes4(v: nat): (b: seq<Byte>)
    requires v < 0x1_0000_0000
    ensures |b| == 4 && v == Joined(b[0], b[1], b[2], b[3])
  {
    var x, y, z := v / 0x100, v / 0x100 / 0x100, v / 0x100 / 0x100 / 0x100;
    [v % 0x100, x % 0x100, y % 0x100, z]
  }

  /** The size of the displacement; base 5 cannot do without one, and no base needs four bytes. */
  function Mod(a: Address): (mod: nat)
    ensures mod < 3
  {
    if a.base == NoReg || (a.disp == 0 && a.base != SomeReg(5)) then 0
    else if -0x80 <= a.disp < 0x80 then 1
    else 2
  }

  function BaseBits(a: Address): (k: nat)
    requires a.base.SomeReg? ==> a.base.r < 8
  {
    if a.base.SomeReg? then a.base.r else 5
  }

  predicate NeedsSib(a: Address) {
    a.index.SomeReg? || a.base == SomeReg(4)
  }

  function DispBytes(a: Address): (b: seq<Byte>)
    requires -0x8000_0000 <= a.disp < 0x8000_0000
  {
    if Mod(a) == 2 || a.base == NoReg then Bytes4(Low32(a.disp))
    else if Mod(a) == 1 then [a.disp % 0x100]
    else []
  }

  ghost function Encode(a: Address, reg: nat): (b: seq<Byte>)
    requires Encodable(a) && reg < 8
  {
    (if NeedsSib(a) then [Bits(Mod(a), reg, 4), Bits(a.scale, if a.index.SomeReg? then a.index.r else 4, BaseBits(a))]
     else [Bits(Mod(a), reg, BaseBits(a))]) + DispBytes(a)
  }

  // ----- Decoding gives the address back

  ghost predicate Holds(s: Stream, at: nat, b: seq<Byte>) {
    forall k :: 0 <= k < |b| ==> s(at + k) == b[k]
  }

  lemma FieldsBack(hi: nat, mid: nat, lo: nat)
    requires hi < 4 && mid < 8 && lo < 8
    ensures Mod2(Bits(hi, mid, lo)) == hi && Reg3(Bits(hi, mid, lo)) == mid && Rm3(Bits(hi, mid, lo)) == lo
  {
    var b, x := Bits(hi, mid, lo), 8 * hi + mid;
    assert b == 64 * hi + (8 * mid + lo) && b / 64 == hi;
    assert b == 8 * x + lo && b / 8 == x && b % 8 == lo;
    assert x / 8 == hi && x % 8 == mid;
  }

  lemma SignedByteBack(d: int)
    requires -0x80 <= d < 0x80
    ensures var b := d % 0x100; d == if b > 0x7f then b - 0x100 else b
  {
  }

  lemma HeadBack(a: Address, reg: nat, s: Stream, at: nat)
    requires Encodable(a) && reg < 8 && Holds(s, at, Encode(a, reg))
    ensures Mod2(s(at)) == Mod(a) && Reg3(s(at)) == reg
    ensures HasSib(s, at) <==> NeedsSib(a)
    ensures ArchBase(s, at) == a.base && ArchIndex(s, at) == a.index
    ensures a.index.SomeReg? ==> ArchScale(s, at) == Factor(a.scale)
    ensures DispSize(s, at) == |DispBytes(a)| && DispAt(s, at) + |DispBytes(a)| == at + |Encode(a, reg)|
  {
    hide Holds, Bits, Mod2, Reg3, Rm3;
    var b := Encode(a, reg);
    assert s(at) == b[0] && (NeedsSib(a) ==> s(at + 1) == b[1]) by { HeldBytes(s, at, b); }
    FieldsBack(Mod(a), reg, if NeedsSib(a) then 4 else BaseBits(a));
    FieldsBack(a.scale, if a.index.SomeReg? then a.index.r else 4, BaseBits(a));
  }

  lemma HeldBytes(s: Stream, at: nat, b: seq<Byte>)
    requires Holds(s, at, b)
    ensures |b| > 0 ==> s(at) == b[0]
    ensures |b| > 1 ==> s(at + 1) == b[1]
    ensures |b| > 2 ==> s(at + 2) == b[2]
    ensures |b| > 3 ==> s(at + 3) == b[3]
  {
    assert |b| > 0 ==> s(at + 0) == b[0];
  }

  lemma DispBack(a: Address, reg: nat, s: Stream, at: nat)
    requires Encodable(a) && reg < 8 && Holds(s, at, Encode(a, reg))
    ensures Wrap32(ArchDisp(s, at)) == Wrap32(a.disp)
  {
    hide Encode, ArchBase, HasSib, Dword, Bytes4, Mod2, DispAt, Holds;
    HeadBack(a, reg, s, at);
    var p := DispAt(s, at);
    assert Holds(s, p, DispBytes(a)) by { HeldDisp(a, reg, s, at, p); }
    HeldBytes(s, p, DispBytes(a));
    if DispSize(s, at) == 1 {
      SignedByteBack(a.disp);
    } else if DispSize(s, at) == 4 {
      DwordBack(s, p, Low32(a.disp));
    }
  }

  lemma DwordBack(s: Stream, p: nat, v: nat)
    requires v < 0x1_0000_0000 && s(p) == Bytes4(v)[0] && s(p + 1) == Bytes4(v)[1]
    requires s(p + 2) == Bytes4(v)[2] && s(p + 3) == Bytes4(v)[3]
    ensures Dword(s, p) == v
  {
    hide Bytes4;
  }

  lemma HeldDisp(a: Address, reg: nat, s: Stream, at: nat, p: nat)
    requires Encodable(a) && reg < 8 && Holds(s, at, Encode(a, reg)) && p + |DispBytes(a)| == at + |Encode(a, reg)|
    ensures Holds(s, p, DispBytes(a))
  {
    hide Holds, DispBytes, Bits;
    var b := Encode(a, reg);
    HeldTail(s, at, b, p - at);
    assert b[p - at..] == DispBytes(a);
  }

  lemma HeldTail(s: Stream, at: nat, b: seq<Byte>, k: nat)
    requires Holds(s, at, b) && k <= |b|
    ensures Holds(s, at + k, b[k..])
  {
    forall i | 0 <= i < |b[k..]| ensures s(at + k + i) == b[k..][i] {
      var j := k + i;
      assert s(at + j) == b[j];
    }
  }

  /** Every encoded address is decoded to itself, with its register field and its length. */
  lemma DecodesBack(a: Address, reg: nat, s: Stream, at: nat, m: Machine)
    requires Encodable(a) && reg < 8 && Holds(s, at, Encode(a, reg))
    ensures Mod2(s(at)) != 3 && Reg3(s(at)) == reg && Length(s, at) == |Encode(a, reg)|
    ensures EffectiveAddress(s, at, m) == Meant(a, m)
  {
    hide ArchBase, ArchIndex, ArchScale, ArchDisp, Encode, Factor, Length, RegTerm, Term, IndexTerm, Wrap32, Holds, SumOf, Meant,
      EffectiveAddress;
    HeadBack(a, reg, s, at);
    DispBack(a, reg, s, at);
    LengthBack(a, reg, s, at);
    IndexBack(a, s, at, m);
    SameTerm(a.base, m);
    var x, y := Term(a.base, m), IndexTerm(a, m);
    assert SumOf(s, at, m) == x + y + ArchDisp(s, at) by { SumParts(a, s, at, m); }
    SameSum(x + y, ArchDisp(s, at), a.disp);
    assert Meant(a, m) == Wrap32(x + y + a.disp) by { MeantParts(a, m); }
  }

  /** What the decoded address adds up. */
  ghost function SumOf(s: Stream, at: nat, m: Machine): (v: int)
    ensures EffectiveAddress(s, at, m) == Wrap32(v)
  {
    RegTerm(ArchBase(s, at), m) + RegTerm(ArchIndex(s, at), m) * ArchScale(s, at) + ArchDisp(s, at)
  }

  ghost function IndexTerm(a: Address, m: Machine): (v: int)
    requires Encodable(a)
  {
    Term(a.index, m) * Factor(a.scale)
  }

  lemma IndexBack(a: Address, s: Stream, at: nat, m: Machine)
    requires Encodable(a) && ArchIndex(s, at) == a.index && (a.index.SomeReg? ==> ArchScale(s, at) == Factor(a.scale))
    ensures RegTerm(ArchIndex(s, at), m) * ArchScale(s, at) == IndexTerm(a, m)
  {
    hide ArchIndex, ArchScale, Factor, RegTerm, Term;
    SameTerm(a.index, m);
    if a.index == NoReg {
      assert RegTerm(a.index, m) == 0 && Term(a.index, m) == 0;
    }
  }

  lemma SumParts(a: Address, s: Stream, at: nat, m: Machine)
    requires Encodable(a) && ArchBase(s, at) == a.base && RegTerm(a.base, m) == Term(a.base, m)
    requires RegTerm(ArchIndex(s, at), m) * ArchScale(s, at) == IndexTerm(a, m)
    ensures SumOf(s, at, m) == Term(a.base, m) + IndexTerm(a, m) + ArchDisp(s, at)
  {
    hide ArchBase, ArchIndex, ArchScale, ArchDisp, RegTerm, Term, IndexTerm, EffectiveAddress;
  }

  lemma MeantParts(a: Address, m: Machine)
    requires Encodable(a)
    ensures Meant(a, m) == Wrap32(Term(a.base, m) + IndexTerm(a, m) + a.disp)
  {
    hide Term, Factor;
  }

  lemma SameTerm(r: OptReg, m: Machine)
    requires r.SomeReg? ==> r.r < 8
    ensures RegTerm(r, m) == Term(r, m) && (r == NoReg ==> Term(r, m) == 0)
  {
  }

  lemma SameSum(x: int, d: int, e: int)
    requires Wrap32(d) == Wrap32(e)
    ensures Wrap32(x + d) == Wrap32(x + e)
  {
    Wrap32Sum(d, x);
    Wrap32Sum(e, x);
  }

  lemma LengthBack(a: Address, reg: nat, s: Stream, at: nat)
    requires Encodable(a) && reg < 8 && Holds(s, at, Encode(a, reg))
    ensures Length(s, at) == |Encode(a, reg)|
  {
    HeadBack(a, reg, s, at);
  }

  /** A byte that names a register: both operands become that register, and no code is added. */
  method DecodeRegister(d: Decoder, s: Stream, ghost r: nat, ghost rm: nat) returns (reg: nat, pending: Pending)
    requires r < 8 && rm < 8 && s(d.bytesUsed) == Bits(3, r, rm)
    modifies d
    ensures reg == r && d.code == old(d.code) && d.bytesUsed == old(d.bytesUsed) + 1
    ensures pending.Registers? && pending.srcA == pending.dstA == Operand(StoreReg, IndDirect, 4, REG_AX + 8 * rm, 4)
  {
    FieldsBack(3, r, rm);
    hide Bits, Mod2, Reg3, Rm3;
    reg, pending := d.Rmb(s, 0);
  }

  /** The decoder on the bytes of an encoded address: the code it adds leaves the address in TMP1 and
      it uses up exactly these bytes. */
  method DecodeEncoded(d: Decoder, s: Stream, ghost a: Address, ghost r: nat) returns (reg: nat, pending: Pending)
    requires Encodable(a) && r < 8 && Holds(s, d.bytesUsed, Encode(a, r))
    modifies d
    ensures reg == r && pending == Nothing && d.bytesUsed == old(d.bytesUsed) + |Encode(a, r)|
    ensures |d.code| >= |old(d.code)| && d.code[..|old(d.code)|] == old(d.code)
    ensures forall m: Machine :: var m' := Exec2(d.code[|old(d.code)|..], m);
      OnlyTmp1(m, m') && Reg(m', REG_TMP1) == Meant(a, m)
  {
    hide EffectiveAddress, Meant, Encode, Length, OnlyTmp1, Exec2, Encodable;
    ghost var at := d.bytesUsed;
    forall m: Machine
      ensures Mod2(s(at)) != 3 && Reg3(s(at)) == r && Length(s, at) == |Encode(a, r)| && EffectiveAddress(s, at, m) == Meant(a, m)
    {
      DecodesBack(a, r, s, at, m);
    }
    ghost var any := Machine(map[], map[]);
    DecodesBack(a, r, s, at, any);
    reg, pending := d.Rmb(s, 0);
  }
}
