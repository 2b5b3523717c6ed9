/** IMULD and MULD: a 32 by 32 bit multiplication whose 64-bit product is left in two registers. */
module WideMultiply {
  import opened Rtl

  // ----- Meaning of the instructions with operand widths

  /** The low bits an operand of that width holds. */
  function Low(v: int, bits: int): (w: Word) {
    if bits == 32 then v % W32 else v % W64
  }

  /** A word of that width as a two's complement number. */
  function Signed(v: Word, bits: int): (x: int) {
    if bits == 32 then (if v < 0x8000_0000 then v else v - W32)
    else if v < 0x8000_0000_0000_0000 then v
    else v - W64
  }

  /** Signed numbers in range are read back from their words. */
  lemma SignedExact(x: int, bits: int)
    requires bits == 32 || bits == 64
    requires if bits == 32 then -0x8000_0000 <= x < 0x8000_0000
             else -0x8000_0000_0000_0000 <= x < 0x8000_0000_0000_0000
    ensures Signed(Low(x, bits), bits) == x
  {
    if bits == 32 {
      assert x % W32 == if x < 0 then x + W32 else x;
    } else {
      assert x % W64 == if x < 0 then x + W64 else x;
    }
  }

  function Pow2(n: nat): (p: int)
    ensures p > 0
  {
    if n == 0 then 1 else 2 * Pow2(n - 1)
  }

  lemma Pow2Of32()
    ensures Pow2(32) == W32
  {
    assert Pow2(8) == 0x100;
    assert Pow2(16) == 0x1_0000;
    assert Pow2(24) == 0x100_0000;
  }

  /** SEX extends the sign of its source, SAR shifts it in, the other results wrap around. */
  function Compute(opcode: Opcode, width: int, a: Word, b: Word, dstWidth: int): (v: Word) {
    match opcode
    case Sex => Low(Signed(a, width), dstWidth)
    case Mul => Low(a * b, dstWidth)
    case Sar => Low(Signed(a, width) / Pow2(b), dstWidth)
    case _ => Low(a, dstWidth)
  }

  function SizedRead(m: Machine, o: Operand): (v: Word) {
    Low(Read(m, o), o.valueSize)
  }

  function SizedStep(i: Instruction, m: Machine): (m': Machine) {
    Write(m, i.dstA, Compute(i.opcode, i.srcA.valueSize, SizedRead(m, i.srcA), SizedRead(m, i.srcB), i.dstA.valueSize))
  }

  function SizedExec(code: seq<Instruction>, m: Machine): (m': Machine) {
    if code == [] then m else SizedExec(code[1..], SizedStep(code[0], m))
  }

  // ----- The product

  /** The product of the low halves of two registers. */
  function Product(signed: bool, a: Word, b: Word): (p: int) {
    if signed then Signed(a % W32, 32) * Signed(b % W32, 32) else (a % W32) * (b % W32)
  }

  /** The two halves, the upper one with the sign of the product. */
  function Halves(signed: bool, hi: Word, lo: Word): (p: int) {
    (if signed then Signed(hi, 32) else hi) * W32 + lo
  }

  /** The upper half is in `s`, the lower one in AX, and nothing else changed. */
  ghost predicate Multiplied(signed: bool, s: Word, m: Machine, m': Machine) {
    && m'.cells == m.cells
    && (forall r: Word :: r != s && r != REG_AX ==> Reg(m', r) == Reg(m, r))
    && Reg(m', s) < W32 && Reg(m', REG_AX) < W32
    && Halves(signed, Reg(m', s), Reg(m', REG_AX)) == Product(signed, Reg(m, s), Reg(m, REG_AX))
  }

  // ----- The expansion

  function RegWord(r: Word, indirectSize: int, bits: int): (o: Operand) {
    Operand(StoreReg, IndDirect, indirectSize, r, bits)
  }

  /** Both factors extended, multiplied in AX, the upper half shifted down, both halves truncated.
      MOV extends without sign; the second operand of one-operand instructions is not set. */
  function Expansion(signed: bool, src: LlOperand, unset: Operand): (code: seq<Instruction>)
    requires ValidOperand(src) && src.kind == KindReg
    ensures |code| == 6
  {
    var extend := if signed then Sex else Mov;
    [ Instruction(extend, 0, ConvertOperand(src, 0).(valueSize := 32), unset, ConvertOperand(src, 0).(valueSize := 64)),
      Instruction(extend, 0, RegWord(REG_AX, 32, 32), unset, RegWord(REG_AX, 64, 64)),
      Instruction(Mul, 1, RegWord(REG_AX, 64, 64), ConvertOperand(src, 0).(valueSize := 64), RegWord(REG_AX, 64, 64)),
      Instruction(Sar, 0, RegWord(REG_AX, 64, 64), ImmOperand(64, 32, 64), ConvertOperand(src, 0).(valueSize := 64)),
      Instruction(Trunc, 0, RegWord(REG_AX, 64, 64), unset, RegWord(REG_AX, 32, 32)),
      Instruction(Trunc, 0, ConvertOperand(src, 0).(valueSize := 64), unset, ConvertOperand(src, 0).(valueSize := 32)) ]
  }

  /** A factor extended to 64 bits. */
  function Extended(signed: bool, a: Word): (x: Word) {
    Wrap(if signed then Signed(a % W32, 32) else a % W32)
  }

  /** What SAR and TRUNC make of the 64-bit product. */
  function UpperHalf(signed: bool, a: Word, b: Word): (hi: Word) {
    Wrap(Signed(Wrap(Extended(signed, b) * Extended(signed, a)), 64) / W32) % W32
  }

  /** One step between registers. */
  lemma RegStep(i: Instruction, m: Machine, r: Word, v: Word)
    requires i.dstA.store == StoreReg && i.dstA.indirect == IndDirect && i.dstA.index == r
    requires v == Compute(i.opcode, i.srcA.valueSize, SizedRead(m, i.srcA), SizedRead(m, i.srcB), i.dstA.valueSize)
    ensures SizedStep(i, m) == SetReg(m, r, v)
  {
  }

  lemma SixSteps(code: seq<Instruction>, m: Machine)
    requires |code| == 6
    ensures SizedExec(code, m) == SizedStep(code[5], SizedStep(code[4], SizedStep(code[3],
              SizedStep(code[2], SizedStep(code[1], SizedStep(code[0], m))))))
  {
    hide SizedStep;
    var m1 := SizedStep(code[0], m);
    var m2 := SizedStep(code[1], m1);
    var m3 := SizedStep(code[2], m2);
    var m4 := SizedStep(code[3], m3);
    var m5 := SizedStep(code[4], m4);
    assert code[1..][1..] == code[2..] && code[2..][1..] == code[3..] && code[3..][1..] == code[4..];
    assert code[4..][1..] == code[5..] && code[5..][1..] == [];
    assert SizedExec(code[1..], m1) == SizedExec(code[2..], m2);
    assert SizedExec(code[2..], m2) == SizedExec(code[3..], m3);
    assert SizedExec(code[3..], m3) == SizedExec(code[4..], m4);
    assert SizedExec(code[4..], m4) == SizedExec(code[5..], m5);
    assert SizedExec(code[5..], m5) == SizedStep(code[5], m5);
  }

  /** Both factors extended. */
  lemma ExtendSteps(signed: bool, src: LlOperand, unset: Operand, m: Machine)
    requires ValidOperand(src) && src.kind == KindReg && src.operand[0].value != REG_AX
    ensures var s, code := src.operand[0].value, Expansion(signed, src, unset);
      SizedStep(code[1], SizedStep(code[0], m))
      == SetReg(SetReg(m, s, Extended(signed, Reg(m, s))), REG_AX, Extended(signed, Reg(m, REG_AX)))
  {
    hide SizedStep;
    var s, code := src.operand[0].value, Expansion(signed, src, unset);
    RegStep(code[0], m, s, Extended(signed, Reg(m, s)));
    var m1 := SetReg(m, s, Extended(signed, Reg(m, s)));
    RegStep(code[1], m1, REG_AX, Extended(signed, Reg(m, REG_AX)));
  }

  lemma MultiplySteps(signed: bool, src: LlOperand, unset: Operand, m: Machine)
    requires ValidOperand(src) && src.kind == KindReg && src.operand[0].value != REG_AX
    ensures var s, code := src.operand[0].value, Expansion(signed, src, unset);
      var p := Wrap(Reg(m, REG_AX) * Reg(m, s));
      SizedStep(code[3], SizedStep(code[2], m)) == SetReg(SetReg(m, REG_AX, p), s, Wrap(Signed(p, 64) / W32))
  {
    hide SizedStep, Compute, SizedRead, Signed, Wrap;
    var s, code := src.operand[0].value, Expansion(signed, src, unset);
    var p := Wrap(Reg(m, REG_AX) * Reg(m, s));
    WholeRead(m, code[2].srcA);
    WholeRead(m, code[2].srcB);
    MulSar(Reg(m, REG_AX), Reg(m, s));
    RegStep(code[2], m, REG_AX, p);
    var m1 := SetReg(m, REG_AX, p);
    WholeRead(m1, code[3].srcA);
    WholeRead(m1, code[3].srcB);
    MulSar(p, 32);
    RegStep(code[3], m1, s, Wrap(Signed(p, 64) / W32));
  }

  lemma WholeRead(m: Machine, o: Operand)
    requires o.indirect == IndDirect && o.valueSize == 64
    ensures SizedRead(m, o) == if o.store == StoreDirect then o.index else Reg(m, o.index)
  {
  }

  lemma MulSar(a: Word, b: Word)
    ensures Compute(Mul, 64, a, b, 64) == Wrap(a * b)
    ensures Compute(Sar, 64, a, 32, 64) == Wrap(Signed(a, 64) / W32)
  {
    Pow2Of32();
  }

  lemma TruncateSteps(signed: bool, src: LlOperand, unset: Operand, m: Machine)
    requires ValidOperand(src) && src.kind == KindReg && src.operand[0].value != REG_AX
    ensures var s, code := src.operand[0].value, Expansion(signed, src, unset);
      SizedStep(code[5], SizedStep(code[4], m))
      == SetReg(SetReg(m, REG_AX, Reg(m, REG_AX) % W32), s, Reg(m, s) % W32)
  {
    hide SizedStep;
    var s, code := src.operand[0].value, Expansion(signed, src, unset);
    RegStep(code[4], m, REG_AX, Reg(m, REG_AX) % W32);
    RegStep(code[5], SetReg(m, REG_AX, Reg(m, REG_AX) % W32), s, Reg(m, s) % W32);
  }

  // ----- Arithmetic of the two halves

  lemma WrapProduct(x: int, y: int)
    ensures Wrap(Wrap(x) * Wrap(y)) == Wrap(x * y)
  {
    var i, j := x / W64, y / W64;
    assert x == i * W64 + Wrap(x) && y == j * W64 + Wrap(y);
    assert x * y == Wrap(x) * Wrap(y) + W64 * (i * Wrap(y) + j * Wrap(x) + i * j * W64);
    WrapShift(Wrap(x) * Wrap(y), i * Wrap(y) + j * Wrap(x) + i * j * W64);
  }

  lemma WrapShift(x: int, k: int)
    ensures Wrap(x + W64 * k) == Wrap(x)
  {
    var q := x / W64;
    assert x + W64 * k == W64 * (q + k) + Wrap(x);
  }

  lemma ProductRange(signed: bool, a: Word, b: Word)
    ensures signed ==> -0x4000_0000_0000_0000 <= Product(signed, a, b) <= 0x4000_0000_0000_0000
    ensures !signed ==> 0 <= Product(signed, a, b) < W64
  {
    var x, y := Signed(a % W32, 32), Signed(b % W32, 32);
    Bounded(x, y, 0x8000_0000);
    var u, v := a % W32, b % W32;
    Below(u, v, W32 - 1);
  }

  lemma Below(u: nat, v: nat, n: nat)
    requires u <= n && v <= n
    ensures 0 <= u * v <= n * n
  {
    assert u * v <= u * n by { Scaled(v, n, u); }
    assert u * n <= n * n by { Scaled(u, n, n); }
  }

  lemma Scaled(x: nat, y: nat, k: nat)
    requires x <= y
    ensures k * x == x * k <= y * k == k * y
  {
  }

  lemma Bounded(x: int, y: int, n: int)
    requires -n <= x <= n && -n <= y <= n
    ensures -(n * n) <= x * y <= n * n
  {
    assert (n - x) * (n + y) >= 0 && (n + x) * (n - y) >= 0;
    assert (n - x) * (n - y) >= 0 && (n + x) * (n + y) >= 0;
  }

  /** Adding a multiple of 2^32 to the whole number adds to its upper part only. */
  lemma UpperPart(p: int, k: int)
    ensures (p + W32 * k) / W32 == p / W32 + k && p == p / W32 * W32 + p % W32
  {
  }

  lemma WrapLow(x: int, k: int)
    ensures Wrap(x + W32 * k) % W32 == x % W32
  {
    var y := x + W32 * k;
    var q := y / W64;
    assert y == W64 * q + Wrap(y);
    LowShift(x, k);
    LowShift(Wrap(y), W32 * q);
  }

  lemma LowShift(x: int, k: int)
    ensures (x + W32 * k) % W32 == x % W32
  {
    var q := x / W32;
    assert x + W32 * k == W32 * (q + k) + x % W32;
  }

  lemma SplitSigned(p: int)
    requires -0x4000_0000_0000_0000 <= p <= 0x4000_0000_0000_0000
    ensures Signed(Wrap(Signed(Wrap(p), 64) / W32) % W32, 32) * W32 + Wrap(p) % W32 == p
  {
    var h := p / W32;
    assert Signed(Wrap(p), 64) == p;
    assert -0x4000_0000 <= h <= 0x4000_0000;
    WrapLow(h, 0);
    WrapLow(p, 0);
    hide Wrap;
    assert Signed(h % W32, 32) == h;
    UpperPart(p, 0);
  }

  lemma SplitUnsigned(p: int)
    requires 0 <= p < W64
    ensures Wrap(Signed(Wrap(p), 64) / W32) % W32 * W32 + Wrap(p) % W32 == p
  {
    var h := p / W32;
    assert Wrap(p) == p;
    assert Signed(p, 64) == p || Signed(p, 64) == p + W32 * -W32;
    UpperPart(p, 0);
    UpperPart(p, -W32);
    WrapLow(h, 0);
    WrapLow(h, -1);
    hide Wrap;
    assert 0 <= h < W32;
    LowShift(h, -1);
    assert Signed(p, 64) / W32 == h || Signed(p, 64) / W32 == h + W32 * -1;
  }

  /** The two truncated words are the halves of the product; the sign SAR shifts into an unsigned
      product is truncated away. */
  lemma HalvesOfProduct(signed: bool, a: Word, b: Word)
    ensures Halves(signed, UpperHalf(signed, a, b), Wrap(Extended(signed, b) * Extended(signed, a)) % W32)
            == Product(signed, a, b)
  {
    hide Product, Extended, Wrap, Signed;
    var p := Product(signed, a, b);
    ProductRange(signed, a, b);
    ExtendedProduct(signed, a, b);
    if signed {
      SplitSigned(p);
    } else {
      SplitUnsigned(p);
    }
  }

  lemma ExtendedProduct(signed: bool, a: Word, b: Word)
    ensures Wrap(Extended(signed, b) * Extended(signed, a)) == Wrap(Product(signed, a, b))
  {
    if signed {
      WrapProduct(Signed(b % W32, 32), Signed(a % W32, 32));
    } else {
      WrapProduct(b % W32, a % W32);
    }
  }

  /** The expansion leaves the whole product in the source register and AX. */
  lemma ExpansionMultiplies(signed: bool, src: LlOperand, unset: Operand, m: Machine)
    requires ValidOperand(src) && src.kind == KindReg && src.operand[0].value != REG_AX
    ensures Multiplied(signed, src.operand[0].value, m, SizedExec(Expansion(signed, src, unset), m))
  {
    hide SizedStep, Expansion, Extended, Signed, Halves, Product;
    var s, code := src.operand[0].value, Expansion(signed, src, unset);
    assert |code| == 6;
    SixSteps(code, m);
    ExtendSteps(signed, src, unset, m);
    var m2 := SizedStep(code[1], SizedStep(code[0], m));
    MultiplySteps(signed, src, unset, m2);
    var m4 := SizedStep(code[3], SizedStep(code[2], m2));
    TruncateSteps(signed, src, unset, m4);
    HalvesOfProduct(signed, Reg(m, s), Reg(m, REG_AX));
  }

  /** Lowers IMULD (signed) or MULD. */
  method ConvertWideMultiply(d: DisInstructions, signed: bool, src: LlOperand, unset: Operand)
    requires ValidOperand(src) && src.kind == KindReg
    modifies d
    ensures |d.code| == |old(d.code)| + 6 && d.code[..|old(d.code)|] == old(d.code)
    ensures (forall m: Machine :: Multiplied(signed, src.operand[0].value, m, SizedExec(d.code[|old(d.code)|..], m)))
            <==> src.operand[0].value != REG_AX
  {
    hide SizedExec, Multiplied;
    ghost var n := |d.code|;
    var extend := if signed then Sex else Mov;
    var reg := ConvertOperand(src, 0);
    d.Emit(Instruction(extend, 0, reg.(valueSize := 32), unset, reg.(valueSize := 64)));
    d.Emit(Instruction(extend, 0, RegWord(REG_AX, 32, 32), unset, RegWord(REG_AX, 64, 64)));
    d.Emit(Instruction(Mul, 1, RegWord(REG_AX, 64, 64), reg.(valueSize := 64), RegWord(REG_AX, 64, 64)));
    d.Emit(Instruction(Sar, 0, RegWord(REG_AX, 64, 64), ImmOperand(64, 32, 64), reg.(valueSize := 64)));
    d.Emit(Instruction(Trunc, 0, RegWord(REG_AX, 64, 64), unset, RegWord(REG_AX, 32, 32)));
    d.Emit(Instruction(Trunc, 0, reg.(valueSize := 64), unset, reg.(valueSize := 32)));
    assert d.code[n..] == Expansion(signed, src, unset);
    if src.operand[0].value == REG_AX {
      AxLosesHalf(signed, src, unset);
    } else {
      forall m: Machine ensures Multiplied(signed, src.operand[0].value, m, SizedExec(d.code[n..], m)) {
        ExpansionMultiplies(signed, src, unset, m);
      }
    }
  }

  /** With AX as the source the lower half is overwritten: 1 * 1 leaves 0. */
  lemma AxLosesHalf(signed: bool, src: LlOperand, unset: Operand)
    requires ValidOperand(src) && src.kind == KindReg && src.operand[0].value == REG_AX
    ensures var m := Machine(map[REG_AX := 1], map[]);
      !Multiplied(signed, REG_AX, m, SizedExec(Expansion(signed, src, unset), m))
  {
    hide SizedExec;
    var m := Machine(map[REG_AX := 1], map[]);
    EqualHalves(signed, Reg(SizedExec(Expansion(signed, src, unset), m), REG_AX));
  }

  lemma EqualHalves(signed: bool, h: Word)
    ensures h < W32 ==> Halves(signed, h, h) != 1
  {
    assert signed ==> Halves(signed, h, h) == Signed(h, 32) * W32 + h;
  }
}
