/** The symbolic execution of RTL: scanned stores of values "init + offset", and the plain meaning
    they refine. */
module Execute {
  import opened Rtl

  /** An entry of a store. Scope: 0 unknown, 1 parameter, 2 local, 3 data, 4 constant. */
  datatype Memory = Memory(startAddress: Word, initValue: Word, offsetValue: Word, valueScope: int)

  function ValueOf(e: Memory): (v: Word) {
    Wrap(e.initValue + e.offsetValue)
  }

  // ----- Stores as maps

  ghost predicate Unique(memory: seq<Memory>) {
    forall i: nat, j: nat :: i < j < |memory| ==> memory[i].startAddress != memory[j].startAddress
  }

  /** The valid entries of a store by start address. */
  ghost function View(memory: seq<Memory>): (v: map<Word, Memory>) {
    if memory == [] then map[]
    else View(memory[..|memory| - 1])[memory[|memory| - 1].startAddress := memory[|memory| - 1]]
  }

  lemma {:induction false} ViewIn(memory: seq<Memory>, a: Word)
    ensures a in View(memory) <==> exists k: nat :: k < |memory| && memory[k].startAddress == a
  {
    if memory != [] {
      var n := |memory| - 1;
      ViewIn(memory[..n], a);
      if k: nat :| k < |memory| && memory[k].startAddress == a {
        if k < n {
          assert memory[..n][k].startAddress == a;
        }
      }
    }
  }

  lemma {:induction false} ViewAt(memory: seq<Memory>, k: nat)
    requires Unique(memory) && k < |memory|
    ensures memory[k].startAddress in View(memory) && View(memory)[memory[k].startAddress] == memory[k]
  {
    var n := |memory| - 1;
    if k < n {
      assert Unique(memory[..n]);
      ViewAt(memory[..n], k);
    }
  }

  lemma {:induction false} ViewUpdate(memory: seq<Memory>, k: nat, e: Memory)
    requires Unique(memory) && k < |memory| && e.startAddress == memory[k].startAddress
    ensures Unique(memory[k := e]) && View(memory[k := e]) == View(memory)[e.startAddress := e]
  {
    var n := |memory| - 1;
    if k < n {
      assert Unique(memory[..n]) && memory[k := e][..n] == memory[..n][k := e];
      ViewUpdate(memory[..n], k, e);
    } else {
      assert memory[k := e][..n] == memory[..n];
    }
  }

  /** Scans for an entry; -1 if there is none. */
  method SearchStore(memory: seq<Memory>, index: Word) returns (n: int)
    requires Unique(memory)
    ensures n == -1 || 0 <= n < |memory|
    ensures n == -1 <==> index !in View(memory)
    ensures n >= 0 ==> memory[n].startAddress == index && View(memory)[index] == memory[n]
  {
    n := 0;
    while n < |memory|
      invariant 0 <= n <= |memory|
      invariant forall k: nat :: k < n ==> memory[k].startAddress != index
    {
      if memory[n].startAddress == index {
        ViewAt(memory, n);
        return;
      }
      n := n + 1;
    }
    ViewIn(memory, index);
    n := -1;
  }

  const NEW_ENTRY: Memory := Memory(0, 0, 0, 0)

  /** Adds an entry of unknown value, unless there is one already. */
  method AddNewStore(memory: seq<Memory>, index: Word) returns (memory': seq<Memory>, n: int)
    requires Unique(memory)
    ensures Unique(memory') && |memory| <= |memory'| && (n == -1 || 0 <= n < |memory'|)
    ensures n == -1 <==> index in View(memory)
    ensures n == -1 ==> memory' == memory
    ensures n >= 0 ==> memory'[n] == NEW_ENTRY.(startAddress := index)
    ensures n >= 0 ==> View(memory') == View(memory)[index := NEW_ENTRY.(startAddress := index)]
  {
    n := 0;
    while n < |memory|
      invariant 0 <= n <= |memory|
      invariant forall k: nat :: k < n ==> memory[k].startAddress != index
    {
      if memory[n].startAddress == index {
        ViewAt(memory, n);
        return memory, -1;
      }
      n := n + 1;
    }
    ViewIn(memory, index);
    memory' := memory + [NEW_ENTRY.(startAddress := index)];
    assert memory'[..|memory|] == memory;
  }

  // ----- The specification of one instruction

  /** Registers and stack by start address. */
  datatype State = State(regs: map<Word, Memory>, stack: map<Word, Memory>)

  /** What an instruction comes to: a new state, or the program ends. */
  datatype Outcome = Done(s: State) | Exit

  /** Values from this address up belong to the caller. */
  const STACK_ENTRY: Word := 0x10000

  ghost function WithRegister(s: State, r: Word, scope: int): (s': State)
    ensures r in s'.regs
  {
    if r in s.regs then s else s.(regs := s.regs[r := Memory(r, 0, 0, scope)])
  }

  ghost function WithSlot(s: State, a: Word): (s': State)
    ensures a in s'.stack
  {
    if a in s.stack then s else s.(stack := s.stack[a := Memory(a, 0, 0, if a > STACK_ENTRY then 1 else 2)])
  }

  /** Operands the model covers: immediates, registers and stack slots addressed by a register. */
  predicate Covered(o: Operand) {
    o.indirect == IndDirect || (o.indirect == IndStack && o.store == StoreReg)
  }

  /** The state after reading an operand, which enters unknown registers and slots. */
  ghost function AfterGet(s: State, o: Operand, infoId: int): (s': State)
    requires Covered(o)
  {
    if o.indirect == IndStack then
      WithSlot(WithRegister(s, o.index, 0), ValueOf(WithRegister(s, o.index, 0).regs[o.index]))
    else if o.store == StoreReg then WithRegister(s, o.index, if infoId == 1 then 2 else 1)
    else s
  }

  ghost function Got(s: State, o: Operand, infoId: int): (e: Memory)
    requires Covered(o)
  {
    var s' := AfterGet(s, o, infoId);
    if o.indirect == IndStack then s'.stack[ValueOf(s'.regs[o.index])].(startAddress := 0)
    else if o.store == StoreReg then s'.regs[o.index]
    else Memory(0, o.index, 0, 4)
  }

  /** Writing the result: an immediate destination is ignored, the entry of a register destination
      must be the one the result was computed for. */
  ghost function AfterPut(s: State, o: Operand, e: Memory): (r: Outcome)
    requires Covered(o)
  {
    if o.indirect == IndStack then
      if o.index !in s.regs then Exit
      else Done(s.(stack := s.stack[ValueOf(s.regs[o.index]) := e.(startAddress := ValueOf(s.regs[o.index]))]))
    else if o.store == StoreDirect then Done(s)
    else if e.startAddress != o.index then Exit
    else Done(s.(regs := s.regs[o.index := e]))
  }

  predicate Executable(i: Instruction) {
    && i.opcode in {Nop, Mov, Load, StoreTo, Add, Sub}
    && Covered(i.srcA) && Covered(i.srcB) && Covered(i.dstA)
    && (i.opcode == StoreTo ==> i.dstA.indirect == IndStack)
  }

  predicate WidthMissing(i: Instruction)
    requires Executable(i)
  {
    match i.opcode
    case Nop => false
    case Mov => i.srcA.valueSize == 0 || i.dstA.valueSize == 0
    case Load => false
    case StoreTo => false
    case _ => i.srcA.valueSize == 0 || i.srcB.valueSize == 0 || i.dstA.valueSize == 0
  }

  /** A parameter moved to a register becomes a local. */
  function MovedScope(i: Instruction, scope: int): (r: int) {
    if scope == 1 && i.dstA.store == StoreReg then 2
    else if scope == 0 && i.srcA.store == StoreDirect then 2
    else scope
  }

  /** The entry a two-operand addition or subtraction makes: only the start value of the second
      operand counts. */
  function Summed(i: Instruction, a: Memory, b: Memory): (e: Memory)
    requires Executable(i)
  {
    Memory(i.dstA.index, a.initValue,
           Wrap(if i.opcode == Sub then a.offsetValue - b.initValue else a.offsetValue + b.initValue), a.valueScope)
  }

  ghost function StepState(s: State, i: Instruction): (r: Outcome)
    requires Executable(i)
  {
    if WidthMissing(i) then Exit
    else if i.opcode == Nop then Done(s)
    else if i.opcode == Mov then
      (if i.dstA.indirect != IndDirect || MovedScope(i, Got(s, i.srcA, 0).valueScope) == 0 then Exit
       else AfterPut(AfterGet(s, i.srcA, 0), i.dstA,
                     Got(s, i.srcA, 0).(startAddress := i.dstA.index, valueScope := MovedScope(i, Got(s, i.srcA, 0).valueScope))))
    else if i.opcode == Load then
      (if i.dstA.indirect != IndDirect then Exit
       else AfterPut(AfterGet(s, i.srcA, 0), i.dstA, Got(s, i.srcA, 0).(startAddress := i.dstA.index, valueScope := 2)))
    else StepTwo(AfterGet(s, i.srcA, 0), i, Got(s, i.srcA, 0))
  }

  /** The rest of an instruction with a second source. */
  ghost function StepTwo(s: State, i: Instruction, a: Memory): (r: Outcome)
    requires Executable(i)
  {
    if i.opcode == StoreTo then
      AfterPut(AfterGet(s, i.srcB, 1), i.dstA, a.(startAddress := Got(s, i.srcB, 1).startAddress,
        valueScope := 2))
    else if i.opcode == Add && a.valueScope == 0 then Exit
    else AfterPut(AfterGet(s, i.srcB, 1), i.dstA, Summed(i, a, Got(s, i.srcB, 1)))
  }

  ghost function Held(v: map<Word, Memory>, a: Word): (w: Word) {
    if a in v then ValueOf(v[a]) else 0
  }

  // ----- When an instruction is executed, and what it leaves

  /** The entry of a register as an instruction reads it first: an unknown one is a parameter. */
  ghost function RegisterRead(s: State, r: Word): (e: Memory) {
    if r in s.regs then s.regs[r] else Memory(r, 0, 0, 1)
  }

  /** What the first source reads: an immediate is a constant; a slot that is not known belongs to the
      caller from 0x10001 up, and to the function below. */
  ghost function SourceRead(s: State, o: Operand): (e: Memory) {
    if o.indirect == IndDirect then (if o.store == StoreDirect then Memory(0, o.index, 0, 4) else RegisterRead(s, o.index))
    else
      var a := Held(s.regs, o.index);
      if a in s.stack then s.stack[a] else Memory(a, 0, 0, if a <= 0x10000 then 2 else 1)
  }

  predicate Names(o: Operand, r: Word) {
    o.store == StoreReg && o.index == r
  }

  /** The register that addresses a stack destination has been met, if only by this instruction. */
  ghost predicate TargetMet(s: State, i: Instruction) {
    i.dstA.indirect == IndStack ==> i.dstA.index in s.regs || Names(i.srcA, i.dstA.index) || Names(i.srcB, i.dstA.index)
  }

  /** An instruction is executed, and does not end the program, if and only if its widths are given,
      moves and additions read a known scope, moves and loads do not write to memory, and a stack
      destination has a register. */
  lemma ExecutedExactly(s: State, i: Instruction)
    requires Executable(i)
    ensures StepState(s, i).Done? <==>
      match i.opcode
      case Nop => true
      case Mov =>
        i.srcA.valueSize != 0 && i.dstA.valueSize != 0 && i.dstA.indirect == IndDirect && SourceRead(s, i.srcA).valueScope != 0
      case Load => i.dstA.indirect == IndDirect
      case StoreTo => TargetMet(s, i)
      case Add =>
        i.srcA.valueSize != 0 && i.srcB.valueSize != 0 && i.dstA.valueSize != 0
        && SourceRead(s, i.srcA).valueScope != 0 && TargetMet(s, i)
      case _ => i.srcA.valueSize != 0 && i.srcB.valueSize != 0 && i.dstA.valueSize != 0 && TargetMet(s, i)
  {
  }

  /** Start value and scope of the result: those of the first source, except that a moved parameter
      becomes a local, and that what is loaded or stored is one. */
  lemma ResultEntry(s: State, i: Instruction)
    requires Executable(i) && i.opcode != Nop && StepState(s, i).Done? && i.dstA.store == StoreReg
    ensures var s', a := StepState(s, i).s, SourceRead(s, i.srcA);
      var scope := if i.opcode == Load || i.opcode == StoreTo || (i.opcode == Mov && a.valueScope == 1) then 2 else a.valueScope;
      if i.dstA.indirect == IndDirect then
        && i.dstA.index in s'.regs && s'.regs[i.dstA.index].initValue == a.initValue
        && s'.regs[i.dstA.index].valueScope == scope
      else
        && var x := Held(s'.regs, i.dstA.index);
        && x in s'.stack && s'.stack[x].initValue == a.initValue && s'.stack[x].valueScope == scope
  {
    hide Got, AfterGet;
    SourceGot(s, i.srcA);
    var s1, a := AfterGet(s, i.srcA, 0), Got(s, i.srcA, 0);
    if i.opcode == Mov || i.opcode == Load {
      var scope := if i.opcode == Mov then MovedScope(i, a.valueScope) else 2;
      PutEntry(s1, i.dstA, a.(startAddress := i.dstA.index, valueScope := scope));
    } else {
      var s2, b := AfterGet(s1, i.srcB, 1), Got(s1, i.srcB, 1);
      PutEntry(s2, i.dstA, if i.opcode == StoreTo then a.(startAddress := b.startAddress, valueScope := 2) else Summed(i, a, b));
    }
  }

  /** A register that is met for the first time is a parameter if it is the first source, a local if it
      is the second, and unknown if it only addresses the stack. */
  lemma RegisterMet(s: State, i: Instruction, r: Word)
    requires Executable(i) && i.opcode != Nop && StepState(s, i).Done? && r !in s.regs
    requires !(Names(i.dstA, r) && i.dstA.indirect == IndDirect)
    ensures var s' := StepState(s, i).s; var first, second := Names(i.srcA, r), Names(i.srcB, r) && i.opcode !in {Mov, Load};
      && (r in s'.regs <==> first || second)
      && (first ==> s'.regs[r] == Memory(r, 0, 0, if i.srcA.indirect == IndDirect then 1 else 0))
      && (second && !first ==> s'.regs[r] == Memory(r, 0, 0, if i.srcB.indirect == IndDirect then 2 else 0))
  {
    hide Got, AfterGet;
    var s1 := AfterGet(s, i.srcA, 0);
    MetByReading(s, i.srcA, 0, r);
    MetByReading(s1, i.srcB, 1, r);
  }

  lemma MetByReading(s: State, o: Operand, infoId: int, r: Word)
    requires Covered(o)
    ensures var s' := AfterGet(s, o, infoId);
      && (r in s'.regs <==> r in s.regs || Names(o, r))
      && (r in s.regs ==> s'.regs[r] == s.regs[r])
      && (r !in s.regs && Names(o, r) ==>
            s'.regs[r] == Memory(r, 0, 0, if o.indirect == IndStack then 0 else if infoId == 1 then 2 else 1))
  {
  }

  lemma SourceGot(s: State, o: Operand)
    requires Covered(o)
    ensures Got(s, o, 0).initValue == SourceRead(s, o).initValue && Got(s, o, 0).valueScope == SourceRead(s, o).valueScope
  {
  }

  lemma PutEntry(s: State, o: Operand, e: Memory)
    requires Covered(o) && AfterPut(s, o, e).Done? && o.store == StoreReg
    ensures var s' := AfterPut(s, o, e).s;
      if o.indirect == IndDirect then o.index in s'.regs && s'.regs[o.index] == e
      else var x := Held(s'.regs, o.index); x in s'.stack && s'.stack[x] == e.(startAddress := x)
  {
  }

  // ----- The code

  class ProcessState {
    var memoryReg: seq<Memory>
    var memoryStack: seq<Memory>

    ghost predicate Valid()
      reads this
    {
      Unique(memoryReg) && Unique(memoryStack)
    }

    ghost function Contents(): (s: State)
      reads this
    {
      State(View(memoryReg), View(memoryStack))
    }

    /** Finds the entry of a register, or adds one with that scope. */
    method RegisterEntry(r: Word, scope: int) returns (n: int)
      requires Valid()
      modifies this
      ensures Valid() && 0 <= n < |memoryReg|
      ensures Contents() == WithRegister(old(Contents()), r, scope)
      ensures Contents().regs[r] == memoryReg[n] && memoryReg[n].startAddress == r
    {
      n := SearchStore(memoryReg, r);
      if n == -1 {
        memoryReg, n := AddNewStore(memoryReg, r);
        var e := memoryReg[n].(valueScope := scope);
        ViewUpdate(memoryReg, n, e);
        memoryReg := memoryReg[n := e];
      }
    }

    method SlotEntry(a: Word) returns (n: int)
      requires Valid()
      modifies this
      ensures Valid() && 0 <= n < |memoryStack|
      ensures Contents() == WithSlot(old(Contents()), a)
      ensures Contents().stack[a] == memoryStack[n] && memoryStack[n].startAddress == a
    {
      n := SearchStore(memoryStack, a);
      if n == -1 {
        memoryStack, n := AddNewStore(memoryStack, a);
        var e := memoryStack[n].(valueScope := if a > STACK_ENTRY then 1 else 2);
        ViewUpdate(memoryStack, n, e);
        memoryStack := memoryStack[n := e];
      }
    }

    method GetValue(o: Operand, infoId: int) returns (e: Memory)
      requires Valid() && Covered(o)
      modifies this
      ensures Valid()
      ensures Contents() == AfterGet(old(Contents()), o, infoId)
      ensures e == Got(old(Contents()), o, infoId)
    {
      hide Unique, View;
      if o.indirect == IndStack {
        var n := RegisterEntry(o.index, 0);
        var k := SlotEntry(ValueOf(memoryReg[n]));
        e := memoryStack[k].(startAddress := 0);
      } else if o.store == StoreReg {
        var n := RegisterEntry(o.index, if infoId == 1 then 2 else 1);
        e := memoryReg[n];
      } else {
        e := Memory(0, o.index, 0, 4);
      }
    }

    /** Writes a result; not ok where the program ends. The trace line of a stack destination
        follows the pointer to the register entry before the check that there is one. */
    method PutValue(o: Operand, e: Memory) returns (ok: bool)
      requires Valid() && Covered(o)
      modifies this
      ensures Valid()
      ensures AfterPut(old(Contents()), o, e) == if ok then Done(Contents()) else Exit
    {
      hide Unique, View;
      ok := true;
      if o.indirect == IndStack {
        var n := SearchStore(memoryReg, o.index);
        if n == -1 {
          return false;
        }
        var a := ValueOf(memoryReg[n]);
        var k := SearchStore(memoryStack, a);
        if k == -1 {
          memoryStack, k := AddNewStore(memoryStack, a);
        }
        ViewUpdate(memoryStack, k, e.(startAddress := a));
        memoryStack := memoryStack[k := e.(startAddress := a)];
      } else if o.store == StoreReg {
        var k := SearchStore(memoryReg, o.index);
        if k == -1 {
          memoryReg, k := AddNewStore(memoryReg, o.index);
        }
        if e.startAddress != o.index {
          return false;
        }
        ViewUpdate(memoryReg, k, e);
        memoryReg := memoryReg[k := e];
      }
    }

    /** Executes one instruction; not ok where the program ends. */
    method ExecuteInstruction(i: Instruction) returns (ok: bool)
      requires Valid() && Executable(i)
      modifies this
      ensures Valid()
      ensures StepState(old(Contents()), i) == if ok then Done(Contents()) else Exit
    {
      hide Unique, View, AfterGet, Got, AfterPut;
      if WidthMissing(i) {
        return false;
      }
      if i.opcode == Nop {
        return true;
      }
      var a := GetValue(i.srcA, 0);
      if i.opcode == Mov || i.opcode == Load {
        if i.dstA.indirect != IndDirect {
          return false;
        }
        var scope := if i.opcode == Mov then MovedScope(i, a.valueScope) else 2;
        if scope == 0 {
          return false;
        }
        ok := PutValue(i.dstA, a.(startAddress := i.dstA.index, valueScope := scope));
      } else {
        var b := GetValue(i.srcB, 1);
        if i.opcode == StoreTo {
          ok := PutValue(i.dstA, a.(startAddress := b.startAddress, valueScope := 2));
        } else if i.opcode == Add && a.valueScope == 0 {
          ok := false;
        } else {
          ok := PutValue(i.dstA, Summed(i, a, b));
        }
      }
    }
  }

  // ----- Refinement of the plain meaning

  /** The registers and stack cells of the machine hold the values of the stores. */
  ghost predicate Represents(s: State, m: Machine) {
    && (forall r: Word :: Reg(m, r) == Held(s.regs, r))
    && (forall a: Word :: Cell(m, IndStack, a) == Held(s.stack, a))
  }

  /** What makes additions and subtractions exact: 64 bits, and a second operand without offset. */
  ghost predicate ExactSum(s: State, i: Instruction)
    requires Executable(i)
  {
    i.opcode == Add || i.opcode == Sub ==>
      i.dstA.valueSize == 64 && Got(AfterGet(s, i.srcA, 0), i.srcB, 1).offsetValue == 0
  }

  lemma GetKeeps(s: State, m: Machine, o: Operand, infoId: int)
    requires Represents(s, m) && Covered(o)
    ensures Represents(AfterGet(s, o, infoId), m)
    ensures ValueOf(Got(s, o, infoId)) == Read(m, o)
  {
    hide ValueOf;
    forall r: Word, scope: int ensures ValueOf(Memory(r, 0, 0, scope)) == 0 { ConstantValue(r, 0, scope); }
    if o.indirect == IndDirect && o.store == StoreDirect {
      ConstantValue(0, o.index, 4);
    } else if o.indirect == IndStack {
      SlotValue(AfterGet(s, o, infoId).stack[ValueOf(AfterGet(s, o, infoId).regs[o.index])]);
    }
  }

  lemma ConstantValue(r: Word, v: Word, scope: int)
    ensures ValueOf(Memory(r, v, 0, scope)) == v
  {
  }

  lemma SlotValue(e: Memory)
    ensures ValueOf(e.(startAddress := 0)) == ValueOf(e)
  {
  }

  lemma PutWrites(s: State, m: Machine, o: Operand, e: Memory, v: Word)
    requires Represents(s, m) && Covered(o) && AfterPut(s, o, e).Done? && ValueOf(e) == v
    ensures Represents(AfterPut(s, o, e).s, Write(m, o, v))
  {
    if o.indirect == IndStack {
      var x, m' := Reg(m, o.index), Write(m, o, v);
      assert x == ValueOf(s.regs[o.index]);
      assert ValueOf(e.(startAddress := x)) == v;
      forall a: Word ensures Cell(m', IndStack, a) == Held(AfterPut(s, o, e).s.stack, a) {
        assert Cell(m', IndStack, a) == if a == x then v else Cell(m, IndStack, a);
      }
      assert m'.regs == m.regs;
      assert forall r: Word :: Reg(m', r) == Reg(m, r);
    }
  }

  /** An executed instruction changes the values as its plain meaning says. */
  lemma StepRefines(alu: Alu, s: State, m: Machine, i: Instruction)
    requires PlainAlu(alu) && Executable(i) && Represents(s, m) && StepState(s, i).Done? && ExactSum(s, i)
    ensures Represents(StepState(s, i).s, Step(alu, i, m))
  {
    hide AfterGet, Got, AfterPut, Represents, Read, Write;
    if i.opcode == Nop {
      return;
    }
    GetKeeps(s, m, i.srcA, 0);
    var s1, a := AfterGet(s, i.srcA, 0), Got(s, i.srcA, 0);
    if i.opcode == Mov {
      PutWrites(s1, m, i.dstA, a.(startAddress := i.dstA.index, valueScope := MovedScope(i, a.valueScope)), Read(m, i.srcA));
    } else if i.opcode == Load {
      PutWrites(s1, m, i.dstA, a.(startAddress := i.dstA.index, valueScope := 2), Read(m, i.srcA));
    } else {
      GetKeeps(s1, m, i.srcB, 1);
      var s2, b := AfterGet(s1, i.srcB, 1), Got(s1, i.srcB, 1);
      if i.opcode == StoreTo {
        PutWrites(s2, m, i.dstA, a.(startAddress := b.startAddress, valueScope := 2), Read(m, i.srcA));
      } else {
        SumExact(i, a, b);
        PutWrites(s2, m, i.dstA, Summed(i, a, b), alu(i.opcode, 64, Read(m, i.srcA), Read(m, i.srcB)));
      }
    }
  }

  /** The entry made for a sum has the value of the sum exactly when the second operand has no
      offset. */
  lemma SumExact(i: Instruction, a: Memory, b: Memory)
    requires Executable(i) && (i.opcode == Add || i.opcode == Sub)
    ensures ValueOf(Summed(i, a, b)) == Wrap(if i.opcode == Add then ValueOf(a) + ValueOf(b) else ValueOf(a) - ValueOf(b))
            <==> b.offsetValue == 0
  {
    hide Wrap;
    AddedValue(a.initValue, a.offsetValue, b.initValue, b.offsetValue);
    SubtractedValue(a.initValue, a.offsetValue, b.initValue, b.offsetValue);
  }

  lemma AddedValue(c: int, o: int, y: int, d: Word)
    ensures Wrap(c + Wrap(o + y)) == Wrap(Wrap(c + o) + Wrap(y + d)) <==> d == 0
  {
    hide Wrap;
    WrapSum(c, o + y);
    WrapSums(c + o, y + d);
    SameWrap(c + o + y, d);
    assert c + (o + y) == c + o + y && (c + o) + (y + d) == c + o + y + d;
  }

  lemma SubtractedValue(c: int, o: int, y: int, d: Word)
    ensures Wrap(c + Wrap(o - y)) == Wrap(Wrap(c + o) - Wrap(y + d)) <==> d == 0
  {
    hide Wrap;
    WrapSum(c, o - y);
    WrapSums(c + o, y + d);
    SameWrap(c + o - y - d, d);
    assert c + (o - y) == c + o - y - d + d && (c + o) - (y + d) == c + o - y - d;
  }

  lemma WrapSum(x: int, y: int)
    ensures Wrap(x + Wrap(y)) == Wrap(x + y)
  {
  }

  lemma WrapSums(x: int, y: int)
    ensures Wrap(Wrap(x) + Wrap(y)) == Wrap(x + y)
    ensures Wrap(Wrap(x) - Wrap(y)) == Wrap(x - y)
  {
    WrapSum(Wrap(x), y);
    WrapSum(y, x);
    WrapDifference(x, y);
  }

  lemma WrapDifference(x: int, y: int)
    ensures Wrap(Wrap(x) - Wrap(y)) == Wrap(x - y)
  {
    var k := x / W64 - y / W64;
    var z := Wrap(x) - Wrap(y);
    assert x - y == W64 * k + z;
    assert x - y == W64 * (k + z / W64) + Wrap(z);
  }

  lemma SameWrap(x: int, d: Word)
    ensures Wrap(x) == Wrap(x + d) <==> d == 0
  {
  }
}
