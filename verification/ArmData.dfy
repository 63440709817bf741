/**
 * Executing data processing instructions (instructions.c:224-381): what the destination holds and what the flags and
 * the condition codes say afterwards, from the registers named, the shift and the carry.
 */
module ArmData {
  import opened Prelude
  import opened ArmWords
  import opened ArmBits
  import opened ArmState
  import opened ArmDecode
  import opened ArmExecute
  import opened ArmBlocks
  import opened ArmShifter
  import opened ArmArithmetic
  import opened ArmAlu
  import opened ArmTransfers
  import opened ArmMacros

  // ----- the second operand, bit by bit -----

  /** How many places are shifted: LSR and ASR by an immediate 0 shift by 32. */
  function Places(kind: ShiftKind, n: nat, byRegister: bool): nat {
    if n == 0 && !byRegister && (kind == LSR || kind == ASR) then 32 else n
  }

  /** Bit k of x shifted; ROR by an immediate 0 takes in the carry. */
  predicate ShiftedBit(x: Word, kind: ShiftKind, n: nat, byRegister: bool, c: bool, k: nat) {
    var places := Places(kind, n, byRegister);
    if kind == LSL then k >= n && BitAt(x, k - n)
    else if kind == LSR then BitAt(x, k + places)
    else if kind == ASR then BitAt(x, if k + places < 31 then k + places else 31)
    else if n == 0 && !byRegister then if k == 31 then c else BitAt(x, k + 1)
    else BitAt(x, (k + n) % 32)
  }

  /** The last bit shifted out. LSL by 0 keeps the carry, the others by a register holding 0 clear it. */
  predicate LastOut(x: Word, kind: ShiftKind, n: nat, byRegister: bool, c: bool) {
    var places := Places(kind, n, byRegister);
    if kind == LSL then if n == 0 then c else n <= 32 && BitAt(x, 32 - n)
    else if kind == LSR then places > 0 && BitAt(x, places - 1)
    else if kind == ASR then places > 0 && BitAt(x, if places - 1 < 31 then places - 1 else 31)
    else if n == 0 && !byRegister then BitAt(x, 0)
    else n > 0 && BitAt(x, (n - 1) % 32)
  }

  lemma {:induction false} BarrelBits(x: Word, kind: ShiftKind, n: nat, byRegister: bool, c: bool, k: nat)
    requires k < 32
    ensures var b := Barrel(x, kind, n, byRegister, c);
            && BitAt(b.value, k) == ShiftedBit(x, kind, n, byRegister, c, k)
            && b.carry == LastOut(x, kind, n, byRegister, c)
  {
    hide BitAt, Left, Right, Signed, Rotated;
    if kind == LSL {
      LeftBits(x, n, c, k);
    } else if kind == LSR {
      RightBits(x, n, byRegister, k);
    } else if kind == ASR {
      SignedBits(x, n, byRegister, k);
    } else if n == 0 && !byRegister {
      ExtendedBits(x, c, k);
    } else {
      RotatedBits(x, n, byRegister, c, k);
      RotatedBits(x, n, byRegister, c, 31);
      assert n > 0 ==> (31 + n) % 32 == (n - 1) % 32;
    }
  }

  /** The low byte of the register of an amount; r15 counts eight bytes further. */
  function AmountIn(s: State, rs: RegNo): nat {
    if rs == 15 then (s.r15.addr + 8) % 0x100 else Reg(s, rs) % 0x100
  }

  lemma {:induction false} AmountIs(s: State, rs: RegNo)
    requires Banked(s)
    ensures ShiftAmount(s, rs) == AmountIn(s, rs)
  {
    hide FlagBits;
    if rs == 15 {
      assert Bank(s.r15.mode)[15] == Slot(s.r15.mode, 15);
      LowOfPack(s.r15);
      RoundedAmount(s.r15.addr, s.r15.mode);
    }
  }

  lemma LowOfPack(st: Status)
    ensures Pack(st) % 0x100 == (st.addr + st.mode) % 0x100
  {
    hide FlagBits, Wrap;
    var x := st.addr + st.mode;
    FlagBitsFit(st);
    Split(FlagBits(st), x);
    Remainder(FlagBits(st) * 0x4_0000 + x / 0x100, x % 0x100);
  }

  lemma {:induction false} RoundedAmount(addr: Addr, mode: Mode)
    ensures ((addr + mode) % 0x100 + 8) % 0x100 / 4 * 4 == (addr + 8) % 0x100
  {
    var p, q := addr / 0x100, addr / 4 % 0x40;
    assert addr == 0x100 * p + 4 * q;
    Remainder(p, 4 * q + mode);
    if q < 62 {
      Remainder(0, 4 * q + mode + 8);
      Remainder(p, 4 * q + 8);
      Quarter(q + 2, mode);
    } else {
      Remainder(1, 4 * (q - 62) + mode);
      Remainder(p + 1, 4 * (q - 62));
      Quarter(q - 62, mode);
    }
  }

  lemma Remainder(p: nat, x: nat)
    requires x < 0x100
    ensures (0x100 * p + x) % 0x100 == x
  {
  }

  /** Bit k of the second operand, and the carry that comes with it. */
  predicate OperandBit(s: State, op: Operand, k: nat) {
    match op
    case Immediate(value) => BitAt(value, k)
    case ByAmount(rm, kind, n) => ShiftedBit(Reg(s, rm), kind, n, false, s.r15.c, k)
    case ByRegister(rm, kind, rs) => ShiftedBit(Reg(s, rm), kind, AmountIn(s, rs), true, s.r15.c, k)
  }

  predicate OperandCarry(s: State, op: Operand) {
    match op
    case Immediate(_) => s.r15.c
    case ByAmount(rm, kind, n) => LastOut(Reg(s, rm), kind, n, false, s.r15.c)
    case ByRegister(rm, kind, rs) => LastOut(Reg(s, rm), kind, AmountIn(s, rs), true, s.r15.c)
  }

  lemma {:induction false} OperandIs(s: State, op: Operand, k: nat)
    requires Banked(s) && k < 32
    ensures BitAt(Operand2(s, op).value, k) == OperandBit(s, op, k)
    ensures Operand2(s, op).carry == OperandCarry(s, op)
  {
    hide BitAt, Barrel, ShiftedBit, LastOut, Reg, ShiftAmount, AmountIn, Banked;
    match op
    case Immediate(_) =>
    case ByAmount(rm, kind, n) => BarrelBits(Reg(s, rm), kind, n, false, s.r15.c, k);
    case ByRegister(rm, kind, rs) =>
      AmountIs(s, rs);
      BarrelBits(Reg(s, rm), kind, AmountIn(s, rs), true, s.r15.c, k);
  }

  // ----- MOV, MVN, AND, ORR, EOR, BIC, TST and TEQ -----

  /** Bit k of the result. */
  predicate ResultBit(s: State, i: Instruction, k: nat)
    requires i.Alu?
  {
    LogicBit(i.op, BitAt(BaseOf(s, i.rn), k), OperandBit(s, i.operand, k))
  }

  /** No bit of the result is set. */
  predicate ResultIsZero(s: State, i: Instruction)
    requires i.Alu?
  {
    forall k: nat :: k < 32 ==> !ResultBit(s, i, k)
  }

  lemma {:induction false} SomeBit(x: Word) returns (k: nat)
    requires x != 0
    ensures k < 32 && BitAt(x, k)
  {
    hide BitAt;
    if forall k: nat :: k < 32 ==> !BitAt(x, k) {
      forall k: nat ensures !BitAt(0, k) {
        ZeroHasNoBits(k);
      }
      SameWord(x, 0);
      assert false;
    }
    k :| k < 32 && BitAt(x, k);
  }

  /** What an instruction with a destination below r15 does, by its result. */
  lemma {:induction false} AluDoes(s: State, i: Instruction)
    requires i.Alu? && i.rd < 15 && Banked(s)
    ensures Exec(s, i).Done?
    ensures var t, r := Exec(s, i).s, AluResult(s, i);
            && (forall n: RegNo :: n < 15 ==> Reg(t, n) == if n == i.rd && !Compares(i.op) then r.value else Reg(s, n))
            && t.r15 == (if i.setFlags then s.r15.(n := Top(r.value), z := r.value == 0, c := r.c, v := r.v) else s.r15)
            && t == s.(regs := t.regs, r15 := t.r15)
  {
    hide Bank, Reg, SetReg, AluResult;
    var r := AluResult(s, i);
    var t := if i.setFlags then SetFlags(s, r) else s;
    StillBanked(s, t);
    SameRegisters(s, t);
    if !Compares(i.op) {
      OneRegister(t, i.rd, r.value);
    }
  }

  /**
   * The destination gets the bits said, shifted operands included; N and Z tell the top bit and whether there is none,
   * C the bit shifted out, and V stays. Nothing else changes.
   */
  lemma {:induction false} LogicExecutes(s: State, i: Instruction)
    requires i.Alu? && Logical(i.op) && i.rd < 15 && Banked(s)
    ensures Exec(s, i).Done?
    ensures var t := Exec(s, i).s;
            && (!Compares(i.op) ==> forall k: nat :: k < 32 ==> BitAt(Reg(t, i.rd), k) == ResultBit(s, i, k))
            && (forall n: RegNo :: n < 15 && (n != i.rd || Compares(i.op)) ==> Reg(t, n) == Reg(s, n))
            && t.r15 == (if i.setFlags then
                           s.r15.(n := ResultBit(s, i, 31), z := ResultIsZero(s, i),
                                  c := OperandCarry(s, i.operand))
                         else s.r15)
            && t == s.(regs := t.regs, r15 := t.r15)
  {
    hide Banked, BitAt, Reg, Exec, OperandCarry, AluResult, ResultBit;
    AluDoes(s, i);
    var r := AluResult(s, i);
    forall k: nat | k < 32 ensures BitAt(r.value, k) == ResultBit(s, i, k) {
      ResultBits(s, i, k);
    }
    ResultBits(s, i, 31);
    TopBit(r.value);
    if r.value == 0 {
      forall k: nat ensures !BitAt(r.value, k) {
        ZeroHasNoBits(k);
      }
    } else {
      var k := SomeBit(r.value);
      assert ResultBit(s, i, k);
    }
  }

  lemma {:induction false} ResultBits(s: State, i: Instruction, k: nat)
    requires i.Alu? && Logical(i.op) && Banked(s) && k < 32
    ensures var r := AluResult(s, i);
            BitAt(r.value, k) == ResultBit(s, i, k) && r.c == OperandCarry(s, i.operand) && r.v == s.r15.v
  {
    hide Banked, BitAt, Reg, Operand2, Compute, LogicBit, OperandCarry, OperandBit;
    OperandIs(s, i.operand, k);
    var b := Operand2(s, i.operand);
    LogicMeans(i.op, PlainReg(s, i.rn), b.value, s.r15.c, b.carry, s.r15.v, k);
  }

  // ----- ADD, SUB, RSB, ADC, SBC, RSC, CMP and CMN -----

  predicate Adds(op: RegNo) {
    op == 4 || op == 5 || op == 11
  }

  /** The sum or difference of two numbers and the carry. */
  function Exact(op: RegNo, x: int, y: int, carry: bool): int {
    if op == 4 || op == 11 then x + y
    else if op == 5 then x + y + Low(carry)
    else if op == 2 || op == 10 then x - y
    else if op == 6 then x - y - 1 + Low(carry)
    else if op == 3 then y - x
    else y - x - 1 + Low(carry)
  }

  lemma {:induction false} ExactResult(op: RegNo, a: Word, b: Word, carry: bool, shiftC: bool, v: bool)
    requires !Logical(op)
    ensures var r, d := Compute(op, a, b, carry, shiftC, v), Exact(op, Integer(a), Integer(b), carry);
            && r.value == Exact(op, a, b, carry) % 0x1_0000_0000
            && (r.c <==> Exact(op, a, b, carry) >= if Adds(op) then 0x1_0000_0000 else 0)
            && (r.v <==> d < -0x8000_0000 || d >= 0x8000_0000)
            && (!r.v ==> Integer(r.value) == d)
  {
    hide And, Or, Xor, Sum, Integer, Wrap;
    ArithmeticMeans(op, a, b, carry, shiftC, v);
    SumOverflows(a, b, false);
    SumOverflows(a, b, carry);
    SumOverflows(a, Not(b), true);
    SumOverflows(a, Not(b), carry);
    SumOverflows(b, Not(a), true);
    SumOverflows(b, Not(a), carry);
    Complement(a);
    Complement(b);
    WrapIs(Exact(op, a, b, carry));
  }

  lemma Complement(a: Word)
    ensures Integer(Not(a)) == -Integer(a) - 1
  {
  }

  lemma SumOverflows(a: Word, b: Word, carry: bool)
    ensures var r, d := Sum(a, b, carry), Integer(a) + Integer(b) + Low(carry);
            && (r.v <==> d < -0x8000_0000 || d >= 0x8000_0000)
            && (!r.v <==> Integer(r.value) == d)
  {
    SumSigned(a, b, carry);
  }

  /**
   * The destination gets the sum or difference modulo 2^32. With S, EQ and NE tell of a zero, MI and PL the sign of the
   * result, CS and CC whether the sum without sign carries or the difference does not borrow, and VS and VC whether the
   * exact result with sign fits in 32 bits or not. Nothing else changes.
   */
  lemma {:induction false} ArithmeticExecutes(s: State, i: Instruction)
    requires i.Alu? && !Logical(i.op) && i.rd < 15 && Banked(s)
    ensures Exec(s, i).Done?
    ensures var t, x, y := Exec(s, i).s, BaseOf(s, i.rn), Operand2(s, i.operand).value;
            var value := Exact(i.op, x, y, s.r15.c) % 0x1_0000_0000;
            var d := Exact(i.op, Integer(x), Integer(y), s.r15.c);
            && (forall n: RegNo :: n < 15 ==> Reg(t, n) == if n == i.rd && !Compares(i.op) then value else Reg(s, n))
            && t == s.(regs := t.regs, r15 := t.r15)
            && t.r15 == s.r15.(n := t.r15.n, z := t.r15.z, c := t.r15.c, v := t.r15.v)
            && (!i.setFlags ==> t.r15 == s.r15)
            && (i.setFlags ==>
                  && (Holds(0, t.r15) <==> value == 0) && (Holds(1, t.r15) <==> value != 0)
                  && (Holds(2, t.r15) <==> Exact(i.op, x, y, s.r15.c) >= if Adds(i.op) then 0x1_0000_0000 else 0)
                  && (Holds(3, t.r15) <==> !Holds(2, t.r15))
                  && (Holds(4, t.r15) <==> value >= 0x8000_0000) && (Holds(5, t.r15) <==> value < 0x8000_0000)
                  && (Holds(6, t.r15) <==> d < -0x8000_0000 || d >= 0x8000_0000)
                  && (Holds(7, t.r15) <==> -0x8000_0000 <= d < 0x8000_0000)
                  && (Holds(7, t.r15) ==> (Holds(4, t.r15) <==> d < 0)))
  {
    hide Banked, Reg, Exec, Operand2, Compute, Exact;
    AluDoes(s, i);
    var b := Operand2(s, i.operand);
    ExactResult(i.op, PlainReg(s, i.rn), b.value, s.r15.c, b.carry, s.r15.v);
  }

  // ----- r15 as destination -----

  /**
   * An instruction with destination r15, a comparison included, continues at the address in the result. With S the
   * result replaces the flags as well, and outside user mode the interrupt masks and the mode.
   */
  lemma {:induction false} IntoPc(s: State, i: Instruction)
    requires i.Alu? && i.rd == 15
    ensures Exec(s, i).Done?
    ensures var t := Exec(s, i).s;
            t == s.(r15 := t.r15, pc := t.pc) && Landed(s, t, AluResult(s, i).value, i.setFlags)
  {
    hide AluResult, Landed, Unpack, Align;
    WritePcLands(s, AluResult(s, i).value, i.setFlags);
  }
}
