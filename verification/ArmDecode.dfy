/**
 * The instruction formats of the ARM 2, section 4 of the VL86C010 data sheet, as the dispatch in step.c:171-213
 * and the handlers in instructions.c take them apart.
 */
module ArmDecode {
  import opened Prelude
  import opened ArmWords
  import opened ArmState

  type ShiftKind = k: nat | k < 4

  const LSL: ShiftKind := 0
  const LSR: ShiftKind := 1
  const ASR: ShiftKind := 2
  const ROR: ShiftKind := 3

  /** The five bits of a shift amount. */
  type Amount = n: nat | n < 32

  datatype Operand = Immediate(value: Word)
                   | ByAmount(rm: RegNo, kind: ShiftKind, amount: Amount)
                   | ByRegister(rm: RegNo, kind: ShiftKind, rs: RegNo)

  datatype Instruction =
    | Alu(op: RegNo, setFlags: bool, rn: RegNo, rd: RegNo, operand: Operand)
    | Multiply(setFlags: bool, accumulate: bool, rd: RegNo, rn: RegNo, rs: RegNo, rm: RegNo)
    | Swap(byte: bool, rn: RegNo, rd: RegNo, rm: RegNo)
    | Single(load: bool, byte: bool, writeBack: bool, add: bool, pre: bool, rn: RegNo, rd: RegNo, offset: Operand)
    | Branch(link: bool, words: nat)
    | Block(load: bool, writeBack: bool, hat: bool, add: bool, pre: bool, rn: RegNo, list: nat)
    | Swi(comment: nat)
    | CopTransfer
    | CopRegister(proc: RegNo, rd: RegNo, crn: RegNo, opcode: nat)
    | CopData(proc: RegNo, crm: RegNo, aux: nat, crd: RegNo, crn: RegNo, opcode: nat)

  predicate Cop(i: Instruction) {
    i.CopTransfer? || i.CopRegister? || i.CopData?
  }

  function Nibble(w: Word, unit: nat): RegNo
    requires unit > 0
  {
    w / unit % 16
  }

  /** Bit k of a nibble. */
  predicate Bit3(n: RegNo) {
    n / 8 == 1
  }

  predicate Bit2(n: RegNo) {
    n / 4 % 2 == 1
  }

  predicate Bit1(n: RegNo) {
    n / 2 % 2 == 1
  }

  predicate Bit0(n: RegNo) {
    n % 2 == 1
  }

  /** An eight-bit value rotated right by twice the rotate field. */
  function RotatedImmediate(byte: Byte, rotate: RegNo): Word {
    var n := 2 * rotate;
    if n != 0 then Or(ShiftLeft(byte, 32 - n), ShiftRight(byte, n)) else byte
  }

  function ShiftedRegister(n2: RegNo, n1: RegNo, n0: RegNo, byRegister: bool): Operand {
    if byRegister then ByRegister(n0, n1 / 2 % 4, n2) else ByAmount(n0, n1 / 2 % 4, 2 * n2 + n1 / 8)
  }

  /** The opcode of data processing is bits 24 to 21. */
  function Opcode(n6: RegNo, n5: RegNo): RegNo {
    n6 % 2 * 8 + n5 / 2
  }

  /** An instruction by the four-bit pieces of its word, without the condition; n6 is the highest, n0 the lowest. */
  function Assemble(n6: RegNo, n5: RegNo, n4: RegNo, n3: RegNo, n2: RegNo, n1: RegNo, n0: RegNo): Instruction {
    if n6 / 4 == 0 then
      if n6 == 0 && n5 / 4 == 0 && n1 == 9 then Multiply(Bit0(n5), Bit1(n5), n4, n3, n2, n0)
      else if n6 == 1 && (n5 == 0 || n5 == 4) && n2 == 0 && n1 == 9 then Swap(n5 == 4, n4, n3, n0)
      else
        Alu(Opcode(n6, n5), Bit0(n5), n4, n3,
            if Bit1(n6) then Immediate(RotatedImmediate(16 * n1 + n0, n2)) else ShiftedRegister(n2, n1, n0, Bit0(n1)))
    else if n6 / 4 == 1 then
      Single(Bit0(n5), Bit2(n5), Bit1(n5), Bit3(n5), Bit0(n6), n4, n3,
             if Bit1(n6) then ShiftedRegister(n2, n1, n0, false) else Immediate(256 * n2 + 16 * n1 + n0))
    else if n6 / 4 == 2 then
      if Bit1(n6) then Branch(Bit0(n6), Low24(n5, n4, n3, n2, n1, n0))
      else Block(Bit0(n5), Bit1(n5), Bit2(n5), Bit3(n5), Bit0(n6), n4, Low16(n3, n2, n1, n0))
    else
      if n6 == 15 then Swi(Low24(n5, n4, n3, n2, n1, n0))
      else if !Bit1(n6) then CopTransfer
      else if Bit0(n1) then CopRegister(n2, n3, n4, n5)
      else CopData(n2, n0, n1 / 2, n3, n4, n5)
  }

  function Low16(n3: RegNo, n2: RegNo, n1: RegNo, n0: RegNo): nat {
    0x1000 * n3 + 0x100 * n2 + 0x10 * n1 + n0
  }

  function Low24(n5: RegNo, n4: RegNo, n3: RegNo, n2: RegNo, n1: RegNo, n0: RegNo): nat {
    0x10_0000 * n5 + 0x1_0000 * n4 + Low16(n3, n2, n1, n0)
  }

  function Decode(w: Word): Instruction {
    Assemble(Nibble(w, 0x100_0000), Nibble(w, 0x10_0000), Nibble(w, 0x1_0000), Nibble(w, 0x1000), Nibble(w, 0x100),
             Nibble(w, 0x10), Nibble(w, 1))
  }

  function Condition(w: Word): RegNo {
    w / 0x1000_0000
  }

  /** The condition codes of step.c:94-168 */
  predicate Holds(cond: nat, st: Status) {
    if cond == 0x0 then st.z
    else if cond == 0x1 then !st.z
    else if cond == 0x2 then st.c
    else if cond == 0x3 then !st.c
    else if cond == 0x4 then st.n
    else if cond == 0x5 then !st.n
    else if cond == 0x6 then st.v
    else if cond == 0x7 then !st.v
    else if cond == 0x8 then st.c && !st.z
    else if cond == 0x9 then !st.c || st.z
    else if cond == 0xa then st.n == st.v
    else if cond == 0xb then st.n != st.v
    else if cond == 0xc then !st.z && st.n == st.v
    else if cond == 0xd then st.z || st.n != st.v
    else cond == 0xe
  }

  /** The number of registers below k in a list. */
  function Count(list: nat, k: nat): (n: nat)
    ensures n <= k
  {
    if k == 0 then 0 else Count(list, k - 1) + Low(BitAt(list, k - 1))
  }
}
