/**
 * The encoders of the test suite (tests/encode.h:56-160) and the decoder of the emulator agree: an instruction put
 * together from its fields is taken apart into the same fields.
 */
module ArmEncode {
  import opened Prelude
  import opened ArmWords
  import opened ArmState
  import opened ArmDecode

  // ----- words by their four-bit pieces -----

  function Word8(n7: RegNo, n6: RegNo, n5: RegNo, n4: RegNo, n3: RegNo, n2: RegNo, n1: RegNo, n0: RegNo): Word {
    0x1000_0000 * n7 + 0x100_0000 * n6 + 0x10_0000 * n5 + 0x1_0000 * n4 + 0x1000 * n3 + 0x100 * n2 + 0x10 * n1 + n0
  }

  lemma {:induction false} Piece(w: Word, unit: nat, high: nat, x: RegNo, low: nat)
    requires unit > 0 && low < unit && w == (16 * high + x) * unit + low
    ensures Nibble(w, unit) == x
  {
    Quotient(w, unit, 16 * high + x, low);
  }

  lemma {:induction false} PiecesOfWord(n7: RegNo, n6: RegNo, n5: RegNo, n4: RegNo,
                                        n3: RegNo, n2: RegNo, n1: RegNo, n0: RegNo)
    ensures var w := Word8(n7, n6, n5, n4, n3, n2, n1, n0);
            Condition(w) == n7 && Decode(w) == Assemble(n6, n5, n4, n3, n2, n1, n0)
  {
    hide Assemble, Nibble;
    var w := Word8(n7, n6, n5, n4, n3, n2, n1, n0);
    Piece(w, 1, 0x100_0000 * n7 + 0x10_0000 * n6 + 0x1_0000 * n5 + 0x1000 * n4 + 0x100 * n3 + 0x10 * n2 + n1, n0, 0);
    Piece(w, 0x10, 0x10_0000 * n7 + 0x1_0000 * n6 + 0x1000 * n5 + 0x100 * n4 + 0x10 * n3 + n2, n1, n0);
    Piece(w, 0x100, 0x1_0000 * n7 + 0x1000 * n6 + 0x100 * n5 + 0x10 * n4 + n3, n2, 0x10 * n1 + n0);
    Piece(w, 0x1000, 0x1000 * n7 + 0x100 * n6 + 0x10 * n5 + n4, n3, 0x100 * n2 + 0x10 * n1 + n0);
    Piece(w, 0x1_0000, 0x100 * n7 + 0x10 * n6 + n5, n4, Low16(n3, n2, n1, n0));
    Piece(w, 0x10_0000, 0x10 * n7 + n6, n5, 0x1_0000 * n4 + Low16(n3, n2, n1, n0));
    Piece(w, 0x100_0000, n7, n6, Low24(n5, n4, n3, n2, n1, n0));
  }

  lemma {:induction false} NibbleOfBits(b3: bool, b2: bool, b1: bool, b0: bool)
    ensures var n := 8 * Low(b3) + 4 * Low(b2) + 2 * Low(b1) + Low(b0);
            n < 16 && Bit3(n) == b3 && Bit2(n) == b2 && Bit1(n) == b1 && Bit0(n) == b0
  {
  }

  // ----- data processing -----

  function Head(cond: RegNo, opcode: RegNo, s: bool, rn: RegNo, rd: RegNo): nat {
    0x1000_0000 * cond + 0x20_0000 * opcode + 0x10_0000 * Low(s) + 0x1_0000 * rn + 0x1000 * rd
  }

  /** dp_imm */
  function DpImm(cond: RegNo, opcode: RegNo, s: bool, rn: RegNo, rd: RegNo, rotate: RegNo, imm8: Byte): Word {
    Head(cond, opcode, s, rn, rd) + 0x200_0000 + 0x100 * rotate + imm8
  }

  /** dp_reg */
  function DpReg(cond: RegNo, opcode: RegNo, s: bool, rn: RegNo, rd: RegNo, rm: RegNo, kind: ShiftKind,
                 amount: nat): Word
    requires amount < 32
  {
    Head(cond, opcode, s, rn, rd) + 0x80 * amount + 0x20 * kind + rm
  }

  /** dp_regshift */
  function DpRegShift(cond: RegNo, opcode: RegNo, s: bool, rn: RegNo, rd: RegNo, rm: RegNo, kind: ShiftKind,
                      rs: RegNo): Word {
    Head(cond, opcode, s, rn, rd) + 0x100 * rs + 0x20 * kind + 0x10 + rm
  }

  lemma {:induction false} OpcodePieces(opcode: RegNo, s: bool, high: nat)
    requires high == 0 || high == 2
    ensures var n6, n5 := high + opcode / 8, opcode % 8 * 2 + Low(s);
            && n6 < 16 && n5 < 16 && Opcode(n6, n5) == opcode && Bit0(n5) == s && n6 / 4 == 0
            && Bit1(n6) == (high == 2)
  {
  }

  lemma {:induction false} ShiftPieces(top: nat, kind: ShiftKind, byRegister: bool)
    requires top < 2
    ensures var n1 := 8 * top + 2 * kind + Low(byRegister);
            n1 < 16 && n1 / 2 % 4 == kind && n1 / 8 == top && Bit0(n1) == byRegister
  {
  }

  lemma NineIsOdd()
    ensures Bit0(9)
  {
  }

  lemma {:induction false} DpImmDecodes(cond: RegNo, opcode: RegNo, s: bool, rn: RegNo, rd: RegNo, rotate: RegNo,
                                        imm8: Byte)
    ensures var w := DpImm(cond, opcode, s, rn, rd, rotate, imm8);
            && Condition(w) == cond
            && Decode(w) == Alu(opcode, s, rn, rd, Immediate(RotatedImmediate(imm8, rotate)))
  {
    hide Opcode, Bit0, Bit1, RotatedImmediate, Decode;
    var n6, n5 := 2 + opcode / 8, opcode % 8 * 2 + Low(s);
    OpcodePieces(opcode, s, 2);
    PiecesOfWord(cond, n6, n5, rn, rd, rotate, imm8 / 16, imm8 % 16);
    assert DpImm(cond, opcode, s, rn, rd, rotate, imm8) == Word8(cond, n6, n5, rn, rd, rotate, imm8 / 16, imm8 % 16);
  }

  lemma {:induction false} DpRegDecodes(cond: RegNo, opcode: RegNo, s: bool, rn: RegNo, rd: RegNo, rm: RegNo,
                                        kind: ShiftKind, amount: nat)
    requires amount < 32
    ensures var w := DpReg(cond, opcode, s, rn, rd, rm, kind, amount);
            Condition(w) == cond && Decode(w) == Alu(opcode, s, rn, rd, ByAmount(rm, kind, amount))
  {
    hide Opcode, Bit0, Bit1, Decode;
    var n6, n5 := opcode / 8, opcode % 8 * 2 + Low(s);
    var n2, n1 := amount / 2, 8 * (amount % 2) + 2 * kind;
    OpcodePieces(opcode, s, 0);
    ShiftPieces(amount % 2, kind, false);
    NineIsOdd();
    PiecesOfWord(cond, n6, n5, rn, rd, n2, n1, rm);
    assert DpReg(cond, opcode, s, rn, rd, rm, kind, amount) == Word8(cond, n6, n5, rn, rd, n2, n1, rm);
  }

  lemma {:induction false} DpRegShiftDecodes(cond: RegNo, opcode: RegNo, s: bool, rn: RegNo, rd: RegNo, rm: RegNo,
                                             kind: ShiftKind, rs: RegNo)
    ensures var w := DpRegShift(cond, opcode, s, rn, rd, rm, kind, rs);
            Condition(w) == cond && Decode(w) == Alu(opcode, s, rn, rd, ByRegister(rm, kind, rs))
  {
    hide Opcode, Bit0, Bit1, Decode;
    var n6, n5 := opcode / 8, opcode % 8 * 2 + Low(s);
    var n1 := 2 * kind + 1;
    OpcodePieces(opcode, s, 0);
    ShiftPieces(0, kind, true);
    PiecesOfWord(cond, n6, n5, rn, rd, rs, n1, rm);
    assert DpRegShift(cond, opcode, s, rn, rd, rm, kind, rs) == Word8(cond, n6, n5, rn, rd, rs, n1, rm);
  }

  // ----- multiplication and swap -----

  /** mul */
  function Mul(cond: RegNo, accumulate: bool, s: bool, rd: RegNo, rn: RegNo, rs: RegNo, rm: RegNo): Word {
    0x1000_0000 * cond + 0x20_0000 * Low(accumulate) + 0x10_0000 * Low(s) + 0x1_0000 * rd + 0x1000 * rn + 0x100 * rs
    + 0x90 + rm
  }

  lemma {:induction false} MulDecodes(cond: RegNo, accumulate: bool, s: bool, rd: RegNo, rn: RegNo, rs: RegNo,
                                      rm: RegNo)
    ensures var w := Mul(cond, accumulate, s, rd, rn, rs, rm);
            Condition(w) == cond && Decode(w) == Multiply(s, accumulate, rd, rn, rs, rm)
  {
    hide Decode, Bit0, Bit1;
    NibbleOfBits(false, false, accumulate, s);
    PiecesOfWord(cond, 0, 2 * Low(accumulate) + Low(s), rd, rn, rs, 9, rm);
  }

  /** swp */
  function Swp(cond: RegNo, byte: bool, rn: RegNo, rd: RegNo, rm: RegNo): Word {
    0x1000_0000 * cond + 0x100_0090 + 0x40_0000 * Low(byte) + 0x1_0000 * rn + 0x1000 * rd + rm
  }

  lemma {:induction false} SwpDecodes(cond: RegNo, byte: bool, rn: RegNo, rd: RegNo, rm: RegNo)
    ensures var w := Swp(cond, byte, rn, rd, rm);
            Condition(w) == cond && Decode(w) == Swap(byte, rn, rd, rm)
  {
    hide Decode;
    PiecesOfWord(cond, 1, 4 * Low(byte), rn, rd, 0, 9, rm);
  }

  // ----- transfers -----

  /** sdt */
  function Sdt(cond: RegNo, isReg: bool, pre: bool, up: bool, byte: bool, writeBack: bool, load: bool, rn: RegNo,
               rd: RegNo, offset: nat): Word
    requires offset < 0x1000
  {
    0x1000_0000 * cond + 0x400_0000 + 0x200_0000 * Low(isReg) + 0x100_0000 * Low(pre) + 0x80_0000 * Low(up)
    + 0x40_0000 * Low(byte) + 0x20_0000 * Low(writeBack) + 0x10_0000 * Low(load) + 0x1_0000 * rn + 0x1000 * rd + offset
  }

  /** sdt_offset_reg */
  function SdtOffsetReg(rm: RegNo, kind: ShiftKind, amount: nat): (offset: nat)
    requires amount < 32
    ensures offset < 0x1000
  {
    0x80 * amount + 0x20 * kind + rm
  }

  lemma {:induction false} SdtPieces(cond: RegNo, isReg: bool, pre: bool, up: bool, byte: bool, writeBack: bool,
                                     load: bool, rn: RegNo, rd: RegNo, n2: RegNo, n1: RegNo, n0: RegNo)
    ensures var w := Sdt(cond, isReg, pre, up, byte, writeBack, load, rn, rd, 0x100 * n2 + 0x10 * n1 + n0);
            && Condition(w) == cond
            && Decode(w) == Single(load, byte, writeBack, up, pre, rn, rd,
                                   if isReg then ShiftedRegister(n2, n1, n0, false)
                                   else Immediate(256 * n2 + 16 * n1 + n0))
  {
    hide Decode, Bit0, Bit1, Bit2, Bit3, ShiftedRegister;
    NibbleOfBits(false, true, isReg, pre);
    NibbleOfBits(up, byte, writeBack, load);
    PiecesOfWord(cond, 4 + 2 * Low(isReg) + Low(pre), 8 * Low(up) + 4 * Low(byte) + 2 * Low(writeBack) + Low(load),
                 rn, rd, n2, n1, n0);
  }

  lemma {:induction false} SdtDecodes(cond: RegNo, pre: bool, up: bool, byte: bool, writeBack: bool, load: bool,
                                      rn: RegNo, rd: RegNo, offset: nat)
    requires offset < 0x1000
    ensures var w := Sdt(cond, false, pre, up, byte, writeBack, load, rn, rd, offset);
            Condition(w) == cond && Decode(w) == Single(load, byte, writeBack, up, pre, rn, rd, Immediate(offset))
  {
    hide Decode, ShiftedRegister;
    SdtPieces(cond, false, pre, up, byte, writeBack, load, rn, rd, offset / 256, offset / 16 % 16, offset % 16);
    assert offset == 256 * (offset / 256) + 16 * (offset / 16 % 16) + offset % 16;
  }

  lemma {:induction false} SdtRegisterDecodes(cond: RegNo, pre: bool, up: bool, byte: bool, writeBack: bool, load: bool,
                                              rn: RegNo, rd: RegNo, rm: RegNo, kind: ShiftKind, amount: nat)
    requires amount < 32
    ensures var w := Sdt(cond, true, pre, up, byte, writeBack, load, rn, rd, SdtOffsetReg(rm, kind, amount));
            && Condition(w) == cond
            && Decode(w) == Single(load, byte, writeBack, up, pre, rn, rd, ByAmount(rm, kind, amount))
  {
    hide Decode, Condition, Sdt, ShiftedRegister, SdtOffsetReg;
    var n2, n1 := amount / 2, 8 * (amount % 2) + 2 * kind;
    OffsetPieces(rm, kind, amount);
    SdtPieces(cond, true, pre, up, byte, writeBack, load, rn, rd, n2, n1, rm);
  }

  lemma OffsetPieces(rm: RegNo, kind: ShiftKind, amount: Amount)
    ensures var n2, n1 := amount / 2, 8 * (amount % 2) + 2 * kind;
            && n2 < 16 && n1 < 16 && SdtOffsetReg(rm, kind, amount) == 0x100 * n2 + 0x10 * n1 + rm
            && ShiftedRegister(n2, n1, rm, false) == ByAmount(rm, kind, amount)
  {
    ShiftPieces(amount % 2, kind, false);
  }

  /** mdt */
  function Mdt(cond: RegNo, pre: bool, up: bool, psr: bool, writeBack: bool, load: bool, rn: RegNo, list: nat): Word
    requires list < 0x1_0000
  {
    0x1000_0000 * cond + 0x800_0000 + 0x100_0000 * Low(pre) + 0x80_0000 * Low(up) + 0x40_0000 * Low(psr)
    + 0x20_0000 * Low(writeBack) + 0x10_0000 * Low(load) + 0x1_0000 * rn + list
  }

  lemma {:induction false} Quarters(x: nat)
    requires x < 0x1_0000
    ensures x == Low16(x / 0x1000, x / 0x100 % 16, x / 0x10 % 16, x % 16)
  {
    assert x / 0x10 == 0x10 * (x / 0x100) + x / 0x10 % 16;
    assert x / 0x100 == 0x10 * (x / 0x1000) + x / 0x100 % 16;
  }

  lemma {:induction false} MdtDecodes(cond: RegNo, pre: bool, up: bool, psr: bool, writeBack: bool, load: bool,
                                      rn: RegNo, list: nat)
    requires list < 0x1_0000
    ensures var w := Mdt(cond, pre, up, psr, writeBack, load, rn, list);
            Condition(w) == cond && Decode(w) == Block(load, writeBack, psr, up, pre, rn, list)
  {
    hide Decode, Bit0, Bit1, Bit2, Bit3;
    var n3, n2, n1, n0 := list / 0x1000, list / 0x100 % 16, list / 0x10 % 16, list % 16;
    Quarters(list);
    NibbleOfBits(true, false, false, pre);
    NibbleOfBits(up, psr, writeBack, load);
    PiecesOfWord(cond, 8 + Low(pre), 8 * Low(up) + 4 * Low(psr) + 2 * Low(writeBack) + Low(load), rn, n3, n2, n1, n0);
  }

  // ----- the others -----

  /** branch, for an offset of 24 bits */
  function BranchWord(cond: RegNo, link: bool, offset: nat): Word
    requires offset < 0x100_0000
  {
    0x1000_0000 * cond + 0xa00_0000 + 0x100_0000 * Low(link) + offset
  }

  /** swi */
  function SwiWord(cond: RegNo, comment: nat): Word
    requires comment < 0x100_0000
  {
    0x1000_0000 * cond + 0xf00_0000 + comment
  }

  /** A number of 24 bits by its pieces. */
  lemma {:induction false} Sixths(x: nat, h: nat, y: nat)
    requires h < 0x100 && y < 0x1_0000 && x == 0x1_0000 * h + y
    ensures x == Low24(h / 16, h % 16, y / 0x1000, y / 0x100 % 16, y / 0x10 % 16, y % 16)
  {
    hide Low16;
    Quarters(y);
  }

  lemma {:induction false} Low24Pieces(cond: RegNo, n6: RegNo, x: nat) returns (n5: RegNo, n4: RegNo, n3: RegNo,
                                                                               n2: RegNo, n1: RegNo, n0: RegNo)
    requires x < 0x100_0000
    ensures x == Low24(n5, n4, n3, n2, n1, n0)
    ensures var w := 0x1000_0000 * cond + 0x100_0000 * n6 + x;
            0 <= w < 0x1_0000_0000 && Condition(w) == cond && Decode(w) == Assemble(n6, n5, n4, n3, n2, n1, n0)
  {
    hide Decode, Assemble;
    var h, y := x / 0x1_0000, x % 0x1_0000;
    Sixths(x, h, y);
    n5, n4, n3, n2, n1, n0 := h / 16, h % 16, y / 0x1000, y / 0x100 % 16, y / 0x10 % 16, y % 16;
    PiecesOfWord(cond, n6, n5, n4, n3, n2, n1, n0);
  }

  lemma {:induction false} BranchDecodes(cond: RegNo, link: bool, offset: nat)
    requires offset < 0x100_0000
    ensures var w := BranchWord(cond, link, offset);
            Condition(w) == cond && Decode(w) == Branch(link, offset)
  {
    hide Decode, Bit0, Bit1, Low24;
    NibbleOfBits(true, false, true, link);
    var n5, n4, n3, n2, n1, n0 := Low24Pieces(cond, 10 + Low(link), offset);
  }

  lemma {:induction false} SwiDecodes(cond: RegNo, comment: nat)
    requires comment < 0x100_0000
    ensures var w := SwiWord(cond, comment);
            Condition(w) == cond && Decode(w) == Swi(comment)
  {
    hide Decode, Low24;
    var n5, n4, n3, n2, n1, n0 := Low24Pieces(cond, 15, comment);
  }

  /** cdp */
  function Cdp(cond: RegNo, num: RegNo, opcode: RegNo, crd: RegNo, crn: RegNo, crm: RegNo, aux: nat): Word
    requires aux < 8
  {
    0x1000_0000 * cond + 0xe00_0000 + 0x10_0000 * opcode + 0x1_0000 * crn + 0x1000 * crd + 0x100 * num + 0x20 * aux
    + crm
  }

  lemma {:induction false} CdpDecodes(cond: RegNo, num: RegNo, opcode: RegNo, crd: RegNo, crn: RegNo, crm: RegNo,
                                      aux: nat)
    requires aux < 8
    ensures var w := Cdp(cond, num, opcode, crd, crn, crm, aux);
            Condition(w) == cond && Decode(w) == CopData(num, crm, aux, crd, crn, opcode)
  {
    hide Decode;
    PiecesOfWord(cond, 14, opcode, crn, crd, num, 2 * aux, crm);
  }

  /** mrc_mcr */
  function MrcMcr(cond: RegNo, load: bool, num: RegNo, opcode: nat, rd: RegNo, crn: RegNo, crm: RegNo, aux: nat): Word
    requires opcode < 8 && aux < 8
  {
    0x1000_0000 * cond + 0xe00_0010 + 0x20_0000 * opcode + 0x10_0000 * Low(load) + 0x1_0000 * crn + 0x1000 * rd
    + 0x100 * num + 0x20 * aux + crm
  }

  lemma {:induction false} MrcMcrDecodes(cond: RegNo, load: bool, num: RegNo, opcode: nat, rd: RegNo, crn: RegNo,
                                         crm: RegNo, aux: nat)
    requires opcode < 8 && aux < 8
    ensures var w := MrcMcr(cond, load, num, opcode, rd, crn, crm, aux);
            Condition(w) == cond && Decode(w) == CopRegister(num, rd, crn, 2 * opcode + Low(load))
  {
    hide Decode;
    PiecesOfWord(cond, 14, 2 * opcode + Low(load), crn, rd, num, 2 * aux + 1, crm);
  }
}
