/**
 * The dispatch of step.c:171-213 and the field extraction at the head of each handler (instructions.c), with the masks
 * and shifts of the source, proved to be the decoding by four-bit pieces of ArmDecode.
 */
module ArmDispatch {
  import opened Prelude
  import opened ArmWords
  import opened ArmBits
  import opened ArmState
  import opened ArmDecode
  import opened ArmMacros
  import opened ArmEncode

  const ALU_TYPE_IMM: Word := 0x0200_0000
  const MUL_TYPE_MLA: Word := 0x0020_0000
  const ALU_SETS_FLAGS: Word := 0x0010_0000
  const SDT_REGISTER: Word := ALU_TYPE_IMM
  const SDT_PREINDEX: Word := 0x0100_0000
  const SDT_OFFSET_ADD: Word := 0x0080_0000
  const SDT_LOAD_BYTE: Word := 0x0040_0000
  const SDT_WRITE_BACK: Word := 0x0020_0000
  const SDT_LDR: Word := 0x0010_0000
  const MDT_HAT: Word := SDT_LOAD_BYTE

  // ----- shifts and masks -----

  lemma AndDouble(x: nat, y: nat)
    ensures AndBits(x, y) == 2 * AndBits(x / 2, y / 2) + Low(x % 2 == 1 && y % 2 == 1)
  {
  }

  /** A mask of n ones leaves the remainder. */
  lemma {:induction false} AndOnes(x: nat, n: nat)
    ensures AndBits(x, Span(n) - 1) == x % Span(n)
    decreases n
  {
    if n > 0 {
      var s := Span(n - 1);
      AndDouble(x, 2 * s - 1);
      AndOnes(x / 2, n - 1);
      assert (2 * s - 1) / 2 == s - 1 && (2 * s - 1) % 2 == 1;
      HalfRemainder(x, s);
    }
  }

  lemma {:induction false} HalfRemainder(x: nat, s: nat)
    requires s > 0
    ensures x % (2 * s) == 2 * (x / 2 % s) + x % 2
  {
    var q := x / 2 / s;
    HalfThenDivide(x, s);
    assert x / 2 == q * s + x / 2 % s;
    assert x == x / (2 * s) * (2 * s) + x % (2 * s);
    assert q * (2 * s) == 2 * (q * s);
  }

  lemma MaskOnes(x: Word, n: nat)
    requires n < 32
    ensures Span(n) < 0x1_0000_0000 && And(x, Span(n) - 1) == x % Span(n)
  {
    hide AndBits, Span;
    Spans();
    SpanGrows(n, 32);
    AndOnes(x, n);
    AndBelow(x, Span(n) - 1);
  }

  /** `(w >> k) & mask`, for a mask of n ones. */
  lemma Cut(w: Word, k: nat, n: nat)
    requires n < 32
    ensures Span(n) < 0x1_0000_0000
    ensures And(ShiftRight(w, k), Span(n) - 1) == w / Span(k) % Span(n)
  {
    hide And, ShiftRight, Span;
    ShiftRightDivides(w, k);
    MaskOnes(ShiftRight(w, k), n);
  }

  lemma Units()
    ensures Span(0) == 1 && Span(1) == 2 && Span(3) == 8 && Span(4) == 0x10 && Span(5) == 0x20 && Span(7) == 0x80
    ensures Span(8) == 0x100 && Span(12) == 0x1000 && Span(16) == 0x1_0000 && Span(20) == 0x10_0000
    ensures Span(21) == 0x20_0000 && Span(24) == 0x100_0000 && Span(2) == 4 && Span(26) == 0x400_0000
  {
    Spans();
    assert Span(5) == 2 * Span(4);
    assert Span(12) == 0x1000;
    assert Span(20) == 0x10_0000;
  }

  // ----- the fields -----

  /** A register number or a four-bit opcode. */
  function Field(w: Word, k: nat): (r: RegNo)
    ensures r == w / Span(k) % 16
  {
    Units();
    Cut(w, k, 4);
    And(ShiftRight(w, k), 0xf)
  }

  /** The masks for the lowest bits. */
  lemma LowMasks(w: Word)
    ensures And(w, 0xff) == w % 0x100 && And(w, 0xfff) == w % 0x1000 && And(w, 0xffff) == w % 0x1_0000
    ensures And(w, 0xff_ffff) == w % 0x100_0000
  {
    hide And;
    Units();
    assert ShiftRight(w, 0) == w;
    Cut(w, 0, 8);
    Cut(w, 0, 12);
    Cut(w, 0, 16);
    Cut(w, 0, 24);
  }

  /** `(bits >> 5) & 3` */
  function KindField(bits: Word): (r: ShiftKind)
    ensures r == bits / 0x20 % 4
  {
    Units();
    Cut(bits, 5, 2);
    And(ShiftRight(bits, 5), 3)
  }

  /** `(bits >> 7) & 0x1f` */
  function AmountField(bits: Word): (r: Amount)
    ensures r == bits / 0x80 % 0x20
  {
    Units();
    Cut(bits, 7, 5);
    And(ShiftRight(bits, 7), 0x1f)
  }

  /** `(instruction >> 26) & 3` */
  function Format(w: Word): (r: nat)
    ensures r == w / 0x400_0000 % 4
  {
    Units();
    Cut(w, 26, 2);
    And(ShiftRight(w, 26), 3)
  }

  /** `(instruction >> 24) & 1` */
  function LinkField(w: Word): (r: nat)
    ensures r == w / 0x100_0000 % 2
  {
    Units();
    Cut(w, 24, 1);
    And(ShiftRight(w, 24), 1)
  }

  /** `(instruction >> 5) & 7` */
  function AuxField(w: Word): (r: nat)
    ensures r == w / 0x20 % 8
  {
    Units();
    Cut(w, 5, 3);
    And(ShiftRight(w, 5), 7)
  }

  /** What operand_shift reads of its twelve bits. */
  function ShiftFields(bits: Word, byRegister: bool): Operand {
    if byRegister then ByRegister(Field(bits, 0), KindField(bits), Field(bits, 8))
    else ByAmount(Field(bits, 0), KindField(bits), AmountField(bits))
  }

  /** The immediate operand of data processing. */
  function ImmediateFields(w: Word): Word {
    var rotate := And(ShiftRight(w, 7), 0x1e);
    if rotate != 0 && rotate <= 32 then Or(ShiftLeft(And(w, 0xff), 32 - rotate), ShiftRight(And(w, 0xff), rotate))
    else And(w, 0xff)
  }

  function AluFields(w: Word): Instruction {
    Alu(Field(w, 21), Has(w, ALU_SETS_FLAGS), Field(w, 16), Field(w, 12),
        if Has(w, ALU_TYPE_IMM) then Immediate(ImmediateFields(w)) else ShiftFields(And(w, 0xfff), Has(w, 0x10)))
  }

  function MultiplyFields(w: Word): Instruction {
    Multiply(Has(w, ALU_SETS_FLAGS), Has(w, MUL_TYPE_MLA), Field(w, 16), Field(w, 12), Field(w, 8), Field(w, 0))
  }

  function SwapFields(w: Word): Instruction {
    Swap(Has(w, SDT_LOAD_BYTE), Field(w, 16), Field(w, 12), Field(w, 0))
  }

  function SingleFields(w: Word): Instruction {
    Single(Has(w, SDT_LDR), Has(w, SDT_LOAD_BYTE), Has(w, SDT_WRITE_BACK), Has(w, SDT_OFFSET_ADD), Has(w, SDT_PREINDEX),
           Field(w, 16), Field(w, 12),
           if !Has(w, SDT_REGISTER) then Immediate(And(w, 0xfff)) else ShiftFields(And(w, 0xfff), false))
  }

  function BranchFields(w: Word): Instruction {
    Branch(LinkField(w) != 0, And(w, 0xff_ffff))
  }

  function BlockFields(w: Word): Instruction {
    Block(Has(w, SDT_LDR), Has(w, SDT_WRITE_BACK), Has(w, MDT_HAT), Has(w, SDT_OFFSET_ADD), Has(w, SDT_PREINDEX),
          Field(w, 16), And(w, 0xffff))
  }

  function CopRegisterFields(w: Word): Instruction {
    CopRegister(Field(w, 8), Field(w, 12), Field(w, 16), Field(w, 20))
  }

  function CopDataFields(w: Word): Instruction {
    CopData(Field(w, 8), Field(w, 0), AuxField(w), Field(w, 12), Field(w, 16), Field(w, 20))
  }

  /** The choice of the handler, and what the handler finds in the word. */
  function ByMasks(w: Word): Instruction {
    if Format(w) == 0 then
      if And(w, 0x0fc0_00f0) == 0x0000_0090 then MultiplyFields(w)
      else if And(w, 0x0fb0_0ff0) == 0x0100_0090 then SwapFields(w)
      else AluFields(w)
    else if Format(w) == 1 then SingleFields(w)
    else if Format(w) == 2 then
      if Has(w, 0x0200_0000) then BranchFields(w) else BlockFields(w)
    else
      if And(w, 0x0f00_0000) == 0x0f00_0000 then Swi(And(w, 0x00ff_ffff))
      else if And(w, 0x0200_0000) == 0 then CopTransfer
      else if Has(w, 0x10) then CopRegisterFields(w)
      else CopDataFields(w)
  }

  // ----- masks on the four-bit pieces -----

  lemma {:induction false} AndJoined(x: nat, a: nat, y: nat, b: nat, n: nat)
    requires a < Span(n) && b < Span(n)
    ensures AndBits(x * Span(n) + a, y * Span(n) + b) == AndBits(x, y) * Span(n) + AndBits(a, b)
    decreases n
  {
    hide AndBits;
    if n == 0 {
      AndNothing();
    } else {
      var s := Span(n - 1);
      Halves(x, a, s);
      Halves(y, b, s);
      AndDouble(x * Span(n) + a, y * Span(n) + b);
      AndDouble(a, b);
      AndJoined(x, a / 2, y, b / 2, n - 1);
      assert AndBits(x, y) * (2 * s) == 2 * (AndBits(x, y) * s);
    }
  }

  lemma Halves(x: nat, a: nat, s: nat)
    ensures (x * (2 * s) + a) / 2 == x * s + a / 2 && (x * (2 * s) + a) % 2 == a % 2
  {
    assert x * (2 * s) == 2 * (x * s);
  }

  lemma AndSplit(x: nat, a: nat, y: nat, b: nat)
    requires a < 16 && b < 16
    ensures AndBits(a, b) < 16 && AndBits(16 * x + a, 16 * y + b) == 16 * AndBits(x, y) + AndBits(a, b)
  {
    hide AndBits;
    AndBelow(a, b);
    Units();
    AndJoined(x, a, y, b, 4);
  }

  lemma AndNothing()
    ensures AndBits(0, 0) == 0
  {
  }

  function And4(a: RegNo, b: RegNo): (r: RegNo) {
    AndBelow(a, b);
    AndBits(a, b)
  }

  lemma AndTwo(x: nat, a: RegNo, b: RegNo, y: nat, c: RegNo, d: RegNo)
    ensures AndBits(0x100 * x + 0x10 * a + b, 0x100 * y + 0x10 * c + d) ==
            0x100 * AndBits(x, y) + 0x10 * And4(a, c) + And4(b, d)
  {
    hide AndBits;
    AndSplit(x, a, y, c);
    AndSplit(16 * x + a, b, 16 * y + c, d);
  }

  lemma AndFour(x: nat, a3: RegNo, a2: RegNo, a1: RegNo, a0: RegNo, y: nat, b3: RegNo, b2: RegNo, b1: RegNo, b0: RegNo)
    ensures AndBits(0x1_0000 * x + Low16(a3, a2, a1, a0), 0x1_0000 * y + Low16(b3, b2, b1, b0)) ==
            0x1_0000 * AndBits(x, y) + Low16(And4(a3, b3), And4(a2, b2), And4(a1, b1), And4(a0, b0))
  {
    hide AndBits, And4;
    AndTwo(x, a3, a2, y, b3, b2);
    AndTwo(0x100 * x + 0x10 * a3 + a2, a1, a0, 0x100 * y + 0x10 * b3 + b2, b1, b0);
  }

  lemma WordHalves(n7: RegNo, n6: RegNo, n5: RegNo, n4: RegNo, n3: RegNo, n2: RegNo, n1: RegNo, n0: RegNo)
    ensures Word8(n7, n6, n5, n4, n3, n2, n1, n0) == 0x1_0000 * Low16(n7, n6, n5, n4) + Low16(n3, n2, n1, n0)
  {
  }

  lemma AndOfPieces(n7: RegNo, n6: RegNo, n5: RegNo, n4: RegNo, n3: RegNo, n2: RegNo, n1: RegNo, n0: RegNo,
                    m7: RegNo, m6: RegNo, m5: RegNo, m4: RegNo, m3: RegNo, m2: RegNo, m1: RegNo, m0: RegNo)
    ensures And(Word8(n7, n6, n5, n4, n3, n2, n1, n0), Word8(m7, m6, m5, m4, m3, m2, m1, m0)) ==
            Word8(And4(n7, m7), And4(n6, m6), And4(n5, m5), And4(n4, m4), And4(n3, m3), And4(n2, m2), And4(n1, m1),
                  And4(n0, m0))
  {
    hide AndBits, And4, Low16, Word8;
    AndNothing();
    WordHalves(n7, n6, n5, n4, n3, n2, n1, n0);
    WordHalves(m7, m6, m5, m4, m3, m2, m1, m0);
    AndFour(0, n7, n6, n5, n4, 0, m7, m6, m5, m4);
    AndFour(Low16(n7, n6, n5, n4), n3, n2, n1, n0, Low16(m7, m6, m5, m4), m3, m2, m1, m0);
    WordHalves(And4(n7, m7), And4(n6, m6), And4(n5, m5), And4(n4, m4), And4(n3, m3), And4(n2, m2), And4(n1, m1),
               And4(n0, m0));
  }

  /** The masks that occur, on one piece. */
  lemma PieceMasks(n: RegNo)
    ensures And4(n, 0) == 0 && And4(n, 15) == n && And4(n, 12) == n / 4 * 4
  {
    hide AndBits;
    AndNothing();
    var h, q, e := n / 2, n / 4, n / 8;
    AndDouble(n, 0);
    AndDouble(h, 0);
    AndDouble(q, 0);
    AndDouble(e, 0);
    Units();
    AndOnes(n, 4);
    AndDouble(n, 12);
    AndDouble(h, 6);
    AndOnes(q, 2);
  }

  lemma PieceWithoutBit2(n: RegNo)
    ensures And4(n, 11) == n - n / 4 % 2 * 4
  {
    hide AndBits;
    var h, q, e := n / 2, n / 4, n / 8;
    Units();
    AndDouble(n, 11);
    AndDouble(h, 5);
    AndDouble(q, 2);
    AndOnes(e, 1);
  }

  lemma PieceFlags(n: RegNo)
    ensures (And4(n, 1) != 0 <==> Bit0(n)) && (And4(n, 2) != 0 <==> Bit1(n))
    ensures (And4(n, 4) != 0 <==> Bit2(n)) && (And4(n, 8) != 0 <==> Bit3(n))
  {
    hide AndBits;
    var h, q := n / 2, n / 4;
    Units();
    AndOnes(n, 1);
    AndDouble(n, 2);
    AndOnes(h, 1);
    AndDouble(n, 4);
    AndDouble(h, 2);
    AndOnes(q, 1);
    AndDouble(n, 8);
    AndDouble(h, 4);
    AndDouble(q, 2);
    AndOnes(n / 8, 1);
  }

  lemma NoMask(n: RegNo)
    ensures And4(n, 0) == 0
  {
    AndOnes(n, 0);
    assert n % 1 == 0;
  }

  lemma NoMasks(n7: RegNo, n6: RegNo, n5: RegNo, n4: RegNo, n3: RegNo, n2: RegNo, n1: RegNo, n0: RegNo)
    ensures And4(n7, 0) == 0 && And4(n6, 0) == 0 && And4(n5, 0) == 0 && And4(n4, 0) == 0
    ensures And4(n3, 0) == 0 && And4(n2, 0) == 0 && And4(n1, 0) == 0 && And4(n0, 0) == 0
  {
    NoMask(n7);
    NoMask(n6);
    NoMask(n5);
    NoMask(n4);
    NoMask(n3);
    NoMask(n2);
    NoMask(n1);
    NoMask(n0);
  }

  // ----- the tests on the word -----

  lemma MultiplyTest(n7: RegNo, n6: RegNo, n5: RegNo, n4: RegNo, n3: RegNo, n2: RegNo, n1: RegNo, n0: RegNo)
    ensures And(Word8(n7, n6, n5, n4, n3, n2, n1, n0), 0x0fc0_00f0) == 0x90 <==> n6 == 0 && n5 / 4 == 0 && n1 == 9
  {
    hide And, And4;
    AndOfPieces(n7, n6, n5, n4, n3, n2, n1, n0, 0, 15, 12, 0, 0, 0, 15, 0);
    NoMasks(n7, n6, n5, n4, n3, n2, n1, n0);
    PieceMasks(n6);
    PieceMasks(n5);
    PieceMasks(n1);
  }

  lemma SwapTest(n7: RegNo, n6: RegNo, n5: RegNo, n4: RegNo, n3: RegNo, n2: RegNo, n1: RegNo, n0: RegNo)
    ensures And(Word8(n7, n6, n5, n4, n3, n2, n1, n0), 0x0fb0_0ff0) == 0x0100_0090 <==>
            n6 == 1 && (n5 == 0 || n5 == 4) && n2 == 0 && n1 == 9
  {
    hide And, And4;
    AndOfPieces(n7, n6, n5, n4, n3, n2, n1, n0, 0, 15, 11, 0, 0, 15, 15, 0);
    NoMasks(n7, n6, n5, n4, n3, n2, n1, n0);
    PieceMasks(n6);
    PieceWithoutBit2(n5);
    PieceMasks(n2);
    PieceMasks(n1);
  }

  lemma SwiTest(n7: RegNo, n6: RegNo, n5: RegNo, n4: RegNo, n3: RegNo, n2: RegNo, n1: RegNo, n0: RegNo)
    ensures And(Word8(n7, n6, n5, n4, n3, n2, n1, n0), 0x0f00_0000) == 0x0f00_0000 <==> n6 == 15
  {
    hide And, And4;
    AndOfPieces(n7, n6, n5, n4, n3, n2, n1, n0, 0, 15, 0, 0, 0, 0, 0, 0);
    NoMasks(n7, n6, n5, n4, n3, n2, n1, n0);
    PieceMasks(n6);
  }

  lemma MaskAt6(n7: RegNo, n6: RegNo, n5: RegNo, n4: RegNo, n3: RegNo, n2: RegNo, n1: RegNo, n0: RegNo, m: RegNo)
    ensures And(Word8(n7, n6, n5, n4, n3, n2, n1, n0), 0x100_0000 * m) == 0x100_0000 * And4(n6, m)
  {
    hide And, And4;
    AndOfPieces(n7, n6, n5, n4, n3, n2, n1, n0, 0, m, 0, 0, 0, 0, 0, 0);
    NoMasks(n7, n6, n5, n4, n3, n2, n1, n0);
  }

  lemma MaskAt5(n7: RegNo, n6: RegNo, n5: RegNo, n4: RegNo, n3: RegNo, n2: RegNo, n1: RegNo, n0: RegNo, m: RegNo)
    ensures And(Word8(n7, n6, n5, n4, n3, n2, n1, n0), 0x10_0000 * m) == 0x10_0000 * And4(n5, m)
  {
    hide And, And4;
    AndOfPieces(n7, n6, n5, n4, n3, n2, n1, n0, 0, 0, m, 0, 0, 0, 0, 0);
    NoMasks(n7, n6, n5, n4, n3, n2, n1, n0);
  }

  lemma MaskAt1(n7: RegNo, n6: RegNo, n5: RegNo, n4: RegNo, n3: RegNo, n2: RegNo, n1: RegNo, n0: RegNo, m: RegNo)
    ensures And(Word8(n7, n6, n5, n4, n3, n2, n1, n0), 0x10 * m) == 0x10 * And4(n1, m)
  {
    hide And, And4;
    AndOfPieces(n7, n6, n5, n4, n3, n2, n1, n0, 0, 0, 0, 0, 0, 0, m, 0);
    NoMasks(n7, n6, n5, n4, n3, n2, n1, n0);
  }

  lemma TypeBits(n7: RegNo, n6: RegNo, n5: RegNo, n4: RegNo, n3: RegNo, n2: RegNo, n1: RegNo, n0: RegNo)
    ensures var w := Word8(n7, n6, n5, n4, n3, n2, n1, n0);
            Has(w, 0x0200_0000) == Bit1(n6) && Has(w, SDT_PREINDEX) == Bit0(n6) && Has(w, 0x10) == Bit0(n1)
  {
    hide And, And4, Bit0, Bit1, Word8;
    MaskAt6(n7, n6, n5, n4, n3, n2, n1, n0, 2);
    MaskAt6(n7, n6, n5, n4, n3, n2, n1, n0, 1);
    MaskAt1(n7, n6, n5, n4, n3, n2, n1, n0, 1);
    PieceFlags(n6);
    PieceFlags(n1);
  }

  lemma OptionBits(n7: RegNo, n6: RegNo, n5: RegNo, n4: RegNo, n3: RegNo, n2: RegNo, n1: RegNo, n0: RegNo)
    ensures var w := Word8(n7, n6, n5, n4, n3, n2, n1, n0);
            && Has(w, 0x0010_0000) == Bit0(n5) && Has(w, 0x0020_0000) == Bit1(n5)
            && Has(w, 0x0040_0000) == Bit2(n5) && Has(w, 0x0080_0000) == Bit3(n5)
  {
    hide And, And4, Bit0, Bit1, Bit2, Bit3, Word8;
    MaskAt5(n7, n6, n5, n4, n3, n2, n1, n0, 1);
    MaskAt5(n7, n6, n5, n4, n3, n2, n1, n0, 2);
    MaskAt5(n7, n6, n5, n4, n3, n2, n1, n0, 4);
    MaskAt5(n7, n6, n5, n4, n3, n2, n1, n0, 8);
    PieceFlags(n5);
  }

  // ----- the fields of the word -----

  lemma RegisterFields(n7: RegNo, n6: RegNo, n5: RegNo, n4: RegNo, n3: RegNo, n2: RegNo, n1: RegNo, n0: RegNo)
    ensures var w := Word8(n7, n6, n5, n4, n3, n2, n1, n0);
            && Field(w, 0) == n0 && Field(w, 8) == n2 && Field(w, 12) == n3 && Field(w, 16) == n4 && Field(w, 20) == n5
            && Field(w, 21) == Opcode(n6, n5)
  {
    hide Field;
    var w := Word8(n7, n6, n5, n4, n3, n2, n1, n0);
    Units();
    Piece(w, 1, 0x100_0000 * n7 + 0x10_0000 * n6 + 0x1_0000 * n5 + 0x1000 * n4 + 0x100 * n3 + 0x10 * n2 + n1, n0, 0);
    Piece(w, 0x100, 0x1_0000 * n7 + 0x1000 * n6 + 0x100 * n5 + 0x10 * n4 + n3, n2, 0x10 * n1 + n0);
    Piece(w, 0x1000, 0x1000 * n7 + 0x100 * n6 + 0x10 * n5 + n4, n3, 0x100 * n2 + 0x10 * n1 + n0);
    Piece(w, 0x1_0000, 0x100 * n7 + 0x10 * n6 + n5, n4, Low16(n3, n2, n1, n0));
    Piece(w, 0x10_0000, 0x10 * n7 + n6, n5, 0x1_0000 * n4 + Low16(n3, n2, n1, n0));
    OpcodeInRange(n6, n5);
    Piece(w, 0x20_0000, 8 * n7 + n6 / 2, Opcode(n6, n5), 0x10_0000 * (n5 % 2) + 0x1_0000 * n4 + Low16(n3, n2, n1, n0));
  }

  lemma OpcodeInRange(n6: RegNo, n5: RegNo)
    ensures 16 * (n6 / 2) + Opcode(n6, n5) == 8 * n6 + n5 / 2
  {
  }

  lemma FormatFields(n7: RegNo, n6: RegNo, n5: RegNo, n4: RegNo, n3: RegNo, n2: RegNo, n1: RegNo, n0: RegNo)
    ensures var w := Word8(n7, n6, n5, n4, n3, n2, n1, n0);
            Format(w) == n6 / 4 && LinkField(w) == n6 % 2 && AuxField(w) == n1 / 2
  {
    hide Format, LinkField, AuxField, Low24, Word8;
    LowInRange(n5, n4, n3, n2, n1, n0);
    FormatOf(n7, n6, Low24(n5, n4, n3, n2, n1, n0));
    var high := 0x10_0000 * n7 + 0x1_0000 * n6 + 0x1000 * n5 + 0x100 * n4 + 0x10 * n3 + n2;
    AuxOf(high, n1, n0);
    assert Word8(n7, n6, n5, n4, n3, n2, n1, n0) == 0x100 * high + 16 * n1 + n0
      by { WordHalves(n7, n6, n5, n4, n3, n2, n1, n0); }
  }

  lemma FormatOf(n7: RegNo, n6: RegNo, low: nat)
    requires low < 0x100_0000
    ensures var w := 0x100_0000 * (16 * n7 + n6) + low;
            w / 0x400_0000 % 4 == n6 / 4 && w / 0x100_0000 % 2 == n6 % 2
  {
    var w := 0x100_0000 * (16 * n7 + n6) + low;
    Quotient(w, 0x400_0000, 4 * n7 + n6 / 4, 0x100_0000 * (n6 % 4) + low);
    Quotient(w, 0x100_0000, 16 * n7 + n6, low);
  }

  lemma AuxOf(high: nat, n1: RegNo, n0: RegNo)
    ensures (0x100 * high + 16 * n1 + n0) / 0x20 % 8 == n1 / 2
  {
    Quotient(0x100 * high + 16 * n1 + n0, 0x20, 8 * high + n1 / 2, 0x10 * (n1 % 2) + n0);
  }

  lemma LowInRange(n5: RegNo, n4: RegNo, n3: RegNo, n2: RegNo, n1: RegNo, n0: RegNo)
    ensures Low16(n3, n2, n1, n0) < 0x1_0000 && Low24(n5, n4, n3, n2, n1, n0) < 0x100_0000
    ensures forall n7: RegNo, n6: RegNo :: Word8(n7, n6, n5, n4, n3, n2, n1, n0) ==
              0x100_0000 * (16 * n7 + n6) + Low24(n5, n4, n3, n2, n1, n0)
  {
  }

  /** The lowest bits of the word. */
  lemma LowFields(n7: RegNo, n6: RegNo, n5: RegNo, n4: RegNo, n3: RegNo, n2: RegNo, n1: RegNo, n0: RegNo)
    ensures var w := Word8(n7, n6, n5, n4, n3, n2, n1, n0);
            && And(w, 0xff) == 16 * n1 + n0 && And(w, 0xfff) == 256 * n2 + 16 * n1 + n0
            && And(w, 0xffff) == Low16(n3, n2, n1, n0) && And(w, 0xff_ffff) == Low24(n5, n4, n3, n2, n1, n0)
  {
    hide And, Word8, Low16, Low24;
    LowMasks(Word8(n7, n6, n5, n4, n3, n2, n1, n0));
    LowTwelve(n7, n6, n5, n4, n3, n2, n1, n0);
    WordHalves(n7, n6, n5, n4, n3, n2, n1, n0);
    LowInRange(n5, n4, n3, n2, n1, n0);
    Remainder(0x1_0000, Low16(n7, n6, n5, n4), Low16(n3, n2, n1, n0));
    Remainder(0x100_0000, 16 * n7 + n6, Low24(n5, n4, n3, n2, n1, n0));
  }

  lemma LowTwelve(n7: RegNo, n6: RegNo, n5: RegNo, n4: RegNo, n3: RegNo, n2: RegNo, n1: RegNo, n0: RegNo)
    ensures var w := Word8(n7, n6, n5, n4, n3, n2, n1, n0);
            w % 0x100 == 16 * n1 + n0 && w % 0x1000 == 256 * n2 + 16 * n1 + n0
  {
    Remainder(0x100, 0x10_0000 * n7 + 0x1_0000 * n6 + 0x1000 * n5 + 0x100 * n4 + 0x10 * n3 + n2, 16 * n1 + n0);
    Remainder(0x1000, 0x1_0000 * n7 + 0x1000 * n6 + 0x100 * n5 + 0x10 * n4 + n3, 256 * n2 + 16 * n1 + n0);
  }

  lemma Remainder(m: nat, q: nat, r: nat)
    requires r < m
    ensures (q * m + r) % m == r
  {
    Quotient(q * m + r, m, q, r);
  }

  lemma ShiftBits(n2: RegNo, n1: RegNo, n0: RegNo)
    ensures var bits := 256 * n2 + 16 * n1 + n0;
            bits / 0x20 % 4 == n1 / 2 % 4 && bits / 0x80 % 0x20 == 2 * n2 + n1 / 8
  {
    KindBits(n2, n1 / 2, 16 * (n1 % 2) + n0);
    AmountBits(n2, n1 / 8, 16 * (n1 % 8) + n0);
    assert n1 == 2 * (n1 / 2) + n1 % 2 && n1 == 8 * (n1 / 8) + n1 % 8;
  }

  lemma KindBits(n2: RegNo, x: nat, low: nat)
    requires low < 0x20
    ensures (256 * n2 + 32 * x + low) / 0x20 % 4 == x % 4
  {
    Quotient(256 * n2 + 32 * x + low, 0x20, 8 * n2 + x, low);
    Remainder(4, 2 * n2 + x / 4, x % 4);
  }

  lemma AmountBits(n2: RegNo, x: nat, low: nat)
    requires x < 2 && low < 0x80
    ensures (256 * n2 + 128 * x + low) / 0x80 % 0x20 == 2 * n2 + x
  {
    Quotient(256 * n2 + 128 * x + low, 0x80, 2 * n2 + x, low);
  }

  /** What operand_shift reads. */
  lemma ShiftFieldsOf(n2: RegNo, n1: RegNo, n0: RegNo, byRegister: bool)
    ensures ShiftFields(256 * n2 + 16 * n1 + n0, byRegister) == ShiftedRegister(n2, n1, n0, byRegister)
  {
    hide Field, KindField, AmountField, Span;
    Units();
    var bits: Word := 256 * n2 + 16 * n1 + n0;
    Piece(bits, 1, 16 * n2 + n1, n0, 0);
    Piece(bits, 0x100, 0, n2, 16 * n1 + n0);
    ShiftBits(n2, n1, n0);
  }

  lemma RotateField(w: Word)
    ensures And(ShiftRight(w, 7), 0x1e) == 2 * (w / 0x100 % 16)
  {
    hide AndBits, ShiftRight;
    Units();
    ShiftRightDivides(w, 7);
    var x := w / 0x80;
    AndDouble(x, 0x1e);
    AndOnes(x / 2, 4);
    HalfThenDivide(w, 0x80);
    assert x / 2 == w / 0x100;
  }

  lemma ImmediateFieldsOf(n7: RegNo, n6: RegNo, n5: RegNo, n4: RegNo, n3: RegNo, n2: RegNo, n1: RegNo, n0: RegNo)
    ensures ImmediateFields(Word8(n7, n6, n5, n4, n3, n2, n1, n0)) == RotatedImmediate(16 * n1 + n0, n2)
  {
    hide And, Or, ShiftLeft, ShiftRight;
    var w := Word8(n7, n6, n5, n4, n3, n2, n1, n0);
    LowFields(n7, n6, n5, n4, n3, n2, n1, n0);
    RotateField(w);
    Piece(w, 0x100, 0x1_0000 * n7 + 0x1000 * n6 + 0x100 * n5 + 0x10 * n4 + n3, n2, 0x10 * n1 + n0);
  }

  // ----- the whole word -----

  lemma DataProcessingMasks(n7: RegNo, n6: RegNo, n5: RegNo, n4: RegNo, n3: RegNo, n2: RegNo, n1: RegNo, n0: RegNo)
    requires n6 / 4 == 0
    ensures ByMasks(Word8(n7, n6, n5, n4, n3, n2, n1, n0)) == Assemble(n6, n5, n4, n3, n2, n1, n0)
  {
    hide And, Has, Field, Format, LinkField, AuxField, ShiftFields, ImmediateFields, ShiftedRegister, RotatedImmediate,
         Bit0, Bit1, Bit2, Bit3, Opcode, Low16, Low24, Word8;
    MultiplyTest(n7, n6, n5, n4, n3, n2, n1, n0);
    SwapTest(n7, n6, n5, n4, n3, n2, n1, n0);
    TypeBits(n7, n6, n5, n4, n3, n2, n1, n0);
    OptionBits(n7, n6, n5, n4, n3, n2, n1, n0);
    RegisterFields(n7, n6, n5, n4, n3, n2, n1, n0);
    FormatFields(n7, n6, n5, n4, n3, n2, n1, n0);
    LowFields(n7, n6, n5, n4, n3, n2, n1, n0);
    ShiftFieldsOf(n2, n1, n0, Bit0(n1));
    ImmediateFieldsOf(n7, n6, n5, n4, n3, n2, n1, n0);
    ByteSwapBit(n5);
  }

  lemma ByteSwapBit(n5: RegNo)
    ensures (n5 == 0 || n5 == 4) ==> (Bit2(n5) <==> n5 == 4)
  {
  }

  lemma SingleMasks(n7: RegNo, n6: RegNo, n5: RegNo, n4: RegNo, n3: RegNo, n2: RegNo, n1: RegNo, n0: RegNo)
    requires n6 / 4 == 1
    ensures ByMasks(Word8(n7, n6, n5, n4, n3, n2, n1, n0)) == Assemble(n6, n5, n4, n3, n2, n1, n0)
  {
    hide And, Has, Field, Format, LinkField, AuxField, ShiftFields, ImmediateFields, ShiftedRegister, RotatedImmediate,
         Bit0, Bit1, Bit2, Bit3, Opcode, Low16, Low24, Word8;
    TypeBits(n7, n6, n5, n4, n3, n2, n1, n0);
    OptionBits(n7, n6, n5, n4, n3, n2, n1, n0);
    RegisterFields(n7, n6, n5, n4, n3, n2, n1, n0);
    FormatFields(n7, n6, n5, n4, n3, n2, n1, n0);
    LowFields(n7, n6, n5, n4, n3, n2, n1, n0);
    ShiftFieldsOf(n2, n1, n0, false);
  }

  lemma BranchMasks(n7: RegNo, n6: RegNo, n5: RegNo, n4: RegNo, n3: RegNo, n2: RegNo, n1: RegNo, n0: RegNo)
    requires n6 / 4 == 2
    ensures ByMasks(Word8(n7, n6, n5, n4, n3, n2, n1, n0)) == Assemble(n6, n5, n4, n3, n2, n1, n0)
  {
    hide And, Has, Field, Format, LinkField, AuxField, ShiftFields, ImmediateFields, ShiftedRegister, RotatedImmediate,
         Bit0, Bit1, Bit2, Bit3, Opcode, Low16, Low24, Word8;
    TypeBits(n7, n6, n5, n4, n3, n2, n1, n0);
    OptionBits(n7, n6, n5, n4, n3, n2, n1, n0);
    RegisterFields(n7, n6, n5, n4, n3, n2, n1, n0);
    FormatFields(n7, n6, n5, n4, n3, n2, n1, n0);
    LowFields(n7, n6, n5, n4, n3, n2, n1, n0);
    BitZeroOf(n6);
  }

  lemma BitZeroOf(n: RegNo)
    ensures Bit0(n) <==> n % 2 != 0
  {
  }

  lemma CoprocessorMasks(n7: RegNo, n6: RegNo, n5: RegNo, n4: RegNo, n3: RegNo, n2: RegNo, n1: RegNo, n0: RegNo)
    requires n6 / 4 == 3
    ensures ByMasks(Word8(n7, n6, n5, n4, n3, n2, n1, n0)) == Assemble(n6, n5, n4, n3, n2, n1, n0)
  {
    hide And, Field, Format, LinkField, AuxField, ShiftFields, ImmediateFields, ShiftedRegister, RotatedImmediate,
         Bit0, Bit1, Bit2, Bit3, Opcode, Low16, Low24, Word8;
    SwiTest(n7, n6, n5, n4, n3, n2, n1, n0);
    TypeBits(n7, n6, n5, n4, n3, n2, n1, n0);
    RegisterFields(n7, n6, n5, n4, n3, n2, n1, n0);
    FormatFields(n7, n6, n5, n4, n3, n2, n1, n0);
    LowFields(n7, n6, n5, n4, n3, n2, n1, n0);
  }

  lemma PiecesMakeWord(w: Word)
    ensures w == Word8(w / 0x1000_0000, Nibble(w, 0x100_0000), Nibble(w, 0x10_0000), Nibble(w, 0x1_0000),
                       Nibble(w, 0x1000), Nibble(w, 0x100), Nibble(w, 0x10), Nibble(w, 1))
  {
    PieceOff(w, 1);
    PieceOff(w, 0x10);
    PieceOff(w, 0x100);
    PieceOff(w, 0x1000);
    PieceOff(w, 0x1_0000);
    PieceOff(w, 0x10_0000);
    PieceOff(w, 0x100_0000);
  }

  lemma PieceOff(w: Word, unit: nat)
    requires unit > 0
    ensures w / unit == 16 * (w / (16 * unit)) + Nibble(w, unit)
  {
    HalfThenDivide(w, unit);
    var q := w / unit;
    DivideTwice(w, unit, 16);
  }

  lemma DivideTwice(x: nat, d: nat, k: nat)
    requires d > 0 && k > 0
    ensures x / d / k == x / (k * d)
  {
    var q := x / d;
    var p := q / k;
    var r := (q - p * k) * d + (x - q * d);
    assert x == q * d + x % d;
    assert q == p * k + q % k;
    assert p * (k * d) == p * k * d;
    assert r == q % k * d + x % d;
    TimesMonotone(q % k, k - 1, d);
    assert (k - 1) * d == k * d - d;
    Quotient(x, k * d, p, r);
  }

  /** The masks and shifts of the source find in every word what the decoding by pieces finds. */
  lemma ByMasksIsDecode(w: Word)
    ensures ByMasks(w) == Decode(w)
  {
    hide ByMasks, Assemble, Word8, Nibble;
    var n7, n6, n5, n4 := w / 0x1000_0000, Nibble(w, 0x100_0000), Nibble(w, 0x10_0000), Nibble(w, 0x1_0000);
    var n3, n2, n1, n0 := Nibble(w, 0x1000), Nibble(w, 0x100), Nibble(w, 0x10), Nibble(w, 1);
    PiecesMakeWord(w);
    if n6 / 4 == 0 {
      DataProcessingMasks(n7, n6, n5, n4, n3, n2, n1, n0);
    } else if n6 / 4 == 1 {
      SingleMasks(n7, n6, n5, n4, n3, n2, n1, n0);
    } else if n6 / 4 == 2 {
      BranchMasks(n7, n6, n5, n4, n3, n2, n1, n0);
    } else {
      CoprocessorMasks(n7, n6, n5, n4, n3, n2, n1, n0);
    }
  }
}
