/**
 * operand_shift with the shifts and masks of the source (instructions.c:49-159), and the other field extractions of a
 * second operand, proved to be the barrel shifter of ArmExecute, whose bits ArmShifter states.
 */
module ArmOperand {
  import opened Prelude
  import opened ArmWords
  import opened ArmBits
  import opened ArmState
  import opened ArmDecode
  import opened ArmExecute
  import opened ArmMacros
  import opened ArmDispatch

  lemma {:induction false} BitByShift(x: Word, k: nat)
    ensures BitAt(x, k) == (ShiftRight(x, k) % 2 == 1)
    decreases k
  {
    if k > 0 {
      BitByShift(x / 2, k - 1);
    }
  }

  /** `(op2 >> k) & 1` */
  function ShiftedOut(x: Word, k: nat): (r: Word)
    ensures r == Low(BitAt(x, k))
  {
    BitByShift(x, k);
    MaskOnes(ShiftRight(x, k), 1);
    Units();
    And(ShiftRight(x, k), 1)
  }

  lemma LowestMask(x: Word)
    ensures And(x, 1) == x % 2
  {
    Units();
    MaskOnes(x, 1);
  }

  lemma TopMask(x: Word)
    ensures And(x, 0x8000_0000) != 0 <==> Top(x)
  {
    hide And;
    FlagSpans();
    HasBit(x, 31);
    TopBit(x);
  }

  /** The amount from a register, and the one of a long rotation. */
  lemma AmountMasks(x: Word)
    ensures And(x, 0xff) == x % 0x100 && And(x, 0x1f) == x % 0x20 && And(x, 0xfc) == x % 0x100 / 4 * 4
  {
    Units();
    MaskOnes(x, 8);
    MaskOnes(x, 5);
    MaskFourTimes(x);
  }

  lemma MaskFourTimes(x: Word)
    ensures And(x, 0xfc) == x % 0x100 / 4 * 4
  {
    hide AndBits;
    var q: nat := x / 4;
    Spans();
    Units();
    assert Span(6) == 0x40;
    AndJoined(q, x % 4, 0x3f, 0, 2);
    AndOnes(q, 6);
    AndOnes(x % 4, 0);
    QuarterRemainder(x);
  }

  lemma QuarterRemainder(x: nat)
    ensures 4 * (x / 4 % 0x40) == x % 0x100 / 4 * 4
  {
    var q, r := x / 0x100, x % 0x100;
    Quotient(x, 4, 0x40 * q + r / 4, r % 4);
    Remainder(0x40, q, r / 4);
    assert q * 0x40 == 0x40 * q;
  }

  /** `(op2 >> 1) | (((actual[PC] >> 29) & 1) << 31)` */
  function RotatedThroughCarry(x: Word, r15: Word): Word {
    Or(ShiftRight(x, 1), ShiftLeft(ShiftedOut(r15, 29), 31))
  }

  lemma CarryOnTop(r15: Word)
    ensures ShiftLeft(ShiftedOut(r15, 29), 31) == if Unpack(r15).c then 0x8000_0000 else 0
  {
    hide ShiftedOut, ShiftLeft, Unpack, BitAt;
    BitOfUnpack(r15, 29);
    ShiftLeftMultiplies(ShiftedOut(r15, 29), 31);
    FlagSpans();
  }

  lemma RotatedThroughCarryIs(x: Word, r15: Word)
    ensures RotatedThroughCarry(x, r15) == x / 2 + if Unpack(r15).c then 0x8000_0000 else 0
  {
    hide BitAt, Or, Unpack, ShiftLeft, ShiftedOut;
    var c := Unpack(r15).c;
    var y: Word := x / 2 + if c then 0x8000_0000 else 0;
    CarryOnTop(r15);
    FlagSpans();
    assert ShiftRight(x, 1) == x / 2;
    forall k: nat | k < 32 ensures BitAt(RotatedThroughCarry(x, r15), k) == BitAt(y, k) {
      FlagOr(x / 2, 31, c, k);
      BitOfJoined(if c then 1 else 0, x / 2, 31, k);
      BitZero(if c then 1 else 0);
      NoBitsAbove(x / 2, 31, 31);
    }
    SameWord(RotatedThroughCarry(x, r15), y);
  }

  // ----- the four kinds of shift -----

  method ShiftLsl(x: Word, n: nat, r15: Word) returns (op2: Word, shiftC: Word)
    ensures Shifted(op2, shiftC != 0) == Left(x, n, Unpack(r15).c)
  {
    hide And, ShiftLeft, ShiftedOut, BitAt;
    op2, shiftC := x, 0;
    if n == 0 {
      FlagsRead(r15);
      shiftC := And(And(r15, 0xfc00_0000), FLAG_C);
      FlagOfPsr(r15);
    } else if n < 32 {
      shiftC := ShiftedOut(op2, 32 - n);
      op2 := ShiftLeft(op2, n);
    } else if n == 32 {
      LowestMask(x);
      shiftC := And(op2, 1);
      op2 := 0;
    } else {
      shiftC, op2 := 0, 0;
    }
  }

  /** `GETPSR(cpu) & FLAG_C` */
  lemma FlagOfPsr(r15: Word)
    ensures And(And(r15, 0xfc00_0000), FLAG_C) != 0 <==> Unpack(r15).c
  {
    hide BitAt, And;
    FlagSpans();
    Spans();
    HasBit(And(r15, 0xfc00_0000), 29);
    BitAnd(r15, 0xfc00_0000, 29);
    BitOfOnes(26, 32, 29);
    BitOfUnpack(r15, 29);
  }

  method ShiftLsr(x: Word, n: nat, byRegister: bool) returns (op2: Word, shiftC: Word)
    ensures Shifted(op2, shiftC != 0) == Right(x, n, byRegister)
  {
    hide And, ShiftRight, ShiftedOut, BitAt;
    op2, shiftC := x, 0;
    TopMask(x);
    if n == 0 {
      if !byRegister {
        shiftC := And(op2, 0x8000_0000);
        op2 := 0;
      }
    } else if n < 32 {
      shiftC := ShiftedOut(op2, n - 1);
      op2 := ShiftRight(op2, n);
    } else if n == 32 {
      shiftC := And(op2, 0x8000_0000);
      op2 := 0;
    } else {
      shiftC, op2 := 0, 0;
    }
  }

  method ShiftAsr(x: Word, n: nat, byRegister: bool) returns (op2: Word, shiftC: Word)
    ensures Shifted(op2, shiftC != 0) == Signed(x, n, byRegister)
  {
    hide ShiftSigned, ShiftedOut, BitAt;
    op2, shiftC := x, 0;
    TopBit(x);
    if n == 0 {
      if !byRegister {
        shiftC := ShiftedOut(op2, 31);
        op2 := shiftC * 0xffff_ffff;
      }
    } else if n < 32 {
      shiftC := ShiftedOut(op2, n - 1);
      op2 := ShiftSigned(op2, n);
    } else {
      shiftC := ShiftedOut(op2, 31);
      op2 := shiftC * 0xffff_ffff;
    }
  }

  method ShiftRor(x: Word, n: Word, byRegister: bool, r15: Word) returns (op2: Word, shiftC: Word)
    ensures Shifted(op2, shiftC != 0) == Rotated(x, n, byRegister, Unpack(r15).c)
  {
    hide And, Or, ShiftLeft, ShiftRight, ShiftedOut, BitAt, RotatedThroughCarry, Unpack;
    op2, shiftC := x, 0;
    var amount := n;
    AmountMasks(n);
    if amount > 32 {
      amount := And(amount, 0x1f);
      if amount == 0 {
        amount := 32;
      }
    }
    assert amount == Turns(n);
    if amount == 0 {
      if !byRegister {
        LowestMask(x);
        RotatedThroughCarryIs(x, r15);
        shiftC := And(op2, 1);
        op2 := RotatedThroughCarry(op2, r15);
      }
    } else if amount < 32 {
      shiftC := ShiftedOut(op2, amount - 1);
      op2 := Or(ShiftRight(op2, amount), ShiftLeft(op2, 32 - amount));
    } else {
      TopMask(x);
      shiftC := And(op2, 0x8000_0000);
    }
  }

  /** The switch over the kinds of shift; `shiftC` is nonzero for a carry. */
  method ShiftOperand(x: Word, kind: ShiftKind, n: Word, byRegister: bool, r15: Word) returns (op2: Word, shiftC: Word)
    ensures Shifted(op2, shiftC != 0) == Barrel(x, kind, n, byRegister, Unpack(r15).c)
  {
    hide Left, Right, Signed, Rotated, Unpack;
    if kind == LSL {
      op2, shiftC := ShiftLsl(x, n, r15);
    } else if kind == LSR {
      op2, shiftC := ShiftLsr(x, n, byRegister);
    } else if kind == ASR {
      op2, shiftC := ShiftAsr(x, n, byRegister);
    } else {
      assert kind == ROR;
      op2, shiftC := ShiftRor(x, n, byRegister, r15);
    }
  }
}
