/**
 * The bytes of a word by shifts and masks, as LDRB, STRB and SWPB take them (instructions.c:183-187, 534-556, 823-848).
 */
module ArmBytes {
  import opened Prelude
  import opened ArmWords
  import opened ArmBits
  import opened ArmMemory
  import opened ArmShifter
  import opened ArmDispatch

  /** `(value >> ((addr & 3) << 3)) & 0xff` */
  lemma ByteByShift(w: Word, k: nat)
    requires k < 4
    ensures And(ShiftRight(w, 8 * k), 0xff) == ByteOf(w, k)
  {
    hide And, ShiftRight;
    Units();
    Cut(w, 8 * k, 8);
  }

  lemma BytesMakeWord(w: Word)
    ensures w == FromBytes(ByteOf(w, 0), ByteOf(w, 1), ByteOf(w, 2), ByteOf(w, 3))
  {
    var q, p := w / 0x100, w / 0x1_0000;
    DivideTwice(w, 0x100, 0x100);
    DivideTwice(w, 0x1_0000, 0x100);
    assert q == 0x100 * p + q % 0x100;
  }

  /** Bit j of a word is bit j % 8 of byte j / 8. */
  lemma BitOfBytes(b0: Byte, b1: Byte, b2: Byte, b3: Byte, j: nat)
    requires j < 32
    ensures BitAt(FromBytes(b0, b1, b2, b3), j) ==
            BitAt(if j < 8 then b0 else if j < 16 then b1 else if j < 24 then b2 else b3, j % 8)
  {
    hide BitAt;
    Units();
    var h2: nat := b3 * 0x100 + b2;
    var h1: nat := h2 * 0x100 + b1;
    BitOfJoined(h1, b0, 8, j);
    if j >= 8 { BitOfJoined(h2, b1, 8, j - 8); }
    if j >= 16 { BitOfJoined(b3, b2, 8, j - 16); }
    assert FromBytes(b0, b1, b2, b3) == h1 * 0x100 + b0;
  }

  lemma BitOfPutByte(w: Word, k: nat, b: Byte, j: nat)
    requires k < 4 && j < 32
    ensures BitAt(PutByte(w, k, b), j) == if j / 8 == k then BitAt(b, j % 8) else BitAt(w, j)
  {
    hide BitAt, FromBytes, ByteOf;
    BytesMakeWord(w);
    BitOfBytes(ByteOf(w, 0), ByteOf(w, 1), ByteOf(w, 2), ByteOf(w, 3), j);
    BitOfBytes(if k == 0 then b else ByteOf(w, 0), if k == 1 then b else ByteOf(w, 1),
               if k == 2 then b else ByteOf(w, 2), if k == 3 then b else ByteOf(w, 3), j);
  }

  /** `(memory & ~(0xff << n)) | (b << n)`, for n eight times the place of the byte. */
  function ByteMasked(w: Word, n: nat, b: Byte): Word {
    Or(And(w, Not(ShiftLeft(0xff, n))), ShiftLeft(b, n))
  }

  lemma ByteByMask(w: Word, k: nat, b: Byte)
    requires k < 4
    ensures ByteMasked(w, 8 * k, b) == PutByte(w, k, b)
  {
    hide BitAt, PutByte, ByteMasked;
    forall j: nat | j < 32 ensures BitAt(ByteMasked(w, 8 * k, b), j) == BitAt(PutByte(w, k, b), j) {
      BitOfPutByte(w, k, b, j);
      BitOfMasked(w, k, b, j);
    }
    SameWord(ByteMasked(w, 8 * k, b), PutByte(w, k, b));
  }

  lemma BitOfMasked(w: Word, k: nat, b: Byte, j: nat)
    requires k < 4 && j < 32
    ensures BitAt(ByteMasked(w, 8 * k, b), j) == if j / 8 == k then BitAt(b, j % 8) else BitAt(w, j)
  {
    hide BitAt, And, Or, Not, ShiftLeft;
    var n := 8 * k;
    var mask := ShiftLeft(0xff, n);
    BitOr(And(w, Not(mask)), ShiftLeft(b, n), j);
    BitAnd(w, Not(mask), j);
    BitNot(mask, j);
    BitsOfLeft(0xff, n, j);
    BitsOfLeft(b, n, j);
    Units();
    if j >= n {
      BitOfOnes(0, 8, j - n);
      if j >= n + 8 {
        NoBitsAbove(b, 8, j - n);
      } else {
        assert j - n == j % 8;
      }
    }
  }

  /** `addr & 0xfc000000`: the address bus has 26 bits. */
  lemma HighMask(addr: Word)
    ensures And(addr, 0xfc00_0000) != 0 <==> addr >= 0x400_0000
  {
    hide And, BitAt;
    Spans();
    if addr < 0x400_0000 {
      forall k: nat | k < 32 ensures BitAt(And(addr, 0xfc00_0000), k) == BitAt(0, k) {
        BitAnd(addr, 0xfc00_0000, k);
        BitOfOnes(26, 32, k);
        ZeroHasNoBits(k);
        if k >= 26 { NoBitsAbove(addr, 26, k); }
      }
      SameWord(And(addr, 0xfc00_0000), 0);
    } else if And(addr, 0xfc00_0000) == 0 {
      forall k: nat | k < 32 ensures BitAt(addr, k) == BitAt(addr % 0x400_0000, k) {
        BitAnd(addr, 0xfc00_0000, k);
        BitOfOnes(26, 32, k);
        ZeroHasNoBits(k);
        BitOfJoined(addr / 0x400_0000, addr % 0x400_0000, 26, k);
        if k >= 26 { NoBitsAbove(addr % 0x400_0000, 26, k); }
      }
      SameWord(addr, addr % 0x400_0000);
    }
  }
}
