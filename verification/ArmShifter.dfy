/**
 * What the barrel shifter does to the bits of its operand (instructions.c:70-153): every bit of the result and the
 * carry, for every kind of shift and every amount.
 */
module ArmShifter {
  import opened Prelude
  import opened ArmWords
  import opened ArmBits
  import opened ArmDecode
  import opened ArmExecute

  // ----- shifts by some places -----

  lemma {:induction false} BitsOfRight(x: Word, n: nat, k: nat)
    ensures BitAt(ShiftRight(x, n), k) == BitAt(x, k + n)
    decreases n
  {
    if n > 0 {
      BitsOfRight(x / 2, n - 1, k);
    }
  }

  lemma {:induction false} BitsOfLeft(x: Word, n: nat, k: nat)
    requires k < 32
    ensures BitAt(ShiftLeft(x, n), k) == (k >= n && BitAt(x, k - n))
    decreases n
  {
    if n > 0 {
      BitsOfLeft(Wrap(2 * x), n - 1, k);
      if k >= n - 1 {
        BitOfWrap(2 * x, k - (n - 1));
        assert (2 * x) / 2 == x && (2 * x) % 2 == 0;
      }
    }
  }

  /** The place a bit of an arithmetic shift comes from; the sign fills up from above. */
  function FromPlace(k: nat, n: nat): nat {
    if k + n < 31 then k + n else 31
  }

  lemma {:induction false} BitsOfSigned(x: Word, n: nat, k: nat)
    requires k < 32
    ensures BitAt(ShiftSigned(x, n), k) == BitAt(x, FromPlace(k, n))
    decreases n
  {
    if n > 0 {
      var y: Word := if Top(x) then x / 2 + 0x8000_0000 else x / 2;
      BitsOfSigned(y, n - 1, k);
      SignedOnce(x, FromPlace(k, n - 1));
    }
  }

  lemma {:induction false} SignedOnce(x: Word, k: nat)
    requires k < 32
    ensures var y: Word := if Top(x) then x / 2 + 0x8000_0000 else x / 2;
            BitAt(y, k) == BitAt(x, FromPlace(k, 1))
  {
    hide BitAt;
    Spans();
    assert Span(31) == 0x8000_0000;
    TopBit(x);
    var y: Word := if Top(x) then x / 2 + 0x8000_0000 else x / 2;
    TopBit(y);
    if k < 31 {
      if Top(x) {
        BitOfSum(x / 2, 31, 1, k);
      }
      BitOfHalf(x, k);
    }
  }

  // ----- the barrel shifter -----

  /** LSL: zeros come in from below; the carry is the last bit out, or the old carry. */
  lemma {:induction false} LeftBits(x: Word, n: nat, c: bool, k: nat)
    requires k < 32
    ensures BitAt(Left(x, n, c).value, k) == (k >= n && BitAt(x, k - n))
    ensures Left(x, n, c).carry == if n == 0 then c else if n <= 32 then BitAt(x, 32 - n) else false
  {
    if 0 < n < 32 {
      BitsOfLeft(x, n, k);
    } else {
      ZeroHasNoBits(k);
    }
  }

  /** LSR: zeros come in from above. An immediate amount of 0 means 32; by a register it shifts nothing, carry 0. */
  lemma {:induction false} RightBits(x: Word, n: nat, byRegister: bool, k: nat)
    requires k < 32
    ensures var places := if n == 0 && !byRegister then 32 else n;
            && BitAt(Right(x, n, byRegister).value, k) == BitAt(x, k + places)
            && Right(x, n, byRegister).carry == (places > 0 && BitAt(x, places - 1))
  {
    hide BitAt;
    var places := if n == 0 && !byRegister then 32 else n;
    WordHasBits(x, k + places);
    WordHasBits(x, places);
    if places > 0 {
      WordHasBits(x, places - 1);
    }
    BitsOfRight(x, places, k);
    ZeroHasNoBits(k);
  }

  /** ASR: the sign comes in from above. */
  lemma {:induction false} SignedBits(x: Word, n: nat, byRegister: bool, k: nat)
    requires k < 32
    ensures var places := if n == 0 && !byRegister then 32 else n;
            && BitAt(Signed(x, n, byRegister).value, k) == BitAt(x, FromPlace(k, places))
            && Signed(x, n, byRegister).carry == (places > 0 && BitAt(x, FromPlace(places - 1, 0)))
  {
    hide BitAt;
    var places := if n == 0 && !byRegister then 32 else n;
    TopBit(x);
    BitsOfSigned(x, places, k);
    if places >= 32 {
      BitsOfSign(x, k);
    }
  }

  lemma {:induction false} BitsOfSign(x: Word, k: nat)
    requires k < 32
    ensures BitAt(Sign(x).value, k) == Top(x)
  {
    if Top(x) {
      Spans();
      BitOfOnes(0, 32, k);
    } else {
      ZeroHasNoBits(k);
    }
  }

  /** ROR: bits leaving below come in above. The carry is the top bit of the result; by 0 places it is cleared. */
  lemma {:induction false} RotatedBits(x: Word, n: nat, byRegister: bool, c: bool, k: nat)
    requires k < 32 && (n > 0 || byRegister)
    ensures BitAt(Rotated(x, n, byRegister, c).value, k) == BitAt(x, (k + n) % 32)
    ensures Rotated(x, n, byRegister, c).carry == (n > 0 && BitAt(Rotated(x, n, byRegister, c).value, 31))
  {
    hide BitAt, ShiftLeft, ShiftRight, Or;
    var r := Turns(n);
    assert (k + n) % 32 == (k + r) % 32;
    TopBit(x);
    if 0 < r < 32 {
      RotationBits(x, r, k);
      RotationBits(x, r, 31);
    }
  }

  lemma {:induction false} RotationBits(x: Word, r: nat, k: nat)
    requires k < 32 && 0 < r < 32
    ensures BitAt(Or(ShiftRight(x, r), ShiftLeft(x, 32 - r)), k) == BitAt(x, (k + r) % 32)
  {
    hide BitAt, ShiftLeft, ShiftRight, OrBits;
    BitOfWrap(OrBits(ShiftRight(x, r), ShiftLeft(x, 32 - r)), k);
    BitsOfOr(ShiftRight(x, r), ShiftLeft(x, 32 - r), k);
    BitsOfRight(x, r, k);
    BitsOfLeft(x, 32 - r, k);
    WordHasBits(x, k + r);
  }

  /** ROR by an immediate 0: one place, with the carry coming in above. */
  lemma {:induction false} ExtendedBits(x: Word, c: bool, k: nat)
    requires k < 32
    ensures var r := Rotated(x, 0, false, c);
            && BitAt(r.value, k) == (if k == 31 then c else BitAt(x, k + 1))
            && r.carry == BitAt(x, 0)
  {
    hide BitAt;
    Spans();
    assert Span(31) == 0x8000_0000;
    var y: Word := Rotated(x, 0, false, c).value;
    TopBit(y);
    BitZero(x);
    if k < 31 {
      if c {
        BitOfSum(x / 2, 31, 1, k);
      }
      BitOfHalf(x, k);
    }
  }
}
