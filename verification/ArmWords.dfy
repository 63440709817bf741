/**
 * Words of the emulated processor: bitwise operators and shifts (instructions.c:49-159) and the fields packed
 * into r15 (armv2.h:46-54, 90-98).
 */
module ArmWords {
  import opened Prelude

  // ----- bits -----

  predicate BitAt(x: nat, k: nat) {
    if k == 0 then x % 2 == 1 else BitAt(x / 2, k - 1)
  }

  function Low(b: bool): nat {
    if b then 1 else 0
  }

  function AndBits(x: nat, y: nat): nat {
    if x == 0 || y == 0 then 0 else 2 * AndBits(x / 2, y / 2) + Low(x % 2 == 1 && y % 2 == 1)
  }

  function OrBits(x: nat, y: nat): nat {
    if x == 0 then y else 2 * OrBits(x / 2, y / 2) + Low(x % 2 == 1 || y % 2 == 1)
  }

  function XorBits(x: nat, y: nat): nat {
    if x == 0 then y else 2 * XorBits(x / 2, y / 2) + Low(x % 2 != y % 2)
  }

  lemma {:induction false} BitOfDouble(x: nat, b: bool, k: nat)
    ensures BitAt(2 * x + Low(b), k) == if k == 0 then b else BitAt(x, k - 1)
  {
    assert (2 * x + Low(b)) / 2 == x;
  }

  lemma {:induction false} ZeroHasNoBits(k: nat)
    ensures !BitAt(0, k)
    decreases k
  {
    if k > 0 {
      ZeroHasNoBits(k - 1);
    }
  }

  /** The operators act bit by bit. */
  lemma {:induction false} BitsOfAnd(x: nat, y: nat, k: nat)
    ensures BitAt(AndBits(x, y), k) == (BitAt(x, k) && BitAt(y, k))
    decreases k
  {
    if x == 0 || y == 0 {
      ZeroHasNoBits(k);
    } else {
      BitOfDouble(AndBits(x / 2, y / 2), x % 2 == 1 && y % 2 == 1, k);
      if k > 0 {
        BitsOfAnd(x / 2, y / 2, k - 1);
      }
    }
  }

  lemma {:induction false} BitsOfOr(x: nat, y: nat, k: nat)
    ensures BitAt(OrBits(x, y), k) == (BitAt(x, k) || BitAt(y, k))
    decreases k
  {
    if x == 0 {
      ZeroHasNoBits(k);
    } else {
      BitOfDouble(OrBits(x / 2, y / 2), x % 2 == 1 || y % 2 == 1, k);
      if k > 0 {
        BitsOfOr(x / 2, y / 2, k - 1);
      }
    }
  }

  lemma {:induction false} BitsOfXor(x: nat, y: nat, k: nat)
    ensures BitAt(XorBits(x, y), k) == (BitAt(x, k) != BitAt(y, k))
    decreases k
  {
    if x == 0 {
      ZeroHasNoBits(k);
    } else {
      BitOfDouble(XorBits(x / 2, y / 2), x % 2 != y % 2, k);
      if k > 0 {
        BitsOfXor(x / 2, y / 2, k - 1);
      }
    }
  }

  function And(x: Word, y: Word): Word {
    Wrap(AndBits(x, y))
  }

  function Or(x: Word, y: Word): Word {
    Wrap(OrBits(x, y))
  }

  function Xor(x: Word, y: Word): Word {
    Wrap(XorBits(x, y))
  }

  function Not(x: Word): Word {
    0xffff_ffff - x
  }

  predicate Top(x: Word) {
    x >= 0x8000_0000
  }

  // ----- shifts, one place at a time -----

  function ShiftLeft(x: Word, n: nat): Word
    decreases n
  {
    if n == 0 then x else ShiftLeft(Wrap(2 * x), n - 1)
  }

  function ShiftRight(x: Word, n: nat): Word {
    if n == 0 then x else ShiftRight(x / 2, n - 1)
  }

  /** The arithmetic shift of a signed word. */
  function ShiftSigned(x: Word, n: nat): Word
    decreases n
  {
    if n == 0 then x else ShiftSigned(if Top(x) then x / 2 + 0x8000_0000 else x / 2, n - 1)
  }

  /** Two to the n. */
  function Span(n: nat): (r: nat)
    ensures r >= 1
  {
    if n == 0 then 1 else 2 * Span(n - 1)
  }

  lemma {:induction false} BitOfSpan(n: nat, k: nat)
    ensures BitAt(Span(n), k) <==> k == n
    decreases k
  {
    if k > 0 {
      if n == 0 {
        ZeroHasNoBits(k - 1);
      } else {
        assert Span(n) / 2 == Span(n - 1);
        BitOfSpan(n - 1, k - 1);
      }
    }
  }

  /** The bits of a complement. */
  lemma {:induction false} BitOfComplement(x: nat, n: nat, k: nat)
    requires x < Span(n) && k < n
    ensures BitAt(Span(n) - 1 - x, k) == !BitAt(x, k)
    decreases k
  {
    var y := Span(n) - 1 - x;
    assert y / 2 == Span(n - 1) - 1 - x / 2 && y % 2 == 1 - x % 2;
    if k > 0 {
      BitOfComplement(x / 2, n - 1, k - 1);
    }
  }

  lemma {:induction false} OrBelow(x: nat, y: nat, n: nat)
    requires x < Span(n) && y < Span(n)
    ensures OrBits(x, y) < Span(n)
    decreases n
  {
    if n > 0 && x > 0 {
      OrBelow(x / 2, y / 2, n - 1);
    }
  }

  lemma {:induction false} SpanGrows(k: nat, n: nat)
    requires k < n
    ensures Span(k) < Span(n)
    decreases n
  {
    if k < n - 1 {
      SpanGrows(k, n - 1);
    }
  }

  lemma {:induction false} AndBelow(x: nat, y: nat)
    ensures AndBits(x, y) <= x
  {
    if x > 0 && y > 0 {
      AndBelow(x / 2, y / 2);
    }
  }

  lemma {:induction false} Quotient(x: int, m: nat, q: int, r: nat)
    requires 0 <= r < m && x == q * m + r
    ensures x / m == q
  {
    var p := x / m;
    assert p * m <= x < p * m + m;
    TimesMonotone(p + 1, q, m);
    TimesMonotone(q + 1, p, m);
  }

  lemma {:induction false} TimesMonotone(a: int, b: int, m: nat)
    ensures a <= b ==> a * m <= b * m
  {
  }

  /** Halving and then dividing. */
  lemma {:induction false} HalfThenDivide(x: int, d: nat)
    requires d >= 1
    ensures x / 2 / d == x / (2 * d)
  {
    var h := x / 2;
    var q := h / d;
    Quotient(x, 2 * d, q, 2 * (h - q * d) + x % 2);
  }

  /** The shifts are division by and multiplication with a power of two. */
  lemma {:induction false} ShiftRightDivides(x: Word, n: nat)
    ensures ShiftRight(x, n) == x / Span(n)
    decreases n
  {
    if n > 0 {
      ShiftRightDivides(x / 2, n - 1);
      HalfThenDivide(x, Span(n - 1));
    }
  }

  lemma {:induction false} ShiftLeftMultiplies(x: Word, n: nat)
    ensures ShiftLeft(x, n) == Wrap(x * Span(n))
    decreases n
  {
    if n > 0 {
      var y: int := x;
      ShiftLeftMultiplies(Wrap(2 * x), n - 1);
      WrapTimes(2 * x, Span(n - 1));
      assert (2 * y) * Span(n - 1) == y * (2 * Span(n - 1));
    }
  }

  lemma {:induction false} WrapTimes(x: nat, k: nat)
    ensures Wrap(Wrap(x) * k) == Wrap(x * k)
  {
    var q := x / 0x1_0000_0000;
    var r: int := Wrap(x);
    assert x * k == r * k + q * k * 0x1_0000_0000 by {
      assert x == r + q * 0x1_0000_0000;
    }
    WrapPlus(r * k, q * k);
  }

  lemma {:induction false} WrapPlus(x: nat, q: nat)
    ensures Wrap(x + q * 0x1_0000_0000) == Wrap(x)
  {
  }

  /** The value of a word in two's complement. */
  function Integer(x: Word): int {
    if Top(x) then x - 0x1_0000_0000 else x
  }

  /** The arithmetic shift divides the signed value, rounding down. */
  lemma {:induction false} ShiftSignedDivides(x: Word, n: nat)
    ensures Integer(ShiftSigned(x, n)) == Integer(x) / Span(n)
    decreases n
  {
    if n > 0 {
      var y: Word := if Top(x) then x / 2 + 0x8000_0000 else x / 2;
      assert Integer(y) == Integer(x) / 2;
      ShiftSignedDivides(y, n - 1);
      HalfThenDivide(Integer(x), Span(n - 1));
    }
  }

  // ----- r15 -----

  type Mode = m: int | 0 <= m < 4

  const USR: Mode := 0
  const FIQ: Mode := 1
  const IRQ: Mode := 2
  const SUP: Mode := 3

  /** A 26-bit address of a word. */
  type Addr = x: int | 0 <= x < 0x400_0000 && x % 4 == 0

  /** The fields of r15: flags, interrupt masks, address and mode. */
  datatype Status = Status(n: bool, z: bool, c: bool, v: bool, i: bool, f: bool, addr: Addr, mode: Mode)

  /** `x & 0x03fffffc` */
  function Align(x: int): Addr {
    AlignDown(x % 0x400_0000)
  }

  function AlignDown(x: nat): (r: nat)
    ensures x - 3 <= r <= x && r % 4 == 0
  {
    x / 4 * 4
  }

  /** Bits, the lowest first, as a number, and back. */
  function Number(bits: seq<bool>): nat {
    if bits == [] then 0 else Low(bits[0]) + 2 * Number(bits[1..])
  }

  function Bits(p: nat, n: nat): (r: seq<bool>)
    ensures |r| == n
    decreases n
  {
    if n == 0 then [] else [p % 2 == 1] + Bits(p / 2, n - 1)
  }

  lemma {:induction false} NumberOfBits(p: nat, n: nat, limit: nat)
    requires limit == Span(n) && p < limit
    ensures Number(Bits(p, n)) == p
    decreases n
  {
    if n > 0 {
      NumberOfBits(p / 2, n - 1, limit / 2);
      assert Bits(p, n)[1..] == Bits(p / 2, n - 1);
    }
  }

  lemma {:induction false} BitsOfNumber(bits: seq<bool>)
    ensures Bits(Number(bits), |bits|) == bits
    ensures Number(bits) < Span(|bits|)
  {
    if bits != [] {
      BitsOfNumber(bits[1..]);
      assert (Low(bits[0]) + 2 * Number(bits[1..])) / 2 == Number(bits[1..]);
      assert bits == [bits[0]] + bits[1..];
    }
  }

  /** The six bits above the address. */
  function FlagBits(st: Status): nat {
    Number([st.f, st.i, st.v, st.c, st.z, st.n])
  }

  function Flagged(b: seq<bool>, addr: Addr, mode: Mode): Status
    requires |b| == 6
  {
    Status(b[5], b[4], b[3], b[2], b[1], b[0], addr, mode)
  }

  /** The word an r15 with these fields reads as. */
  function Pack(st: Status): Word {
    Wrap(FlagBits(st) * 0x400_0000 + (st.addr + st.mode))
  }

  /** The fields of a word stored in r15. */
  function Unpack(w: Word): Status {
    Flagged(Bits(w / 0x400_0000, FLAG_BITS), Align(w), w % 4)
  }

  const FLAG_BITS: nat := 6

  lemma {:induction false} Split(p: nat, x: nat)
    requires x < 0x400_0000 && p < 64
    ensures Wrap(p * 0x400_0000 + x) == p * 0x400_0000 + x
    ensures (p * 0x400_0000 + x) / 0x400_0000 == p && (p * 0x400_0000 + x) % 0x400_0000 == x
  {
  }

  lemma {:induction false} SplitLow(p: nat, addr: Addr, mode: Mode)
    ensures AlignDown(addr + mode) == addr && (p * 0x400_0000 + (addr + mode)) % 4 == mode
  {
    var q := addr / 4;
    Quarter(q, mode);
    Quarter(p * 0x100_0000 + q, mode);
  }

  lemma {:induction false} Quarter(q: nat, m: nat)
    requires m < 4
    ensures (4 * q + m) / 4 == q && (4 * q + m) % 4 == m
  {
  }

  lemma {:induction false} SpanOfFlags()
    ensures Span(FLAG_BITS) == 64
  {
    assert Span(3) == 8;
  }

  /** r15 can be kept as its fields: packing and unpacking are inverse. */
  lemma {:induction false} UnpackPack(st: Status)
    ensures Unpack(Pack(st)) == st
  {
    var bits := [st.f, st.i, st.v, st.c, st.z, st.n];
    var p := Number(bits);
    BitsOfNumber(bits);
    SpanOfFlags();
    assert |bits| == FLAG_BITS && p < 64;
    Split(p, st.addr + st.mode);
    SplitLow(p, st.addr, st.mode);
    assert Pack(st) / 0x400_0000 == p;
    assert Flagged(bits, st.addr, st.mode) == st;
  }

  lemma {:induction false} PackUnpack(w: Word)
    ensures Pack(Unpack(w)) == w
  {
    SpanOfFlags();
    NumberOfBits(w / 0x400_0000, FLAG_BITS, 64);
    var b := Bits(w / 0x400_0000, FLAG_BITS);
    assert b == [b[0], b[1], b[2], b[3], b[4], b[5]];
    var x: nat := w % 0x400_0000;
    assert x % 4 == w % 4;
    assert AlignDown(x) + x % 4 == x;
  }

  // ----- a word or-ed into r15 -----

  lemma {:induction false} OrHalves(x: nat, y: nat)
    ensures OrBits(x, y) / 2 == OrBits(x / 2, y / 2)
    ensures OrBits(x, y) % 2 == 1 <==> x % 2 == 1 || y % 2 == 1
  {
    if x == 0 {
      assert OrBits(0, y) == y && OrBits(0, y / 2) == y / 2;
    }
  }

  function Halved(x: nat, n: nat): nat
    decreases n
  {
    if n == 0 then x else Halved(x / 2, n - 1)
  }

  lemma {:induction false} HalvedDivides(x: nat, n: nat)
    ensures Halved(x, n) == x / Span(n)
    decreases n
  {
    if n > 0 {
      HalvedDivides(x / 2, n - 1);
      HalfThenDivide(x, Span(n - 1));
    }
  }

  lemma {:induction false} OrHalved(x: nat, y: nat, n: nat)
    ensures Halved(OrBits(x, y), n) == OrBits(Halved(x, n), Halved(y, n))
    decreases n
  {
    if n > 0 {
      OrHalves(x, y);
      OrHalved(x / 2, y / 2, n - 1);
    }
  }

  lemma OrOfZero(y: nat)
    ensures OrBits(0, y) == y
  {
  }

  lemma {:induction false} OrLow(x: nat, y: nat)
    requires x % 4 == 0
    ensures OrBits(x, y) % 4 == y % 4
  {
    hide OrBits;
    OrHalves(x, y);
    OrHalves(x / 2, y / 2);
  }

  /** An address or-ed with a word: the fields outside the address are the word's. */
  lemma {:induction false} FieldsOfOr(a: Addr, w: Word)
    ensures Or(a, w) / 0x400_0000 == w / 0x400_0000 && Or(a, w) % 4 == w % 4
  {
    hide OrBits, Halved;
    var v := OrBits(a, w);
    assert Span(13) == 0x2000;
    assert Span(26) == 0x400_0000;
    HalvedDivides(a, 26);
    HalvedDivides(w, 26);
    HalvedDivides(v, 26);
    OrHalved(a, w, 26);
    OrOfZero(Halved(w, 26));
    OrLow(a, w);
    assert v / 0x400_0000 < 64;
  }
}
