/** The shift-and-subtract division the target uses for `/` and `%` (src/libc/div.c:24-79). */
module Division {
  import opened Prelude

  /** x shifted left by k bits. */
  function Shl(x: nat, k: nat): nat {
    if k == 0 then x else 2 * Shl(x, k - 1)
  }

  lemma ShlIsProduct(x: nat, k: nat)
    ensures Shl(x, k) == x * Shl(1, k)
  {
    if k != 0 {
      ShlIsProduct(x, k - 1);
      assert x * (2 * Shl(1, k - 1)) == 2 * (x * Shl(1, k - 1));
    }
  }

  lemma ShlGrows(x: nat, k: nat)
    requires 0 < x
    ensures k < Shl(x, k) && x <= Shl(x, k) && Shl(1, k) <= Shl(x, k)
  {
  }

  lemma ShlMonotone(j: nat, k: nat)
    requires j <= k
    ensures Shl(1, j) <= Shl(1, k)
  {
  }

  lemma ShlPowers()
    ensures Shl(1, 32) == TWO_TO_32
  {
    assert Shl(1, 4) == 16;
    assert Shl(1, 8) == 256;
    assert Shl(1, 12) == 4096;
    assert Shl(1, 16) == 0x1_0000;
    assert Shl(1, 20) == 0x10_0000;
    assert Shl(1, 24) == 0x100_0000;
    assert Shl(1, 28) == 0x1000_0000;
  }

  /** `x | bit` for a power of two. */
  function SetBit(x: nat, bit: nat): nat
    requires bit > 0
  {
    if x / bit % 2 == 1 then x else x + bit
  }

  /** A number with only bits above `bit` set gains exactly that bit. */
  lemma SetBitAdds(high: nat, bit: nat)
    requires bit > 0
    ensures SetBit(2 * high * bit, bit) == 2 * high * bit + bit
  {
    assert 2 * high * bit == (2 * high) * bit;
    DivByFactor(2 * high, bit);
  }

  lemma DivByFactor(q: nat, d: nat)
    requires d > 0
    ensures q * d / d == q
  {
    DivUnique(q * d, d, q, 0);
  }

  lemma NoSmallMultiple(d: int, k: int)
    requires 0 < d && k != 0
    ensures d * k >= d || d * k <= -d
  {
    if k > 0 {
      assert d * (k - 1) >= 0;
    } else {
      assert d * (-1 - k) >= 0;
    }
  }

  lemma SameDecomposition(d: nat, q: int, r: nat, q': int, r': nat)
    requires r < d && r' < d && d * q + r == d * q' + r'
    ensures q == q' && r == r'
  {
    assert d * (q - q') == d * q - d * q';
    if q != q' {
      NoSmallMultiple(d, q - q');
    }
  }

  lemma Decompose(n: nat, d: nat)
    requires d > 0
    ensures n == d * (n / d) + n % d && 0 <= n % d < d
  {
  }

  /** A quotient and remainder with the right properties are the ones. */
  lemma DivUnique(n: nat, d: nat, q: nat, r: nat)
    requires d > 0 && n == q * d + r && r < d
    ensures n / d == q && n % d == r
  {
    Decompose(n, d);
    assert q * d == d * q;
    SameDecomposition(d, q, r, n / d, n % d);
  }

  /** The divisor is doubled while it is less than the dividend and its top bit is clear. */
  method Normalise(num: Word, den0: Word) returns (den: Word, bit: Word, ghost k: nat)
    ensures den0 != 0 ==> den == Shl(den0, k) && bit == Shl(1, k) && num < 2 * den
    ensures den0 == 0 ==> den == 0 && (num > 0 ==> bit == 0) && (num == 0 ==> bit == 1)
  {
    den, bit, k := den0, 1, 0;
    while den < num && bit != 0 && den < 0x8000_0000
      invariant den == Shl(den0, k)
      invariant den0 != 0 ==> bit == Shl(1, k)
      invariant den0 == 0 ==> den == 0 && k <= 32 && (num == 0 ==> k == 0) && bit == if k < 32 then Shl(1, k) else 0
      decreases if den0 != 0 then TWO_TO_32 - den else 32 - k
    {
      if den0 != 0 { ShlGrows(den0, k); } else { ShlZero(k); ShlBits(k); }
      den, bit, k := den * 2, Wrap(bit * 2), k + 1;
    }
    if den0 != 0 { ShlGrows(den0, k); ShlGrows(1, k); } else { ShlZero(k); }
  }

  lemma ShlZero(k: nat)
    ensures Shl(0, k) == 0
  {
  }

  /** The single bit leaves the word after 32 shifts and not before. */
  lemma ShlBits(k: nat)
    requires k < 32
    ensures 0 < Shl(1, k) < TWO_TO_32
    ensures (k < 31 ==> 2 * Shl(1, k) < TWO_TO_32) && (k == 31 ==> 2 * Shl(1, k) == TWO_TO_32)
  {
    ShlPowers();
    ShlMonotone(k, 31);
    if k < 31 { ShlMonotone(k + 1, 31); }
    ShlGrows(1, k);
  }

  /** Before the turn for bit k: what is left of the dividend, and the quotient's bits above k. */
  ghost predicate Turn(num0: Word, den0: Word, num: Word, res: Word, den: Word, bit: Word, k: int, high: nat) {
    && -1 <= k && num0 == res * den0 + num
    && (k >= 0 ==> bit == Shl(1, k) && den == Shl(den0, k) && num < 2 * den && res == 2 * high * bit)
    && (k == -1 ==> bit == 0 && num < den0)
  }

  lemma TurnKept(num0: Word, den0: Word, num: Word, res: Word, den: Word, bit: Word, k: int, high: nat)
    requires den0 != 0 && k >= 0 && Turn(num0, den0, num, res, den, bit, k, high)
    ensures bit > 0 && SetBit(res, bit) == res + bit
    ensures num >= den ==> res + bit < TWO_TO_32 &&
                           Turn(num0, den0, num - den, res + bit, den / 2, bit / 2, k - 1, 2 * high + 1)
    ensures num < den ==> Turn(num0, den0, num, res, den / 2, bit / 2, k - 1, 2 * high)
  {
    ShlGrows(1, k);
    SetBitAdds(high, bit);
    ShlIsProduct(den0, k);
    if num >= den {
      QuotientFits(num0, res + bit, den0, num - den, bit, den, res);
      assert (2 * high + 1) * bit == 2 * high * bit + bit;
      HalfBit(2 * high + 1, bit, k - 1);
    } else {
      HalfBit(2 * high, bit, k - 1);
    }
  }

  /** The second loop: from the highest bit down, subtract where possible and record the bit. */
  method Subtract(num0: Word, den0: Word, den1: Word, bit1: Word, ghost k1: nat) returns (num: Word, res: Word)
    requires den0 != 0 ==> den1 == Shl(den0, k1) && bit1 == Shl(1, k1) && num0 < 2 * den1
    requires den0 == 0 ==> den1 == 0 && (bit1 == 0 || (bit1 == 1 && num0 == 0))
    ensures den0 != 0 ==> num0 == res * den0 + num && num < den0
    ensures den0 == 0 ==> num == num0 && res == bit1
  {
    num, res := num0, 0;
    var den, bit: Word := den1, bit1;
    ghost var k: int, high: nat := k1, 0;
    while bit != 0
      invariant den0 != 0 ==> Turn(num0, den0, num, res, den, bit, k, high)
      invariant den0 == 0 ==> den == 0 && num == num0 && bit <= bit1 && res == bit1 - bit
      decreases bit
    {
      if den0 != 0 { TurnKept(num0, den0, num, res, den, bit, k, high); }
      if num >= den {
        num := num - den;
        res := SetBit(res, bit);
        high := 2 * high + 1;
      } else {
        high := 2 * high;
      }
      bit, den, k := bit / 2, den / 2, k - 1;
    }
    if k >= 0 { ShlGrows(1, k); }
  }

  /** Taking den = bit * den0 off the remainder and adding bit to the quotient keeps their sum. */
  lemma QuotientFits(num0: Word, q: nat, den0: nat, num: nat, bit: nat, den: nat, res: nat)
    requires q == res + bit && num0 == res * den0 + (num + den) && den == den0 * bit && den0 > 0
    ensures num0 == q * den0 + num && q < TWO_TO_32
  {
    assert q * den0 == res * den0 + bit * den0;
    assert q * (den0 - 1) >= 0;
  }

  lemma HalfBit(high: nat, bit: nat, k: int)
    requires -1 <= k && bit == Shl(1, k + 1)
    ensures k >= 0 ==> bit / 2 == Shl(1, k) && high * bit == 2 * high * (bit / 2)
    ensures k == -1 ==> bit / 2 == 0
  {
    if k >= 0 {
      var h := bit / 2;
      assert bit == 2 * h;
      assert high * (2 * h) == 2 * high * h;
    }
  }

  /** __udivmodsi4: the exact quotient or remainder. Over zero the quotient is 0, but 1 for zero itself. */
  method UDivMod(num: Word, den: Word, modWanted: bool) returns (r: Word)
    ensures den != 0 ==> r == if modWanted then num % den else num / den
    ensures den == 0 ==> r == if modWanted then num else if num == 0 then 1 else 0
  {
    var d, bit: Word;
    ghost var k;
    d, bit, k := Normalise(num, den);
    var rest, res := Subtract(num, den, d, bit, k);
    if den != 0 { DivUnique(num, den, res, rest); }
    r := if modWanted then rest else res;
  }

  // ----- signed division -----

  /** A 32-bit word as a signed number, and back. */
  function Signed(w: Word): (i: int)
    ensures -0x8000_0000 <= i < 0x8000_0000 && Wrap(i) == w
  {
    if w < 0x8000_0000 then w else w - 0x1_0000_0000
  }

  /** Division that rounds towards zero, as in C. */
  function Truncated(num: int, den: int): int
    requires den != 0
  {
    var q := Abs(num) / Abs(den);
    if (num < 0) == (den < 0) then q else -q
  }

  function Abs(x: int): nat {
    if x < 0 then -x else x
  }

  lemma ProductSigns(q: int, d: int)
    ensures (0 - q) * d == 0 - d * q && q * (0 - d) == 0 - d * q && (0 - q) * (0 - d) == d * q && q * d == d * q
  {
  }

  /** The rounding is towards zero: the remainder has the dividend's sign and is smaller than the divisor. */
  lemma TruncatedRoundsToZero(num: int, den: int)
    requires den != 0
    ensures var r := num - Truncated(num, den) * den;
            Abs(r) < Abs(den) && (r == 0 || (r < 0 <==> num < 0))
  {
    var a: int, d: int := Abs(num), Abs(den);
    var q := a / d;
    Decompose(a, d);
    ProductSigns(q, d);
    if num < 0 {
      assert Truncated(num, den) * den == 0 - d * q;
    } else {
      assert Truncated(num, den) * den == d * q;
    }
  }

  lemma Magnitude(w: Word)
    ensures Abs(Signed(w)) == if Signed(w) < 0 then Wrap(0 - w as int) else w
  {
  }

  lemma QuotientSmall(a: nat, d: nat)
    requires d > 0 && a < TWO_TO_32
    ensures 0 <= a / d < TWO_TO_32 && Wrap(a / d) == a / d
  {
    Decompose(a, d);
    DivNotNegative(a, d);
    ProductAtLeast(d, a / d);
  }

  lemma DivNotNegative(a: nat, d: nat)
    requires d > 0
    ensures 0 <= a / d
  {
  }

  lemma ProductAtLeast(d: nat, q: nat)
    requires d > 0
    ensures q <= d * q
  {
    assert d * q == q + (d - 1) * q;
  }

  /**
   * __aeabi_idiv: truncating division of signed numbers; only the least number divided by -1 overflows, and
   * wraps around. Over zero the result is 0, but 1 for zero itself.
   */
  method IDiv(num: Word, den: Word) returns (v: Word)
    ensures den == 0 ==> v == if num == 0 then 1 else 0
    ensures den != 0 ==> v == Wrap(Truncated(Signed(num), Signed(den)))
  {
    var minus, n: Word, d: Word := false, num, den;
    Magnitude(num);
    Magnitude(den);
    if Signed(num) < 0 {
      n := Wrap(0 - num as int);
      minus := true;
    }
    if Signed(den) < 0 {
      d := Wrap(0 - den as int);
      minus := !minus;
    }
    v := UDivMod(n, d, false);
    if den != 0 { QuotientSmall(n, d); }
    if minus {
      v := Wrap(0 - v as int);
    }
  }
}
