/** Words as their bits: what the operators and some arithmetic do to each bit, and that the bits make the word. */
module ArmBits {
  import opened Prelude
  import opened ArmWords

  lemma {:induction false} SameBits(x: nat, y: nat, n: nat)
    requires x < Span(n) && y < Span(n) && forall k: nat :: k < n ==> BitAt(x, k) == BitAt(y, k)
    ensures x == y
    decreases n
  {
    if n > 0 {
      forall k: nat | k < n - 1 ensures BitAt(x / 2, k) == BitAt(y / 2, k) {
        assert BitAt(x, k + 1) == BitAt(y, k + 1);
      }
      SameBits(x / 2, y / 2, n - 1);
      assert BitAt(x, 0) == BitAt(y, 0);
    }
  }

  lemma Spans()
    ensures Span(2) == 4 && Span(26) == 0x400_0000 && Span(28) == 0x1000_0000 && Span(30) == 0x4000_0000
    ensures Span(32) == 0x1_0000_0000
  {
    assert Span(4) == 16;
    assert Span(8) == 0x100;
    assert Span(12) == 0x1000;
    assert Span(16) == 0x1_0000;
    assert Span(20) == 0x10_0000;
    assert Span(24) == 0x100_0000;
  }

  lemma SameWord(x: Word, y: Word)
    requires forall k: nat :: k < 32 ==> BitAt(x, k) == BitAt(y, k)
    ensures x == y
  {
    hide BitAt;
    Spans();
    SameBits(x, y, 32);
  }

  /** A run of ones, from bit lo up to bit hi - 1. */
  lemma {:induction false} BitOfOnes(lo: nat, hi: nat, k: nat)
    requires lo <= hi
    ensures Span(lo) <= Span(hi) && (BitAt(Span(hi) - Span(lo), k) <==> lo <= k < hi)
    decreases hi
  {
    if hi == lo {
      ZeroHasNoBits(k);
    } else if lo == 0 {
      BitOfOnes(0, hi - 1, if k > 0 then k - 1 else 0);
      assert (Span(hi) - 1) / 2 == Span(hi - 1) - 1;
    } else {
      BitOfOnes(lo - 1, hi - 1, if k > 0 then k - 1 else 0);
      assert (Span(hi) - Span(lo)) / 2 == Span(hi - 1) - Span(lo - 1);
    }
  }

  lemma BitAnd(x: Word, y: Word, k: nat)
    ensures BitAt(And(x, y), k) == (BitAt(x, k) && BitAt(y, k))
  {
    hide BitAt;
    AndBelow(x, y);
    BitsOfAnd(x, y, k);
  }

  lemma BitOr(x: Word, y: Word, k: nat)
    ensures BitAt(Or(x, y), k) == (BitAt(x, k) || BitAt(y, k))
  {
    hide BitAt;
    Spans();
    OrBelow(x, y, 32);
    BitsOfOr(x, y, k);
  }

  lemma BitNot(x: Word, k: nat)
    requires k < 32
    ensures BitAt(Not(x), k) == !BitAt(x, k)
  {
    hide BitAt;
    Spans();
    BitOfComplement(x, 32, k);
  }

  lemma BitOfFlag(j: nat, k: nat)
    requires j < 32
    ensures Span(j) < 0x1_0000_0000 && (BitAt(Span(j), k) <==> k == j)
  {
    BitOfSpan(j, k);
    Spans();
    SpanGrows(j, 32);
  }

  lemma {:induction false} BitOfJoined(p: nat, x: nat, n: nat, k: nat)
    requires x < Span(n)
    ensures BitAt(p * Span(n) + x, k) == if k < n then BitAt(x, k) else BitAt(p, k - n)
    decreases n
  {
    if n > 0 {
      var s := Span(n - 1);
      assert p * (2 * s) == 2 * (p * s);
      assert (p * Span(n) + x) / 2 == p * s + x / 2 && (p * Span(n) + x) % 2 == x % 2;
      if k > 0 {
        BitOfJoined(p, x / 2, n - 1, k - 1);
      }
    }
  }

  lemma {:induction false} BitOfNumber(bits: seq<bool>, k: nat)
    ensures BitAt(Number(bits), k) == (k < |bits| && bits[k])
    decreases |bits|
  {
    if bits == [] {
      ZeroHasNoBits(k);
    } else {
      BitOfDouble(Number(bits[1..]), bits[0], k);
      if k > 0 {
        BitOfNumber(bits[1..], k - 1);
      }
    }
  }

  lemma {:induction false} BitOfSum(x: nat, n: nat, q: nat, k: nat)
    requires k < n
    ensures BitAt(x + Span(n) * q, k) == BitAt(x, k)
    decreases k
  {
    var y := Span(n - 1) * q;
    assert Span(n) * q == 2 * y;
    assert (x + 2 * y) / 2 == x / 2 + y && (x + 2 * y) % 2 == x % 2;
    if k > 0 {
      BitOfSum(x / 2, n - 1, q, k - 1);
    }
  }

  lemma {:induction false} BitOfWrap(x: nat, k: nat)
    requires k < 32
    ensures BitAt(Wrap(x), k) == BitAt(x, k)
  {
    Spans();
    BitOfSum(Wrap(x), 32, x / 0x1_0000_0000, k);
  }

  /** A number below 2^n has no bits from n on. */
  lemma NoBitsAbove(x: nat, n: nat, k: nat)
    requires x < Span(n) && n <= k
    ensures !BitAt(x, k)
  {
    BitOfJoined(0, x, n, k);
    ZeroHasNoBits(k - n);
  }

  lemma {:induction false} WordHasBits(x: Word, k: nat)
    ensures k >= 32 ==> !BitAt(x, k)
    ensures BitAt(x, 31) == Top(x)
  {
    Spans();
    if k >= 32 {
      NoBitsAbove(x, 32, k);
    }
    TopBit(x);
  }

  lemma {:induction false} TopBit(x: Word)
    ensures BitAt(x, 31) == Top(x)
  {
    hide BitAt;
    assert Span(31) == 0x8000_0000 by { Spans(); }
    var y: nat := x % 0x8000_0000;
    BitOfJoined(if Top(x) then 1 else 0, y, 31, 31);
    BitZero(if Top(x) then 1 else 0);
  }

  lemma BitOfHalf(x: nat, k: nat)
    ensures BitAt(x / 2, k) == BitAt(x, k + 1)
  {
  }

  lemma BitZero(x: nat)
    ensures BitAt(x, 0) == (x % 2 == 1)
  {
  }

  lemma {:induction false} AndWithSpan(x: nat, n: nat)
    ensures AndBits(x, Span(n)) == if BitAt(x, n) then Span(n) else 0
    decreases n
  {
    if x == 0 {
      ZeroHasNoBits(n);
    } else if n == 0 {
      assert AndBits(x / 2, 0) == 0;
    } else {
      AndWithSpan(x / 2, n - 1);
      assert Span(n) / 2 == Span(n - 1) && Span(n) % 2 == 0;
    }
  }
}
