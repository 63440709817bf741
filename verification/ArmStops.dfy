/**
 * The bitmasks of breakpoints and watchpoints (armv2.h:64-84, init.c:409-477): one bit for every word of the address
 * space, 64 of them in an element.
 */
module ArmStops {
  import opened Prelude
  import opened ArmWords
  import opened ArmBits

  const MASK_WORDS: nat := 0x4_0000
  const WIDTH: nat := 64

  /** `uint64_t` */
  type Word64 = x: int | 0 <= x < 0x1_0000_0000_0000_0000

  lemma WidthSpan()
    ensures Span(WIDTH) == 0x1_0000_0000_0000_0000
  {
    Spans();
    SpanSum(32, 32);
  }

  lemma {:induction false} SpanSum(m: nat, n: nat)
    ensures Span(m + n) == Span(m) * Span(n)
    decreases n
  {
    if n > 0 {
      SpanSum(m, n - 1);
      assert Span(m) * (2 * Span(n - 1)) == 2 * (Span(m) * Span(n - 1));
    }
  }

  /** One bit set, and one bit cleared. */
  lemma {:induction false} BitSet(w: nat, j: nat, k: nat)
    requires w < Span(WIDTH) && j < WIDTH && k < WIDTH
    ensures BitAt(OrBits(w, Span(j)), k) == (BitAt(w, k) || k == j) && OrBits(w, Span(j)) < Span(WIDTH)
  {
    hide BitAt, OrBits, Span;
    BitsOfOr(w, Span(j), k);
    BitOfSpan(j, k);
    SpanGrows(j, WIDTH);
    OrBelow(w, Span(j), WIDTH);
  }

  lemma {:induction false} BitCleared(w: nat, j: nat, k: nat)
    requires w < Span(WIDTH) && j < WIDTH && k < WIDTH
    ensures Span(j) < Span(WIDTH)
    ensures var c := AndBits(w, Span(WIDTH) - 1 - Span(j));
            BitAt(c, k) == (BitAt(w, k) && k != j) && c < Span(WIDTH)
  {
    hide BitAt, AndBits, Span;
    SpanGrows(j, WIDTH);
    BitsOfAnd(w, Span(WIDTH) - 1 - Span(j), k);
    BitOfComplement(Span(j), WIDTH, k);
    BitOfSpan(j, k);
    AndBelow(w, Span(WIDTH) - 1 - Span(j));
  }

  class Bitmask {
    const words: array<Word64>

    predicate Valid() {
      words.Length == MASK_WORDS
    }

    /** The bit of the word with this number. */
    predicate Has(k: nat)
      requires Valid() && k < WIDTH * MASK_WORDS
      reads words
    {
      BitAt(words[k / WIDTH], k % WIDTH)
    }

    /** The words that are marked. */
    ghost function Marked(): (m: set<nat>)
      requires Valid()
      reads words
      ensures forall k: nat :: k in m <==> k < WIDTH * MASK_WORDS && Has(k)
    {
      set k: nat | k < WIDTH * MASK_WORDS && Has(k)
    }

    constructor ()
      ensures Valid() && fresh(words) && Marked() == {}
    {
      words := new Word64[MASK_WORDS](i => 0);
      new;
      forall k: nat | k < WIDTH * MASK_WORDS ensures !Has(k) {
        ZeroHasNoBits(k % WIDTH);
      }
    }

    /** reset_breakpoints: nothing is set. */
    method Reset()
      requires Valid()
      modifies words
      ensures Marked() == {}
    {
      forall i | 0 <= i < words.Length {
        words[i] := 0;
      }
      forall k: nat | k < WIDTH * MASK_WORDS ensures !Has(k) {
        ZeroHasNoBits(k % WIDTH);
      }
    }

    /** HAS_BREAKPOINT: `(bitmask[addr >> 8] >> ((addr >> 2) & 0x3f)) & 1` */
    method Test(addr: nat) returns (on: bool)
      requires Valid() && addr < 0x400_0000
      ensures on == (addr / 4 in Marked())
    {
      hide Span, BitAt;
      HalvedBit(words[addr / 0x100], addr / 4 % WIDTH);
      on := Halved(words[addr / 0x100], addr / 4 % WIDTH) % 2 == 1;
    }

    /** SET_BREAKPOINT: `bitmask[addr >> 8] |= 1 << ((addr >> 2) & 0x3f)` */
    method Set(addr: nat)
      requires Valid() && addr < 0x400_0000
      modifies words
      ensures Marked() == old(Marked()) + {addr / 4}
    {
      hide BitAt, OrBits, Span;
      var i, j := addr / 0x100, addr / 4 % WIDTH;
      ghost var w := words[i];
      WidthSpan();
      BitSet(w, j, j);
      words[i] := OrBits(words[i], Span(j));
      forall k: nat | k < WIDTH * MASK_WORDS ensures Has(k) == (old(Has(k)) || k == addr / 4) {
        BitSet(w, j, k % WIDTH);
      }
    }

    /** CLEAR_BREAKPOINT: `bitmask[addr >> 8] &= ~(1 << ((addr >> 2) & 0x3f))` */
    method Clear(addr: nat)
      requires Valid() && addr < 0x400_0000
      modifies words
      ensures Marked() == old(Marked()) - {addr / 4}
    {
      hide BitAt, AndBits, Span;
      var i, j := addr / 0x100, addr / 4 % WIDTH;
      ghost var w := words[i];
      WidthSpan();
      BitCleared(w, j, j);
      words[i] := AndBits(words[i], Span(WIDTH) - 1 - Span(j));
      forall k: nat | k < WIDTH * MASK_WORDS ensures Has(k) == (old(Has(k)) && k != addr / 4) {
        BitCleared(w, j, k % WIDTH);
      }
    }
  }

  lemma {:induction false} HalvedBit(x: nat, k: nat)
    ensures BitAt(x, k) == (Halved(x, k) % 2 == 1)
    decreases k
  {
    if k > 0 {
      HalvedBit(x / 2, k - 1);
    }
  }

  datatype Watchpoint = WriteWatch | ReadWatch | AccessWatch

  function Marking(m: set<nat>, k: nat, on: bool): set<nat> {
    if on then m + {k} else m - {k}
  }

  /** set_watchpoint, and unset_watchpoint: an access watchpoint is one of both kinds. */
  method SetWatchpoint(loads: Bitmask, stores: Bitmask, kind: Watchpoint, addr: nat, on: bool)
    requires loads.Valid() && stores.Valid() && loads.words != stores.words && addr < 0x400_0000
    modifies loads.words, stores.words
    ensures loads.Marked() == if kind != WriteWatch then Marking(old(loads.Marked()), addr / 4, on)
                              else old(loads.Marked())
    ensures stores.Marked() == if kind != ReadWatch then Marking(old(stores.Marked()), addr / 4, on)
                               else old(stores.Marked())
  {
    if kind != WriteWatch {
      Mark(loads, addr, on);
    }
    if kind != ReadWatch {
      Mark(stores, addr, on);
    }
  }

  method Mark(b: Bitmask, addr: nat, on: bool)
    requires b.Valid() && addr < 0x400_0000
    modifies b.words
    ensures b.Marked() == Marking(old(b.Marked()), addr / 4, on)
  {
    if on {
      b.Set(addr);
    } else {
      b.Clear(addr);
    }
  }
}
