/** The checksum of the LZG container: two running sums modulo 65536 (src/libc/lzg.c:73-122). */
module Checksum {
  import opened Prelude

  /** The two `unsigned short` accumulators. */
  datatype Sums = Sums(a: int, b: int)

  const START := Sums(1, 0)

  /** One byte: both accumulators wrap at 16 bits. */
  function Add(s: Sums, x: Byte): Sums {
    var a := (s.a + x) % 0x1_0000;
    Sums(a, (s.b + a) % 0x1_0000)
  }

  /** One byte at a time over the whole of `data`. */
  function Fold(s: Sums, data: seq<Byte>): Sums
    decreases |data|
  {
    if data == [] then s else Fold(Add(s, data[0]), data[1..])
  }

  function Of(data: seq<Byte>): int {
    var s := Fold(START, data);
    s.b * 0x1_0000 + s.a
  }

  // ----- closed form -----

  function Total(data: seq<Byte>): nat {
    if data == [] then 0 else data[0] + Total(data[1..])
  }

  /** The product n * x, kept as a repeated sum so that the solver treats it as linear. */
  function Times(n: nat, x: int): int {
    if n == 0 then 0 else x + Times(n - 1, x)
  }

  lemma TimesIsProduct(n: nat, x: int)
    ensures Times(n, x) == n * x
  {
  }

  /** The sum of `(n - i) * data[i]` over all positions, n being the length. */
  function Weighted(data: seq<Byte>): int {
    if data == [] then 0 else Times(|data|, data[0]) + Weighted(data[1..])
  }

  lemma ShiftByMultiple(x: int, y: int, q: int)
    requires y == x + q * 0x1_0000
    ensures x % 0x1_0000 == y % 0x1_0000
  {
  }

  /** What the wrap-around of one byte's two additions takes away is a multiple of 65536. */
  lemma WrapLoss(m: nat, a: int, b: int, x: int) returns (q: int)
    ensures var a' := (a + x) % 0x1_0000;
            var b' := (b + a') % 0x1_0000;
            b + Times(m + 1, a) + Times(m + 1, x) == b' + Times(m, a') + q * 0x1_0000
  {
    var a', k := (a + x) % 0x1_0000, (a + x) / 0x1_0000;
    var p := (b + a') / 0x1_0000;
    TimesSplits(m, a, x, a', k);
    q := Times(m, k) + k + p;
  }

  lemma {:induction false} TimesSplits(m: nat, a: int, x: int, a': int, k: int)
    requires a + x == a' + k * 0x1_0000
    ensures Times(m, a) + Times(m, x) == Times(m, a') + Times(m, k) * 0x1_0000
  {
    if m != 0 {
      TimesSplits(m - 1, a, x, a', k);
    }
  }

  /** The second sum after n bytes whose weighted sum is w. */
  function SecondSum(n: nat, s: Sums, w: int): int {
    (s.b + Times(n, s.a) + w) % 0x1_0000
  }

  function FirstSum(s: Sums, t: int): int {
    (s.a + t) % 0x1_0000
  }

  lemma FirstSumStep(s: Sums, x: Byte, t: int)
    ensures FirstSum(Add(s, x), t) == FirstSum(s, x + t)
  {
  }

  lemma SecondSumStep(m: nat, s: Sums, x: Byte, w: int)
    ensures SecondSum(m, Add(s, x), w) == SecondSum(m + 1, s, Times(m + 1, x) + w)
  {
    var q := WrapLoss(m, s.a, s.b, x);
    var t := Add(s, x);
    ShiftByMultiple(t.b + Times(m, t.a) + w, s.b + Times(m + 1, s.a) + (Times(m + 1, x) + w), q);
  }

  /** From any starting sums the fold has a closed form, which one more byte at the front keeps. */
  lemma {:induction false} FoldClosedForm(s: Sums, data: seq<Byte>)
    requires 0 <= s.a < 0x1_0000 && 0 <= s.b < 0x1_0000
    ensures Fold(s, data).a == FirstSum(s, Total(data))
    ensures Fold(s, data).b == SecondSum(|data|, s, Weighted(data))
    decreases |data|
  {
    if data != [] {
      FoldClosedForm(Add(s, data[0]), data[1..]);
      FirstSumStep(s, data[0], Total(data[1..]));
      SecondSumStep(|data| - 1, s, data[0], Weighted(data[1..]));
    }
  }

  /** The checksum of n bytes d is built from a = 1 + sum d[i] and b = n + sum (n - i) * d[i]. */
  lemma ClosedForm(data: seq<Byte>)
    ensures Of(data) == (|data| + Weighted(data)) % 0x1_0000 * 0x1_0000 + (1 + Total(data)) % 0x1_0000
    ensures 0 <= Of(data) < TWO_TO_32
  {
    FoldClosedForm(START, data);
    TimesIsProduct(|data|, 1);
  }

  // ----- the loop of the source -----

  /** CHECKSUM_OP: consumes the byte at `ptr` and leaves the fold of what remains unchanged. */
  method ChecksumOp(data: array<Byte>, ptr: nat, a: int, b: int, end: nat)
    returns (ptr': nat, a': int, b': int)
    requires ptr < end <= data.Length
    ensures ptr' == ptr + 1
    ensures Fold(Sums(a', b'), data[ptr'..end]) == Fold(Sums(a, b), data[ptr..end])
    ensures 0 <= a' < 0x1_0000 && 0 <= b' < 0x1_0000
  {
    a' := (a + data[ptr]) % 0x1_0000;
    b' := (b + a') % 0x1_0000;
    ptr' := ptr + 1;
    assert data[ptr..end][1..] == data[ptr'..end];
  }

  /** The body of the unrolled loop: eight bytes at once. */
  method ChecksumEight(data: array<Byte>, ptr: nat, a: int, b: int, end: nat)
    returns (ptr': nat, a': int, b': int)
    requires ptr + 8 <= end <= data.Length
    ensures ptr' == ptr + 8
    ensures Fold(Sums(a', b'), data[ptr'..end]) == Fold(Sums(a, b), data[ptr..end])
    ensures 0 <= a' < 0x1_0000 && 0 <= b' < 0x1_0000
  {
    ptr', a', b' := ChecksumOp(data, ptr, a, b, end);
    ptr', a', b' := ChecksumOp(data, ptr', a', b', end);
    ptr', a', b' := ChecksumOp(data, ptr', a', b', end);
    ptr', a', b' := ChecksumOp(data, ptr', a', b', end);
    ptr', a', b' := ChecksumOp(data, ptr', a', b', end);
    ptr', a', b' := ChecksumOp(data, ptr', a', b', end);
    ptr', a', b' := ChecksumOp(data, ptr', a', b', end);
    ptr', a', b' := ChecksumOp(data, ptr', a', b', end);
  }

  /** _LZG_CalcChecksum over the `size` bytes at `start`: eight bytes a turn, then the rest one by one. */
  method Calc(data: array<Byte>, start: nat, size: nat) returns (sum: int)
    requires start + size <= data.Length
    ensures sum == Of(data[start..start + size])
  {
    var end := start + size;
    var a, b, ptr := 1, 0, start;
    var end8 := start + size / 8 * 8;
    ghost var turns: nat := 0;
    while ptr < end8
      invariant ptr == start + 8 * turns && turns <= size / 8
      invariant 0 <= a < 0x1_0000 && 0 <= b < 0x1_0000
      invariant Fold(Sums(a, b), data[ptr..end]) == Fold(START, data[start..end])
    {
      ptr, a, b := ChecksumEight(data, ptr, a, b, end);
      turns := turns + 1;
    }
    while ptr < end
      invariant ptr <= end
      invariant 0 <= a < 0x1_0000 && 0 <= b < 0x1_0000
      invariant Fold(Sums(a, b), data[ptr..end]) == Fold(START, data[start..end])
    {
      ptr, a, b := ChecksumOp(data, ptr, a, b, end);
    }
    sum := b * 0x1_0000 + a;
  }
}
