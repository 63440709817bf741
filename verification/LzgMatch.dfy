/**
 * Which earlier bytes the encoder copies from: the naive scan that the accelerated search of
 * src/libc/lzg.c:591-718 refines, and the facts the encoder relies on.
 */
module LzgMatch {
  import opened Prelude
  import opened LzgFormat

  const MAX_RUN_LENGTH := 128

  /** Stands for the null pointer of the hash chains. */
  const NULL := -1

  /** One row of _LZG_TUNING_PARAMETERS, and the number of bytes in a key: 3 (fast) or 2 (slow). */
  datatype Params = Params(window: nat, maxMatches: nat, goodLength: nat, preMatch: nat) {
    predicate Valid() {
      0 < window && 2 <= preMatch <= 3
    }
  }

  // ----- lengths -----

  /** The largest length the format can express that does not exceed `length`. */
  function Quantize(length: nat): nat
    requires length <= MAX_RUN_LENGTH
  {
    if length == 128 then 128 else if length >= 72 then 72 else if length >= 48 then 48
    else if length >= 35 then 35 else if length >= 29 then 29 else length
  }

  predicate Expressible(length: nat) {
    3 <= length <= 29 || length == 35 || length == 48 || length == 72 || length == 128
  }

  lemma QuantizeIsLargestExpressible(length: nat, other: nat)
    requires 3 <= length <= MAX_RUN_LENGTH
    ensures Expressible(Quantize(length)) && Quantize(length) <= length
    ensures Expressible(other) && other <= length ==> other <= Quantize(length)
    ensures Expressible(other) <==> exists field :: 1 <= field < 32 && LengthOf(field) == other
  {
    if Expressible(other) {
      var field := if other <= 29 then other - 2 else if other == 35 then 28 else if other == 48 then 29
                   else if other == 72 then 30 else 31;
      assert LengthOf(field) == other;
    }
  }

  // ----- matches -----

  /** The `length` bytes at pos repeat those `offset` back, and lie wholly inside the input. */
  ghost predicate TrueMatch(input: seq<Byte>, pos: nat, offset: nat, length: nat) {
    && 1 <= offset <= pos && pos + length <= |input|
    && forall i :: pos <= i < pos + length ==> input[i] == input[i - offset]
  }

  predicate SameBytes(input: seq<Byte>, p: nat, q: nat, n: nat)
    requires p + n <= |input| && q + n <= |input|
  {
    input[p..p + n] == input[q..q + n]
  }

  function RunEnd(input: seq<Byte>, pos: nat): nat {
    if pos + MAX_RUN_LENGTH > |input| then |input| else pos + MAX_RUN_LENGTH
  }

  /** How far the bytes at pos and at q agree, up to position `limit`, if the first n are known to. */
  function Agree(input: seq<Byte>, pos: nat, q: nat, n: nat, limit: nat): (length: nat)
    requires q < pos && pos + n <= limit <= |input|
    ensures n <= length && pos + length <= limit
    ensures forall i :: pos + n <= i < pos + length ==> input[i] == input[i - (pos - q)]
    decreases limit - (pos + n)
  {
    if pos + n < limit && input[pos + n] == input[q + n] then Agree(input, pos, q, n + 1, limit) else n
  }

  /** Starting to compare after k bytes already known to agree changes nothing. */
  lemma AgreeFrom(input: seq<Byte>, pos: nat, q: nat, n: nat, k: nat, limit: nat)
    requires q < pos && limit <= |input| && n <= k && pos + k <= limit && SameBytes(input, pos, q, k)
    ensures Agree(input, pos, q, n, limit) == Agree(input, pos, q, k, limit)
    decreases k - n
  {
    if n < k {
      assert input[pos + n] == input[pos..pos + k][n] == input[q..q + k][n] == input[q + n];
      AgreeFrom(input, pos, q, n + 1, k, limit);
    }
  }

  /** A mismatch k bytes on bounds the agreement. */
  lemma AgreeStopsAt(input: seq<Byte>, pos: nat, q: nat, n: nat, k: nat, limit: nat)
    requires q < pos && limit <= |input| && n <= k && pos + k < limit && input[pos + k] != input[q + k]
    ensures Agree(input, pos, q, n, limit) <= k
    decreases k - n
  {
    if n < k {
      AgreeStopsAt(input, pos, q, n + 1, k, limit);
    }
  }

  /** The bytes a back reference takes in the stream. */
  function ReferenceSize(length: nat, offset: nat): nat {
    if offset <= 8 || (length <= 6 && offset <= 71) then 2 else if offset < 2056 then 3 else 4
  }

  // ----- keys -----

  /** Positions with too few bytes after them are never entered into the index. */
  predicate Indexed(input: seq<Byte>, p: int) {
    0 <= p && p + 2 < |input|
  }

  /** The number that the first two or three bytes at p form. */
  function Key(input: seq<Byte>, p: int, preMatch: nat): (key: nat)
    requires Indexed(input, p)
    ensures key < 0x100_0000 && (preMatch != 3 ==> key < 0x1_0000)
  {
    var b0: int, b1: int, b2: int := input[p], input[p + 1], input[p + 2];
    if preMatch == 3 then b0 * 0x1_0000 + b1 * 256 + b2 else b0 * 256 + b1
  }

  lemma ThreeDigitsUnique(a0: Byte, a1: Byte, a2: Byte, b0: Byte, b1: Byte, b2: Byte)
    ensures var x0: int, x1: int, x2: int, y0: int, y1: int, y2: int := a0, a1, a2, b0, b1, b2;
            (x0 * 0x1_0000 + x1 * 256 + x2 == y0 * 0x1_0000 + y1 * 256 + y2 <==> a0 == b0 && a1 == b1 && a2 == b2) &&
            (x0 * 256 + x1 == y0 * 256 + y1 <==> a0 == b0 && a1 == b1)
  {
  }

  lemma SameBytesOneByOne(input: seq<Byte>, p: nat, q: nat, n: nat)
    requires 2 <= n <= 3 && p + n <= |input| && q + n <= |input|
    ensures SameBytes(input, p, q, n) <==>
            input[p] == input[q] && input[p + 1] == input[q + 1] && (n == 3 ==> input[p + 2] == input[q + 2])
  {
    var s, t := input[p..p + n], input[q..q + n];
    assert s[0] == input[p] && s[1] == input[p + 1] && t[0] == input[q] && t[1] == input[q + 1];
    assert n == 3 ==> s[2] == input[p + 2] && t[2] == input[q + 2];
    if s[0] == t[0] && s[1] == t[1] && (n == 3 ==> s[2] == t[2]) {
      assert s == t;
    }
  }

  lemma SameKeyMeansSameBytes(input: seq<Byte>, p: nat, q: nat, preMatch: nat)
    requires Indexed(input, p) && Indexed(input, q) && 2 <= preMatch <= 3
    ensures Key(input, p, preMatch) == Key(input, q, preMatch) <==> SameBytes(input, p, q, preMatch)
  {
    SameBytesOneByOne(input, p, q, preMatch);
    ThreeDigitsUnique(input[p], input[p + 1], input[p + 2], input[q], input[q + 1], input[q + 2]);
  }

  /** The latest position before n with the given key, or NULL: what the `last` table holds for that key. */
  function LastOf(input: seq<Byte>, n: nat, key: nat, preMatch: nat): (p: int)
    ensures NULL <= p < n && (p != NULL ==> Indexed(input, p) && Key(input, p, preMatch) == key)
    ensures forall q :: p < q < n && Indexed(input, q) ==> Key(input, q, preMatch) != key
  {
    if n == 0 then NULL
    else if Indexed(input, n - 1) && Key(input, n - 1, preMatch) == key then n - 1
    else LastOf(input, n - 1, key, preMatch)
  }

  // ----- the naive search -----

  /** Length, bytes saved and offset of the best match so far. */
  datatype Best = Best(length: nat, win: int, offset: nat)

  const NO_MATCH := Best(2, 0, 0)

  function MinPos(pos: nat, window: nat): nat {
    if pos >= window then pos - window else 0
  }

  /** Is q's match longer (as expressible) and does it save more than the best so far? */
  function Better(input: seq<Byte>, pos: nat, symbolCost: nat, best: Best, q: nat): Option<Best>
    requires q < pos < |input|
  {
    var length := Quantize(Agree(input, pos, q, 0, RunEnd(input, pos)));
    var win := length - 1 + symbolCost - ReferenceSize(length, pos - q);
    if length > best.length && win > best.win then Some(Best(length, win, pos - q)) else None
  }

  /** Nothing can or need be found beyond a match of this length. */
  predicate GoodEnough(input: seq<Byte>, pos: nat, q: nat, best: Best, params: Params)
    requires q < pos < |input|
  {
    best.length >= params.goodLength || pos + Agree(input, pos, q, 0, RunEnd(input, pos)) >= RunEnd(input, pos)
  }

  /** Tries every position from q down to the window's edge that has pos's key, at most `budget` of them. */
  function Scan(input: seq<Byte>, pos: nat, params: Params, symbolCost: nat, q: int, best: Best, budget: nat): Best
    requires Indexed(input, pos) && q < pos
    decreases q
  {
    if q <= MinPos(pos, params.window) || budget == 0 then best
    else if Key(input, q, params.preMatch) != Key(input, pos, params.preMatch) then
      Scan(input, pos, params, symbolCost, q - 1, best, budget)
    else match Better(input, pos, symbolCost, best, q)
      case None => Scan(input, pos, params, symbolCost, q - 1, best, budget - 1)
      case Some(b) =>
        if GoodEnough(input, pos, q, b, params) then b
        else Scan(input, pos, params, symbolCost, q - 1, b, budget - 1)
  }

  /** The match the encoder uses at pos: NO_MATCH unless it saves at least one byte. */
  function Find(input: seq<Byte>, pos: nat, params: Params, symbolCost: nat): Best
    requires pos < |input|
  {
    if Indexed(input, pos) then Scan(input, pos, params, symbolCost, pos - 1, NO_MATCH, params.maxMatches)
    else NO_MATCH
  }

  /** What holds of the best match at any time: it is real, expressible and worth its bytes. */
  ghost predicate GoodMatch(input: seq<Byte>, pos: nat, window: nat, symbolCost: nat, best: Best) {
    best == NO_MATCH ||
    (&& 0 < best.win
     && Expressible(best.length)
     && TrueMatch(input, pos, best.offset, best.length)
     && best.offset < window
     && best.win == best.length - 1 + symbolCost - ReferenceSize(best.length, best.offset))
  }

  lemma BetterIsGood(input: seq<Byte>, pos: nat, params: Params, symbolCost: nat, best: Best, q: nat)
    requires MinPos(pos, params.window) < q < pos < |input| && GoodMatch(input, pos, params.window, symbolCost, best)
    requires Better(input, pos, symbolCost, best, q).Some?
    ensures GoodMatch(input, pos, params.window, symbolCost, Better(input, pos, symbolCost, best, q).value)
  {
    var n := Agree(input, pos, q, 0, RunEnd(input, pos));
    QuantizeIsLargestExpressible(n, 3);
    assert TrueMatch(input, pos, pos - q, Quantize(n));
  }

  lemma {:induction false} ScanIsGood(input: seq<Byte>, pos: nat, params: Params, symbolCost: nat, q: int, best: Best,
                                      budget: nat)
    requires Indexed(input, pos) && q < pos && GoodMatch(input, pos, params.window, symbolCost, best)
    ensures GoodMatch(input, pos, params.window, symbolCost,
                      Scan(input, pos, params, symbolCost, q, best, budget))
    decreases q
  {
    if MinPos(pos, params.window) < q && budget != 0 {
      if Key(input, q, params.preMatch) != Key(input, pos, params.preMatch) {
        ScanIsGood(input, pos, params, symbolCost, q - 1, best, budget);
      } else {
        match Better(input, pos, symbolCost, best, q)
        case None =>
          ScanIsGood(input, pos, params, symbolCost, q - 1, best, budget - 1);
        case Some(b) =>
          BetterIsGood(input, pos, params, symbolCost, best, q);
          ScanIsGood(input, pos, params, symbolCost, q - 1, b, budget - 1);
      }
    }
  }

  /**
   * A match returned by the search repeats earlier bytes, lies inside the input, starts less than a window
   * back, has a length the format can express, and its reference is no longer than the bytes it replaces.
   */
  lemma FindIsSound(input: seq<Byte>, pos: nat, params: Params, symbolCost: nat)
    requires pos < |input| && symbolCost <= 2
    ensures var best := Find(input, pos, params, symbolCost);
            best.win > 0 ==>
              && TrueMatch(input, pos, best.offset, best.length)
              && best.offset < params.window && Expressible(best.length)
              && ReferenceSize(best.length, best.offset) <= best.length
  {
    if Indexed(input, pos) {
      ScanIsGood(input, pos, params, symbolCost, pos - 1, NO_MATCH, params.maxMatches);
    }
  }

  // ----- following the chain instead of scanning -----

  /** Positions without pos's key do not matter: the scan may jump to the latest one that has it. */
  lemma {:induction false} ScanJumps(input: seq<Byte>, pos: nat, params: Params, symbolCost: nat, n: nat, best: Best,
                                     budget: nat)
    requires Indexed(input, pos) && n <= pos
    ensures Scan(input, pos, params, symbolCost, n - 1, best, budget) ==
            Scan(input, pos, params, symbolCost,
                 LastOf(input, n, Key(input, pos, params.preMatch), params.preMatch), best, budget)
  {
    var key := Key(input, pos, params.preMatch);
    if n != 0 && Key(input, n - 1, params.preMatch) != key {
      ScanJumps(input, pos, params, symbolCost, n - 1, best, budget);
      assert LastOf(input, n, key, params.preMatch) == LastOf(input, n - 1, key, params.preMatch);
    }
  }

  /** The positions reached from q by always going to the latest earlier one with the same key. */
  function Chain(input: seq<Byte>, q: int, key: nat, preMatch: nat, minPos: nat): seq<int>
    requires NULL <= q
    decreases q
  {
    if q <= minPos then [] else [q] + Chain(input, LastOf(input, q, key, preMatch), key, preMatch, minPos)
  }

  /** Every position below n and above minPos with the key, latest first, by looking at each in turn. */
  function Naive(input: seq<Byte>, n: nat, key: nat, preMatch: nat, minPos: nat): seq<int> {
    if n == 0 || n - 1 <= minPos then []
    else (if Indexed(input, n - 1) && Key(input, n - 1, preMatch) == key then [n - 1] else [])
         + Naive(input, n - 1, key, preMatch, minPos)
  }

  /** The chain visits exactly the earlier positions in the window with the same key, most recent first. */
  lemma {:induction false} ChainIsNaive(input: seq<Byte>, n: nat, key: nat, preMatch: nat, minPos: nat)
    ensures Chain(input, LastOf(input, n, key, preMatch), key, preMatch, minPos) ==
            Naive(input, n, key, preMatch, minPos)
  {
    if n != 0 && n - 1 > minPos {
      ChainIsNaive(input, n - 1, key, preMatch, minPos);
      if !(Indexed(input, n - 1) && Key(input, n - 1, preMatch) == key) {
        assert Naive(input, n, key, preMatch, minPos) == Naive(input, n - 1, key, preMatch, minPos);
      }
    }
  }
}
