/**
 * What the match finder of src/libc/lzg.c:632-718 must find: no reference to a position it looks at saves more than the
 * one it returns, unless it stopped at a length that is good enough; and what that means for a run of equal bytes.
 */
module LzgSearchLaws {
  import opened Prelude
  import opened LzgFormat
  import opened LzgMatch
  import opened LzgStream

  /** The bytes saved by a reference instead of a literal and what follows it. */
  function Saving(length: nat, offset: nat, symbolCost: nat): int {
    length - 1 + symbolCost - ReferenceSize(length, offset)
  }

  /** A longer copy from nearer by saves at least as much, although a short one may have a shorter encoding. */
  lemma LongerAndNearerSaves(length: nat, offset: nat, length': nat, offset': nat, symbolCost: nat)
    requires length' <= length && offset <= offset'
    ensures Saving(length', offset', symbolCost) <= Saving(length, offset, symbolCost)
  {
  }

  /**
   * Position q is one the search looks at, if nothing ends it before: it is inside the window, and fewer than
   * maxMatches positions between q and pos start with the key of pos.
   */
  ghost predicate LookedAt(input: seq<Byte>, pos: nat, params: Params, q: nat) {
    && Indexed(input, pos) && MinPos(pos, params.window) < q < pos
    && |Naive(input, pos, Key(input, pos, params.preMatch), params.preMatch, q)| < params.maxMatches
  }

  lemma {:induction false} AgreeReaches(input: seq<Byte>, pos: nat, q: nat, n: nat, length: nat, limit: nat)
    requires q < pos && pos + n <= limit <= |input| && n <= length && pos + length <= limit
    requires TrueMatch(input, pos, pos - q, length)
    ensures length <= Agree(input, pos, q, n, limit)
    decreases limit - (pos + n)
  {
    if n < length {
      assert input[pos + n] == input[pos + n - (pos - q)];
      AgreeReaches(input, pos, q, n + 1, length, limit);
    }
  }

  /** The quantised length of the match at q is at least every expressible length that matches there. */
  lemma QuantizedReaches(input: seq<Byte>, pos: nat, q: nat, length: nat)
    requires q < pos < |input| && Expressible(length) && TrueMatch(input, pos, pos - q, length)
    ensures var n := Agree(input, pos, q, 0, RunEnd(input, pos));
            length <= n && length <= Quantize(n) && Expressible(Quantize(n))
  {
    AgreeReaches(input, pos, q, 0, length, RunEnd(input, pos));
    QuantizeIsLargestExpressible(Agree(input, pos, q, 0, RunEnd(input, pos)), length);
  }

  lemma MatchHasKey(input: seq<Byte>, pos: nat, q: nat, length: nat, preMatch: nat)
    requires q < pos && 3 <= length && Indexed(input, pos) && 2 <= preMatch <= 3
    requires TrueMatch(input, pos, pos - q, length)
    ensures Indexed(input, q) && Key(input, q, preMatch) == Key(input, pos, preMatch)
  {
    assert input[pos] == input[pos - (pos - q)];
    assert input[pos + 1] == input[pos + 1 - (pos - q)];
    assert input[pos + 2] == input[pos + 2 - (pos - q)];
  }

  /** What the best match so far is: none, or one with its saving, from a position behind q. */
  ghost predicate BestSoFar(pos: nat, symbolCost: nat, best: Best, q: int) {
    best == NO_MATCH
    || (0 < best.win == Saving(best.length, best.offset, symbolCost) && best.offset < pos - q)
  }

  lemma {:induction false} ScanGrows(input: seq<Byte>, pos: nat, params: Params, symbolCost: nat, q: int, best: Best,
                                     budget: nat)
    requires Indexed(input, pos) && q < pos
    ensures Scan(input, pos, params, symbolCost, q, best, budget).win >= best.win
    decreases q
  {
    if MinPos(pos, params.window) < q && budget != 0 {
      if Key(input, q, params.preMatch) != Key(input, pos, params.preMatch) {
        ScanGrows(input, pos, params, symbolCost, q - 1, best, budget);
      } else {
        match Better(input, pos, symbolCost, best, q)
        case None => ScanGrows(input, pos, params, symbolCost, q - 1, best, budget - 1);
        case Some(b) => ScanGrows(input, pos, params, symbolCost, q - 1, b, budget - 1);
      }
    }
  }

  /** Looking at q leaves a best match that saves at least what any match at q does. */
  lemma CandidateCounts(input: seq<Byte>, pos: nat, symbolCost: nat, best: Best, q: nat, length: nat)
    requires q < pos < |input| && BestSoFar(pos, symbolCost, best, q)
    requires Expressible(length) && TrueMatch(input, pos, pos - q, length)
    ensures var after := Better(input, pos, symbolCost, best, q);
            Saving(length, pos - q, symbolCost) <= if after.Some? then after.value.win else best.win
  {
    hide Agree, Quantize, ReferenceSize;
    QuantizedReaches(input, pos, q, length);
    var l := Quantize(Agree(input, pos, q, 0, RunEnd(input, pos)));
    LongerAndNearerSaves(l, pos - q, length, pos - q, symbolCost);
    if best != NO_MATCH && l <= best.length {
      LongerAndNearerSaves(best.length, best.offset, l, pos - q, symbolCost);
    }
  }

  /** A match up to the end of the run cannot be beaten from further back. */
  lemma FullLengthWins(input: seq<Byte>, pos: nat, params: Params, symbolCost: nat, best: Best, q: nat, p: nat,
                       length: nat)
    requires p < q < pos < |input| && Better(input, pos, symbolCost, best, q).Some?
    requires Expressible(length) && TrueMatch(input, pos, pos - p, length)
    requires var b := Better(input, pos, symbolCost, best, q).value;
             GoodEnough(input, pos, q, b, params) && b.length < params.goodLength
    ensures Saving(length, pos - p, symbolCost) <= Better(input, pos, symbolCost, best, q).value.win
  {
    hide Agree, Quantize, ReferenceSize;
    QuantizedReaches(input, pos, p, length);
    var n := Agree(input, pos, q, 0, RunEnd(input, pos));
    QuantizeIsLargestExpressible(n, length);
    LongerAndNearerSaves(Quantize(n), pos - q, length, pos - p, symbolCost);
  }

  lemma {:induction false} ScanIsBest(input: seq<Byte>, pos: nat, params: Params, symbolCost: nat, q: int, best: Best,
                                      budget: nat, p: nat, length: nat)
    requires Indexed(input, pos) && params.Valid() && MinPos(pos, params.window) < p <= q < pos
    requires BestSoFar(pos, symbolCost, best, q)
    requires |Naive(input, q + 1, Key(input, pos, params.preMatch), params.preMatch, p)| < budget
    requires Expressible(length) && TrueMatch(input, pos, pos - p, length)
    ensures var r := Scan(input, pos, params, symbolCost, q, best, budget);
            r.win >= Saving(length, pos - p, symbolCost) || (r.win > 0 && r.length >= params.goodLength)
    decreases q
  {
    hide Agree, Quantize, ReferenceSize, TrueMatch, Key, GoodMatch, Better, GoodEnough;
    MatchHasKey(input, pos, p, length, params.preMatch);
    if q == p {
      CandidateCounts(input, pos, symbolCost, best, q, length);
      match Better(input, pos, symbolCost, best, q)
      case None => ScanGrows(input, pos, params, symbolCost, q - 1, best, budget - 1);
      case Some(b) => ScanGrows(input, pos, params, symbolCost, q - 1, b, budget - 1);
    } else if Key(input, q, params.preMatch) != Key(input, pos, params.preMatch) {
      ScanIsBest(input, pos, params, symbolCost, q - 1, best, budget, p, length);
    } else {
      BetterIs(input, pos, symbolCost, best, q);
      match Better(input, pos, symbolCost, best, q)
      case None => ScanIsBest(input, pos, params, symbolCost, q - 1, best, budget - 1, p, length);
      case Some(b) =>
        if !GoodEnough(input, pos, q, b, params) {
          ScanIsBest(input, pos, params, symbolCost, q - 1, b, budget - 1, p, length);
        } else if b.length < params.goodLength {
          FullLengthWins(input, pos, params, symbolCost, best, q, p, length);
        }
    }
  }

  lemma BetterIs(input: seq<Byte>, pos: nat, symbolCost: nat, best: Best, q: nat)
    requires q < pos < |input| && best.win >= 0
    ensures match Better(input, pos, symbolCost, best, q)
            case None => true
            case Some(b) => b.win > 0 && b.offset == pos - q && b.win == Saving(b.length, b.offset, symbolCost)
  {
  }

  // ----- the best match -----

  /**
   * Of all matches at positions looked at none saves more than the one returned, unless that has a length that is good
   * enough; in particular a match is found if there is one that saves a byte.
   */
  lemma FindIsBest(input: seq<Byte>, pos: nat, params: Params, symbolCost: nat, q: nat, length: nat)
    requires pos < |input| && params.Valid() && LookedAt(input, pos, params, q)
    requires Expressible(length) && TrueMatch(input, pos, pos - q, length)
    ensures var best := Find(input, pos, params, symbolCost);
            && (best.length < params.goodLength || best.win <= 0 ==> best.win >= Saving(length, pos - q, symbolCost))
            && (Saving(length, pos - q, symbolCost) > 0 ==> best.win > 0)
  {
    ScanIsBest(input, pos, params, symbolCost, pos - 1, NO_MATCH, params.maxMatches, q, length);
  }

  /** A literal is written only where no position looked at has a match that saves a byte. */
  lemma LiteralOnlyIfNoMatch(input: seq<Byte>, c: Coder, pos: nat, q: nat, length: nat)
    requires c.Valid() && pos < |input| && LookedAt(input, pos, c.params, q)
    requires Expressible(length) && TrueMatch(input, pos, pos - q, length)
    requires ReferenceSize(length, pos - q) < length - 1 + SymbolCost(c.m, input[pos])
    ensures ItemAt(input, c, pos).next > pos + 1
            && |ItemAt(input, c, pos).bytes| < ItemAt(input, c, pos).next - pos - 1 + SymbolCost(c.m, input[pos])
  {
    FindIsBest(input, pos, c.params, SymbolCost(c.m, input[pos]), q, length);
    FoundSaves(input, pos, c.params, SymbolCost(c.m, input[pos]));
    FindIsSound(input, pos, c.params, SymbolCost(c.m, input[pos]));
  }

  /** What is found saves what it says. */
  lemma FoundSaves(input: seq<Byte>, pos: nat, params: Params, symbolCost: nat)
    requires pos < |input|
    ensures var best := Find(input, pos, params, symbolCost);
            best.win > 0 ==> best.win == Saving(best.length, best.offset, symbolCost) && Expressible(best.length)
  {
    if Indexed(input, pos) {
      ScanIsGood(input, pos, params, symbolCost, pos - 1, NO_MATCH, params.maxMatches);
    }
  }

  // ----- a run of equal bytes -----

  predicate AllEqual(input: seq<Byte>) {
    forall i :: 0 <= i < |input| ==> input[i] == input[0]
  }

  /** The bytes of the stream for the last m bytes of a run: references of the largest length, then two literals. */
  function RunCost(m: nat): nat {
    if m == 0 then 0 else if m <= 2 then 2 + RunCost(m - 1)
    else 2 + RunCost(m - Quantize(if m < MAX_RUN_LENGTH then m else MAX_RUN_LENGTH))
  }

  lemma {:induction false} AgreeOnRun(input: seq<Byte>, pos: nat, n: nat, limit: nat)
    requires AllEqual(input) && 1 <= pos && pos + n <= limit <= |input|
    ensures pos + Agree(input, pos, pos - 1, n, limit) == limit
    decreases limit - (pos + n)
  {
    if pos + n < limit {
      assert input[pos + n] == input[0] && input[pos - 1 + n] == input[0];
      AgreeOnRun(input, pos, n + 1, limit);
    }
  }

  /** From the third byte of a run on, the copy from one byte back is found, as long as it can be. */
  lemma RunFound(input: seq<Byte>, pos: nat, params: Params, symbolCost: nat)
    requires AllEqual(input) && params.Valid() && 2 <= params.window && 1 <= params.maxMatches
    requires 2 <= pos && Indexed(input, pos) && 1 <= symbolCost
    ensures var best := Find(input, pos, params, symbolCost);
            best.win > 0 && best.offset == 1
            && best.length == Quantize(RunEnd(input, pos) - pos)
  {
    hide Quantize;
    AgreeOnRun(input, pos, 0, RunEnd(input, pos));
    QuantizeIsLargestExpressible(RunEnd(input, pos) - pos, 3);
    SameKeyOnRun(input, pos, params.preMatch);
  }

  lemma SameKeyOnRun(input: seq<Byte>, pos: nat, preMatch: nat)
    requires AllEqual(input) && 1 <= pos && Indexed(input, pos)
    ensures Key(input, pos - 1, preMatch) == Key(input, pos, preMatch)
  {
    assert input[pos - 1] == input[0] && input[pos] == input[0];
    assert input[pos + 1] == input[0] && input[pos + 2] == input[0];
  }

  lemma {:induction false} RunEncoded(input: seq<Byte>, c: Coder, pos: nat)
    requires c.Valid() && AllEqual(input) && 2 <= c.params.window && 1 <= c.params.maxMatches
    requires 2 <= pos <= |input|
    ensures |Encode(input, c, pos)| <= RunCost(|input| - pos)
    decreases |input| - pos
  {
    hide Find, Quantize;
    if pos < |input| {
      var item := ItemAt(input, c, pos);
      RunEncoded(input, c, item.next);
      if Indexed(input, pos) {
        RunFound(input, pos, c.params, SymbolCost(c.m, input[pos]));
        FindIsSound(input, pos, c.params, SymbolCost(c.m, input[pos]));
      } else {
        NothingFound(input, pos, c.params, SymbolCost(c.m, input[pos]));
      }
    }
  }

  lemma NothingFound(input: seq<Byte>, pos: nat, params: Params, symbolCost: nat)
    requires pos < |input| && !Indexed(input, pos)
    ensures Find(input, pos, params, symbolCost).win == 0
  {
  }

  lemma {:induction false} RunCostBound(m: nat)
    ensures RunCost(m) <= m / 64 + 8
  {
    if m >= MAX_RUN_LENGTH {
      RunCostBound(m - MAX_RUN_LENGTH);
    } else if m > 2 {
      ShortRunCost(m);
    }
  }

  /** After at most three references two bytes remain at most. */
  lemma ShortRunCost(m: nat)
    requires 2 < m < MAX_RUN_LENGTH
    ensures RunCost(m) <= 8
  {
    assert RunCost(0) == 0 && RunCost(1) == 2 && RunCost(2) == 4;
    var r := m - Quantize(m);
    assert RunCost(m) == 2 + RunCost(r);
    if r > 2 {
      var t := r - Quantize(r);
      assert RunCost(r) == 2 + RunCost(t);
      if t > 2 {
        assert RunCost(t) == 2 + RunCost(t - Quantize(t));
      }
    }
  }

  /** A run of n equal bytes takes at most n / 64 + 12 bytes of the stream, whatever the window and the markers. */
  lemma RunIsShort(input: seq<Byte>, c: Coder)
    requires c.Valid() && AllEqual(input) && 2 <= c.params.window && 1 <= c.params.maxMatches
    ensures |Encode(input, c, 0)| <= |input| / 64 + 12
  {
    hide RunCost;
    if |input| >= 2 {
      FirstTwo(input, c);
      RunEncoded(input, c, 2);
      RunCostBound(|input| - 2);
    } else if |input| == 1 {
      NothingFound(input, 0, c.params, SymbolCost(c.m, input[0]));
      assert Encode(input, c, 1) == [];
    }
  }

  /** The first two bytes have nothing to be copied from: position 0 is never looked at. */
  lemma FirstTwo(input: seq<Byte>, c: Coder)
    requires c.Valid() && |input| >= 2
    ensures |Encode(input, c, 0)| <= 4 + |Encode(input, c, 2)|
  {
    FirstIsLiteral(input, c, 0);
    FirstIsLiteral(input, c, 1);
    var a, b := ItemAt(input, c, 0), ItemAt(input, c, 1);
    assert Encode(input, c, 1) == b.bytes + Encode(input, c, 2);
    assert Encode(input, c, 0) == a.bytes + Encode(input, c, 1);
  }

  lemma FirstIsLiteral(input: seq<Byte>, c: Coder, pos: nat)
    requires c.Valid() && pos < 2 && pos < |input|
    ensures ItemAt(input, c, pos).next == pos + 1 && |ItemAt(input, c, pos).bytes| <= 2
  {
    var symbolCost := SymbolCost(c.m, input[pos]);
    assert Find(input, pos, c.params, symbolCost) == NO_MATCH;
  }
}
