/**
 * The search accelerator of the encoder (src/libc/lzg.c:591-718): a table of latest positions by key and a
 * ring of previous positions, whose slots are reused modulo the window.
 */
module LzgSearch {
  import opened Prelude
  import opened LzgMatch

  // _LZG_LENGTH_QUANT_LUT, a row of the source at a time.
  const QUANT_ROW_0: seq<Byte> := [0, 1, 2, 3, 4, 5, 6, 7, 8, 9, 10, 11, 12, 13, 14, 15]
  const QUANT_ROW_1: seq<Byte> := [16, 17, 18, 19, 20, 21, 22, 23, 24, 25, 26, 27, 28, 29, 29, 29]
  const QUANT_ROW_2: seq<Byte> := [29, 29, 29, 35, 35, 35, 35, 35, 35, 35, 35, 35, 35, 35, 35, 35]
  const QUANT_ROW_3: seq<Byte> := [48, 48, 48, 48, 48, 48, 48, 48, 48, 48, 48, 48, 48, 48, 48, 48]
  const QUANT_ROW_4: seq<Byte> := [48, 48, 48, 48, 48, 48, 48, 48, 72, 72, 72, 72, 72, 72, 72, 72]
  const QUANT_ROW_5: seq<Byte> := [72, 72, 72, 72, 72, 72, 72, 72, 72, 72, 72, 72, 72, 72, 72, 72]
  const QUANT_ROW_6: seq<Byte> := [72, 72, 72, 72, 72, 72, 72, 72, 72, 72, 72, 72, 72, 72, 72, 72]
  const QUANT_ROW_7: seq<Byte> := [72, 72, 72, 72, 72, 72, 72, 72, 72, 72, 72, 72, 72, 72, 72, 72]

  function QuantLut(length: nat): (q: int)
    requires length <= MAX_RUN_LENGTH
    ensures q == Quantize(length)
  {
    if length < 16 then QUANT_ROW_0[length]
    else if length < 32 then QUANT_ROW_1[length - 16]
    else if length < 48 then QUANT_ROW_2[length - 32]
    else if length < 64 then QUANT_ROW_3[length - 48]
    else if length < 80 then QUANT_ROW_4[length - 64]
    else if length < 96 then QUANT_ROW_5[length - 80]
    else if length < 112 then QUANT_ROW_6[length - 96]
    else if length < 128 then QUANT_ROW_7[length - 112]
    else 128
  }

  /**
   * What slot p % window holds once position p has been passed: p's predecessor in its chain, or, for a
   * position too close to the end to be indexed, whatever was there before.
   */
  ghost function Slot(input: seq<Byte>, p: int, params: Params): (q: int)
    requires params.Valid()
    ensures NULL <= q && (q < p || q == NULL)
    ensures !Indexed(input, p) && 0 <= p ==> q == NULL || q < p - params.window
    decreases p
  {
    if p < 0 then NULL
    else if Indexed(input, p) then LastOf(input, p, Key(input, p, params.preMatch), params.preMatch)
    else Slot(input, p - params.window, params)
  }

  lemma NoSmallMultiple(k: int, window: int)
    requires 0 < window && k != 0
    ensures window * k >= window || window * k <= -window
  {
    if k > 0 {
      assert window * (k - 1) >= 0;
    } else {
      assert window * (-1 - k) >= 0;
    }
  }

  lemma DivMod(p: int, window: int)
    requires 0 < window
    ensures p == window * (p / window) + p % window && 0 <= p % window < window
  {
  }

  /** Two positions less than a window apart have different slots. */
  lemma SlotsDiffer(p: int, q: int, window: int)
    requires 0 < window && p < q < p + window
    ensures p % window != q % window
  {
    DivMod(p, window);
    DivMod(q, window);
    if p % window == q % window {
      SameSlotDistance(p / window, q / window, p % window, window);
    }
  }

  lemma SameSlot(p: int, window: int)
    requires 0 < window
    ensures p % window == (p - window) % window
  {
    var q := p - window;
    DivMod(p, window);
    DivMod(q, window);
    assert window * (p / window) - window == window * (p / window - 1);
    SameSlotDistanceBack(p / window - 1, p % window, q / window, q % window, window);
  }

  lemma SameSlotDistanceBack(a: int, s: int, b: int, t: int, window: int)
    requires 0 <= s < window && 0 <= t < window && window * a + s == window * b + t
    ensures s == t
  {
    assert window * (b - a) == window * b - window * a;
    if a != b {
      NoSmallMultiple(b - a, window);
    }
  }

  lemma SameSlotDistance(a: int, b: int, slot: int, window: int)
    requires 0 < window
    ensures window * a + slot == window * b + slot || !(-window < (window * b + slot) - (window * a + slot) < window)
  {
    if a != b {
      NoSmallMultiple(b - a, window);
      assert window * (b - a) == window * b - window * a;
    }
  }

  class SearchAccel {
    const tab: array<int>
    const last: array<int>
    const params: Params
    const size: nat
    /** How many positions have been passed to UpdateLastPos. */
    ghost var filled: nat

    ghost predicate LastOk(input: seq<Byte>)
      reads this, last
    {
      && last.Length == (if params.preMatch == 3 then 0x100_0000 else 0x1_0000)
      && forall key :: 0 <= key < last.Length ==> last[key] == LastOf(input, filled, key, params.preMatch)
    }

    /** Every slot holds the entry of the one position of the last `window` that maps to it. */
    ghost predicate TabOk(input: seq<Byte>)
      reads this, tab
      requires params.Valid()
    {
      && tab.Length == params.window
      && forall p :: filled - params.window <= p < filled ==> tab[p % params.window] == Slot(input, p, params)
    }

    ghost predicate Valid(input: seq<Byte>)
      reads this, tab, last
    {
      params.Valid() && size == |input| && tab != last && filled <= size && LastOk(input) && TabOk(input)
    }

    /** _LZG_SearchAccel_Init: both tables cleared. */
    constructor (params: Params, ghost input: seq<Byte>, size: nat)
      requires params.Valid() && size == |input|
      ensures Valid(input) && fresh(tab) && fresh(last) && filled == 0 && this.params == params
    {
      this.params := params;
      this.size := size;
      tab := new int[params.window](_ => NULL);
      last := new int[if params.preMatch == 3 then 0x100_0000 else 0x1_0000](_ => NULL);
      filled := 0;
    }

    /** _LZG_UpdateLastPos: enters position pos into the index, overwriting the slot of pos - window. */
    method UpdateLastPos(input: array<Byte>, pos: nat)
      requires Valid(input[..]) && pos == filled < size
      modifies this, tab, last
      ensures Valid(input[..]) && filled == pos + 1
    {
      ghost var s := input[..];
      if pos + 2 >= size {
        SkipKeepsTab(s, pos);
        filled := pos + 1;
        return;
      }
      var b0: int, b1: int, b2: int := input[pos], input[pos + 1], input[pos + 2];
      var lIdx := if params.preMatch == 3 then b0 * 0x1_0000 + b1 * 256 + b2 else b0 * 256 + b1;
      assert lIdx == Key(s, pos, params.preMatch);
      forall p | pos + 1 - params.window <= p < pos
        ensures p % params.window != pos % params.window
      {
        SlotsDiffer(p, pos, params.window);
      }
      tab[pos % params.window] := last[lIdx];
      last[lIdx] := pos;
      filled := pos + 1;
    }

    /** A position that is not indexed leaves its slot as the position a window earlier left it. */
    lemma SkipKeepsTab(input: seq<Byte>, pos: nat)
      requires Valid(input) && pos == filled < size && !Indexed(input, pos)
      ensures forall p :: pos + 1 - params.window <= p <= pos ==> tab[p % params.window] == Slot(input, p, params)
    {
      assert pos % params.window == (pos - params.window) % params.window by {
        SameSlot(pos, params.window);
      }
    }

    /** How far the bytes at pos and at pos2 agree, compared from the first byte after the key on. */
    method MatchLength(input: array<Byte>, pos: nat, pos2: nat, endStr: nat) returns (length: nat)
      requires params.Valid() && pos2 < pos && Indexed(input[..], pos) && endStr == RunEnd(input[..], pos)
      requires Key(input[..], pos2, params.preMatch) == Key(input[..], pos, params.preMatch)
      ensures length == Agree(input[..], pos, pos2, 0, endStr)
    {
      ghost var s := input[..];
      var cmp1, cmp2 := pos + params.preMatch, pos2 + params.preMatch;
      SameKeyMeansSameBytes(s, pos, pos2, params.preMatch);
      AgreeFrom(s, pos, pos2, 0, params.preMatch, endStr);
      while cmp1 < endStr && input[cmp1] == input[cmp2]
        invariant pos + params.preMatch <= cmp1 <= endStr && cmp1 - cmp2 == pos - pos2
        invariant Agree(s, pos, pos2, cmp1 - pos, endStr) == Agree(s, pos, pos2, 0, endStr)
      {
        cmp1, cmp2 := cmp1 + 1, cmp2 + 1;
      }
      length := cmp1 - pos;
    }

    /**
     * One candidate of the search: unless it disagrees with pos right after the best length so far, its
     * match is measured and kept if it is longer and saves more; `stop` says the search is over.
     */
    method TryPosition(input: array<Byte>, pos: nat, pos2: nat, symbolCost: nat, best: Best)
      returns (best': Best, stop: bool)
      requires params.Valid() && pos2 < pos && Indexed(input[..], pos) && symbolCost <= 2
      requires Key(input[..], pos2, params.preMatch) == Key(input[..], pos, params.preMatch)
      requires 2 <= best.length && pos + best.length < RunEnd(input[..], pos)
      ensures match Better(input[..], pos, symbolCost, best, pos2)
              case None => best' == best && !stop
              case Some(b) => best' == b && stop == GoodEnough(input[..], pos, pos2, b, params)
      ensures !stop ==> 2 <= best'.length && pos + best'.length < RunEnd(input[..], pos)
    {
      ghost var s := input[..];
      best', stop := best, false;
      var endStr := if pos + MAX_RUN_LENGTH > input.Length then input.Length else pos + MAX_RUN_LENGTH;
      if input[pos + best.length] != input[pos2 + best.length] {
        AgreeStopsAt(s, pos, pos2, 0, best.length, endStr);
        return;
      }
      var matched := MatchLength(input, pos, pos2, endStr);
      var length := QuantLut(matched);
      if length > best.length {
        var dist := pos - pos2;
        var win;
        if dist <= 8 || (length <= 6 && dist <= 71) {
          win := length + symbolCost - 3;
        } else {
          win := length + symbolCost - 4;
          if dist >= 2056 { win := win - 1; }
        }
        if win > best.win {
          best' := Best(length, win, dist);
          stop := length >= params.goodLength || pos + matched >= endStr;
        }
      }
    }

    /** The slot of a position inside the window holds the latest earlier position with the same key. */
    lemma SlotIsPredecessor(input: seq<Byte>, p: int)
      requires Valid(input) && Indexed(input, p) && filled - params.window <= p < filled
      ensures tab[p % params.window] ==
              LastOf(input, p, Key(input, p, params.preMatch), params.preMatch)
    {
      assert Slot(input, p, params) == LastOf(input, p, Key(input, p, params.preMatch), params.preMatch);
    }

    /** _LZG_FindMatch: walks the chain of pos, and finds what the naive scan finds. */
    method FindMatch(input: array<Byte>, pos: nat, symbolCost: nat) returns (length: nat, offset: nat)
      requires Valid(input[..]) && filled == pos + 1 && 1 <= symbolCost <= 2
      ensures var best := Find(input[..], pos, params, symbolCost);
              length == (if best.win > 0 then best.length else 0) && offset == best.offset
    {
      ghost var s := input[..];
      var best := NO_MATCH;
      var minPos := if pos >= params.window then pos - params.window else 0;
      var pos2 := tab[pos % params.window];
      assert pos2 == Slot(s, pos, params);
      var maxMatches := params.maxMatches;
      if Indexed(s, pos) {
        SlotIsPredecessor(s, pos);
        ScanJumps(s, pos, params, symbolCost, pos, best, maxMatches);
      }
      var stop := false;
      while !stop && pos2 != NULL && pos2 > minPos && maxMatches != 0
        invariant NULL <= pos2 < pos && 0 <= maxMatches
        invariant !Indexed(s, pos) ==> best == NO_MATCH && pos2 <= minPos
        invariant Indexed(s, pos) && pos2 != NULL ==>
          Indexed(s, pos2) && Key(s, pos2, params.preMatch) == Key(s, pos, params.preMatch)
        invariant !stop ==> 2 <= best.length && (Indexed(s, pos) ==> pos + best.length < RunEnd(s, pos))
        invariant Indexed(s, pos) ==>
          Find(s, pos, params, symbolCost) ==
          if stop then best else Scan(s, pos, params, symbolCost, pos2, best, maxMatches)
        decreases !stop, maxMatches
      {
        best, stop := TryPosition(input, pos, pos2, symbolCost, best);
        maxMatches := maxMatches - 1;
        if !stop {
          SlotIsPredecessor(s, pos2);
          ScanJumps(s, pos, params, symbolCost, pos2, best, maxMatches);
          pos2 := tab[pos2 % params.window];
        }
      }
      offset := best.offset;
      length := if best.win > 0 then best.length else 0;
    }
  }
}
