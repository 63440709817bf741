/**
 * What malloc and free (src/libc/malloc.c:134-275) do to the row of blocks, and what that means for the
 * live blocks: nothing else is lost or gained, and the free list depends on the live blocks alone.
 */
module HeapSpec {
  import opened Prelude
  import opened HeapTiles

  // ----- sizes -----

  /** sizeof(struct freelist_entry): a size and a pointer. */
  const ENTRY: Word := 8

  /** REAL_SIZE: the bytes a request really takes, computed in 32-bit arithmetic. */
  function RealSize(sz: Word): Word {
    var x: int := sz;
    if x < 4 then ENTRY else Wrap(x + 4 + Wrap(0 - x) % 4)
  }

  /** The largest request whose real size does not wrap around. */
  const MAX_REQUEST: Word := 0xffff_fff8

  /** The real size covers the request and its header exactly up to MAX_REQUEST. */
  lemma RealSizeCovers(sz: Word)
    ensures sz <= MAX_REQUEST <==> sz + 4 <= RealSize(sz)
    ensures sz <= MAX_REQUEST ==> RealSize(sz) % 4 == 0 && ENTRY <= RealSize(sz) <= sz + 8
    ensures sz > MAX_REQUEST ==> RealSize(sz) % 4 == 0 && RealSize(sz) <= 4
  {
  }

  lemma RealSizeWords(sz: Word)
    ensures RealSize(sz) == 4 * (RealSize(sz) / 4)
    ensures RealSize(sz) / 4 >= 2 <==> sz <= MAX_REQUEST
    ensures RealSize(sz) - 4 >= sz <==> sz <= MAX_REQUEST
  {
    RealSizeCovers(sz);
  }

  /** The requests whose real size is nothing at all. */
  lemma HugeRequestWraps(sz: Word)
    ensures RealSize(sz) == 0 <==> 0xffff_fff9 <= sz <= 0xffff_fffc
  {
  }

  // ----- malloc -----

  /** The first free block from i on of at least `need` words, or |tiles|. */
  function FirstFit(tiles: Tiles, need: nat, i: nat): (j: nat)
    requires i <= |tiles|
    ensures i <= j <= |tiles| && (j < |tiles| ==> tiles[j].free && tiles[j].cells >= need)
    ensures forall k :: i <= k < j ==> !(tiles[k].free && tiles[k].cells >= need)
    decreases |tiles| - i
  {
    if i == |tiles| || (tiles[i].free && tiles[i].cells >= need) then i else FirstFit(tiles, need, i + 1)
  }

  /** The row after a successful malloc, and the block it gives out. */
  datatype Grant = Grant(tiles: Tiles, block: nat)

  /** Splits off the first `need` words of block i unless the rest could not be a block. */
  function Carve(tiles: Tiles, need: nat, i: nat): Grant
    requires i < |tiles| && tiles[i].cells >= need
  {
    var cells := tiles[i].cells;
    if cells < need + 2 then Grant(Splice(tiles, i, i + 1, [Tile(cells, false)]), i)
    else Grant(Splice(tiles, i, i + 1, [Tile(need, false), Tile(cells - need, true)]), i)
  }

  /** malloc of `need` words when the heap may still grow by `room` bytes. */
  function Malloc(tiles: Tiles, need: nat, room: nat): Option<Grant> {
    var i := FirstFit(tiles, need, 0);
    var n := |tiles|;
    if i < n then Some(Carve(tiles, need, i))
    else if n > 0 && tiles[n - 1].free then
      if 4 * (need - tiles[n - 1].cells) > room then None
      else Some(Grant(Splice(tiles, n - 1, n, [Tile(need, false)]), n - 1))
    else if 4 * need > room then None
    else Some(Grant(Splice(tiles, n, n, [Tile(need, false)]), n))
  }

  // ----- free -----

  function MergeLow(tiles: Tiles, k: nat): (lo: nat)
    requires k < |tiles|
    ensures lo <= k
  {
    if k > 0 && tiles[k - 1].free then k - 1 else k
  }

  function MergeHigh(tiles: Tiles, k: nat): (hi: nat)
    requires k < |tiles|
    ensures k < hi <= |tiles|
  {
    if k + 1 < |tiles| && tiles[k + 1].free then k + 2 else k + 1
  }

  function Merged(tiles: Tiles, lo: nat, hi: nat): Tile
    requires lo <= hi <= |tiles|
  {
    Tile(if SizeOf(tiles, lo, hi) >= 0 then SizeOf(tiles, lo, hi) else 0, true)
  }

  /** free of block k: joined with a free block before it and a free block after it. */
  function Free(tiles: Tiles, k: nat): Tiles
    requires k < |tiles|
  {
    var lo, hi := MergeLow(tiles, k), MergeHigh(tiles, k);
    Splice(tiles, lo, hi, [Merged(tiles, lo, hi)])
  }

  // ----- splices of one or two blocks -----

  lemma FitsOne(tiles: Tiles, lo: nat, hi: nat, t: Tile)
    requires lo <= hi <= |tiles|
    ensures var r := Splice(tiles, lo, hi, [t]);
            && Cell(r, lo) == Cell(tiles, lo) && Cell(r, lo + 1) == Cell(tiles, lo) + t.cells
            && (SizeOf(tiles, lo, hi) == t.cells ==> Fits(tiles, lo, hi, [t]))
  {
    SpliceBefore(tiles, lo, hi, [t], lo);
    assert Splice(tiles, lo, hi, [t])[lo] == t;
  }

  lemma FitsTwo(tiles: Tiles, lo: nat, hi: nat, t: Tile, u: Tile)
    requires lo <= hi <= |tiles|
    ensures var r := Splice(tiles, lo, hi, [t, u]);
            && Cell(r, lo) == Cell(tiles, lo)
            && Cell(r, lo + 1) == Cell(tiles, lo) + t.cells && Cell(r, lo + 2) == Cell(tiles, lo) + t.cells + u.cells
            && (SizeOf(tiles, lo, hi) == t.cells + u.cells ==> Fits(tiles, lo, hi, [t, u]))
  {
    SpliceBefore(tiles, lo, hi, [t, u], lo);
    var r := Splice(tiles, lo, hi, [t, u]);
    assert r[lo] == t && r[lo + 1] == u;
    assert Cell(r, lo + 1) == Cell(r, lo) + t.cells;
    assert Cell(r, lo + 2) == Cell(r, lo + 1) + u.cells;
  }

  lemma EndOfSplice(tiles: Tiles, lo: nat, hi: nat, mid: Tiles)
    requires lo <= hi <= |tiles| && Fits(tiles, lo, hi, mid)
    ensures hi < |tiles| ==> End(Splice(tiles, lo, hi, mid)) == End(tiles)
    ensures hi == |tiles| ==> End(Splice(tiles, lo, hi, mid)) == Cell(Splice(tiles, lo, hi, mid), lo + |mid|)
  {
    if hi < |tiles| {
      SpliceAfter(tiles, lo, hi, mid, |tiles|);
    }
  }

  // ----- what malloc does to the live blocks -----

  /** The outcome of a malloc: the row stays well formed and exactly one block is new among the live ones. */
  ghost predicate Granted(tiles: Tiles, need: nat, room: nat, g: Grant) {
    && WellFormed(g.tiles) && g.block < |g.tiles|
    && !g.tiles[g.block].free && g.tiles[g.block].cells >= need
    && Block(g.tiles, g.block) !in Live(tiles)
    && Live(g.tiles) == Live(tiles) + {Block(g.tiles, g.block)}
    && End(tiles) <= End(g.tiles) && 4 * (End(g.tiles) - End(tiles)) <= room
  }

  lemma NotLive(tiles: Tiles, i: nat, size: nat)
    requires WellFormed(tiles) && i <= |tiles| && (i < |tiles| ==> tiles[i].free)
    ensures (Cell(tiles, i), size) !in Live(tiles)
  {
    if (Cell(tiles, i), size) in Live(tiles) {
      var j := LiveIndex(tiles, Cell(tiles, i), size);
      if j < i { CellOrder(tiles, j, i); } else { CellOrder(tiles, i, j); }
    }
  }

  lemma LiveInMid(r: Tiles, lo: nat, mid: Tiles)
    requires lo + |mid| <= |r| && 1 <= |mid| <= 2 && r[lo..lo + |mid|] == mid
    requires !mid[0].free && (|mid| == 2 ==> mid[1].free)
    ensures LiveIn(r, lo, lo + |mid|) == {Block(r, lo)} && r[lo] == mid[0]
  {
    assert r[lo] == mid[0];
    LiveInStep(r, lo, lo + 1);
    if |mid| == 2 {
      assert r[lo + 1] == mid[1];
      LiveInStep(r, lo, lo + 2);
    }
  }

  /** Replacing a free block, or nothing at the end, by a live block and perhaps a free one. */
  lemma LiveGained(tiles: Tiles, lo: nat, hi: nat, mid: Tiles)
    requires WellFormed(tiles) && lo <= hi <= |tiles| && hi <= lo + 1 && (lo < hi ==> tiles[lo].free)
    requires Fits(tiles, lo, hi, mid) && 1 <= |mid| <= 2 && !mid[0].free && (|mid| == 2 ==> mid[1].free)
    ensures var r := Splice(tiles, lo, hi, mid);
            r[lo] == mid[0] && Live(r) == Live(tiles) + {Block(r, lo)}
  {
    hide WellFormed, Block;
    var r := Splice(tiles, lo, hi, mid);
    LiveSplice(tiles, lo, hi, mid);
    LiveParts(tiles, lo, hi);
    assert r[lo..lo + |mid|] == mid;
    LiveInMid(r, lo, mid);
    assert LiveIn(tiles, lo, hi) == {};
  }

  lemma CarveGrants(tiles: Tiles, need: nat, i: nat, room: nat)
    requires WellFormed(tiles) && TileOk(Tile(need, false)) && i < |tiles| && tiles[i].free && tiles[i].cells >= need
    ensures Granted(tiles, need, room, Carve(tiles, need, i))
  {
    var cells := tiles[i].cells;
    assert TileOk(tiles[i]);
    var mid := if cells < need + 2 then [Tile(cells, false)] else [Tile(need, false), Tile(cells - need, true)];
    FitsOne(tiles, i, i + 1, Tile(cells, false));
    FitsTwo(tiles, i, i + 1, Tile(need, false), Tile(cells - need, true));
    CarveKeeps(tiles, need, i, mid);
    LiveGained(tiles, i, i + 1, mid);
    EndOfSplice(tiles, i, i + 1, mid);
    NotLive(tiles, i, mid[0].cells);
  }

  lemma CarveKeeps(tiles: Tiles, need: nat, i: nat, mid: Tiles)
    requires WellFormed(tiles) && TileOk(Tile(need, false)) && i < |tiles| && tiles[i].free && tiles[i].cells >= need
    requires var cells := tiles[i].cells;
             mid == if cells < need + 2 then [Tile(cells, false)] else [Tile(need, false), Tile(cells - need, true)]
    ensures WellFormed(Splice(tiles, i, i + 1, mid))
  {
    assert TileOk(tiles[i]);
    if i + 1 < |tiles| {
      assert !BothFree(tiles[i], tiles[i + 1]);
    }
    SpliceWellFormed(tiles, i, i + 1, mid);
  }

  lemma AppendGrants(tiles: Tiles, need: nat, lo: nat, room: nat)
    requires WellFormed(tiles) && TileOk(Tile(need, false)) && lo <= |tiles| <= lo + 1
    requires lo < |tiles| ==> tiles[lo].free && tiles[lo].cells < need
    requires 4 * (need - SizeOf(tiles, lo, |tiles|)) <= room
    ensures Granted(tiles, need, room, Grant(Splice(tiles, lo, |tiles|, [Tile(need, false)]), lo))
  {
    var mid := [Tile(need, false)];
    if lo < |tiles| {
      assert TileOk(tiles[lo]);
    }
    FitsOne(tiles, lo, |tiles|, mid[0]);
    SpliceWellFormed(tiles, lo, |tiles|, mid);
    LiveGained(tiles, lo, |tiles|, mid);
    EndOfSplice(tiles, lo, |tiles|, mid);
    NotLive(tiles, lo, need);
  }

  /** malloc keeps the invariant, gives out a block that is large enough and disturbs no other live block. */
  lemma MallocGrants(tiles: Tiles, need: nat, room: nat)
    requires WellFormed(tiles) && TileOk(Tile(need, false)) && Malloc(tiles, need, room).Some?
    ensures Granted(tiles, need, room, Malloc(tiles, need, room).value)
  {
    var i, n := FirstFit(tiles, need, 0), |tiles|;
    if i < n {
      CarveGrants(tiles, need, i, room);
    } else if n > 0 && tiles[n - 1].free {
      assert TileOk(tiles[n - 1]);
      AppendGrants(tiles, need, n - 1, room);
    } else {
      AppendGrants(tiles, need, n, room);
    }
  }

  // ----- when malloc succeeds, and where -----

  /** The words of a free block at the end. */
  function FreeTail(tiles: Tiles): nat {
    if tiles != [] && tiles[|tiles| - 1].free then tiles[|tiles| - 1].cells else 0
  }

  /** No free block is large enough, and what a free block at the end lacks is more than the heap may grow. */
  ghost predicate Exhausted(tiles: Tiles, need: nat, room: nat) {
    && (forall i :: 0 <= i < |tiles| && tiles[i].free ==> tiles[i].cells < need)
    && 4 * (need - FreeTail(tiles)) > room
  }

  /** malloc refuses exactly in an exhausted heap. */
  lemma MallocRefuses(tiles: Tiles, need: nat, room: nat)
    ensures Malloc(tiles, need, room).None? <==> Exhausted(tiles, need, room)
  {
    var i := FirstFit(tiles, need, 0);
    assert i < |tiles| ==> tiles[i].free && tiles[i].cells >= need;
  }

  /** Block i is free and large enough, and no block before it is. */
  ghost predicate LowestFit(tiles: Tiles, need: nat, i: nat) {
    && i < |tiles| && tiles[i].free && tiles[i].cells >= need
    && forall k :: 0 <= k < i && tiles[k].free ==> tiles[k].cells < need
  }

  /**
   * If a free block is large enough, the lowest such block is used from its start on, whatever room there is: the heap
   * does not grow and at most one word is given out that was not asked for.
   */
  lemma MallocReuses(tiles: Tiles, need: nat, room: nat, i: nat)
    requires WellFormed(tiles) && LowestFit(tiles, need, i)
    ensures Malloc(tiles, need, room).Some?
    ensures var g := Malloc(tiles, need, room).value;
            && g.block < |g.tiles| && Cell(g.tiles, g.block) == Cell(tiles, i) && End(g.tiles) == End(tiles)
            && g.tiles[g.block].cells == if tiles[i].cells == need + 1 then need + 1 else need
  {
    var j := FirstFit(tiles, need, 0);
    assert j == i;
    CarvePlaces(tiles, need, i);
  }

  /** Otherwise the block is exactly as large as needed and lies at the end, over the free block there. */
  lemma MallocExtends(tiles: Tiles, need: nat, room: nat, g: Grant)
    requires WellFormed(tiles) && need >= 2 && Malloc(tiles, need, room) == Some(g)
    requires forall i :: 0 <= i < |tiles| && tiles[i].free ==> tiles[i].cells < need
    ensures g.block < |g.tiles| && g.tiles[g.block].cells == need
    ensures Cell(g.tiles, g.block) == End(tiles) - FreeTail(tiles)
    ensures End(g.tiles) == End(tiles) - FreeTail(tiles) + need
  {
    var n := |tiles|;
    var lo := if n > 0 && tiles[n - 1].free then n - 1 else n;
    FitsOne(tiles, lo, n, Tile(need, false));
  }

  lemma CarvePlaces(tiles: Tiles, need: nat, i: nat)
    requires WellFormed(tiles) && i < |tiles| && tiles[i].cells >= need
    ensures var g := Carve(tiles, need, i);
            && g.block < |g.tiles| && Cell(g.tiles, g.block) == Cell(tiles, i) && End(g.tiles) == End(tiles)
            && g.tiles[g.block].cells == if tiles[i].cells == need + 1 then need + 1 else need
  {
    var cells := tiles[i].cells;
    assert Cell(tiles, i + 1) == Cell(tiles, i) + cells;
    if cells < need + 2 {
      FitsOne(tiles, i, i + 1, Tile(cells, false));
      EndOfSplice(tiles, i, i + 1, [Tile(cells, false)]);
    } else {
      FitsTwo(tiles, i, i + 1, Tile(need, false), Tile(cells - need, true));
      EndOfSplice(tiles, i, i + 1, [Tile(need, false), Tile(cells - need, true)]);
    }
  }

  // ----- what free does to the live blocks -----

  lemma {:induction false} SizeOfIsSum(tiles: Tiles, lo: nat, hi: nat)
    requires WellFormed(tiles) && lo < hi <= |tiles| && hi <= lo + 3
    ensures SizeOf(tiles, lo, hi) >= 2
    ensures SizeOf(tiles, lo, hi) == tiles[lo].cells + (if lo + 1 < hi then tiles[lo + 1].cells else 0)
                                     + (if lo + 2 < hi then tiles[lo + 2].cells else 0)
  {
    assert TileOk(tiles[lo]);
    if lo + 1 < hi {
      assert TileOk(tiles[lo + 1]) && Cell(tiles, lo + 2) == Cell(tiles, lo + 1) + tiles[lo + 1].cells;
    }
    if lo + 2 < hi {
      assert TileOk(tiles[lo + 2]) && Cell(tiles, lo + 3) == Cell(tiles, lo + 2) + tiles[lo + 2].cells;
    }
  }

  lemma FreeWellFormed(tiles: Tiles, k: nat)
    requires WellFormed(tiles) && k < |tiles| && !tiles[k].free
    ensures WellFormed(Free(tiles, k)) && End(Free(tiles, k)) == End(tiles)
  {
    var lo, hi := MergeLow(tiles, k), MergeHigh(tiles, k);
    var t := Merged(tiles, lo, hi);
    SizeOfIsSum(tiles, lo, hi);
    FitsOne(tiles, lo, hi, t);
    if lo > 0 {
      assert !BothFree(tiles[lo - 1], tiles[lo]);
    }
    if hi < |tiles| {
      assert !BothFree(tiles[hi - 1], tiles[hi]);
    }
    SpliceWellFormed(tiles, lo, hi, [t]);
    EndOfSplice(tiles, lo, hi, [t]);
  }

  /** free makes exactly the one block no longer live. */
  lemma FreeLive(tiles: Tiles, k: nat)
    requires WellFormed(tiles) && k < |tiles| && !tiles[k].free
    ensures Live(Free(tiles, k)) == Live(tiles) - {Block(tiles, k)}
  {
    var lo, hi := MergeLow(tiles, k), MergeHigh(tiles, k);
    var t := Merged(tiles, lo, hi);
    SizeOfIsSum(tiles, lo, hi);
    FitsOne(tiles, lo, hi, t);
    LiveSplice(tiles, lo, hi, [t]);
    LiveInStep(Free(tiles, k), lo, lo + 1);
    LiveParts(tiles, lo, hi);
    OnlyLive(tiles, lo, k, hi);
    ElsewhereLive(tiles, lo, k, hi);
  }

  lemma OnlyLive(tiles: Tiles, lo: nat, k: nat, hi: nat)
    requires k < |tiles| && lo == MergeLow(tiles, k) && hi == MergeHigh(tiles, k) && !tiles[k].free
    ensures LiveIn(tiles, lo, hi) == {Block(tiles, k)}
  {
  }

  lemma ElsewhereLive(tiles: Tiles, lo: nat, k: nat, hi: nat)
    requires WellFormed(tiles) && lo <= k < hi <= |tiles|
    ensures Block(tiles, k) !in LiveIn(tiles, 0, lo) + LiveIn(tiles, hi, |tiles|)
  {
    forall i | 0 <= i < lo || hi <= i < |tiles|
      ensures Cell(tiles, i) != Cell(tiles, k)
    {
      if i < k { CellOrder(tiles, i, k); } else { CellOrder(tiles, k, i); }
    }
  }
}
