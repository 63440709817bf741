/** Laws of the heap over many calls, all consequences of the row being determined by its live blocks. */
module HeapLaws {
  import opened Prelude
  import opened HeapTiles
  import opened HeapSpec

  // ----- freeing by block -----

  ghost function FreeBlock(tiles: Tiles, b: (nat, nat)): Tiles
    requires b in Live(tiles)
  {
    var i :| 0 <= i < |tiles| && InUse(tiles, i) && Block(tiles, i) == b;
    Free(tiles, i)
  }

  lemma FreeBlockKeeps(tiles: Tiles, b: (nat, nat))
    requires WellFormed(tiles) && b in Live(tiles)
    ensures var r := FreeBlock(tiles, b);
            WellFormed(r) && End(r) == End(tiles) && Live(r) == Live(tiles) - {b}
  {
    var i :| 0 <= i < |tiles| && InUse(tiles, i) && Block(tiles, i) == b && FreeBlock(tiles, b) == Free(tiles, i);
    FreeWellFormed(tiles, i);
    FreeLive(tiles, i);
  }

  /** A list of different live blocks, in the order they are to be freed. */
  ghost predicate FreeOrder(tiles: Tiles, order: seq<(nat, nat)>) {
    && (forall b :: b in order ==> b in Live(tiles))
    && (forall i, j :: 0 <= i < j < |order| ==> order[i] != order[j])
  }

  ghost function FreeAll(tiles: Tiles, order: seq<(nat, nat)>): Tiles
    requires WellFormed(tiles) && FreeOrder(tiles, order)
    decreases |order|
  {
    if order == [] then tiles
    else
      FreeBlockKeeps(tiles, order[0]);
      FreeAll(FreeBlock(tiles, order[0]), order[1..])
  }

  lemma {:induction false} FreeAllKeeps(tiles: Tiles, order: seq<(nat, nat)>)
    requires WellFormed(tiles) && FreeOrder(tiles, order)
    ensures var r := FreeAll(tiles, order);
            WellFormed(r) && End(r) == End(tiles) && Live(r) == Live(tiles) - (set b | b in order)
    decreases |order|
  {
    if order != [] {
      FreeBlockKeeps(tiles, order[0]);
      FreeAllKeeps(FreeBlock(tiles, order[0]), order[1..]);
      assert (set b | b in order) == {order[0]} + (set b | b in order[1..]);
    }
  }

  /** Freeing the same blocks in any order gives the same heap. */
  lemma FreeOrderDoesNotMatter(tiles: Tiles, order: seq<(nat, nat)>, other: seq<(nat, nat)>)
    requires WellFormed(tiles) && FreeOrder(tiles, order) && FreeOrder(tiles, other)
    requires (set b | b in order) == (set b | b in other)
    ensures FreeAll(tiles, order) == FreeAll(tiles, other)
  {
    FreeAllKeeps(tiles, order);
    FreeAllKeeps(tiles, other);
    Canonical(FreeAll(tiles, order), FreeAll(tiles, other));
  }

  /** Freeing every live block leaves a single free block that covers the whole heap. */
  lemma FreeEverything(tiles: Tiles, order: seq<(nat, nat)>)
    requires WellFormed(tiles) && tiles != [] && FreeOrder(tiles, order) && (set b | b in order) == Live(tiles)
    ensures FreeAll(tiles, order) == [Tile(End(tiles), true)]
  {
    FreeAllKeeps(tiles, order);
    CellOrder(tiles, 0, |tiles|);
    var one := [Tile(End(tiles), true)];
    assert Cell(one, 1) == Cell(one, 0) + one[0].cells;
    assert Live(one) == {};
    Canonical(FreeAll(tiles, order), one);
  }

  // ----- free undoes malloc -----

  /** The row with its free space at the end enlarged by `cells` words. */
  function Grow(tiles: Tiles, cells: nat): Tiles {
    var n := |tiles|;
    if cells == 0 then tiles
    else if n > 0 && tiles[n - 1].free then Splice(tiles, n - 1, n, [Tile(tiles[n - 1].cells + cells, true)])
    else Splice(tiles, n, n, [Tile(cells, true)])
  }

  lemma FreeTail(tiles: Tiles, lo: nat, t: Tile)
    requires WellFormed(tiles) && TileOk(t) && t.free && lo <= |tiles| <= lo + 1 && (lo < |tiles| ==> tiles[lo].free)
    requires lo == |tiles| > 0 ==> !tiles[lo - 1].free
    ensures var r := Splice(tiles, lo, |tiles|, [t]);
            WellFormed(r) && End(r) == Cell(tiles, lo) + t.cells && Live(r) == Live(tiles)
  {
    var n := |tiles|;
    if 0 < lo < n { assert !BothFree(tiles[lo - 1], tiles[lo]); }
    FitsOne(tiles, lo, n, t);
    SpliceWellFormed(tiles, lo, n, [t]);
    EndOfSplice(tiles, lo, n, [t]);
    FreeTailLive(tiles, lo, t);
  }

  lemma FreeTailLive(tiles: Tiles, lo: nat, t: Tile)
    requires t.free && lo <= |tiles| <= lo + 1 && (lo < |tiles| ==> tiles[lo].free)
    ensures Live(Splice(tiles, lo, |tiles|, [t])) == Live(tiles)
  {
    var n := |tiles|;
    FitsOne(tiles, lo, n, t);
    LiveSplice(tiles, lo, n, [t]);
    LiveParts(tiles, lo, n);
    LiveInStep(Splice(tiles, lo, n, [t]), lo, lo + 1);
    if lo < n { LiveInStep(tiles, lo, n); }
  }

  lemma GrowKeeps(tiles: Tiles, cells: nat)
    requires WellFormed(tiles) && (cells == 0 || cells >= 2 || (tiles != [] && tiles[|tiles| - 1].free))
    ensures var r := Grow(tiles, cells);
            WellFormed(r) && End(r) == End(tiles) + cells && Live(r) == Live(tiles)
  {
    var n := |tiles|;
    if cells != 0 {
      if n > 0 && tiles[n - 1].free {
        assert TileOk(tiles[n - 1]);
        FreeTail(tiles, n - 1, Tile(tiles[n - 1].cells + cells, true));
      } else {
        FreeTail(tiles, n, Tile(cells, true));
      }
    }
  }

  /** How much a successful malloc moves the end. */
  lemma MallocGrowth(tiles: Tiles, need: nat, room: nat)
    requires WellFormed(tiles) && need >= 2 && Malloc(tiles, need, room).Some?
    ensures var grown := End(Malloc(tiles, need, room).value.tiles) - End(tiles);
            grown == 0 || grown == need || (tiles != [] && tiles[|tiles| - 1].free && 0 < grown < need)
  {
    var i, n := FirstFit(tiles, need, 0), |tiles|;
    MallocGrants(tiles, need, room);
    if i < n {
      CarvePlaces(tiles, need, i);
    } else {
      var lo := if n > 0 && tiles[n - 1].free then n - 1 else n;
      if lo < n { assert TileOk(tiles[lo]); }
      FitsOne(tiles, lo, n, Tile(need, false));
    }
  }

  lemma FreeUndoesGrant(tiles: Tiles, need: nat, room: nat, g: Grant, grown: nat)
    requires WellFormed(tiles) && Granted(tiles, need, room, g) && grown == End(g.tiles) - End(tiles)
    requires grown == 0 || grown >= 2 || (tiles != [] && tiles[|tiles| - 1].free)
    ensures Free(g.tiles, g.block) == Grow(tiles, grown)
  {
    FreeWellFormed(g.tiles, g.block);
    FreeLive(g.tiles, g.block);
    GrowKeeps(tiles, grown);
    assert Live(g.tiles) - {Block(g.tiles, g.block)} == Live(tiles);
    Canonical(Free(g.tiles, g.block), Grow(tiles, grown));
  }

  /** Freeing what was just allocated restores the heap, up to the growth of its end. */
  lemma FreeUndoesMalloc(tiles: Tiles, need: nat, room: nat, g: Grant)
    requires WellFormed(tiles) && need >= 2 && Malloc(tiles, need, room) == Some(g)
    ensures g.block < |g.tiles| && End(tiles) <= End(g.tiles)
    ensures Free(g.tiles, g.block) == Grow(tiles, End(g.tiles) - End(tiles))
  {
    hide WellFormed, Malloc, HeapSpec.Free, Grow, End;
    assert TileOk(Tile(need, false));
    MallocGrants(tiles, need, room);
    MallocGrowth(tiles, need, room);
    FreeUndoesGrant(tiles, need, room, g, End(g.tiles) - End(tiles));
  }

  // ----- any run of calls -----

  /** A call: a request of some bytes, or the release of a block. */
  datatype Call = Allocate(sz: Word) | Release(block: (nat, nat))

  /** The calls malloc.c is for: requests whose real size does not wrap around, and releases of live blocks. */
  ghost predicate Allowed(tiles: Tiles, call: Call) {
    match call
    case Allocate(sz) => sz <= MAX_REQUEST
    case Release(b) => b in Live(tiles)
  }

  /** The row after a call, in a heap that may grow to `most` words. */
  ghost function After(tiles: Tiles, call: Call, most: nat): Tiles
    requires End(tiles) <= most && Allowed(tiles, call)
  {
    match call
    case Allocate(sz) =>
      var g := Malloc(tiles, RealSize(sz) / 4, 4 * (most - End(tiles)));
      if g.Some? then g.value.tiles else tiles
    case Release(b) => FreeBlock(tiles, b)
  }

  lemma AfterKeeps(tiles: Tiles, call: Call, most: nat)
    requires WellFormed(tiles) && End(tiles) <= most && Allowed(tiles, call)
    ensures WellFormed(After(tiles, call, most)) && End(tiles) <= End(After(tiles, call, most)) <= most
    ensures forall b :: b in Live(tiles) && call != Release(b) ==> b in Live(After(tiles, call, most))
  {
    match call
    case Allocate(sz) =>
      RealSizeCovers(sz);
      var room := 4 * (most - End(tiles));
      if Malloc(tiles, RealSize(sz) / 4, room).Some? {
        MallocGrants(tiles, RealSize(sz) / 4, room);
      }
    case Release(b) => FreeBlockKeeps(tiles, b);
  }

  ghost predicate Reaches(tiles: Tiles, calls: seq<Call>, most: nat, last: Tiles)
    decreases |calls|
  {
    if calls == [] then tiles == last
    else End(tiles) <= most && Allowed(tiles, calls[0]) && Reaches(After(tiles, calls[0], most), calls[1..], most, last)
  }

  /** Over any run of calls the heap stays well formed and within its limit, and no unreleased block is lost. */
  lemma {:induction false} RunKeeps(tiles: Tiles, calls: seq<Call>, most: nat, last: Tiles)
    requires WellFormed(tiles) && End(tiles) <= most && Reaches(tiles, calls, most, last)
    ensures WellFormed(last) && End(tiles) <= End(last) <= most
    ensures forall b :: b in Live(tiles) && Release(b) !in calls ==> b in Live(last)
    decreases |calls|
  {
    if calls != [] {
      AfterKeeps(tiles, calls[0], most);
      RunKeeps(After(tiles, calls[0], most), calls[1..], most, last);
      assert forall c :: c !in calls ==> c != calls[0] && c !in calls[1..];
    }
  }
}
