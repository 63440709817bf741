/**
 * malloc and free of src/libc/malloc.c:129-275, as compiled there (growing upwards), over a word-addressed
 * memory with real headers and list pointers.
 */
module Heap {
  import opened Prelude
  import opened HeapTiles
  import opened HeapSpec
  import opened HeapMemory

  /** `MALLOC_MINIMUM_GAP` */
  const GAP := 32

  /** A null pointer; as the address of a list pointer, that of `__malloc_freelist` itself. */
  const NULL := 0

  class Allocator {
    /** The words from START up to the stack limit. */
    const mem: array<int>
    /** `MALLOC_LIMIT`, fixed. */
    const limit: nat
    /** `__malloc_end` */
    var end: int
    /** `__malloc_freelist` */
    var freelist: int
    /** The blocks that fill the heap. */
    ghost var tiles: Tiles

    ghost predicate Valid()
      reads this, mem
    {
      && WellFormed(tiles)
      && Represents(mem[..], freelist, tiles)
      && Bounded()
    }

    ghost predicate Bounded()
      reads this
    {
      end == AddrOf(End(tiles)) && end + GAP <= limit == START + 4 * mem.Length && limit < TWO_TO_32
    }

    constructor (words: nat)
      requires GAP <= 4 * words < TWO_TO_32 - START
      ensures Valid() && tiles == [] && fresh(mem) && limit == START + 4 * words
    {
      mem := new int[words](_ => 0);
      limit := START + 4 * words;
      end := START;
      freelist := NULL;
      tiles := [];
    }

    /** CAN_ALLOC_P, in unsigned arithmetic. */
    predicate CanAlloc(required: Word)
      reads this
    {
      Wrap(limit - end - GAP) >= required
    }

    /** `*nextfree` */
    function Load(nextfree: int): int
      requires nextfree == NULL || 0 <= CellAt(nextfree) < mem.Length
      reads this, mem
    {
      if nextfree == NULL then freelist else mem[CellAt(nextfree)]
    }

    /** `*nextfree = block` */
    method Store(nextfree: int, block: int)
      requires nextfree == NULL || 0 <= CellAt(nextfree) < mem.Length
      modifies this`freelist, mem
      ensures nextfree == NULL ==> freelist == block && mem[..] == old(mem[..])
      ensures nextfree != NULL ==> freelist == old(freelist) && mem[..] == old(mem[..])[CellAt(nextfree) := block]
    {
      if nextfree == NULL {
        freelist := block;
      } else {
        mem[CellAt(nextfree)] := block;
      }
    }

    // ----- walking the list -----

    /** nextfree is the address of the pointer after block p: the one that leads to the blocks after it. */
    ghost predicate At(nextfree: int, p: int)
      reads this
    {
      && p < |tiles|
      && (p < 0 ==> nextfree == NULL)
      && (p >= 0 ==> tiles[p].free && nextfree == AddrOf(Cell(tiles, p) + 1))
    }

    lemma AtLoads(nextfree: int, p: int)
      requires Valid() && -1 <= p && At(nextfree, p)
      ensures nextfree == NULL || 0 <= CellAt(nextfree) < mem.Length
      ensures Load(nextfree) == NextPtr(tiles, p + 1)
    {
      if p >= 0 {
        assert HeaderOk(mem[..], tiles, p);
      }
    }

    /** A non-null list pointer leads to the first free block from there on, whose header is in place. */
    lemma PointsTo(p: int, block: int)
      requires Valid() && -1 <= p < |tiles| && block == NextPtr(tiles, p + 1) != NULL
      ensures var j := FreeFrom(tiles, p + 1);
              && j < |tiles| && tiles[j].free && block == AddrOf(Cell(tiles, j)) && CellAt(block) == Cell(tiles, j)
              && Cell(tiles, j) + 1 < mem.Length && mem[Cell(tiles, j)] == 4 * tiles[j].cells
              && mem[Cell(tiles, j) + 1] == NextPtr(tiles, j + 1)
    {
      var j := FreeFrom(tiles, p + 1);
      assert HeaderOk(mem[..], tiles, j);
    }

    // ----- free -----

    /** The block that starts at `block` is block k, in use. */
    ghost predicate IsBlock(block: int, k: nat)
      reads this
    {
      InUse(tiles, k) && block == AddrOf(Cell(tiles, k))
    }

    lemma HeaderOf(block: int, k: nat)
      requires Valid() && IsBlock(block, k)
      ensures CellAt(block) == Cell(tiles, k) && Cell(tiles, k) + 1 < mem.Length
      ensures mem[Cell(tiles, k)] == 4 * tiles[k].cells && Cell(tiles, k + 1) == Cell(tiles, k) + tiles[k].cells
    {
      assert HeaderOk(mem[..], tiles, k);
    }

    /** How the free block j lies to block k: just before it, just behind it, or beyond. */
    lemma Compare(j: nat, k: nat)
      requires WellFormed(tiles) && j < |tiles| && k < |tiles| && j != k
      ensures Cell(tiles, j) + tiles[j].cells == Cell(tiles, k) <==> j + 1 == k
      ensures Cell(tiles, k) + tiles[k].cells == Cell(tiles, j) <==> k + 1 == j
      ensures Cell(tiles, j) > Cell(tiles, k) <==> j > k
    {
      assert TileOk(tiles[j]) && TileOk(tiles[k]);
      if j < k {
        CellOrder(tiles, j, k);
        if j + 1 < k { CellOrder(tiles, j + 1, k); }
      } else {
        CellOrder(tiles, k, j);
        if k + 1 < j { CellOrder(tiles, k + 1, j); }
      }
    }

    /** The loop of free: looks for a free block next to block k, or the place for it in the list. */
    method FindNeighbour(block: int, ghost k: nat)
      returns (where: Neighbour, nextfree: int, thisblock: int, ghost p: int, ghost j: nat)
      requires Valid() && IsBlock(block, k)
      ensures -1 <= p < k && p < |tiles| && At(nextfree, p)
      ensures where == Apart ==> LastFree(tiles, k, p) && MergeLow(tiles, k) == k && MergeHigh(tiles, k) == k + 1
      ensures where != Apart ==> j < |tiles| && tiles[j].free && thisblock == AddrOf(Cell(tiles, j))
      ensures where == Before ==> j + 1 == k && LastFree(tiles, j, p)
      ensures where == Behind ==> j == k + 1 && LastFree(tiles, k, p) && MergeLow(tiles, k) == k
    {
      nextfree, p, j, thisblock := NULL, -1, 0, NULL;
      HeaderOf(block, k);
      AtLoads(nextfree, p);
      while Load(nextfree) != NULL
        invariant -1 <= p < k && (p == -1 || p < k - 1) && At(nextfree, p)
        invariant nextfree == NULL || 0 <= CellAt(nextfree) < mem.Length
        invariant Load(nextfree) == NextPtr(tiles, p + 1)
        decreases k - p
      {
        thisblock := Load(nextfree);
        PointsTo(p, thisblock);
        j := FreeFrom(tiles, p + 1);
        Compare(j, k);
        if thisblock + mem[CellAt(thisblock)] == block {
          return Before, nextfree, thisblock, p, j;
        } else if thisblock == block + mem[CellAt(block)] {
          return Behind, nextfree, thisblock, p, j;
        } else if thisblock > block {
          break;
        }
        nextfree, p := thisblock + 4, j;
        AtLoads(nextfree, p);
      }
      where := Apart;
    }

    ghost method BecomeFree(m: seq<int>, head: int, k: nat, p: int)
      requires InUse(tiles, k) && WellFormed(tiles) && Bounded() && Represents(m, head, tiles)
      requires Joined(m, head, mem[..], freelist, tiles, k, p)
      modifies this`tiles
      ensures Valid() && tiles == HeapSpec.Free(old(tiles), k) && KeepsLive(m, mem[..], old(tiles), k)
    {
      FreeWellFormed(tiles, k);
      JoinedIsFree(m, head, mem[..], freelist, tiles, k, p);
      tiles := HeapSpec.Free(tiles, k);
    }

    /** The free block before block k takes it in, and the free block behind it as well if there is one. */
    method MergeBefore(block: int, thisblock: int, ghost k: nat, ghost p: int)
      requires Valid() && IsBlock(block, k) && k > 0 && tiles[k - 1].free && thisblock == AddrOf(Cell(tiles, k - 1))
      requires LastFree(tiles, k - 1, p)
      modifies this, mem
      ensures Valid() && tiles == HeapSpec.Free(old(tiles), k) && end == old(end)
      ensures KeepsLive(old(mem[..]), mem[..], old(tiles), k)
    {
      ghost var m := mem[..];
      HeaderOf(block, k);
      MergeHeaders(m, freelist, tiles, k, p);
      MergeStoresJoin(m, freelist, tiles, k, p);
      NextIsBehind(block, k);
      MergeWords(block, thisblock, Cell(tiles, k - 1), Cell(tiles, k), BehindAt(tiles, k));
      BecomeFree(m, freelist, k, p);
    }

    /** The stores of the merge. */
    method MergeWords(block: int, thisblock: int, ghost c: nat, ghost b: nat, ghost n: int)
      requires c + 2 <= b < mem.Length && (n == -1 || b < n < mem.Length - 1)
      requires thisblock == AddrOf(c) && block == AddrOf(b)
      requires mem[c + 1] != NULL && block + mem[b] == mem[c + 1] <==> n != -1
      requires n != -1 ==> CellAt(mem[c + 1]) == n
      modifies mem
      ensures mem[..] == MergeStores(old(mem[..]), c, b, n)
    {
      var this', block' := CellAt(thisblock), CellAt(block);
      var next := mem[this' + 1];
      mem[this'] := mem[this'] + mem[block'];
      if next != NULL && block + mem[block'] == next {
        mem[this'] := mem[this'] + mem[CellAt(next)];
        mem[this' + 1] := mem[CellAt(next) + 1];
      }
    }

    /** The next free block after block k starts where block k ends just if it is the one behind it. */
    lemma NextIsBehind(block: int, k: nat)
      requires Valid() && IsBlock(block, k)
      ensures var next := NextPtr(tiles, k + 1);
              && (next != NULL && block + 4 * tiles[k].cells == next <==> k + 1 < |tiles| && tiles[k + 1].free)
              && (k + 1 < |tiles| && tiles[k + 1].free ==> CellAt(next) == Cell(tiles, k + 1))
    {
      var j := FreeFrom(tiles, k + 1);
      if j < |tiles| {
        Compare(j, k);
      }
    }

    /** The free block behind block k is taken in by it, and it takes that block's place in the list. */
    method MergeBehind(block: int, thisblock: int, nextfree: int, ghost k: nat, ghost p: int)
      requires Valid() && IsBlock(block, k) && MergeLow(tiles, k) == k
      requires k + 1 < |tiles| && tiles[k + 1].free && thisblock == AddrOf(Cell(tiles, k + 1))
      requires -1 <= p && At(nextfree, p) && LastFree(tiles, k, p)
      modifies this, mem
      ensures Valid() && tiles == HeapSpec.Free(old(tiles), k) && end == old(end)
      ensures KeepsLive(old(mem[..]), mem[..], old(tiles), k)
    {
      ghost var m, head := mem[..], freelist;
      HeaderOf(block, k);
      LinkInMemory(m, head, tiles, p, k);
      PointsTo(p, thisblock);
      SizeOfIsSum(tiles, k, k + 2);
      var block' := CellAt(block);
      mem[block'] := mem[block'] + mem[CellAt(thisblock)];
      mem[block' + 1] := mem[CellAt(thisblock) + 1];
      Store(nextfree, block);
      BecomeFree(m, head, k, p);
    }

    /** Block k joins the list between the free blocks around it. */
    method Insert(block: int, nextfree: int, ghost k: nat, ghost p: int)
      requires Valid() && IsBlock(block, k) && MergeLow(tiles, k) == k && MergeHigh(tiles, k) == k + 1
      requires -1 <= p && At(nextfree, p) && LastFree(tiles, k, p)
      modifies this, mem
      ensures Valid() && tiles == HeapSpec.Free(old(tiles), k) && end == old(end)
      ensures KeepsLive(old(mem[..]), mem[..], old(tiles), k)
    {
      ghost var m, head := mem[..], freelist;
      HeaderOf(block, k);
      AtLoads(nextfree, p);
      LinkInMemory(m, head, tiles, p, k);
      SizeOfIsSum(tiles, k, k + 1);
      mem[CellAt(block) + 1] := Load(nextfree);
      Store(nextfree, block);
      BecomeFree(m, head, k, p);
    }

    /** free. A pointer to anything but a block in use is outside its contract; a null pointer is ignored. */
    method Free(block_p: int, ghost k: nat)
      requires Valid() && (block_p != NULL ==> IsBlock(block_p - 4, k))
      modifies this, mem
      ensures Valid() && end == old(end)
      ensures tiles == if block_p == NULL then old(tiles) else HeapSpec.Free(old(tiles), k)
      ensures KeepsLive(old(mem[..]), mem[..], old(tiles), if block_p == NULL then -1 else k)
    {
      var block := block_p - 4;
      if block_p == NULL { return; }
      var where, nextfree, thisblock;
      ghost var p: int, j: int;
      where, nextfree, thisblock, p, j := FindNeighbour(block, k);
      match where
      case Before => MergeBefore(block, thisblock, k, p);
      case Behind => MergeBehind(block, thisblock, nextfree, k, p);
      case Apart => Insert(block, nextfree, k, p);
    }

    // ----- malloc -----

    /** The loop of malloc: looks for the first block that is large enough, or the last one if it can grow. */
    method FindBlock(realSize: int, ghost need: nat)
      returns (where: Place, nextfree: int, block: int, ghost p: int, ghost j: nat)
      requires Valid() && realSize == 4 * need
      ensures where == Fresh ==> FirstFit(tiles, need, 0) == |tiles| && (tiles == [] || !tiles[|tiles| - 1].free)
      ensures where != Fresh ==> Found(nextfree, block, p, j)
      ensures where == Fit ==> FirstFit(tiles, need, 0) == j
      ensures where == Last ==> FirstFit(tiles, need, 0) == |tiles| == j + 1
    {
      nextfree, p, j, block := NULL, -1, 0, NULL;
      AtLoads(nextfree, p);
      while Load(nextfree) != NULL
        invariant -1 <= p < |tiles| && (p == -1 || p < |tiles| - 1) && At(nextfree, p)
        invariant nextfree == NULL || 0 <= CellAt(nextfree) < mem.Length
        invariant Load(nextfree) == NextPtr(tiles, p + 1)
        invariant forall i :: 0 <= i <= p ==> !(tiles[i].free && tiles[i].cells >= need)
        decreases |tiles| - p
      {
        block := Load(nextfree);
        PointsTo(p, block);
        j := FreeFrom(tiles, p + 1);
        if mem[CellAt(block)] >= realSize {
          FirstFitIs(tiles, need, j);
          return Fit, nextfree, block, p, j;
        }
        EndsHeap(j);
        if mem[CellAt(block) + 1] == NULL && end == block + mem[CellAt(block)] {
          FirstFitIs(tiles, need, |tiles|);
          return Last, nextfree, block, p, j;
        }
        nextfree, p := block + 4, j;
        AtLoads(nextfree, p);
      }
      FirstFitIs(tiles, need, |tiles|);
      where := Fresh;
    }

    /** A block reaches the end of the heap just if it is the last. */
    lemma EndsHeap(j: nat)
      requires Valid() && j < |tiles|
      ensures end == AddrOf(Cell(tiles, j)) + 4 * tiles[j].cells <==> j + 1 == |tiles|
      ensures j + 1 == |tiles| ==> NextPtr(tiles, j + 1) == NULL
    {
      assert Cell(tiles, j + 1) == Cell(tiles, j) + tiles[j].cells;
      if j + 1 < |tiles| {
        CellOrder(tiles, j + 1, |tiles|);
      }
    }

    /** A free block found on the list, with what leads to it. */
    ghost predicate Found(nextfree: int, block: int, p: int, j: nat)
      reads this
    {
      j < |tiles| && tiles[j].free && block == AddrOf(Cell(tiles, j)) && LastFree(tiles, j, p) && At(nextfree, p)
    }

    lemma FoundInMemory(nextfree: int, block: int, p: int, j: nat)
      requires Valid() && Found(nextfree, block, p, j)
      ensures nextfree == NULL || 0 <= CellAt(nextfree) < Cell(tiles, j)
      ensures CellAt(block) == Cell(tiles, j) && Cell(tiles, j) + tiles[j].cells <= mem.Length && tiles[j].cells >= 2
      ensures mem[Cell(tiles, j)] == 4 * tiles[j].cells && mem[Cell(tiles, j) + 1] == NextPtr(tiles, j + 1)
      ensures j + 1 < |tiles| ==> Cell(tiles, j) + 2 <= Cell(tiles, j) + tiles[j].cells == Cell(tiles, j + 1)
    {
      assert HeaderOk(mem[..], tiles, j) && TileOk(tiles[j]);
      CellOrder(tiles, j, |tiles|);
      if p >= 0 { CellOrder(tiles, p, j); }
    }

    /** Removes a block from the list as it is. */
    method TakeWhole(nextfree: int, block: int, ghost p: int, ghost j: nat)
      requires Valid() && Found(nextfree, block, p, j)
      modifies this`freelist, mem
      ensures Taken(old(mem[..]), old(freelist), mem[..], freelist, tiles, j, p, tiles[j].cells)
    {
      FoundInMemory(nextfree, block, p, j);
      Store(nextfree, mem[CellAt(block) + 1]);
    }

    /** Splits a block; what is promised needs the first part to be large enough for a header. */
    method TakePart(realSize: int, nextfree: int, block: int, ghost need: nat, ghost p: int, ghost j: nat)
      requires Valid() && realSize == 4 * need && Found(nextfree, block, p, j) && tiles[j].cells >= need + 2
      modifies this`freelist, mem
      ensures CellAt(block) == Cell(tiles, j) < mem.Length && mem[Cell(tiles, j)] == realSize
      ensures need >= 2 ==> Split(old(mem[..]), old(freelist), mem[..], freelist, tiles, j, p, need)
      ensures need == 0 && nextfree == NULL ==> freelist == block && mem[..] == old(mem[..])[CellAt(block) := 0]
    {
      FoundInMemory(nextfree, block, p, j);
      ghost var m, head := mem[..], freelist;
      SplitWords(realSize, nextfree, block, need);
      if need >= 2 {
        SplitStoresSplit(m, head, freelist, tiles, j, p, need, mem[..]);
      }
      if need == 0 && nextfree == NULL {
        SplitNothing(m, CellAt(block));
      }
    }

    static lemma SplitNothing(m: seq<int>, c: nat)
      requires c + 1 < |m|
      ensures SplitStores(m, -1, c, 0) == m[c := 0]
    {
    }

    /** The stores of the split; the rest of the block starts where the first part ends. */
    method SplitWords(realSize: int, nextfree: int, block: int, ghost n: nat)
      requires nextfree == NULL || 0 <= CellAt(nextfree) < CellAt(block)
      requires realSize == 4 * n && 0 <= CellAt(block) && CellAt(block) + n + 1 < mem.Length
      requires block == AddrOf(CellAt(block))
      modifies this`freelist, mem
      ensures mem[..] == SplitStores(old(mem[..]), if nextfree == NULL then -1 else CellAt(nextfree), CellAt(block), n)
      ensures freelist == if nextfree == NULL then block + realSize else old(freelist)
    {
      var c := CellAt(block);
      var newsize := mem[c] - realSize;
      var newnext := mem[c + 1];
      Store(nextfree, block + realSize);
      var rest := CellAt(block + realSize);
      mem[rest] := newsize;
      mem[rest + 1] := newnext;
      mem[c] := realSize;
    }

    // ----- the three outcomes -----

    /** Takes the block that fits. */
    method Reuse(realSize: int, nextfree: int, block: int, ghost need: nat, ghost p: int, ghost j: nat)
      requires Valid() && realSize == 4 * need && Found(nextfree, block, p, j) && tiles[j].cells >= need
      modifies this, mem
      ensures need >= 2 ==> Valid() && KeepsLive(old(mem[..]), mem[..], old(tiles), -1) && end == old(end)
      ensures need >= 2 ==> tiles == Carve(old(tiles), need, j).tiles
      ensures 0 <= CellAt(block) < mem.Length && (mem[CellAt(block)] < 12 <== need < 2)
      ensures need == 0 && nextfree == NULL ==>
                freelist == block && end == old(end) && mem[..] == old(mem[..])[CellAt(block) := 0]
    {
      ghost var m, head := mem[..], freelist;
      FoundInMemory(nextfree, block, p, j);
      if need >= 2 { CarveGrants(tiles, need, j, 0); }
      if mem[CellAt(block)] < realSize + ENTRY {
        TakeWhole(nextfree, block, p, j);
        if need >= 2 { TakenWhole(m, head, mem[..], freelist, tiles, j, p, tiles[j].cells); }
      } else {
        TakePart(realSize, nextfree, block, need, p, j);
        if need >= 2 { SplitIsCarve(m, head, mem[..], freelist, tiles, j, p, need); }
      }
      tiles := Carve(tiles, need, j).tiles;
    }

    /** Enlarges the last block, which is free, and takes it. */
    method Enlarge(realSize: int, nextfree: int, block: int, ghost need: nat, ghost p: int, ghost j: nat)
      requires Valid() && realSize == 4 * need && Found(nextfree, block, p, j) && tiles[j].cells < need
      requires j + 1 == |tiles| && realSize - 4 * tiles[j].cells <= limit - end - GAP
      modifies this, mem
      ensures Valid() && KeepsLive(old(mem[..]), mem[..], old(tiles), -1) && CellAt(block) == Cell(old(tiles), j)
      ensures tiles == Splice(old(tiles), j, j + 1, [Tile(need, false)])
    {
      ghost var m, head := mem[..], freelist;
      FoundInMemory(nextfree, block, p, j);
      EndsHeap(j);
      AppendGrants(tiles, need, j, limit - end - GAP);
      FitsOne(tiles, j, j + 1, Tile(need, false));
      Store(nextfree, NULL);
      end := block + realSize;
      mem[CellAt(block)] := realSize;
      TakenWhole(m, head, mem[..], freelist, tiles, j, p, need);
      tiles := Splice(tiles, j, j + 1, [Tile(need, false)]);
    }

    /** Takes new space at the end of the heap. */
    method Append(realSize: int, ghost need: nat) returns (block: int)
      requires Valid() && realSize == 4 * need && realSize <= limit - end - GAP
      requires tiles == [] || !tiles[|tiles| - 1].free
      modifies this, mem
      ensures block == AddrOf(End(old(tiles))) && CellAt(block) < mem.Length && mem[CellAt(block)] == realSize
      ensures need >= 2 ==> Valid() && KeepsLive(old(mem[..]), mem[..], old(tiles), -1)
      ensures need >= 2 ==> tiles == Splice(old(tiles), |old(tiles)|, |old(tiles)|, [Tile(need, false)])
      ensures block == old(end) && end == block + realSize && freelist == old(freelist)
      ensures mem[..] == old(mem[..])[CellAt(block) := realSize]
    {
      ghost var m, n, p := mem[..], |tiles|, LastFreeOf(tiles, |tiles|);
      block := end;
      end := end + realSize;
      mem[CellAt(block)] := realSize;
      if need >= 2 {
        AppendGrants(tiles, need, n, realSize);
        FitsOne(tiles, n, n, Tile(need, false));
        LinkInMemory(m, freelist, tiles, p, n);
        TakenWhole(m, freelist, mem[..], freelist, tiles, n, p, need);
        tiles := Splice(tiles, n, n, [Tile(need, false)]);
      }
    }

    /** What malloc has done to the row of blocks and what it returns. */
    ghost predicate Outcome(before: Tiles, need: nat, room: nat, ptr: int)
      reads this
    {
      match HeapSpec.Malloc(before, need, room)
      case None => ptr == NULL && tiles == before
      case Some(g) => ptr == AddrOf(Cell(g.tiles, g.block)) + 4 && tiles == g.tiles
    }

    /**
     * What happens when the real size has wrapped around to nothing: the first free block, or the end of the heap, is
     * handed out and stays free, with a header that says it is empty.
     */
    twostate predicate GivesNothing(ptr: int)
      reads this, mem
    {
      var block := if old(freelist) != NULL then old(freelist) else old(end);
      && ptr == block + 4 != NULL && freelist == old(freelist) && end == old(end)
      && 0 <= CellAt(block) < mem.Length && CellAt(ptr) - 1 == CellAt(block)
      && mem[..] == old(mem[..])[CellAt(block) := 0]
    }

    /** The header in front of a returned pointer. */
    ghost predicate Returned(ptr: int, header: int)
      reads this, mem
    {
      ptr == NULL || (0 <= CellAt(ptr) - 1 < mem.Length && mem[CellAt(ptr) - 1] == header)
    }

    method MallocFit(realSize: int, nextfree: int, block: int, ghost need: nat, ghost p: int, ghost j: nat)
      returns (ptr: int, ghost header: int)
      requires Valid() && realSize == 4 * need && Found(nextfree, block, p, j) && FirstFit(tiles, need, 0) == j
      modifies this, mem
      ensures need >= 2 ==> Valid() && KeepsLive(old(mem[..]), mem[..], old(tiles), -1)
      ensures need >= 2 ==> Outcome(old(tiles), need, old(limit - end - GAP), ptr) && header >= realSize
      ensures need < 2 ==> header < 12
      ensures need == 0 ==> GivesNothing(ptr)
      ensures Returned(ptr, header)
    {
      ghost var before := tiles;
      FoundInMemory(nextfree, block, p, j);
      if need == 0 {
        FirstOnList(nextfree, block, p, j);
      }
      Reuse(realSize, nextfree, block, need, p, j);
      header := mem[CellAt(block)];
      ptr := block + 4;
      if need >= 2 {
        CarvedHeader(before, need, j);
        HeaderIs(j);
      }
    }

    /** When anything fits, the first free block does. */
    lemma FirstOnList(nextfree: int, block: int, p: int, j: nat)
      requires Valid() && Found(nextfree, block, p, j) && FirstFit(tiles, 0, 0) == j
      ensures nextfree == NULL && freelist == block != NULL
    {
      var k := FreeFrom(tiles, 0);
    }

    lemma NothingOnList()
      requires Valid() && FirstFit(tiles, 0, 0) == |tiles|
      ensures freelist == NULL
    {
      var k := FreeFrom(tiles, 0);
    }

    lemma CarvedHeader(before: Tiles, need: nat, j: nat)
      requires j < |before| && before[j].cells >= need
      ensures var g := Carve(before, need, j);
              j < |g.tiles| && Cell(g.tiles, j) == Cell(before, j) && g.tiles[j].cells >= need
    {
      var g := Carve(before, need, j);
      assert g.tiles[..j] == before[..j];
      CellPrefix(g.tiles, before, j);
    }

    method MallocLast(realSize: int, nextfree: int, block: int, ghost need: nat, ghost p: int, ghost j: nat)
      returns (ptr: int, ghost header: int)
      requires Valid() && realSize == 4 * need && Found(nextfree, block, p, j)
      requires FirstFit(tiles, need, 0) == |tiles| == j + 1 && realSize < TWO_TO_32
      modifies this, mem
      ensures Valid() && KeepsLive(old(mem[..]), mem[..], old(tiles), -1)
      ensures Outcome(old(tiles), need, old(limit - end - GAP), ptr) && need >= 2
      ensures ptr != NULL ==> header == realSize
      ensures Returned(ptr, header)
    {
      ghost var before := tiles;
      FoundInMemory(nextfree, block, p, j);
      assert tiles[j].cells < need;
      header := realSize;
      var moresize := realSize - mem[CellAt(block)];
      if !CanAlloc(moresize) { return NULL, header; }
      Enlarge(realSize, nextfree, block, need, p, j);
      assert tiles[..j] == before[..j];
      CellPrefix(tiles, before, j);
      HeaderIs(j);
      ptr := block + 4;
    }

    method MallocFresh(realSize: int, ghost need: nat) returns (ptr: int, ghost header: int)
      requires Valid() && realSize == 4 * need < TWO_TO_32 && FirstFit(tiles, need, 0) == |tiles|
      requires tiles == [] || !tiles[|tiles| - 1].free
      modifies this, mem
      ensures need >= 2 ==> Valid() && KeepsLive(old(mem[..]), mem[..], old(tiles), -1)
      ensures need >= 2 ==> Outcome(old(tiles), need, old(limit - end - GAP), ptr)
      ensures ptr != NULL ==> header == realSize
      ensures need == 0 ==> GivesNothing(ptr)
      ensures Returned(ptr, header)
    {
      ghost var before := tiles;
      header := realSize;
      if need == 0 {
        NothingOnList();
      }
      if !CanAlloc(realSize) { return NULL, header; }
      var block := Append(realSize, need);
      SpliceBefore(before, |before|, |before|, [Tile(need, false)], |before|);
      ptr := block + 4;
    }

    /**
     * malloc. Up to MAX_REQUEST it does what the specification says to the row of blocks and touches no word
     * of a block in use. A block it returns has room for the request exactly when the request is that small. A request
     * whose real size is nothing gets a block, too, but one that stays free.
     */
    method Malloc(sz: Word) returns (ptr: int)
      requires Valid()
      modifies this, mem
      ensures sz <= MAX_REQUEST ==> Valid() && KeepsLive(old(mem[..]), mem[..], old(tiles), -1)
      ensures sz <= MAX_REQUEST ==> Outcome(old(tiles), RealSize(sz) / 4, old(limit - end - GAP), ptr)
      ensures sz <= MAX_REQUEST ==> (ptr == NULL <==> Exhausted(old(tiles), RealSize(sz) / 4, old(limit - end - GAP)))
      ensures ptr != NULL ==> 0 <= CellAt(ptr) - 1 < mem.Length
      ensures ptr != NULL ==> (mem[CellAt(ptr) - 1] - 4 >= sz <==> sz <= MAX_REQUEST)
      ensures RealSize(sz) == 0 ==> GivesNothing(ptr)
    {
      var realSize := RealSize(sz);
      ghost var need := realSize / 4;
      RealSizeWords(sz);
      var where, nextfree, block;
      ghost var p: int, j: int, header: int;
      where, nextfree, block, p, j := FindBlock(realSize, need);
      match where
      case Fit => ptr, header := MallocFit(realSize, nextfree, block, need, p, j);
      case Last => ptr, header := MallocLast(realSize, nextfree, block, need, p, j);
      case Fresh => ptr, header := MallocFresh(realSize, need);
      MallocRefuses(old(tiles), need, old(limit - end - GAP));
    }

    /** A request of four bytes less than the address space is answered with a pointer and no room. */
    method HugeRequest() returns (ptr: int)
      requires Valid()
      modifies this, mem
      ensures ptr != NULL && GivesNothing(ptr) && mem[CellAt(ptr) - 1] == 0
    {
      HugeRequestWraps(0xffff_fffc);
      ptr := Malloc(0xffff_fffc);
    }

    lemma HeaderIs(j: nat)
      requires Valid() && j < |tiles|
      ensures Cell(tiles, j) + 1 < mem.Length && mem[Cell(tiles, j)] == 4 * tiles[j].cells
    {
      assert HeaderOk(mem[..], tiles, j);
    }
  }

  /** What malloc found: a block that fits, the last block, free but too small, or neither. */
  datatype Place = Fit | Last | Fresh

  /** Where a free neighbour was found. */
  datatype Neighbour = Before | Behind | Apart
}
