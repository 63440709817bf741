/** How a row of blocks lies in memory: a header in each block, and the free list threaded through them. */
module HeapMemory {
  import opened Prelude
  import opened HeapTiles
  import opened HeapSpec

  /** `_MALLOC_START` */
  const START := 0x8_0000

  /** The address of a word of the heap, and back. */
  function AddrOf(cell: nat): int {
    START + 4 * cell
  }

  function CellAt(addr: int): int {
    (addr - START) / 4
  }

  // ----- the free list -----

  /** The first free block from i on, or |tiles|. */
  function FreeFrom(tiles: Tiles, i: nat): (j: nat)
    requires i <= |tiles|
    ensures i <= j <= |tiles| && (j < |tiles| ==> tiles[j].free)
    ensures forall k :: i <= k < j ==> !tiles[k].free
    decreases |tiles| - i
  {
    if i == |tiles| || tiles[i].free then i else FreeFrom(tiles, i + 1)
  }

  /** The pointer to the first free block from i on; 0 if there is none. */
  function NextPtr(tiles: Tiles, i: nat): int
    requires i <= |tiles|
  {
    var j := FreeFrom(tiles, i);
    if j < |tiles| then AddrOf(Cell(tiles, j)) else 0
  }

  /** Block i's header holds its size in bytes; a free block also holds the pointer to the next free one. */
  ghost predicate HeaderOk(mem: seq<int>, tiles: Tiles, i: nat)
    requires i < |tiles|
  {
    && Cell(tiles, i) + 1 < |mem|
    && mem[Cell(tiles, i)] == 4 * tiles[i].cells
    && (tiles[i].free ==> mem[Cell(tiles, i) + 1] == NextPtr(tiles, i + 1))
  }

  /** Memory and the list's head agree with the row: the list is exactly the free blocks, by address. */
  ghost predicate Represents(mem: seq<int>, head: int, tiles: Tiles) {
    && End(tiles) <= |mem|
    && head == NextPtr(tiles, 0)
    && forall i :: 0 <= i < |tiles| ==> HeaderOk(mem, tiles, i)
  }

  /** p is the last free block before lo, or -1. */
  ghost predicate LastFree(tiles: Tiles, lo: nat, p: int)
    requires lo <= |tiles|
  {
    -1 <= p < lo && (p >= 0 ==> tiles[p].free) && forall q :: p < q < lo ==> !tiles[q].free
  }

  function LastFreeOf(tiles: Tiles, lo: nat): (p: int)
    requires lo <= |tiles|
    ensures LastFree(tiles, lo, p)
  {
    if lo == 0 then -1 else if tiles[lo - 1].free then lo - 1 else LastFreeOf(tiles, lo - 1)
  }

  /** The word that points to the first free block from lo on, if it is not the list's head. */
  function Link(tiles: Tiles, p: int): int
    requires p < |tiles|
  {
    if p < 0 then -1 else Cell(tiles, p) + 1
  }

  // ----- rewiring the list around a splice -----

  lemma {:induction false} FreeFromSame(s: Tiles, t: Tiles, i: nat, lo: nat)
    requires i <= lo <= |s| && lo <= |t| && s[..lo] == t[..lo]
    ensures FreeFrom(s, i) < lo ==> FreeFrom(t, i) == FreeFrom(s, i)
    ensures FreeFrom(s, i) >= lo ==> FreeFrom(s, i) == FreeFrom(s, lo) && FreeFrom(t, i) == FreeFrom(t, lo)
    decreases lo - i
  {
    if i < lo {
      assert s[i] == s[..lo][i] && t[i] == t[..lo][i];
      if !s[i].free {
        FreeFromSame(s, t, i + 1, lo);
      }
    }
  }

  /** Before a splice the list is unchanged up to the last free block. */
  lemma NextPtrBefore(tiles: Tiles, lo: nat, hi: nat, mid: Tiles, i: nat)
    requires i <= lo <= hi <= |tiles|
    ensures var r := Splice(tiles, lo, hi, mid);
            NextPtr(r, i) == if FreeFrom(tiles, i) < lo then NextPtr(tiles, i) else NextPtr(r, lo)
  {
    var r := Splice(tiles, lo, hi, mid);
    assert r[..lo] == tiles[..lo];
    FreeFromSame(tiles, r, i, lo);
    if FreeFrom(tiles, i) < lo {
      SpliceBefore(tiles, lo, hi, mid, FreeFrom(tiles, i));
    }
  }

  lemma {:induction false} FreeFromAfter(tiles: Tiles, lo: nat, hi: nat, mid: Tiles, i: nat)
    requires lo <= hi <= i <= |tiles|
    ensures var r := Splice(tiles, lo, hi, mid);
            var d := lo + |mid| - hi;
            i + d <= |r| && FreeFrom(r, i + d) == FreeFrom(tiles, i) + d
    decreases |tiles| - i
  {
    var r := Splice(tiles, lo, hi, mid);
    if i < |tiles| {
      assert r[lo + |mid| + (i - hi)] == tiles[i];
      if !tiles[i].free {
        FreeFromAfter(tiles, lo, hi, mid, i + 1);
      }
    }
  }

  /** After a splice that fits the list is unchanged. */
  lemma NextPtrAfter(tiles: Tiles, lo: nat, hi: nat, mid: Tiles, i: nat)
    requires lo <= hi <= i <= |tiles| && Fits(tiles, lo, hi, mid)
    ensures var r := Splice(tiles, lo, hi, mid);
            var d := lo + |mid| - hi;
            i + d <= |r| && NextPtr(r, i + d) == NextPtr(tiles, i)
  {
    FreeFromAfter(tiles, lo, hi, mid, i);
    if FreeFrom(tiles, i) < |tiles| {
      SpliceAfter(tiles, lo, hi, mid, FreeFrom(tiles, i));
    }
  }

  /** Memory outside the spliced blocks is as it was, but for the link to them. */
  ghost predicate SameOutside(mem: seq<int>, mem': seq<int>, tiles: Tiles, lo: nat, hi: nat, p: int)
    requires p < lo <= hi <= |tiles|
  {
    && |mem'| == |mem|
    && (forall w :: 0 <= w < Cell(tiles, lo) && w < |mem| && w != Link(tiles, p) ==> mem'[w] == mem[w])
    && (hi < |tiles| ==> forall w :: Cell(tiles, hi) <= w < |mem| ==> mem'[w] == mem[w])
  }

  lemma HeaderBefore(mem: seq<int>, mem': seq<int>, tiles: Tiles, lo: nat, hi: nat, mid: Tiles, p: int, i: nat)
    requires p < lo <= hi <= |tiles| && WellFormed(tiles) && LastFree(tiles, lo, p)
    requires SameOutside(mem, mem', tiles, lo, hi, p) && i < lo && HeaderOk(mem, tiles, i)
    requires i == p ==> mem'[Cell(tiles, p) + 1] == NextPtr(Splice(tiles, lo, hi, mid), lo)
    ensures HeaderOk(mem', Splice(tiles, lo, hi, mid), i)
  {
    SpliceBefore(tiles, lo, hi, mid, i);
    CellOrder(tiles, i, lo);
    NextPtrBefore(tiles, lo, hi, mid, i + 1);
    if 0 <= p < i { CellOrder(tiles, p, i); }
    if i < p { CellOrder(tiles, i, p); }
    if tiles[i].free && i != p {
      assert FreeFrom(tiles, i + 1) <= p;
    }
  }

  lemma HeaderAfter(mem: seq<int>, mem': seq<int>, tiles: Tiles, lo: nat, hi: nat, mid: Tiles, p: int, i: nat)
    requires p < lo <= hi <= i < |tiles| && WellFormed(tiles) && Fits(tiles, lo, hi, mid)
    requires SameOutside(mem, mem', tiles, lo, hi, p) && HeaderOk(mem, tiles, i)
    ensures var r := Splice(tiles, lo, hi, mid);
            var d := lo + |mid| - hi;
            i + d < |r| && HeaderOk(mem', r, i + d)
  {
    SpliceAfter(tiles, lo, hi, mid, i);
    NextPtrAfter(tiles, lo, hi, mid, i + 1);
    if hi < i { CellOrder(tiles, hi, i); }
  }

  /**
   * Once the headers of the new blocks are in place and the link before them points to the first free one
   * from there on, memory represents the spliced row.
   */
  lemma Rewire(mem: seq<int>, head: int, mem': seq<int>, head': int, tiles: Tiles, lo: nat, hi: nat, mid: Tiles, p: int)
    requires p < lo <= hi <= |tiles| && WellFormed(tiles) && Represents(mem, head, tiles)
    requires Fits(tiles, lo, hi, mid) && LastFree(tiles, lo, p) && SameOutside(mem, mem', tiles, lo, hi, p)
    requires var r := Splice(tiles, lo, hi, mid);
             && End(r) <= |mem'|
             && (forall i :: lo <= i < lo + |mid| ==> HeaderOk(mem', r, i))
             && (p < 0 ==> head' == NextPtr(r, lo))
             && (p >= 0 ==> head' == head && Cell(tiles, p) + 1 < |mem'| && mem'[Cell(tiles, p) + 1] == NextPtr(r, lo))
    ensures Represents(mem', head', Splice(tiles, lo, hi, mid))
  {
    var r := Splice(tiles, lo, hi, mid);
    NextPtrBefore(tiles, lo, hi, mid, 0);
    assert p >= 0 ==> FreeFrom(tiles, 0) <= p;
    assert p < 0 ==> FreeFrom(tiles, 0) >= lo;
    forall i | 0 <= i < |r|
      ensures HeaderOk(mem', r, i)
    {
      if i < lo {
        HeaderBefore(mem, mem', tiles, lo, hi, mid, p, i);
      } else if i >= lo + |mid| {
        HeaderAfter(mem, mem', tiles, lo, hi, mid, p, i - (lo + |mid| - hi));
      }
    }
  }

  /** Word w belongs to block i, which is in use. */
  predicate WordOf(tiles: Tiles, i: nat, w: nat) {
    InUse(tiles, i) && Cell(tiles, i) <= w < Cell(tiles, i) + tiles[i].cells
  }

  /** The words of every block in use, but for block `except`, are what they were. */
  ghost predicate KeepsLive(mem: seq<int>, mem': seq<int>, tiles: Tiles, except: int) {
    && |mem'| == |mem|
    && forall i: nat, w: nat :: WordOf(tiles, i, w) && i != except && w < |mem| ==> mem'[w] == mem[w]
  }

  lemma SameOutsideKeepsLive(mem: seq<int>, mem': seq<int>, tiles: Tiles, lo: nat, hi: nat, p: int, except: int)
    requires p < lo <= hi <= |tiles| && WellFormed(tiles) && LastFree(tiles, lo, p)
    requires SameOutside(mem, mem', tiles, lo, hi, p)
    requires forall i :: lo <= i < hi && InUse(tiles, i) ==> i == except
    ensures KeepsLive(mem, mem', tiles, except)
  {
    forall i: nat, w: nat | WordOf(tiles, i, w) && i != except && w < |mem|
      ensures mem'[w] == mem[w]
    {
      if i < lo {
        CellOrder(tiles, i, lo);
        LinkOutside(tiles, p, i, w);
      } else {
        if hi < i { CellOrder(tiles, hi, i); }
      }
    }
  }

  lemma LinkOutside(tiles: Tiles, p: int, i: nat, w: int)
    requires WellFormed(tiles) && p < |tiles| && (p >= 0 ==> tiles[p].free)
    requires w >= 0 && WordOf(tiles, i, w)
    ensures w != Link(tiles, p)
  {
    if p >= 0 {
      assert TileOk(tiles[p]);
      if p < i { CellOrder(tiles, p, i); } else { CellOrder(tiles, i, p); }
    }
  }

  // ----- freeing a block in memory -----

  /** Memory has been changed so that block k and its free neighbours form one free block after block p. */
  ghost predicate Joined(mem: seq<int>, head: int, mem': seq<int>, head': int, tiles: Tiles, k: nat, p: int)
    requires k < |tiles|
  {
    var lo, hi := MergeLow(tiles, k), MergeHigh(tiles, k);
    && LastFree(tiles, lo, p) && SameOutside(mem, mem', tiles, lo, hi, p)
    && Cell(tiles, lo) + 1 < |mem'|
    && mem'[Cell(tiles, lo)] == 4 * SizeOf(tiles, lo, hi)
    && mem'[Cell(tiles, lo) + 1] == NextPtr(tiles, hi)
    && (p < 0 ==> head' == AddrOf(Cell(tiles, lo)))
    && (p >= 0 ==> head' == head && Cell(tiles, p) + 1 < |mem'| && mem'[Cell(tiles, p) + 1] == AddrOf(Cell(tiles, lo)))
  }

  lemma JoinedHeader(mem: seq<int>, head: int, mem': seq<int>, head': int, tiles: Tiles, k: nat, p: int)
    requires InUse(tiles, k) && WellFormed(tiles) && Joined(mem, head, mem', head', tiles, k, p)
    ensures var lo, r := MergeLow(tiles, k), Free(tiles, k);
            && Fits(tiles, lo, MergeHigh(tiles, k), [Merged(tiles, lo, MergeHigh(tiles, k))])
            && lo < |r| && HeaderOk(mem', r, lo) && NextPtr(r, lo) == AddrOf(Cell(tiles, lo))
  {
    var lo, hi := MergeLow(tiles, k), MergeHigh(tiles, k);
    var t := Merged(tiles, lo, hi);
    SizeOfIsSum(tiles, lo, hi);
    FitsOne(tiles, lo, hi, t);
    NextPtrAfter(tiles, lo, hi, [t], hi);
    var r := Free(tiles, k);
    assert r[lo] == t && FreeFrom(r, lo) == lo;
  }

  /** Then memory represents the row with block k freed, and no other block in use has changed. */
  lemma JoinedIsFree(mem: seq<int>, head: int, mem': seq<int>, head': int, tiles: Tiles, k: nat, p: int)
    requires InUse(tiles, k) && WellFormed(tiles) && Represents(mem, head, tiles)
    requires Joined(mem, head, mem', head', tiles, k, p)
    ensures Represents(mem', head', Free(tiles, k)) && KeepsLive(mem, mem', tiles, k)
  {
    var lo, hi := MergeLow(tiles, k), MergeHigh(tiles, k);
    JoinedHeader(mem, head, mem', head', tiles, k, p);
    FreeWellFormed(tiles, k);
    Rewire(mem, head, mem', head', tiles, lo, hi, [Merged(tiles, lo, hi)], p);
    SameOutsideKeepsLive(mem, mem', tiles, lo, hi, p, k);
  }

  /** The word before a run of blocks without a free one points past it. */
  lemma LinkInMemory(mem: seq<int>, head: int, tiles: Tiles, p: int, lo: nat)
    requires WellFormed(tiles) && Represents(mem, head, tiles) && lo <= |tiles| && LastFree(tiles, lo, p)
    ensures FreeFrom(tiles, p + 1) >= lo && NextPtr(tiles, p + 1) == NextPtr(tiles, lo)
    ensures p < 0 ==> head == NextPtr(tiles, lo)
    ensures p >= 0 ==> Cell(tiles, p) + 1 < |mem| && mem[Cell(tiles, p) + 1] == NextPtr(tiles, lo) &&
                       Cell(tiles, p) + 2 <= Cell(tiles, lo)
  {
    FreeFromSame(tiles, tiles, p + 1, lo);
    if p >= 0 {
      assert HeaderOk(mem, tiles, p);
      CellOrder(tiles, p, lo);
    }
  }

  /**
   * The stores that merge the block at word b into the one before it at c, and the one behind it at n as
   * well unless n is -1.
   */
  function MergeStores(mem: seq<int>, c: nat, b: nat, n: int): (m: seq<int>)
    requires c + 2 <= b < |mem| && (n == -1 || b < n < |mem| - 1)
    ensures |m| == |mem| && forall w :: 0 <= w < |mem| && w != c && w != c + 1 ==> m[w] == mem[w]
    ensures m[c] == mem[c] + mem[b] + (if n == -1 then 0 else mem[n])
    ensures m[c + 1] == if n == -1 then mem[c + 1] else mem[n + 1]
  {
    var m := mem[c := mem[c] + mem[b]];
    if n == -1 then m else m[c := m[c] + m[n]][c + 1 := m[n + 1]]
  }

  /** Where the free block behind block k starts; -1 if there is none. */
  function BehindAt(tiles: Tiles, k: nat): int {
    if k + 1 < |tiles| && tiles[k + 1].free then Cell(tiles, k + 1) else -1
  }

  ghost predicate MergesBefore(mem: seq<int>, head: int, tiles: Tiles, k: nat, p: int) {
    && InUse(tiles, k) && WellFormed(tiles) && Represents(mem, head, tiles)
    && k > 0 && tiles[k - 1].free && LastFree(tiles, k - 1, p)
  }

  lemma MergeHeaders(mem: seq<int>, head: int, tiles: Tiles, k: nat, p: int)
    requires MergesBefore(mem, head, tiles, k, p)
    ensures Cell(tiles, k - 1) + 2 <= Cell(tiles, k) < |mem|
    ensures mem[Cell(tiles, k - 1)] == 4 * tiles[k - 1].cells && mem[Cell(tiles, k)] == 4 * tiles[k].cells
    ensures mem[Cell(tiles, k - 1) + 1] == NextPtr(tiles, k + 1)
    ensures var n := BehindAt(tiles, k);
            n == -1 || (Cell(tiles, k) < n < |mem| - 1 && mem[n] == 4 * tiles[k + 1].cells &&
                        mem[n + 1] == NextPtr(tiles, k + 2))
  {
    assert HeaderOk(mem, tiles, k - 1) && HeaderOk(mem, tiles, k);
    CellOrder(tiles, k - 1, k);
    if k + 1 < |tiles| {
      assert HeaderOk(mem, tiles, k + 1);
      CellOrder(tiles, k, k + 1);
    }
  }

  lemma MergedValues(mem: seq<int>, head: int, tiles: Tiles, k: nat, p: int, m: seq<int>)
    requires MergesBefore(mem, head, tiles, k, p)
    requires Cell(tiles, k - 1) + 2 <= Cell(tiles, k) < |mem|
    requires BehindAt(tiles, k) == -1 || Cell(tiles, k) < BehindAt(tiles, k) < |mem| - 1
    requires m == MergeStores(mem, Cell(tiles, k - 1), Cell(tiles, k), BehindAt(tiles, k))
    ensures m[Cell(tiles, k - 1)] == 4 * SizeOf(tiles, k - 1, MergeHigh(tiles, k))
    ensures m[Cell(tiles, k - 1) + 1] == NextPtr(tiles, MergeHigh(tiles, k))
  {
    MergeHeaders(mem, head, tiles, k, p);
    SizeOfIsSum(tiles, k - 1, MergeHigh(tiles, k));
  }

  lemma MergedOutside(mem: seq<int>, tiles: Tiles, k: nat, p: int, m: seq<int>)
    requires WellFormed(tiles) && 0 < k < |tiles| && p < k - 1 && |m| == |mem|
    requires forall w :: 0 <= w < |mem| && w != Cell(tiles, k - 1) && w != Cell(tiles, k - 1) + 1 ==> m[w] == mem[w]
    ensures SameOutside(mem, m, tiles, k - 1, MergeHigh(tiles, k), p)
  {
    CellOrder(tiles, k - 1, MergeHigh(tiles, k));
  }

  lemma MergeStoresJoin(mem: seq<int>, head: int, tiles: Tiles, k: nat, p: int)
    requires MergesBefore(mem, head, tiles, k, p)
    ensures Cell(tiles, k - 1) + 2 <= Cell(tiles, k) < |mem|
    ensures BehindAt(tiles, k) == -1 || Cell(tiles, k) < BehindAt(tiles, k) < |mem| - 1
    ensures Joined(mem, head, MergeStores(mem, Cell(tiles, k - 1), Cell(tiles, k), BehindAt(tiles, k)), head, tiles,
                   k, p)
  {
    LinkInMemory(mem, head, tiles, p, k - 1);
    MergeHeaders(mem, head, tiles, k, p);
    var m := MergeStores(mem, Cell(tiles, k - 1), Cell(tiles, k), BehindAt(tiles, k));
    MergedValues(mem, head, tiles, k, p, m);
    assert NextPtr(tiles, k - 1) == AddrOf(Cell(tiles, k - 1));
    MergedOutside(mem, tiles, k, p, m);
  }

  // ----- allocating a block in memory -----

  lemma FirstFitIs(tiles: Tiles, need: nat, j: nat)
    requires j <= |tiles| && (j < |tiles| ==> tiles[j].free && tiles[j].cells >= need)
    requires forall i :: 0 <= i < j ==> !(tiles[i].free && tiles[i].cells >= need)
    ensures FirstFit(tiles, need, 0) == j
  {
  }

  /** Block lo, free or not there yet, has become a block of `cells` words in use, with the list led past it. */
  ghost predicate Taken(mem: seq<int>, head: int, mem': seq<int>, head': int, tiles: Tiles, lo: nat, p: int, cells: nat)
    requires lo <= |tiles| <= lo + 1 || lo < |tiles|
  {
    var hi := if lo < |tiles| then lo + 1 else lo;
    && LastFree(tiles, lo, p) && SameOutside(mem, mem', tiles, lo, hi, p)
    && Cell(tiles, lo) + 1 < |mem'| && Cell(tiles, lo) + cells <= |mem'|
    && mem'[Cell(tiles, lo)] == 4 * cells
    && (p < 0 ==> head' == NextPtr(tiles, hi))
    && (p >= 0 ==> head' == head && Cell(tiles, p) + 1 < |mem'| && mem'[Cell(tiles, p) + 1] == NextPtr(tiles, hi))
  }

  lemma TakenWhole(mem: seq<int>, head: int, mem': seq<int>, head': int, tiles: Tiles, lo: nat, p: int, cells: nat)
    requires WellFormed(tiles) && Represents(mem, head, tiles) && cells >= 2
    requires lo <= |tiles| && (lo < |tiles| ==> tiles[lo].free && (lo + 1 == |tiles| || tiles[lo].cells == cells))
    requires Taken(mem, head, mem', head', tiles, lo, p, cells)
    ensures var hi := if lo < |tiles| then lo + 1 else lo;
            Represents(mem', head', Splice(tiles, lo, hi, [Tile(cells, false)]))
    ensures KeepsLive(mem, mem', tiles, -1)
  {
    var hi := if lo < |tiles| then lo + 1 else lo;
    var t := Tile(cells, false);
    var r := Splice(tiles, lo, hi, [t]);
    FitsOne(tiles, lo, hi, t);
    NextPtrAfter(tiles, lo, hi, [t], hi);
    EndOfSplice(tiles, lo, hi, [t]);
    assert r[lo] == t;
    Rewire(mem, head, mem', head', tiles, lo, hi, [t], p);
    SameOutsideKeepsLive(mem, mem', tiles, lo, hi, p, -1);
  }

  /** The first `need` words of the free block lo have become a block in use, the rest a shorter free block. */
  ghost predicate Split(mem: seq<int>, head: int, mem': seq<int>, head': int, tiles: Tiles, lo: nat, p: int, need: nat)
    requires lo < |tiles|
  {
    var c := Cell(tiles, lo);
    && LastFree(tiles, lo, p) && SameOutside(mem, mem', tiles, lo, lo + 1, p)
    && c + need + 1 < |mem'|
    && mem'[c] == 4 * need && mem'[c + need] == 4 * (tiles[lo].cells - need)
    && mem'[c + need + 1] == NextPtr(tiles, lo + 1)
    && (p < 0 ==> head' == AddrOf(c + need))
    && (p >= 0 ==> head' == head && Cell(tiles, p) + 1 < |mem'| && mem'[Cell(tiles, p) + 1] == AddrOf(c + need))
  }

  /** The stores of a split at word c: the link to the rest unless it is -1, the rest's header, and c's size. */
  function SplitStores(mem: seq<int>, link: int, c: nat, n: nat): (m: seq<int>)
    requires -1 <= link < c && c + n + 1 < |mem|
    ensures |m| == |mem| && m[c] == 4 * n
    ensures n >= 2 ==> m[c + n] == mem[c] - 4 * n && m[c + n + 1] == mem[c + 1]
    ensures link >= 0 ==> m[link] == AddrOf(c + n)
    ensures forall w :: 0 <= w < c && w != link ==> m[w] == mem[w]
    ensures forall w :: c + n + 2 <= w < |mem| ==> m[w] == mem[w]
  {
    (if link < 0 then mem else mem[link := AddrOf(c + n)])[c + n := mem[c] - 4 * n][c + n + 1 := mem[c + 1]][c := 4 * n]
  }

  lemma SplitStoresSplit(mem: seq<int>, head: int, head': int, tiles: Tiles, lo: nat, p: int, need: nat, m: seq<int>)
    requires lo < |tiles| && WellFormed(tiles) && Represents(mem, head, tiles) && LastFree(tiles, lo, p)
    requires tiles[lo].free && 2 <= need <= tiles[lo].cells - 2
    requires Cell(tiles, lo) + tiles[lo].cells <= |mem| && Link(tiles, p) < Cell(tiles, lo)
    requires m == SplitStores(mem, Link(tiles, p), Cell(tiles, lo), need)
    requires head' == if p < 0 then AddrOf(Cell(tiles, lo) + need) else head
    ensures Split(mem, head, m, head', tiles, lo, p, need)
  {
    assert HeaderOk(mem, tiles, lo);
    if lo + 1 < |tiles| {
      assert Cell(tiles, lo + 1) == Cell(tiles, lo) + tiles[lo].cells;
    }
  }

  lemma SplitShape(tiles: Tiles, lo: nat, t: Tile, u: Tile)
    requires lo < |tiles| && !t.free && u.free && t.cells + u.cells == tiles[lo].cells
    ensures var r := Splice(tiles, lo, lo + 1, [t, u]);
            var c := Cell(tiles, lo);
            && Fits(tiles, lo, lo + 1, [t, u]) && r[lo] == t && r[lo + 1] == u
            && Cell(r, lo) == c && Cell(r, lo + 1) == c + t.cells && End(r) == End(tiles)
            && NextPtr(r, lo) == AddrOf(c + t.cells) && NextPtr(r, lo + 1) == AddrOf(c + t.cells)
            && NextPtr(r, lo + 2) == NextPtr(tiles, lo + 1)
  {
    var r := Splice(tiles, lo, lo + 1, [t, u]);
    FitsTwo(tiles, lo, lo + 1, t, u);
    NextPtrAfter(tiles, lo, lo + 1, [t, u], lo + 1);
    EndOfSplice(tiles, lo, lo + 1, [t, u]);
    assert r[lo] == t && r[lo + 1] == u;
    assert FreeFrom(r, lo + 1) == lo + 1 && FreeFrom(r, lo) == lo + 1;
  }

  lemma SplitIsCarve(mem: seq<int>, head: int, mem': seq<int>, head': int, tiles: Tiles, lo: nat, p: int, need: nat)
    requires WellFormed(tiles) && Represents(mem, head, tiles)
    requires lo < |tiles| && tiles[lo].free && 2 <= need <= tiles[lo].cells - 2
    requires Split(mem, head, mem', head', tiles, lo, p, need)
    ensures Represents(mem', head', Carve(tiles, need, lo).tiles) && KeepsLive(mem, mem', tiles, -1)
  {
    var mid := [Tile(need, false), Tile(tiles[lo].cells - need, true)];
    SplitShape(tiles, lo, mid[0], mid[1]);
    var r := Splice(tiles, lo, lo + 1, mid);
    assert HeaderOk(mem', r, lo) && HeaderOk(mem', r, lo + 1);
    Rewire(mem, head, mem', head', tiles, lo, lo + 1, mid, p);
    SameOutsideKeepsLive(mem, mem', tiles, lo, lo + 1, p, -1);
  }
}
