/**
 * The heap of src/libc/malloc.c:129-275 as the row of blocks that fills it: what malloc and free do to the
 * row, that the row is determined by the live blocks alone, and what follows from that.
 */
module HeapTiles {
  import opened Prelude

  /** One block: its size in words with the header, and whether it is on the free list. */
  datatype Tile = Tile(cells: nat, free: bool)

  type Tiles = seq<Tile>

  // ----- positions -----

  /** The word of the heap's memory at which block i starts; for i == |tiles|, where the heap ends. */
  function Cell(tiles: Tiles, i: nat): nat
    requires i <= |tiles|
  {
    if i == 0 then 0 else Cell(tiles, i - 1) + tiles[i - 1].cells
  }

  /** The number of words the blocks fill. */
  function End(tiles: Tiles): nat {
    Cell(tiles, |tiles|)
  }

  predicate TileOk(t: Tile) {
    t.cells >= 2
  }

  /** The heap invariant: every block can hold a list entry, and no two neighbours are free. */
  ghost predicate WellFormed(tiles: Tiles) {
    && (forall i :: 0 <= i < |tiles| ==> TileOk(tiles[i]))
    && (forall i :: 0 < i < |tiles| ==> !BothFree(tiles[i - 1], tiles[i]))
  }

  predicate BothFree(s: Tile, t: Tile) {
    s.free && t.free
  }

  lemma {:induction false} CellOrder(tiles: Tiles, i: nat, j: nat)
    requires WellFormed(tiles) && i < j <= |tiles|
    ensures Cell(tiles, i) + tiles[i].cells <= Cell(tiles, j) && Cell(tiles, i) + 2 <= Cell(tiles, j)
    decreases j
  {
    assert TileOk(tiles[i]) && TileOk(tiles[j - 1]);
    if i < j - 1 {
      CellOrder(tiles, i, j - 1);
    }
  }

  lemma {:induction false} CellPrefix(s: Tiles, t: Tiles, i: nat)
    requires i <= |s| && i <= |t| && s[..i] == t[..i]
    ensures Cell(s, i) == Cell(t, i)
  {
    if i != 0 {
      assert s[..i - 1] == s[..i][..i - 1] && t[..i - 1] == t[..i][..i - 1];
      assert s[i - 1] == s[..i][i - 1] && t[i - 1] == t[..i][i - 1];
      CellPrefix(s, t, i - 1);
    }
  }

  // ----- the live blocks -----

  predicate InUse(tiles: Tiles, i: nat) {
    i < |tiles| && !tiles[i].free
  }

  /** Start and size of block i. */
  function Block(tiles: Tiles, i: nat): (nat, nat)
    requires i < |tiles|
  {
    (Cell(tiles, i), tiles[i].cells)
  }

  /** Start and size of every block in use. */
  ghost function Live(tiles: Tiles): set<(nat, nat)> {
    set i | 0 <= i < |tiles| && InUse(tiles, i) :: Block(tiles, i)
  }

  lemma LiveIndex(tiles: Tiles, a: nat, size: nat) returns (i: nat)
    requires (a, size) in Live(tiles)
    ensures i < |tiles| && !tiles[i].free && Cell(tiles, i) == a && tiles[i].cells == size
  {
    i :| 0 <= i < |tiles| && InUse(tiles, i) && Block(tiles, i) == (a, size);
  }

  /** The live blocks but for the last block's. */
  lemma LiveFront(tiles: Tiles)
    requires WellFormed(tiles) && tiles != []
    ensures var n := |tiles| - 1;
            && (tiles[n].free ==> Live(tiles[..n]) == Live(tiles))
            && (!tiles[n].free ==> Live(tiles[..n]) == Live(tiles) - {Block(tiles, n)})
  {
    var n := |tiles| - 1;
    var front := tiles[..n];
    forall i | 0 <= i < n
      ensures Block(front, i) == Block(tiles, i) && Block(tiles, i) != Block(tiles, n)
      ensures InUse(front, i) == InUse(tiles, i)
    {
      CellPrefix(front, tiles, i);
      CellOrder(tiles, i, n);
    }
  }

  lemma NonEmptyEnd(tiles: Tiles)
    requires WellFormed(tiles)
    ensures tiles != [] ==> End(tiles) > 0
  {
    if tiles != [] {
      CellOrder(tiles, 0, |tiles|);
    }
  }

  lemma EndFront(tiles: Tiles)
    requires WellFormed(tiles) && tiles != []
    ensures End(tiles) == Cell(tiles, |tiles| - 1) + tiles[|tiles| - 1].cells
    ensures End(tiles[..|tiles| - 1]) == Cell(tiles, |tiles| - 1)
  {
    var n := |tiles| - 1;
    assert TileOk(tiles[n]);
    CellPrefix(tiles[..n], tiles, n);
  }

  /** Without its last block a row is still well formed, and its end and live blocks follow. */
  lemma Front(tiles: Tiles) returns (a: nat)
    requires WellFormed(tiles) && tiles != []
    ensures var front, last := tiles[..|tiles| - 1], tiles[|tiles| - 1];
            && WellFormed(front) && a == End(front) && a + last.cells == End(tiles)
            && Live(front) == if last.free then Live(tiles) else Live(tiles) - {(a, last.cells)}
  {
    var n := |tiles| - 1;
    a := Cell(tiles, n);
    EndFront(tiles);
    LiveFront(tiles);
  }

  // ----- the row is determined by the live blocks and the end -----

  /** A live last block of one row is the last block of any row with the same live blocks and end. */
  lemma LastLiveShared(s: Tiles, t: Tiles)
    requires WellFormed(s) && WellFormed(t) && Live(s) == Live(t) && End(s) == End(t)
    requires s != [] && !s[|s| - 1].free
    ensures t != [] && t[|t| - 1] == s[|s| - 1]
  {
    var n := |s| - 1;
    assert InUse(s, n) && Block(s, n) in Live(s);
    var j := LiveIndex(t, Cell(s, n), s[n].cells);
    assert TileOk(s[n]) && TileOk(t[j]);
    if j + 1 < |t| {
      CellOrder(t, j + 1, |t|);
    }
  }

  /** A free last block of t starts no later than a free last block of s. */
  lemma LastFreeStart(s: Tiles, t: Tiles)
    requires WellFormed(s) && WellFormed(t) && Live(s) == Live(t)
    requires s != [] && t != [] && s[|s| - 1].free && t[|t| - 1].free
    ensures Cell(t, |t| - 1) <= Cell(s, |s| - 1)
  {
    if |t| > 1 {
      var m := |t| - 2;
      assert !BothFree(t[m], t[m + 1]);
      assert InUse(t, m) && Block(t, m) in Live(t);
      var j := LiveIndex(s, Cell(t, m), t[m].cells);
      assert TileOk(t[m]) && TileOk(s[j]);
      if j + 1 < |s| - 1 {
        CellOrder(s, j + 1, |s| - 1);
      }
    }
  }

  lemma LastShared(s: Tiles, t: Tiles)
    requires WellFormed(s) && WellFormed(t) && Live(s) == Live(t) && End(s) == End(t) && s != []
    ensures t != [] && t[|t| - 1] == s[|s| - 1]
  {
    if !s[|s| - 1].free {
      LastLiveShared(s, t);
    } else if t != [] && !t[|t| - 1].free {
      LastLiveShared(t, s);
    } else {
      NonEmptyEnd(s);
      LastFreeStart(s, t);
      LastFreeStart(t, s);
      assert TileOk(s[|s| - 1]) && TileOk(t[|t| - 1]);
    }
  }

  lemma FrontsAgree(s: Tiles, t: Tiles)
    requires WellFormed(s) && WellFormed(t) && Live(s) == Live(t) && End(s) == End(t)
    requires s != [] && t != [] && s[|s| - 1] == t[|t| - 1]
    ensures var (f, g) := (s[..|s| - 1], t[..|t| - 1]);
            WellFormed(f) && WellFormed(g) && Live(f) == Live(g) && End(f) == End(g)
  {
    var a := Front(s);
    var b := Front(t);
    assert a == b;
  }

  /** Two heaps with the same live blocks and the same end have the same blocks, free ones included. */
  lemma {:induction false} Canonical(s: Tiles, t: Tiles)
    requires WellFormed(s) && WellFormed(t) && Live(s) == Live(t) && End(s) == End(t)
    ensures s == t
    decreases |s|
  {
    if s == [] {
      NonEmptyEnd(t);
    } else {
      LastShared(s, t);
      var n, m := |s| - 1, |t| - 1;
      FrontsAgree(s, t);
      Canonical(s[..n], t[..m]);
      assert s == s[..n] + [s[n]] && t == t[..m] + [t[m]];
    }
  }

  // ----- replacing some neighbouring blocks -----

  function Splice(tiles: Tiles, lo: nat, hi: nat, mid: Tiles): Tiles
    requires lo <= hi <= |tiles|
  {
    tiles[..lo] + mid + tiles[hi..]
  }

  /** The size of the blocks lo to hi - 1 together. */
  function SizeOf(tiles: Tiles, lo: nat, hi: nat): int
    requires lo <= |tiles| && hi <= |tiles|
  {
    Cell(tiles, hi) - Cell(tiles, lo)
  }

  /** Blocks before and after a splice keep their places, if its size is right or nothing follows it. */
  ghost predicate Fits(tiles: Tiles, lo: nat, hi: nat, mid: Tiles)
    requires lo <= hi <= |tiles|
  {
    hi == |tiles| || Cell(Splice(tiles, lo, hi, mid), lo + |mid|) == Cell(tiles, hi)
  }

  lemma SpliceBefore(tiles: Tiles, lo: nat, hi: nat, mid: Tiles, i: nat)
    requires i <= lo <= hi <= |tiles|
    ensures Cell(Splice(tiles, lo, hi, mid), i) == Cell(tiles, i)
  {
    assert Splice(tiles, lo, hi, mid)[..i] == tiles[..i];
    CellPrefix(Splice(tiles, lo, hi, mid), tiles, i);
  }

  lemma {:induction false} SpliceAfter(tiles: Tiles, lo: nat, hi: nat, mid: Tiles, i: nat)
    requires lo <= hi < |tiles| && hi <= i <= |tiles| && Fits(tiles, lo, hi, mid)
    ensures var j := lo + |mid| + (i - hi);
            j <= |Splice(tiles, lo, hi, mid)| && Cell(Splice(tiles, lo, hi, mid), j) == Cell(tiles, i)
  {
    if i > hi {
      SpliceAfter(tiles, lo, hi, mid, i - 1);
      assert Splice(tiles, lo, hi, mid)[lo + |mid| + (i - 1 - hi)] == tiles[i - 1];
    }
  }

  ghost function LiveIn(tiles: Tiles, lo: nat, hi: nat): set<(nat, nat)>
    requires lo <= hi <= |tiles|
  {
    set i | lo <= i < hi && InUse(tiles, i) :: Block(tiles, i)
  }

  lemma LiveParts(tiles: Tiles, lo: nat, hi: nat)
    requires lo <= hi <= |tiles|
    ensures Live(tiles) == LiveIn(tiles, 0, lo) + LiveIn(tiles, lo, hi) + LiveIn(tiles, hi, |tiles|)
  {
  }

  /** Block i of s is block i + d of t, at the same place. */
  predicate Shifted(s: Tiles, t: Tiles, d: int, i: nat)
    requires i < |s| && 0 <= i + d < |t|
  {
    s[i] == t[i + d] && Cell(s, i) == Cell(t, i + d)
  }

  lemma LiveInStep(tiles: Tiles, lo: nat, hi: nat)
    requires lo < hi <= |tiles|
    ensures LiveIn(tiles, lo, hi) ==
            LiveIn(tiles, lo, hi - 1) + if tiles[hi - 1].free then {} else {Block(tiles, hi - 1)}
  {
  }

  lemma {:induction false} LiveShifted(s: Tiles, t: Tiles, d: int, lo: nat, hi: nat)
    requires lo <= hi <= |s| && 0 <= lo + d && hi + d <= |t|
    requires forall i :: lo <= i < hi ==> Shifted(s, t, d, i)
    ensures LiveIn(s, lo, hi) == LiveIn(t, lo + d, hi + d)
    decreases hi
  {
    if lo < hi {
      LiveShifted(s, t, d, lo, hi - 1);
      LiveInStep(s, lo, hi);
      LiveInStep(t, lo + d, hi + d);
      assert Shifted(s, t, d, hi - 1);
    }
  }

  lemma LiveBeforeSplice(tiles: Tiles, lo: nat, hi: nat, mid: Tiles)
    requires lo <= hi <= |tiles|
    ensures LiveIn(Splice(tiles, lo, hi, mid), 0, lo) == LiveIn(tiles, 0, lo)
  {
    var r := Splice(tiles, lo, hi, mid);
    forall i | 0 <= i < lo
      ensures Shifted(r, tiles, 0, i)
    {
      SpliceBefore(tiles, lo, hi, mid, i);
    }
    LiveShifted(r, tiles, 0, 0, lo);
  }

  lemma LiveAfterSplice(tiles: Tiles, lo: nat, hi: nat, mid: Tiles)
    requires lo <= hi <= |tiles| && Fits(tiles, lo, hi, mid)
    ensures var r := Splice(tiles, lo, hi, mid);
            LiveIn(r, lo + |mid|, |r|) == LiveIn(tiles, hi, |tiles|)
  {
    var r := Splice(tiles, lo, hi, mid);
    var d := lo + |mid| - hi;
    forall i | hi <= i < |tiles|
      ensures Shifted(tiles, r, d, i)
    {
      SpliceAfter(tiles, lo, hi, mid, i);
    }
    LiveShifted(tiles, r, d, hi, |tiles|);
  }

  /** A splice that fits changes the live blocks only where it is. */
  lemma LiveSplice(tiles: Tiles, lo: nat, hi: nat, mid: Tiles)
    requires lo <= hi <= |tiles| && Fits(tiles, lo, hi, mid)
    ensures var r := Splice(tiles, lo, hi, mid);
            Live(r) == LiveIn(tiles, 0, lo) + LiveIn(r, lo, lo + |mid|) + LiveIn(tiles, hi, |tiles|)
  {
    LiveParts(Splice(tiles, lo, hi, mid), lo, lo + |mid|);
    LiveBeforeSplice(tiles, lo, hi, mid);
    LiveAfterSplice(tiles, lo, hi, mid);
  }

  /** A splice keeps the invariant if its blocks do, among themselves and next to their neighbours. */
  lemma SpliceWellFormed(tiles: Tiles, lo: nat, hi: nat, mid: Tiles)
    requires lo <= hi <= |tiles| && WellFormed(tiles) && WellFormed(mid) && mid != []
    requires lo > 0 ==> !BothFree(tiles[lo - 1], mid[0])
    requires hi < |tiles| ==> !BothFree(mid[|mid| - 1], tiles[hi])
    ensures WellFormed(Splice(tiles, lo, hi, mid))
  {
    var r := Splice(tiles, lo, hi, mid);
    forall i | 0 < i < |r|
      ensures !BothFree(r[i - 1], r[i])
    {
      if i < lo {
      } else if lo < i < lo + |mid| {
        assert !BothFree(mid[i - lo - 1], mid[i - lo]);
      } else if i > lo + |mid| {
        var j := i - lo - |mid| + hi;
        assert r[i] == tiles[j] && r[i - 1] == tiles[j - 1];
      }
    }
  }
}
