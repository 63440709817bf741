/** qsort_r (src/libc/qsort.c:46-91): the byte loops over an array of records `width` bytes wide. */
module Qsort {
  import opened Prelude
  import opened ShellSort

  // ----- records in a byte array -----

  /** n * width, as the distance n steps of `width` cover. */
  function Span(n: nat, width: nat): nat {
    if n == 0 then 0 else Span(n - 1, width) + width
  }

  lemma SpanIsProduct(n: nat, width: nat)
    ensures Span(n, width) == n * width
  {
  }

  lemma SpanOrder(i: nat, j: nat, width: nat)
    requires i < j
    ensures Span(i, width) + width <= Span(j, width)
  {
  }

  lemma SpanAdd(i: nat, j: nat, width: nat)
    ensures Span(i + j, width) == Span(i, width) + Span(j, width)
  {
    if j != 0 {
      SpanAdd(i, j - 1, width);
    }
  }

  lemma SpanGrows(n: nat, width: nat)
    requires width > 0
    ensures n <= Span(n, width)
  {
  }

  /** The byte view of a gap divides exactly: 3 * h + 1 records less one is three times h records. */
  lemma SpanOfGap(h: nat, width: nat)
    ensures (Span(3 * h + 1, width) - width) / 3 == Span(h, width)
  {
    SpanAdd(h, h, width);
    SpanAdd(h + h, h, width);
    assert Span(3 * h + 1, width) == Span(3 * h, width) + width;
  }

  function Record(bytes: seq<Byte>, i: nat, width: nat): seq<Byte>
    requires Span(i, width) + width <= |bytes|
  {
    bytes[Span(i, width)..Span(i, width) + width]
  }

  function Records(bytes: seq<Byte>, n: nat, width: nat): (recs: seq<seq<Byte>>)
    requires |bytes| == Span(n, width)
    ensures |recs| == n
  {
    seq(n, i requires 0 <= i < n => SpanOrder(i, n, width); Record(bytes, i, width))
  }

  // ----- the innermost loop: exchanging two records byte by byte -----

  predicate Outside(p: int, at: int, width: nat) {
    p < at || at + width <= p
  }

  method SwapBytes(base: array<Byte>, a: nat, b: nat, width: nat)
    requires a + width <= b && b + width <= base.Length
    modifies base
    ensures base[a..a + width] == old(base[b..b + width]) && base[b..b + width] == old(base[a..a + width])
    ensures forall p :: 0 <= p < base.Length && Outside(p, a, width) && Outside(p, b, width) ==> base[p] == old(base[p])
  {
    ghost var was := base[..];
    for k := 0 to width
      invariant forall p :: a <= p < a + k ==> base[p] == was[p + (b - a)]
      invariant forall p :: b <= p < b + k ==> base[p] == was[p - (b - a)]
      invariant forall p :: 0 <= p < base.Length && Outside(p, a, k) && Outside(p, b, k) ==> base[p] == was[p]
    {
      var tmp := base[a + k];
      base[a + k] := base[b + k];
      base[b + k] := tmp;
    }
  }

  lemma SwappedRecords(was: seq<Byte>, now: seq<Byte>, i: nat, j: nat, n: nat, width: nat)
    requires i < j < n && |was| == |now| == Span(n, width)
    requires Span(i, width) + width <= Span(j, width) && Span(j, width) + width <= Span(n, width)
    requires Record(now, i, width) == Record(was, j, width) && Record(now, j, width) == Record(was, i, width)
    requires forall p :: 0 <= p < |was| && Outside(p, Span(i, width), width) && Outside(p, Span(j, width), width) ==>
               now[p] == was[p]
    ensures Records(now, n, width) == Swap(Records(was, n, width), i, j)
  {
    forall m | 0 <= m < n && m != i && m != j
      ensures Records(now, n, width)[m] == Records(was, n, width)[m]
    {
      SpanOrder(m, n, width);
      if m < i { SpanOrder(m, i, width); } else { SpanOrder(i, m, width); }
      if m < j { SpanOrder(m, j, width); } else { SpanOrder(j, m, width); }
      assert Record(now, m, width) == Record(was, m, width);
    }
  }

  method SwapRecords(base: array<Byte>, a: nat, b: nat, width: nat, ghost i: nat, ghost j: nat, ghost n: nat)
    requires i < j < n && base.Length == Span(n, width) && a == Span(i, width) && b == Span(j, width)
    modifies base
    ensures Records(base[..], n, width) == Swap(old(Records(base[..], n, width)), i, j)
  {
    ghost var before := base[..];
    SpanOrder(i, j, width);
    SpanOrder(j, n, width);
    SwapBytes(base, a, b, width);
    ghost var after := base[..];
    assert Record(after, i, width) == base[a..a + width];
    assert Record(after, j, width) == base[b..b + width];
    SwappedRecords(before, after, i, j, n, width);
  }

  // ----- the sort -----

  type Comparison = (seq<Byte>, seq<Byte>) -> int

  /** Compares the record at byte j with the one a gap before it, and exchanges them if that must come after. */
  method CompareAndSwap(base: array<Byte>, j: nat, wgap: nat, width: nat, comp: Comparison,
                        ghost gj: nat, ghost gap: nat, ghost n: nat) returns (stop: bool, j': nat)
    requires 0 < gap <= gj < n && base.Length == Span(n, width) && j == Span(gj, width) && wgap == Span(gap, width)
    modifies base
    ensures j' == Span(gj - gap, width)
    ensures var recs := old(Records(base[..], n, width));
            && stop == Le(comp, recs[gj - gap], recs[gj])
            && Records(base[..], n, width) == if stop then recs else Swap(recs, gj - gap, gj)
  {
    ghost var recs := Records(base[..], n, width);
    SpanAdd(gj - gap, gap, width);
    SpanOrder(gj - gap, n, width);
    SpanOrder(gj, n, width);
    j' := j - wgap;
    var a, b := j', j' + wgap;
    assert base[a..a + width] == recs[gj - gap] && base[b..b + width] == recs[gj];
    stop := comp(base[a..a + width], base[b..b + width]) <= 0;
    if !stop {
      SwapRecords(base, a, b, width, gj - gap, gj, n);
    }
  }

  /** One turn of the sifting loop leaves the outcome of the sift unchanged. */
  method SiftTurn(base: array<Byte>, j: nat, wgap: nat, width: nat, comp: Comparison,
                  ghost gj: nat, ghost gap: nat, ghost n: nat) returns (stop: bool, j': nat)
    requires 0 < gap <= gj < n && base.Length == Span(n, width) && j == Span(gj, width) && wgap == Span(gap, width)
    modifies base
    ensures j' == Span(gj - gap, width)
    ensures old(Sift(comp, Records(base[..], n, width), gap, gj)) ==
            if stop then Records(base[..], n, width) else Sift(comp, Records(base[..], n, width), gap, gj - gap)
  {
    stop, j' := CompareAndSwap(base, j, wgap, width, comp, gj, gap, n);
  }

  lemma GapReached(gj: nat, gap: nat, width: nat)
    requires 0 < width
    ensures Span(gj, width) >= Span(gap, width) <==> gj >= gap
  {
    if gj < gap {
      SpanOrder(gj, gap, width);
    } else {
      SpanAdd(gap, gj - gap, width);
    }
  }

  /** Moves the record at byte i down, gap by gap, while the one before it must come after it. */
  method SiftDown(base: array<Byte>, i: nat, wgap: nat, width: nat, comp: Comparison,
                  ghost gi: nat, ghost gap: nat, ghost n: nat)
    requires 0 < gap <= gi < n && base.Length == Span(n, width)
    requires i == Span(gi, width) && wgap == Span(gap, width) && 0 < width
    modifies base
    ensures Records(base[..], n, width) == Sift(comp, old(Records(base[..], n, width)), gap, gi)
  {
    var j, stop := i, false;
    ghost var gj: nat := gi;
    GapReached(gj, gap, width);
    while !stop && j >= wgap
      invariant gj <= gi && (!stop ==> j == Span(gj, width) && (j >= wgap <==> gj >= gap))
      invariant old(Sift(comp, Records(base[..], n, width), gap, gi)) ==
                if stop then Records(base[..], n, width) else Sift(comp, Records(base[..], n, width), gap, gj)
      decreases !stop, gj
    {
      stop, j := SiftTurn(base, j, wgap, width, comp, gj, gap, n);
      if !stop {
        gj := gj - gap;
        GapReached(gj, gap, width);
      }
    }
  }

  /** One pass: sifts every record from the first that has a predecessor at this gap. */
  method SortPass(base: array<Byte>, wgap: nat, wnel: nat, width: nat, comp: Comparison, ghost gap: nat, ghost n: nat)
    requires 0 < gap < n && base.Length == wnel == Span(n, width) && wgap == Span(gap, width) && 0 < width
    modifies base
    ensures Records(base[..], n, width) == Pass(comp, old(Records(base[..], n, width)), gap, gap)
  {
    ghost var want := Pass(comp, Records(base[..], n, width), gap, gap);
    var i := wgap;
    ghost var gi: nat := gap;
    while i < wnel
      invariant gap <= gi <= n && i == Span(gi, width)
      invariant Pass(comp, Records(base[..], n, width), gap, gi) == want
      decreases n - gi
    {
      SiftDown(base, i, wgap, width, comp, gi, gap, n);
      i := i + width;
      gi := gi + 1;
    }
    if gi < n { SpanOrder(gi, n, width); }
  }

  /** qsort_r: sorts the nel records of `width` bytes in place. */
  method QsortR(base: array<Byte>, nel: nat, width: nat, comp: Comparison)
    requires base.Length == Span(nel, width)
    modifies base
    ensures width > 0 ==> Records(base[..], nel, width) == Sort(comp, old(Records(base[..], nel, width)))
    ensures width > 0 && TotalPreorder(comp, multiset(old(Records(base[..], nel, width)))) ==>
      && Sorted(comp, Records(base[..], nel, width))
      && multiset(Records(base[..], nel, width)) == multiset(old(Records(base[..], nel, width)))
  {
    if nel > 1 && width > 0 {
      ghost var recs := Records(base[..], nel, width);
      var gap := 1;
      while gap < (nel - 1) / 3
        invariant 0 < gap < nel && FirstGap(nel, 0) == (if gap < (nel - 1) / 3 then FirstGap(nel, gap) else gap)
        decreases nel - gap
      {
        gap := 3 * gap + 1;
      }
      FirstGapIsGap(nel, 0);
      SpanIsProduct(gap, width);
      SpanIsProduct(nel, width);
      AllPasses(base, gap * width, nel * width, width, comp, gap, nel);
      if TotalPreorder(comp, multiset(recs)) {
        SortSorts(comp, recs);
      }
    } else if width > 0 && TotalPreorder(comp, multiset(Records(base[..], nel, width))) {
      SortSorts(comp, Records(base[..], nel, width));
    }
  }

  lemma GapBytes(gap: nat, width: nat)
    requires 0 < width && 0 < gap && IsGap(gap)
    ensures NextGap(gap) < gap && IsGap(NextGap(gap)) && width <= Span(gap, width)
    ensures (Span(gap, width) - width) / 3 == Span(NextGap(gap), width)
    ensures NextGap(gap) == 0 <==> Span(NextGap(gap), width) == 0
  {
    NextGapIsExact(gap);
    SpanOfGap(NextGap(gap), width);
    SpanGrows(NextGap(gap), width);
    SpanOrder(0, gap, width);
  }

  /** The passes with gap g and all that follow, until the gap is 0. */
  method AllPasses(base: array<Byte>, first: nat, wnel: nat, width: nat, comp: Comparison, ghost g: nat, ghost n: nat)
    requires 0 < g < n && IsGap(g) && base.Length == wnel == Span(n, width) && first == Span(g, width) && 0 < width
    modifies base
    ensures Records(base[..], n, width) == Passes(comp, old(Records(base[..], n, width)), g)
  {
    var wgap := first;
    ghost var gap: nat := g;
    SpanGrows(gap, width);
    while wgap != 0
      invariant gap < n && IsGap(gap) && wgap == Span(gap, width) && (gap == 0 <==> wgap == 0)
      invariant Passes(comp, Records(base[..], n, width), gap) == old(Passes(comp, Records(base[..], n, width), g))
      decreases gap
    {
      SortPass(base, wgap, wnel, width, comp, gap, n);
      GapBytes(gap, width);
      wgap := (wgap - width) / 3;
      gap := NextGap(gap);
    }
  }
}
