/**
 * The Shell sort of src/libc/qsort.c:46-91 on a sequence of records: what each pass does, that it keeps the
 * sequence sorted at every earlier gap, and that the last pass leaves it sorted.
 */
module ShellSort {

  // ----- the order -----

  /** The comparison function says x need not come after y. */
  predicate Le<T>(comp: (T, T) -> int, x: T, y: T) {
    comp(x, y) <= 0
  }

  /** On the elements of s the comparison is total and transitive; ties are allowed. */
  ghost predicate TotalPreorder<T>(comp: (T, T) -> int, s: multiset<T>) {
    && (forall x, y {:trigger Le(comp, x, y)} :: x in s && y in s ==> Le(comp, x, y) || Le(comp, y, x))
    && (forall x, y, z {:trigger Le(comp, x, y), Le(comp, y, z)} ::
          x in s && y in s && z in s && Le(comp, x, y) && Le(comp, y, z) ==> Le(comp, x, z))
  }

  /** The element at p and the one h before it are in order. */
  predicate InOrder<T>(comp: (T, T) -> int, s: seq<T>, h: nat, p: nat)
    requires h <= p < |s|
  {
    Le(comp, s[p - h], s[p])
  }

  /** Elements h apart are in order, as far as position n. */
  ghost predicate GapSorted<T>(comp: (T, T) -> int, s: seq<T>, h: nat, n: nat)
    requires n <= |s|
  {
    forall p :: h <= p < n ==> InOrder(comp, s, h, p)
  }

  // ----- the algorithm on records -----

  function Swap<T>(s: seq<T>, i: nat, j: nat): (r: seq<T>)
    requires i < |s| && j < |s|
    ensures |r| == |s| && multiset(r) == multiset(s)
  {
    s[i := s[j]][j := s[i]]
  }

  /** Moves the record at j down in steps of h until the one before it need not come after it. */
  function Sift<T>(comp: (T, T) -> int, s: seq<T>, h: nat, j: nat): (r: seq<T>)
    requires 0 < h && j < |s|
    ensures |r| == |s| && multiset(r) == multiset(s)
    decreases j
  {
    if j < h || Le(comp, s[j - h], s[j]) then s else Sift(comp, Swap(s, j - h, j), h, j - h)
  }

  /** The pass with gap h, from record i on. */
  function Pass<T>(comp: (T, T) -> int, s: seq<T>, h: nat, i: nat): (r: seq<T>)
    requires 0 < h && i <= |s|
    ensures |r| == |s| && multiset(r) == multiset(s)
    decreases |s| - i
  {
    if i == |s| then s else Pass(comp, Sift(comp, s, h, i), h, i + 1)
  }

  /** The gap after g in the source: exact, as every gap is 3 * h + 1 for the one that follows. */
  function NextGap(g: nat): nat
    requires g > 0
  {
    (g - 1) / 3
  }

  /** The gaps of the source: 1, 4, 13, 40, ... and 0 at the end. */
  predicate IsGap(g: nat) {
    g == 0 || (g % 3 == 1 && IsGap(g / 3))
  }

  /** All passes from gap g down. */
  function Passes<T>(comp: (T, T) -> int, s: seq<T>, g: nat): (r: seq<T>)
    requires g < |s| || g == 0
    ensures |r| == |s| && multiset(r) == multiset(s)
    decreases g
  {
    if g == 0 then s else Passes(comp, Pass(comp, s, g, g), NextGap(g))
  }

  /** The first gap: 3 * g + 1 repeatedly, while below (nel - 1) / 3. */
  function FirstGap(nel: nat, g: nat): (r: nat)
    requires nel > 1 && (g == 0 || g < (nel - 1) / 3)
    ensures 0 < r < nel
    decreases nel - g
  {
    var g' := 3 * g + 1;
    if g' < (nel - 1) / 3 then FirstGap(nel, g') else g'
  }

  function Sort<T>(comp: (T, T) -> int, s: seq<T>): seq<T> {
    if |s| <= 1 then s else Passes(comp, s, FirstGap(|s|, 0))
  }

  lemma {:induction false} FirstGapIsGap(nel: nat, g: nat)
    requires nel > 1 && (g == 0 || g < (nel - 1) / 3) && IsGap(g)
    ensures IsGap(FirstGap(nel, g))
    decreases nel - g
  {
    var g' := 3 * g + 1;
    assert g' / 3 == g;
    if g' < (nel - 1) / 3 {
      FirstGapIsGap(nel, g');
    }
  }

  /** Dividing out the subtracted 1 loses nothing, and steps back to the gap before. */
  lemma NextGapIsExact(g: nat)
    requires g > 0 && IsGap(g)
    ensures IsGap(NextGap(g)) && g == 3 * NextGap(g) + 1
  {
    assert (g - 1) / 3 == g / 3;
  }

  // ----- one pass sorts at its gap -----

  /** Sorted at gap h up to i, but for the record at j, which is still to move down. */
  ghost predicate Sifting<T>(comp: (T, T) -> int, s: seq<T>, h: nat, j: nat, i: nat)
    requires j <= i < |s|
  {
    && (forall p :: h <= p <= i && p != j ==> InOrder(comp, s, h, p))
    && (h <= j && j + h <= i ==> Le(comp, s[j - h], s[j + h]))
  }

  lemma Flip<T>(comp: (T, T) -> int, s: multiset<T>, x: T, y: T)
    requires TotalPreorder(comp, s) && x in s && y in s && !Le(comp, x, y)
    ensures Le(comp, y, x)
  {
  }

  lemma Chained<T>(comp: (T, T) -> int, s: multiset<T>, x: T, y: T, z: T)
    requires TotalPreorder(comp, s) && x in s && y in s && z in s && Le(comp, x, y) && Le(comp, y, z)
    ensures Le(comp, x, z)
  {
  }

  lemma SiftStep<T>(comp: (T, T) -> int, s: seq<T>, h: nat, j: nat, i: nat)
    requires 0 < h <= j <= i < |s| && Sifting(comp, s, h, j, i) && Le(comp, s[j], s[j - h])
    ensures Sifting(comp, Swap(s, j - h, j), h, j - h, i)
  {
    var r := Swap(s, j - h, j);
    assert r[j - h] == s[j] && r[j] == s[j - h];
    forall p | h <= p <= i && p != j - h
      ensures InOrder(comp, r, h, p)
    {
      if p != j && p - h != j {
        assert InOrder(comp, s, h, p);
      }
    }
    if h <= j - h {
      assert InOrder(comp, s, h, j - h);
    }
  }

  lemma {:induction false} SiftSorts<T>(comp: (T, T) -> int, s: seq<T>, all: multiset<T>, h: nat, j: nat, i: nat)
    requires 0 < h && j <= i < |s| && multiset(s) == all && TotalPreorder(comp, all) && Sifting(comp, s, h, j, i)
    ensures GapSorted(comp, Sift(comp, s, h, j), h, i + 1)
    decreases j
  {
    if j >= h && !Le(comp, s[j - h], s[j]) {
      Flip(comp, all, s[j - h], s[j]);
      SiftStep(comp, s, h, j, i);
      SiftSorts(comp, Swap(s, j - h, j), all, h, j - h, i);
    }
  }

  lemma {:induction false} PassSorts<T>(comp: (T, T) -> int, s: seq<T>, all: multiset<T>, h: nat, i: nat)
    requires 0 < h && i <= |s| && multiset(s) == all && TotalPreorder(comp, all) && GapSorted(comp, s, h, i)
    ensures GapSorted(comp, Pass(comp, s, h, i), h, |s|)
    decreases |s| - i
  {
    if i < |s| {
      SiftSorts(comp, s, all, h, i, i);
      PassSorts(comp, Sift(comp, s, h, i), all, h, i + 1);
    }
  }

  // ----- a pass keeps the order of every earlier gap -----

  /** The number of positions p, p - h, p - 2h, ... that are not negative. */
  function Steps(p: int, h: nat): nat
    requires 0 < h
    decreases if p < 0 then 0 else p + 1
  {
    if p < 0 then 0 else 1 + Steps(p - h, h)
  }

  /** How many of the elements at p, p - h, p - 2h, ... come strictly before v. */
  function Below<T>(comp: (T, T) -> int, s: seq<T>, p: int, h: nat, v: T): (n: nat)
    requires 0 < h && p < |s|
    ensures n <= Steps(p, h)
    decreases if p < 0 then 0 else p + 1
  {
    if p < 0 then 0 else (if Le(comp, v, s[p]) then 0 else 1) + Below(comp, s, p - h, h, v)
  }

  /** Position i is one of t, t - h, t - 2h, ... */
  predicate InChain(t: int, i: int, h: nat)
    requires 0 < h
    decreases if t < i then 0 else t - i + 1
  {
    t == i || (t > i && InChain(t - h, i, h))
  }

  /** The last position of p's chain. */
  function Top(p: int, h: nat, n: nat): (t: int)
    requires 0 < h && p < n
    ensures p <= t < n <= t + h && InChain(t, p, h)
    decreases n - p
  {
    if p + h >= n then p else
      var t := Top(p + h, h, n);
      ChainExtends(t, p + h, h);
      t
  }

  lemma ChainExtends(t: int, p: int, h: nat)
    requires 0 < h && InChain(t, p, h)
    ensures InChain(t, p - h, h)
    decreases if t < p then 0 else t - p + 1
  {
    if t != p {
      ChainExtends(t - h, p, h);
    }
  }

  lemma ChainJoins(t: int, q: int, p: int, h: nat)
    requires 0 < h && InChain(t, q, h) && InChain(q, p, h)
    ensures InChain(t, p, h)
    decreases if t < q then 0 else t - q + 1
  {
    if t != q {
      ChainAbove(t, q, h);
      ChainAbove(q, p, h);
      ChainJoins(t - h, q, p, h);
    }
  }

  lemma ChainAbove(t: int, p: int, h: nat)
    requires 0 < h && InChain(t, p, h)
    ensures p <= t && Steps(p, h) <= Steps(t, h)
    decreases if t < p then 0 else t - p + 1
  {
    if t != p {
      ChainAbove(t - h, p, h);
      if t < 0 { StepsNone(p, h); }
    }
  }

  lemma StepsNone(p: int, h: nat)
    requires 0 < h && p < 0
    ensures Steps(p, h) == 0
  {
  }

  /** Two chains k apart take the same number of steps down to positions k apart. */
  lemma {:induction false} ChainShifts(t: int, i: nat, k: nat, h: nat)
    requires 0 < h && InChain(t, i + k, h)
    ensures i + k <= t && InChain(t - k, i, h) && Steps(t, h) - Steps(i + k, h) == Steps(t - k, h) - Steps(i, h)
    decreases if t < i + k then 0 else t - i - k + 1
  {
    if t != i + k {
      ChainShifts(t - h, i, k, h);
    }
  }

  lemma {:induction false} BelowFrame<T>(comp: (T, T) -> int, s: seq<T>, r: seq<T>, p: int, h: nat, v: T)
    requires 0 < h && p < |s| == |r| && forall q :: 0 <= q <= p ==> s[q] == r[q]
    ensures Below(comp, s, p, h, v) == Below(comp, r, p, h, v)
    decreases if p < 0 then 0 else p + 1
  {
    if p >= 0 {
      BelowFrame(comp, s, r, p - h, h, v);
    }
  }

  /** Exchanging neighbours of one chain changes no count over a whole chain. */
  lemma {:induction false} BelowSwap<T>(comp: (T, T) -> int, s: seq<T>, p: int, h: nat, j: nat, v: T)
    requires 0 < h <= j < |s| && p < |s| && p != j - h
    ensures Below(comp, Swap(s, j - h, j), p, h, v) == Below(comp, s, p, h, v)
    decreases if p < 0 then 0 else p + 1
  {
    var r := Swap(s, j - h, j);
    if p < j - h {
      BelowFrame(comp, s, r, p, h, v);
    } else if p == j {
      BelowFrame(comp, s, r, j - h - h, h, v);
    } else {
      BelowSwap(comp, s, p - h, h, j, v);
    }
  }

  lemma {:induction false} BelowSift<T>(comp: (T, T) -> int, s: seq<T>, t: int, h: nat, j: nat, v: T)
    requires 0 < h && j < |s| && t < |s| <= t + h
    ensures Below(comp, Sift(comp, s, h, j), t, h, v) == Below(comp, s, t, h, v)
    decreases j
  {
    if j >= h && !Le(comp, s[j - h], s[j]) {
      BelowSwap(comp, s, t, h, j, v);
      BelowSift(comp, Swap(s, j - h, j), t, h, j - h, v);
    }
  }

  /** A pass permutes each chain within itself. */
  lemma {:induction false} BelowPass<T>(comp: (T, T) -> int, s: seq<T>, t: int, h: nat, i: nat, v: T)
    requires 0 < h && i <= |s| && t < |s| <= t + h
    ensures Below(comp, Pass(comp, s, h, i), t, h, v) == Below(comp, s, t, h, v)
    decreases |s| - i
  {
    if i < |s| {
      BelowSift(comp, s, t, h, i, v);
      BelowPass(comp, Sift(comp, s, h, i), t, h, i + 1, v);
    }
  }

  /** In a sorted chain, everything under an element before v comes before v. */
  lemma {:induction false} BelowAll<T>(comp: (T, T) -> int, s: seq<T>, all: multiset<T>, p: nat, h: nat, v: T)
    requires 0 < h && p < |s| && multiset(s) == all && TotalPreorder(comp, all) && v in all
    requires GapSorted(comp, s, h, |s|) && !Le(comp, v, s[p])
    ensures Below(comp, s, p, h, v) == Steps(p, h)
  {
    if p >= h {
      assert InOrder(comp, s, h, p);
      if Le(comp, v, s[p - h]) {
        Chained(comp, all, v, s[p - h], s[p]);
      }
      BelowAll(comp, s, all, p - h, h, v);
    }
  }

  /** In a sorted chain, nothing from an element not before v upwards comes before v. */
  lemma {:induction false} BelowFew<T>(comp: (T, T) -> int, s: seq<T>, all: multiset<T>, t: nat, i: nat, h: nat, v: T)
    requires 0 < h && t < |s| && multiset(s) == all && TotalPreorder(comp, all) && v in all
    requires GapSorted(comp, s, h, |s|) && InChain(t, i, h) && Le(comp, v, s[i])
    ensures Le(comp, v, s[t]) && Below(comp, s, t, h, v) < Steps(i, h)
    decreases t
  {
    if t != i {
      ChainAbove(t - h, i, h);
      BelowFew(comp, s, all, t - h, i, h, v);
      assert InOrder(comp, s, h, t);
      Chained(comp, all, v, s[t - h], s[t]);
    }
  }

  lemma {:induction false} BelowGrows<T>(comp: (T, T) -> int, s: seq<T>, t: int, p: int, h: nat, v: T)
    requires 0 < h && t < |s| && InChain(t, p, h) && p <= t
    ensures Below(comp, s, p, h, v) <= Below(comp, s, t, h, v)
    decreases t - p
  {
    if t != p {
      ChainAbove(t - h, p, h);
      BelowGrows(comp, s, t - h, p, h, v);
    }
  }

  /** Sorted at gap k, the chain k lower has all the small elements but for those too low to have a partner. */
  lemma {:induction false} BelowShifts<T>(comp: (T, T) -> int, s: seq<T>, all: multiset<T>, p: int, k: nat, h: nat,
                                          v: T)
    requires 0 < h && p < |s| && GapSorted(comp, s, k, |s|)
    requires multiset(s) == all && TotalPreorder(comp, all) && v in all
    ensures Below(comp, s, p, h, v) - Below(comp, s, p - k, h, v) <= Steps(p, h) - Steps(p - k, h)
    decreases if p < 0 then 0 else p + 1
  {
    if p >= k {
      BelowShifts(comp, s, all, p - h, k, h, v);
      assert InOrder(comp, s, k, p);
      if Le(comp, v, s[p - k]) {
        Chained(comp, all, v, s[p - k], s[p]);
      }
    }
  }

  /** Over whole chains r has as many elements before v as s. */
  ghost predicate SameCounts<T>(comp: (T, T) -> int, s: seq<T>, r: seq<T>, h: nat, v: T)
    requires 0 < h
  {
    |s| == |r| && forall t :: t < |s| <= t + h ==> Below(comp, s, t, h, v) == Below(comp, r, t, h, v)
  }

  lemma AllBelow<T>(comp: (T, T) -> int, r: seq<T>, all: multiset<T>, t: int, p: nat, h: nat, v: T)
    requires 0 < h && p <= t < |r| && InChain(t, p, h) && v in all
    requires multiset(r) == all && TotalPreorder(comp, all) && GapSorted(comp, r, h, |r|) && !Le(comp, v, r[p])
    ensures Steps(p, h) <= Below(comp, r, t, h, v)
  {
    BelowAll(comp, r, all, p, h, v);
    BelowGrows(comp, r, t, p, h, v);
  }

  /** If r[i + k] comes before v, so do as many elements of i's chain as there are from i down. */
  lemma ManyBelow<T>(comp: (T, T) -> int, s: seq<T>, r: seq<T>, all: multiset<T>, h: nat, k: nat, i: nat, v: T)
    returns (t: int)
    requires 0 < h && i + k < |s| && v in all && multiset(s) == all && multiset(r) == all && TotalPreorder(comp, all)
    requires SameCounts(comp, s, r, h, v) && GapSorted(comp, s, k, |s|) && GapSorted(comp, r, h, |r|)
    requires !Le(comp, v, r[i + k])
    ensures i <= t < |s| <= t + h && InChain(t, i, h) && Steps(i, h) <= Below(comp, s, t, h, v)
  {
    var t' := Top(i + k, h, |s|);
    ChainShifts(t', i, k, h);
    AllBelow(comp, r, all, t', i + k, h, v);
    BelowShifts(comp, s, all, t', k, h, v);
    t := Top(t' - k, h, |s|);
    ChainAbove(t' - k, i, h);
    BelowGrows(comp, s, t, t' - k, h, v);
    ChainJoins(t, t' - k, i, h);
  }

  lemma SortedChainsKeepOrder<T>(comp: (T, T) -> int, s: seq<T>, r: seq<T>, all: multiset<T>, h: nat, k: nat, i: nat)
    requires 0 < h && i + k < |s| == |r| && multiset(s) == all && multiset(r) == all && TotalPreorder(comp, all)
    requires SameCounts(comp, s, r, h, r[i]) && GapSorted(comp, s, k, |s|) && GapSorted(comp, r, h, |r|)
    ensures Le(comp, r[i], r[i + k])
  {
    var v := r[i];
    if !Le(comp, v, r[i + k]) {
      var t := ManyBelow(comp, s, r, all, h, k, i, v);
      CompareToSelf(comp, all, v);
      BelowFew(comp, r, all, t, i, h, v);
      assert false;
    }
  }

  lemma CompareToSelf<T>(comp: (T, T) -> int, s: multiset<T>, v: T)
    requires TotalPreorder(comp, s) && v in s
    ensures Le(comp, v, v)
  {
  }

  lemma PassKeepsPair<T>(comp: (T, T) -> int, s: seq<T>, h: nat, k: nat, i: nat)
    requires 0 < h <= |s| && i + k < |s| && TotalPreorder(comp, multiset(s)) && GapSorted(comp, s, k, |s|)
    ensures InOrder(comp, Pass(comp, s, h, h), k, i + k)
  {
    var r := Pass(comp, s, h, h);
    PassSorts(comp, s, multiset(s), h, h);
    forall t | t < |s| <= t + h
      ensures Below(comp, s, t, h, r[i]) == Below(comp, r, t, h, r[i])
    {
      BelowPass(comp, s, t, h, h, r[i]);
    }
    SortedChainsKeepOrder(comp, s, r, multiset(s), h, k, i);
  }

  /** What a pass sorted stays sorted: a sequence in order at gap k is still so after a pass with gap h. */
  lemma PassKeepsOrder<T>(comp: (T, T) -> int, s: seq<T>, h: nat, k: nat)
    requires 0 < h <= |s| && TotalPreorder(comp, multiset(s)) && GapSorted(comp, s, k, |s|)
    ensures GapSorted(comp, Pass(comp, s, h, h), k, |s|)
  {
    forall p | k <= p < |s|
      ensures InOrder(comp, Pass(comp, s, h, h), k, p)
    {
      PassKeepsPair(comp, s, h, k, p - k);
    }
  }

  // ----- the whole sort -----

  ghost predicate Sorted<T>(comp: (T, T) -> int, s: seq<T>) {
    forall i, j :: 0 <= i < j < |s| ==> Le(comp, s[i], s[j])
  }

  lemma {:induction false} PassesSort<T>(comp: (T, T) -> int, s: seq<T>, g: nat)
    requires 0 < g < |s| && IsGap(g) && TotalPreorder(comp, multiset(s))
    ensures GapSorted(comp, Passes(comp, s, g), 1, |s|)
    decreases g
  {
    PassSorts(comp, s, multiset(s), g, g);
    NextGapIsExact(g);
    if NextGap(g) != 0 {
      PassesSort(comp, Pass(comp, s, g, g), NextGap(g));
    }
  }

  /** An order at some gap, once established, survives all the passes that follow. */
  lemma {:induction false} PassesKeepOrder<T>(comp: (T, T) -> int, s: seq<T>, g: nat, k: nat)
    requires (g < |s| || g == 0) && TotalPreorder(comp, multiset(s)) && GapSorted(comp, s, k, |s|)
    ensures GapSorted(comp, Passes(comp, s, g), k, |s|)
    decreases g
  {
    if g != 0 {
      PassKeepsOrder(comp, s, g, k);
      PassesKeepOrder(comp, Pass(comp, s, g, g), NextGap(g), k);
    }
  }

  lemma {:induction false} NeighboursInOrder<T>(comp: (T, T) -> int, s: seq<T>, i: nat, j: nat)
    requires i < j < |s| && GapSorted(comp, s, 1, |s|) && TotalPreorder(comp, multiset(s))
    ensures Le(comp, s[i], s[j])
    decreases j
  {
    assert InOrder(comp, s, 1, j);
    if i < j - 1 {
      NeighboursInOrder(comp, s, i, j - 1);
      Chained(comp, multiset(s), s[i], s[j - 1], s[j]);
    }
  }

  /** The sort returns an ordered permutation of the records. */
  lemma SortSorts<T>(comp: (T, T) -> int, s: seq<T>)
    requires TotalPreorder(comp, multiset(s))
    ensures Sorted(comp, Sort(comp, s)) && multiset(Sort(comp, s)) == multiset(s)
  {
    if |s| > 1 {
      var g := FirstGap(|s|, 0);
      FirstGapIsGap(|s|, 0);
      PassesSort(comp, s, g);
      var r := Passes(comp, s, g);
      forall i, j | 0 <= i < j < |r|
        ensures Le(comp, r[i], r[j])
      {
        NeighboursInOrder(comp, r, i, j);
      }
    }
  }
}
