/** _LZG_DetermineMarkers (src/libc/lzg.c:541-587): a histogram, sorted, yields the four least common symbols. */
module LzgMarkers {
  import opened Prelude
  import opened LzgFormat
  import opened ShellSort
  import opened Qsort

  // ----- what the markers are -----

  /** x is less common than y; of equally common symbols the smaller comes first. */
  predicate Before(counts: multiset<Byte>, x: Byte, y: Byte) {
    counts[x] < counts[y] || (counts[x] == counts[y] && x < y)
  }

  /** The markers are the four least common symbols, in order. */
  ghost predicate LeastCommon(counts: multiset<Byte>, m: Markers) {
    && Before(counts, m.m1, m.m2) && Before(counts, m.m2, m.m3) && Before(counts, m.m3, m.m4)
    && forall x: Byte :: m.Has(x) || Before(counts, m.m4, x)
  }

  /** The order leaves no choice. */
  lemma LeastCommonUnique(counts: multiset<Byte>, m: Markers, n: Markers)
    requires LeastCommon(counts, m) && LeastCommon(counts, n)
    ensures m == n
  {
    assert n.Has(m.m1) || Before(counts, n.m4, m.m1);
    assert n.Has(m.m2) || Before(counts, n.m4, m.m2);
    assert n.Has(m.m3) || Before(counts, n.m4, m.m3);
    assert n.Has(m.m4) || Before(counts, n.m4, m.m4);
    assert m.Has(n.m1) || Before(counts, m.m4, n.m1);
    assert m.Has(n.m2) || Before(counts, m.m4, n.m2);
    assert m.Has(n.m3) || Before(counts, m.m4, n.m3);
    assert m.Has(n.m4) || Before(counts, m.m4, n.m4);
  }

  // ----- their counts total at most a sixty-fourth of the input -----

  function SumUpTo(counts: multiset<Byte>, n: nat): nat
    requires n <= 256
  {
    if n == 0 then 0 else SumUpTo(counts, n - 1) + counts[n - 1]
  }

  lemma {:induction false} SumOneMore(counts: multiset<Byte>, x: Byte, n: nat)
    requires n <= 256
    ensures SumUpTo(counts + multiset{x}, n) == SumUpTo(counts, n) + if x < n then 1 else 0
  {
    if n != 0 {
      SumOneMore(counts, x, n - 1);
    }
  }

  lemma {:induction false} SumEmpty(n: nat)
    requires n <= 256
    ensures SumUpTo(multiset{}, n) == 0
  {
    if n != 0 {
      SumEmpty(n - 1);
    }
  }

  lemma {:induction false} SumIsLength(input: seq<Byte>)
    ensures SumUpTo(multiset(input), 256) == |input|
  {
    if input == [] {
      SumEmpty(256);
    } else {
      var n := |input| - 1;
      assert input == input[..n] + [input[n]];
      SumIsLength(input[..n]);
      SumOneMore(multiset(input[..n]), input[n], 256);
    }
  }

  /** What symbol x, if below n, occurs more often than the last marker (a marker: less often). */
  function Excess(counts: multiset<Byte>, m: Markers, x: Byte, n: nat): int {
    var own: int, last: int := counts[x], counts[m.m4];
    if x < n then own - last else 0
  }

  /** n times c. */
  function Weight(n: nat, c: nat): nat {
    if n == 0 then 0 else Weight(n - 1, c) + c
  }

  lemma WeightIsProduct(n: nat, c: nat)
    ensures Weight(n, c) == n * c
  {
  }

  /** Below n, every symbol that is not a marker occurs at least as often as the last marker. */
  lemma {:induction false} SumAtLeast(counts: multiset<Byte>, m: Markers, n: nat)
    requires n <= 256 && m.Distinct() && LeastCommon(counts, m)
    ensures SumUpTo(counts, n) >= Weight(n, counts[m.m4])
            + Excess(counts, m, m.m1, n) + Excess(counts, m, m.m2, n)
            + Excess(counts, m, m.m3, n) + Excess(counts, m, m.m4, n)
  {
    if n != 0 {
      SumAtLeast(counts, m, n - 1);
      var x: Byte := n - 1;
      if x == m.m1 {
      } else if x == m.m2 {
      } else if x == m.m3 {
      } else if x == m.m4 {
      } else {
        assert !m.Has(x) && Before(counts, m.m4, x);
      }
    }
  }

  lemma LeastCommonDistinct(counts: multiset<Byte>, m: Markers)
    requires LeastCommon(counts, m)
    ensures m.Distinct()
  {
  }

  /** Together the four markers make up at most 4/256 of the input. */
  lemma LeastCommonAreRare(input: seq<Byte>, m: Markers)
    requires LeastCommon(multiset(input), m)
    ensures var c := multiset(input); 64 * (c[m.m1] + c[m.m2] + c[m.m3] + c[m.m4]) <= |input|
  {
    var c := multiset(input);
    LeastCommonDistinct(c, m);
    SumIsLength(input);
    SumAtLeast(c, m, 256);
    WeightIsProduct(256, c[m.m4]);
  }

  // ----- histogram records in memory -----

  const REC_SIZE := 12

  /** A 32-bit integer in the target's memory, least significant byte first. */
  function PutInt(w: Word): seq<Byte> {
    [w % 256, w / 256 % 256, w / 256 / 256 % 256, w / 256 / 256 / 256]
  }

  function GetInt(s: seq<Byte>, at: nat): int
    requires at + 4 <= |s|
  {
    var b0: int, b1: int, b2: int, b3: int := s[at], s[at + 1], s[at + 2], s[at + 3];
    b3 * 0x100_0000 + b2 * 0x1_0000 + b1 * 256 + b0
  }

  /** hist_rec: count, symbol and the unused flag. */
  function HistRec(count: Word, symbol: Byte): seq<Byte> {
    PutInt(count) + PutInt(symbol) + PutInt(0)
  }

  lemma GetHistRec(count: Word, symbol: Byte)
    ensures var r := HistRec(count, symbol);
            |r| == REC_SIZE && GetInt(r, 0) == count && GetInt(r, 4) == symbol && r[4] == symbol
  {
    FourDigits(count, count / 256 / 256 / 256, count / 256 / 256 % 256, count / 256 % 256, count % 256);
  }

  /** hist_rec_compare: by count, then by symbol. */
  function Compare(x: seq<Byte>, y: seq<Byte>): int {
    if |x| != REC_SIZE || |y| != REC_SIZE then 0
    else if GetInt(x, 0) != GetInt(y, 0) then GetInt(x, 0) - GetInt(y, 0)
    else GetInt(x, 4) - GetInt(y, 4)
  }

  /** The record of symbol x for an input with these counts. */
  function CountRec(counts: multiset<Byte>, x: Byte): seq<Byte>
    requires |counts| < TWO_TO_32
  {
    CountBound(counts, x);
    HistRec(counts[x], x)
  }

  function HistRecs(counts: multiset<Byte>): (recs: seq<seq<Byte>>)
    requires |counts| < TWO_TO_32
    ensures |recs| == 256
  {
    seq(256, x requires 0 <= x < 256 => CountRec(counts, x))
  }

  lemma CountBound(counts: multiset<Byte>, x: Byte)
    ensures counts[x] <= |counts|
  {
    assert counts == counts[x := 0] + multiset{x}[x := counts[x]];
  }

  /** One more x changes x's record only, and only by one more count. */
  lemma CountOneMore(counts: multiset<Byte>, x: Byte)
    requires |counts| + 1 < TWO_TO_32
    ensures counts[x] + 1 < TWO_TO_32
    ensures HistRecs(counts + multiset{x}) == HistRecs(counts)[x := HistRec(counts[x] + 1, x)]
  {
    CountBound(counts, x);
    var more := counts + multiset{x};
    forall y: Byte
      ensures CountRec(more, y) == if y == x then HistRec(counts[x] + 1, x) else CountRec(counts, y)
    {
      assert more[y] == counts[y] + if y == x then 1 else 0;
    }
    assert forall y :: 0 <= y < 256 ==> HistRecs(more)[y] == HistRecs(counts)[x := HistRec(counts[x] + 1, x)][y];
  }

  // ----- building the histogram -----

  method StoreInt(mem: array<Byte>, at: nat, w: Word)
    requires at + 4 <= mem.Length
    modifies mem
    ensures mem[..] == old(mem[..at]) + PutInt(w) + old(mem[at + 4..])
  {
    mem[at] := w % 256;
    mem[at + 1] := w / 256 % 256;
    mem[at + 2] := w / 256 / 256 % 256;
    mem[at + 3] := w / 256 / 256 / 256;
  }

  method LoadInt(mem: array<Byte>, at: nat) returns (w: int)
    requires at + 4 <= mem.Length
    ensures w == GetInt(mem[..], at)
  {
    var b0: int, b1: int, b2: int, b3: int := mem[at], mem[at + 1], mem[at + 2], mem[at + 3];
    w := b3 * 0x100_0000 + b2 * 0x1_0000 + b1 * 256 + b0;
  }

  /** Rewriting the bytes of one record replaces that record and no other. */
  lemma ReplacedRecord(was: seq<Byte>, rec: seq<Byte>, i: nat, n: nat, width: nat)
    requires i < n && |was| == Span(n, width) && |rec| == width
    ensures Span(i, width) + width <= |was|
    ensures var now := was[..Span(i, width)] + rec + was[Span(i, width) + width..];
            |now| == |was| && Records(now, n, width) == Records(was, n, width)[i := rec]
  {
    SpanOrder(i, n, width);
    var at := Span(i, width);
    var now := was[..at] + rec + was[at + width..];
    forall m | 0 <= m < n
      ensures Records(now, n, width)[m] == Records(was, n, width)[i := rec][m]
    {
      SpanOrder(m, n, width);
      if m < i {
        SpanOrder(m, i, width);
        assert Record(now, m, width) == Record(was, m, width);
      } else if i < m {
        SpanOrder(i, m, width);
        assert Record(now, m, width) == Record(was, m, width);
      }
    }
  }

  /** Storing three integers one after another replaces the twelve bytes they take. */
  lemma ThreeInts(front: seq<Byte>, x: seq<Byte>, y: seq<Byte>, z: seq<Byte>, was: seq<Byte>, at: nat)
    requires at + 12 <= |was| && front == was[..at] && |x| == |y| == |z| == 4
    ensures var s1 := front + x + was[at + 4..];
            var s2 := s1[..at + 4] + y + s1[at + 8..];
            s2[..at + 8] + z + s2[at + 12..] == front + (x + y + z) + was[at + 12..]
  {
    var s1 := front + x + was[at + 4..];
    assert s1[..at + 4] == front + x && s1[at + 8..] == was[at + 8..];
    var s2 := s1[..at + 4] + y + s1[at + 8..];
    assert s2[..at + 8] == front + x + y && s2[at + 12..] == was[at + 12..];
  }

  /** Sets the whole of record i. */
  method StoreRec(hist: array<Byte>, i: nat, count: Word, symbol: Byte)
    requires i < 256 && hist.Length == Span(256, REC_SIZE)
    modifies hist
    ensures Records(hist[..], 256, REC_SIZE) == old(Records(hist[..], 256, REC_SIZE))[i := HistRec(count, symbol)]
  {
    ghost var was := hist[..];
    SpanIsProduct(i, REC_SIZE);
    ReplacedRecord(was, HistRec(count, symbol), i, 256, REC_SIZE);
    var at := i * REC_SIZE;
    StoreInt(hist, at, count);
    StoreInt(hist, at + 4, symbol);
    StoreInt(hist, at + 8, 0);
    ThreeInts(was[..at], PutInt(count), PutInt(symbol), PutInt(0), was, at);
  }

  /** `hist[x].count++` */
  method BumpCount(hist: array<Byte>, x: Byte, ghost count: Word)
    requires hist.Length == Span(256, REC_SIZE) && Records(hist[..], 256, REC_SIZE)[x] == HistRec(count, x)
    requires count + 1 < TWO_TO_32
    modifies hist
    ensures Records(hist[..], 256, REC_SIZE) == old(Records(hist[..], 256, REC_SIZE))[x := HistRec(count + 1, x)]
  {
    ghost var was := hist[..];
    SpanIsProduct(x, REC_SIZE);
    SpanOrder(x, 256, REC_SIZE);
    GetHistRec(count, x);
    ReplacedRecord(was, HistRec(count + 1, x), x, 256, REC_SIZE);
    var at := x as int * REC_SIZE;
    ghost var rec := was[at..at + REC_SIZE];
    assert rec == HistRec(count, x) by {
      assert rec == Record(was, x, REC_SIZE);
    }
    assert GetInt(was, at) == GetInt(rec, 0);
    var c := LoadInt(hist, at);
    StoreInt(hist, at, c + 1);
    SameTail(was, at, count, x);
  }

  /** Storing a count's four bytes rewrites the record with that count. */
  lemma SameTail(was: seq<Byte>, at: nat, count: Word, x: Byte)
    requires at + REC_SIZE <= |was| && was[at..at + REC_SIZE] == HistRec(count, x) && count + 1 < TWO_TO_32
    ensures was[..at] + PutInt(count + 1) + was[at + 4..] ==
            was[..at] + HistRec(count + 1, x) + was[at + REC_SIZE..]
  {
    var rest := PutInt(x) + PutInt(0);
    assert was[at + 4..at + REC_SIZE] == was[at..at + REC_SIZE][4..] == rest;
    assert was[at + 4..] == rest + was[at + REC_SIZE..];
    assert HistRec(count + 1, x) == PutInt(count + 1) + rest;
  }

  /** The loop that sets up a record with count 0 for every symbol. */
  method ClearHistogram(hist: array<Byte>)
    requires hist.Length == Span(256, REC_SIZE)
    modifies hist
    ensures Records(hist[..], 256, REC_SIZE) == HistRecs(multiset{})
  {
    for i := 0 to 256
      invariant forall x :: 0 <= x < i ==> Records(hist[..], 256, REC_SIZE)[x] == HistRec(0, x)
    {
      StoreRec(hist, i, 0, i);
    }
    assert forall x :: 0 <= x < 256 ==> HistRecs(multiset{})[x] == HistRec(0, x);
  }

  /** The loop over the input. */
  method CountSymbols(input: array<Byte>, hist: array<Byte>)
    requires input != hist && input.Length < TWO_TO_32 && hist.Length == Span(256, REC_SIZE)
    requires Records(hist[..], 256, REC_SIZE) == HistRecs(multiset{})
    modifies hist
    ensures Records(hist[..], 256, REC_SIZE) == HistRecs(multiset(input[..]))
  {
    ghost var s := input[..];
    assert multiset(s[..0]) == multiset{};
    for i := 0 to input.Length
      invariant input[..] == s && Records(hist[..], 256, REC_SIZE) == HistRecs(multiset(s[..i]))
    {
      ghost var counts := multiset(s[..i]);
      CountOneMore(counts, s[i]);
      BumpCount(hist, input[i], counts[s[i]]);
      assert multiset(s[..i + 1]) == counts + multiset{s[i]} by {
        assert s[..i + 1] == s[..i] + [s[i]];
      }
    }
    assert s[..|s|] == s;
  }

  // ----- the sorted histogram starts with the least common symbols -----

  /** A record tells its symbol, so a record of the histogram is the record of that symbol. */
  lemma RecOfSymbol(counts: multiset<Byte>, rec: seq<Byte>)
    requires |counts| < TWO_TO_32 && rec in multiset(HistRecs(counts))
    ensures |rec| == REC_SIZE && rec == CountRec(counts, rec[4])
  {
    var recs := HistRecs(counts);
    assert rec in recs;
    var x :| 0 <= x < 256 && recs[x] == rec;
    CountBound(counts, x);
    GetHistRec(counts[x], x);
  }

  lemma CompareIsBefore(counts: multiset<Byte>, x: Byte, y: Byte)
    requires |counts| < TWO_TO_32
    ensures Le(Compare, CountRec(counts, x), CountRec(counts, y)) <==> x == y || Before(counts, x, y)
  {
    CountBound(counts, x);
    CountBound(counts, y);
    GetHistRec(counts[x], x);
    GetHistRec(counts[y], y);
  }

  lemma CompareIsTotal(counts: multiset<Byte>)
    requires |counts| < TWO_TO_32
    ensures TotalPreorder(Compare, multiset(HistRecs(counts)))
  {
    var all := multiset(HistRecs(counts));
    forall x, y | x in all && y in all
      ensures Le(Compare, x, y) || Le(Compare, y, x)
    {
      RecOfSymbol(counts, x);
      RecOfSymbol(counts, y);
    }
    forall x, y, z | x in all && y in all && z in all && Le(Compare, x, y) && Le(Compare, y, z)
      ensures Le(Compare, x, z)
    {
      RecOfSymbol(counts, x);
      RecOfSymbol(counts, y);
      RecOfSymbol(counts, z);
      CompareTransitive(x, y, z);
    }
  }

  lemma CompareTransitive(x: seq<Byte>, y: seq<Byte>, z: seq<Byte>)
    requires |x| == |y| == |z| == REC_SIZE && Compare(x, y) <= 0 && Compare(y, z) <= 0
    ensures Compare(x, z) <= 0
  {
  }

  lemma OneOfEach<T>(s: seq<T>, i: nat, j: nat)
    requires i < j < |s| && s[i] == s[j]
    ensures multiset(s)[s[i]] >= 2
  {
    assert s == s[..j] + s[j..];
    assert s[i] in s[..j] && s[j] in s[j..];
  }

  lemma {:induction false} DistinctOnce<T>(s: seq<T>, x: T)
    requires forall i, j :: 0 <= i < j < |s| ==> s[i] != s[j]
    ensures multiset(s)[x] <= 1
  {
    if s != [] {
      var n := |s| - 1;
      assert s == s[..n] + [s[n]];
      DistinctOnce(s[..n], x);
      if s[n] == x {
        assert x !in s[..n];
      }
    }
  }

  lemma HistRecsDistinct(counts: multiset<Byte>, rec: seq<Byte>)
    requires |counts| < TWO_TO_32
    ensures multiset(HistRecs(counts))[rec] <= 1
  {
    var recs := HistRecs(counts);
    forall i, j | 0 <= i < j < |recs|
      ensures recs[i] != recs[j]
    {
      CountBound(counts, i);
      CountBound(counts, j);
      GetHistRec(counts[i], i);
      GetHistRec(counts[j], j);
    }
    DistinctOnce(recs, rec);
  }

  /** The histogram, sorted. */
  ghost predicate SortedHistogram(counts: multiset<Byte>, recs: seq<seq<Byte>>) {
    && |counts| < TWO_TO_32 && |recs| == 256
    && multiset(recs) == multiset(HistRecs(counts)) && Sorted(Compare, recs)
  }

  lemma SortedInOrder(counts: multiset<Byte>, recs: seq<seq<Byte>>, i: nat, j: nat)
    requires SortedHistogram(counts, recs) && i < j < 256
    ensures |recs[i]| == |recs[j]| == REC_SIZE && Before(counts, recs[i][4], recs[j][4])
  {
    assert recs[i] in multiset(recs) && recs[j] in multiset(recs);
    RecOfSymbol(counts, recs[i]);
    RecOfSymbol(counts, recs[j]);
    CompareIsBefore(counts, recs[i][4], recs[j][4]);
    if recs[i][4] == recs[j][4] {
      OneOfEach(recs, i, j);
      HistRecsDistinct(counts, recs[i]);
    }
  }

  lemma EverySymbolPresent(counts: multiset<Byte>, recs: seq<seq<Byte>>, x: Byte) returns (k: nat)
    requires SortedHistogram(counts, recs)
    ensures k < 256 && |recs[k]| == REC_SIZE && recs[k][4] == x
  {
    assert HistRecs(counts)[x] in multiset(HistRecs(counts));
    assert CountRec(counts, x) in multiset(recs);
    assert CountRec(counts, x) in recs;
    k :| 0 <= k < 256 && recs[k] == CountRec(counts, x);
    CountBound(counts, x);
    GetHistRec(counts[x], x);
  }

  lemma FirstFourAreLeastCommon(counts: multiset<Byte>, recs: seq<seq<Byte>>, m: Markers)
    requires SortedHistogram(counts, recs)
    requires |recs[0]| == |recs[1]| == |recs[2]| == |recs[3]| == REC_SIZE
    requires m == Markers(recs[0][4], recs[1][4], recs[2][4], recs[3][4])
    ensures LeastCommon(counts, m)
  {
    SortedInOrder(counts, recs, 0, 1);
    SortedInOrder(counts, recs, 1, 2);
    SortedInOrder(counts, recs, 2, 3);
    forall x: Byte
      ensures m.Has(x) || Before(counts, m.m4, x)
    {
      var k := EverySymbolPresent(counts, recs, x);
      if k > 3 {
        SortedInOrder(counts, recs, 3, k);
      }
    }
  }

  /** _LZG_DetermineMarkers: the markers are the four least common symbols of the input. */
  method DetermineMarkers(input: array<Byte>) returns (m: Markers)
    requires input.Length < TWO_TO_32
    ensures LeastCommon(multiset(input[..]), m)
  {
    ghost var counts := multiset(input[..]);
    SpanIsProduct(256, REC_SIZE);
    var hist := new Byte[256 * REC_SIZE];
    ClearHistogram(hist);
    CountSymbols(input, hist);
    CompareIsTotal(counts);
    QsortR(hist, 256, REC_SIZE, Compare);
    ghost var recs := Records(hist[..], 256, REC_SIZE);
    assert SortedHistogram(counts, recs);
    m := ReadMarkers(hist);
    assert forall i :: 0 <= i < 4 ==> |recs[i]| == REC_SIZE;
    FirstFourAreLeastCommon(counts, recs, m);
  }

  /** The symbols of the first four records. */
  method ReadMarkers(hist: array<Byte>) returns (m: Markers)
    requires hist.Length == Span(256, REC_SIZE)
    ensures forall i :: 0 <= i < 4 ==> |Records(hist[..], 256, REC_SIZE)[i]| == REC_SIZE
    ensures var recs := Records(hist[..], 256, REC_SIZE);
            m == Markers(recs[0][4], recs[1][4], recs[2][4], recs[3][4])
  {
    SpanIsProduct(256, REC_SIZE);
    SpanIsProduct(1, REC_SIZE);
    SpanIsProduct(2, REC_SIZE);
    SpanIsProduct(3, REC_SIZE);
    m := Markers(hist[4], hist[REC_SIZE + 4], hist[2 * REC_SIZE + 4], hist[3 * REC_SIZE + 4]);
  }
}
