/**
 * Numbers as text: what the formatter of src/libc/xprintf.c:82-158 writes for them, what the parser of
 * src/libc/xprintf.c:336-389 reads, and that the second undoes the first.
 */
module NumberText {
  import opened Prelude
  import opened Division

  type Text = seq<Byte>

  const SPACE: Byte := 32
  const MINUS: Byte := 45
  const ZERO: Byte := 48
  const NINE: Byte := 57
  const LOWER_A: Byte := 97
  const LOWER_B: Byte := 98
  const LOWER_X: Byte := 120

  // ----- writing -----

  /** sizeof(s): the digits that fit the formatter's buffer. */
  const BUFFER := 16

  function DigitChar(d: nat, lower: bool): Byte
    requires d < 16
  {
    if d > 9 then d + (if lower then 0x27 else 0x07) + 48 else d + 48
  }

  // v / r and v % r, as repeated subtraction: the solver then has no symbolic divisor to reason about.
  function Quot(v: nat, r: nat): (q: nat)
    requires r >= 2
    ensures q <= v
  {
    if v < r then 0 else 1 + Quot(v - r, r)
  }

  function Rem(v: nat, r: nat): (d: nat)
    requires r >= 2
    ensures d < r
  {
    if v < r then v else Rem(v - r, r)
  }

  lemma {:induction false} QuotRem(v: nat, r: nat)
    requires r >= 2
    ensures v == Quot(v, r) * r + Rem(v, r)
  {
    if v >= r {
      QuotRem(v - r, r);
      assert (1 + Quot(v - r, r)) * r == r + Quot(v - r, r) * r;
    }
  }

  lemma QuotRemAreDivMod(v: nat, r: nat)
    requires r >= 2
    ensures v / r == Quot(v, r) && v % r == Rem(v, r)
  {
    QuotRem(v, r);
    DivUnique(v, r, Quot(v, r), Rem(v, r));
  }

  /** The digits of v to base r, least significant first, at most `room` of them. */
  function Digits(v: nat, r: nat, lower: bool, room: nat): (s: Text)
    requires 2 <= r <= 16 && 1 <= room
    ensures 1 <= |s| <= room
  {
    [DigitChar(Rem(v, r), lower)] + if Quot(v, r) == 0 || room == 1 then [] else Digits(Quot(v, r), r, lower, room - 1)
  }

  function Reverse(s: Text): (t: Text)
    ensures |t| == |s|
  {
    if s == [] then [] else Reverse(s[1..]) + [s[0]]
  }

  /** The digits as they are read, with a sign in front if there is one. */
  function Numeral(v: nat, r: nat, lower: bool, negative: bool): Text
    requires 2 <= r <= 16
  {
    Reverse(Digits(v, r, lower, BUFFER) + if negative then [MINUS] else [])
  }

  function Fill(c: Byte, n: int): (t: Text)
    ensures |t| == if n > 0 then n else 0
  {
    if n <= 0 then [] else Fill(c, n - 1) + [c]
  }

  /** t in a field at least `width` wide. */
  function Padded(t: Text, left: bool, zero: bool, width: nat): Text {
    if left then t + Fill(SPACE, width - |t|)
    else Fill(if zero then ZERO else SPACE, width - |t|) + t
  }

  // ----- reading -----

  /** Past the end a string reads as its terminator. */
  function CharAt(s: Text, i: nat): Byte {
    if i < |s| then s[i] else 0
  }

  /** What the parser makes of a character, in `unsigned char` arithmetic. */
  function DigitOf(c: Byte): int {
    var c1: int := if c >= LOWER_A then c - 0x20 else c;
    var c2 := (c1 - 48) % 256;
    if c2 >= 17 then c2 - 7 else c2
  }

  /** The first position from i on with a blank, a control character or the end. */
  function EndOf(s: Text, i: nat): (j: nat)
    ensures i <= j && CharAt(s, j) <= SPACE
    ensures forall k :: i <= k < j ==> CharAt(s, k) > SPACE
    decreases |s| - i
  {
    if CharAt(s, i) <= SPACE then i else EndOf(s, i + 1)
  }

  /** The number the characters from i to j - 1 form to base r, modulo 2^32; None if one is no digit. */
  function Value(s: Text, i: nat, j: nat, r: nat): Option<Word>
    requires i <= j
    decreases j - i
  {
    if i == j then Some(0)
    else match Value(s, i, j - 1, r)
      case None => None
      case Some(v) =>
        var d := DigitOf(CharAt(s, j - 1));
        if d >= r then None else Some(Wrap((v as int) * r + d))
  }

  function SkipBlanks(s: Text, i: nat): (j: nat)
    ensures i <= j && CharAt(s, j) != SPACE
    ensures forall k :: i <= k < j ==> CharAt(s, k) == SPACE
    decreases |s| - i
  {
    if CharAt(s, i) == SPACE then SkipBlanks(s, i + 1) else i
  }

  /** Base and first digit of an unsigned number at i; base 0 for a lone zero, None for no number. */
  function Radix(s: Text, i: nat): Option<(nat, nat)> {
    var c := CharAt(s, i);
    if c == ZERO then
      var x := CharAt(s, i + 1);
      if x == LOWER_X then Some((16, i + 2))
      else if x == LOWER_B then Some((2, i + 2))
      else if x <= SPACE then Some((0, i + 1))
      else if x < ZERO || x > NINE then None
      else Some((8, i + 1))
    else if c < ZERO || c > NINE then None
    else Some((10, i))
  }

  /** The number at i after blanks and sign. */
  function ParseUnsigned(s: Text, i: nat): Option<Word> {
    match Radix(s, i)
    case None => None
    case Some((r, j)) => if r == 0 then Some(0) else Value(s, j, EndOf(s, j), r)
  }

  /** The number at i with its sign. */
  function ParseSigned(s: Text, i: nat): Option<Word> {
    if CharAt(s, i) == MINUS then
      match ParseUnsigned(s, i + 1)
      case None => None
      case Some(v) => Some(Wrap(0 - v as int))
    else ParseUnsigned(s, i)
  }

  /** xatoi: the value of the first number from `start` on, None where it fails. */
  function Parse(s: Text, start: nat): Option<Word> {
    ParseSigned(s, SkipBlanks(s, start))
  }

  // ----- reading what was written -----

  lemma DigitOfChar(d: nat, lower: bool)
    requires d < 16
    ensures DigitOf(DigitChar(d, lower)) == d && DigitChar(d, lower) > SPACE
    ensures d <= 9 ==> ZERO <= DigitChar(d, lower) <= NINE
    ensures d != 0 ==> DigitChar(d, lower) != ZERO
  {
  }

  lemma ReverseAppend(s: Text, t: Text)
    ensures Reverse(s + t) == Reverse(t) + Reverse(s)
  {
    if s == [] {
      assert s + t == t;
    } else {
      assert (s + t)[1..] == s[1..] + t;
      ReverseAppend(s[1..], t);
    }
  }

  /** The digits most significant first end in the last digit. */
  lemma {:induction false} NumeralStep(v: nat, r: nat, lower: bool, room: nat)
    requires 2 <= r <= 16 && 1 <= room
    ensures Reverse(Digits(v, r, lower, room)) ==
            (if Quot(v, r) == 0 || room == 1 then [] else Reverse(Digits(Quot(v, r), r, lower, room - 1)))
            + [DigitChar(Rem(v, r), lower)]
  {
    var last := [DigitChar(Rem(v, r), lower)];
    var rest := if Quot(v, r) == 0 || room == 1 then [] else Digits(Quot(v, r), r, lower, room - 1);
    ReverseAppend(last, rest);
    assert Reverse(last) == last;
  }

  lemma PlainNumeral(v: nat, r: nat, lower: bool)
    requires 2 <= r <= 16
    ensures Numeral(v, r, lower, false) == Reverse(Digits(v, r, lower, BUFFER))
  {
    assert Digits(v, r, lower, BUFFER) + [] == Digits(v, r, lower, BUFFER);
  }

  /** Text t stands in s from position i on. */
  predicate Stands(s: Text, i: nat, t: Text) {
    i + |t| <= |s| && s[i..i + |t|] == t
  }

  lemma StandsParts(s: Text, i: nat, t: Text, u: Text)
    requires Stands(s, i, t + u)
    ensures Stands(s, i, t) && Stands(s, i + |t|, u)
  {
    var w := s[i..i + |t| + |u|];
    assert w[..|t|] == s[i..i + |t|] && w[|t|..] == s[i + |t|..i + |t| + |u|];
  }

  /** One more digit in the text is one more in the number. */
  lemma {:induction false} ValueStep(s: Text, i: nat, j: nat, r: nat, q: nat, d: nat, c: Byte, w: Word)
    requires i <= j && q < TWO_TO_32 && Value(s, i, j, r) == Some(q) && Stands(s, j, [c]) && DigitOf(c) == d < r
    requires w == q * r + d
    ensures Value(s, i, j + 1, r) == Some(w) && CharAt(s, j) == c
  {
    hide DigitOf;
    assert s[j] == s[j..j + 1][0];
  }

  ghost predicate ReadsBack(s: Text, i: nat, n: nat, r: nat, v: nat) {
    && v < TWO_TO_32 && Value(s, i, i + n, r) == Some(v)
    && forall k :: i <= k < i + n ==> CharAt(s, k) > SPACE
  }

  function Power(r: nat, k: nat): nat {
    if k == 0 then 1 else r * Power(r, k - 1)
  }

  lemma MulMonotone(r: nat, p: nat, q: nat)
    requires p <= q
    ensures r * p <= r * q
  {
    assert r * (q - p) >= 0;
    assert r * q == r * p + r * (q - p);
  }

  /** What `room` digits to base r can hold of v. */
  function Low(v: nat, r: nat, room: nat): nat
    requires r >= 2 && room >= 1
  {
    if room == 1 || Quot(v, r) == 0 then Rem(v, r) else Low(Quot(v, r), r, room - 1) * r + Rem(v, r)
  }

  lemma {:induction false} ReadsBackStep(s: Text, i: nat, n: nat, r: nat, q: nat, d: nat, lower: bool, w: Word)
    requires 2 <= r <= 16 && d < r && w == q * r + d && ReadsBack(s, i, n, r, q)
    requires Stands(s, i + n, [DigitChar(d, lower)])
    ensures ReadsBack(s, i, n + 1, r, w)
  {
    DigitOfChar(d, lower);
    ValueStep(s, i, i + n, r, q, d, DigitChar(d, lower), w);
  }

  /** A text of digits is read back as what the digits can hold. */
  lemma {:induction false} ValueOfDigits(s: Text, i: nat, v: nat, r: nat, lower: bool, room: nat)
    requires 2 <= r <= 16 && 1 <= room && v < TWO_TO_32
    requires Stands(s, i, Reverse(Digits(v, r, lower, room)))
    ensures ReadsBack(s, i, |Digits(v, r, lower, room)|, r, Low(v, r, room))
    decreases room
  {
    NumeralStep(v, r, lower, room);
    LowBound(v, r, room);
    var last := [DigitChar(Rem(v, r), lower)];
    if Quot(v, r) == 0 || room == 1 {
      assert [] + last == last;
      assert ReadsBack(s, i, 0, r, 0);
      ReadsBackStep(s, i, 0, r, 0, Rem(v, r), lower, Rem(v, r));
    } else {
      var front := Reverse(Digits(Quot(v, r), r, lower, room - 1));
      StandsParts(s, i, front, last);
      ValueOfDigits(s, i, Quot(v, r), r, lower, room - 1);
      ReadsBackStep(s, i, |front|, r, Low(Quot(v, r), r, room - 1), Rem(v, r), lower, Low(v, r, room));
    }
  }

  lemma {:induction false} LowBound(v: nat, r: nat, room: nat)
    requires r >= 2 && room >= 1
    ensures Low(v, r, room) <= v
    decreases room
  {
    QuotRem(v, r);
    if room == 1 || Quot(v, r) == 0 {
      ProductAtLeast(r, Quot(v, r));
    } else {
      LowBound(Quot(v, r), r, room - 1);
      MulMonotone(r, Low(Quot(v, r), r, room - 1), Quot(v, r));
      assert Low(Quot(v, r), r, room - 1) * r == r * Low(Quot(v, r), r, room - 1);
    }
  }

  lemma {:induction false} LowIsAll(v: nat, r: nat, room: nat)
    requires r >= 2 && room >= 1 && Fits(v, r, room)
    ensures Low(v, r, room) == v
    decreases room
  {
    QuotRem(v, r);
    if Quot(v, r) > 0 {
      LowIsAll(Quot(v, r), r, room - 1);
      assert Quot(v, r) * r == r * (Quot(v, r));
    }
  }

  /** The digits that fit hold the number modulo a power of the base. */
  lemma {:induction false} LowIsMod(v: nat, r: nat, room: nat)
    requires r >= 2 && room >= 1
    ensures Power(r, room) > 0 && Low(v, r, room) == v % Power(r, room)
    decreases room
  {
    PowerPositive(r, room - 1);
    if room == 1 {
      assert Power(r, 1) == r * Power(r, 0) == r;
      QuotRemAreDivMod(v, r);
    } else {
      LowIsMod(Quot(v, r), r, room - 1);
      ModStep(v, r, Power(r, room - 1));
      if Quot(v, r) == 0 {
        SmallMod(Power(r, room - 1));
      }
    }
  }

  lemma PowerPositive(r: nat, k: nat)
    requires r >= 2
    ensures Power(r, k) > 0
  {
  }

  lemma SmallMod(p: nat)
    requires p > 0
    ensures 0 % p == 0
  {
  }

  lemma Regroup(r: nat, p: nat, k: nat, m: nat, d: nat)
    ensures (p * k + m) * r + d == k * (r * p) + (m * r + d)
  {
    assert (p * k + m) * r == p * k * r + m * r;
    assert p * k * r == k * (r * p);
  }

  lemma RegroupBound(r: nat, p: nat, m: nat, d: nat)
    requires m < p && d < r
    ensures m * r + d < r * p
  {
    MulMonotone(r, m + 1, p);
    assert r * (m + 1) == r * m + r && r * m == m * r;
  }

  lemma {:induction false} ModStep(v: nat, r: nat, p: nat)
    requires r >= 2 && p > 0
    ensures r * p > 0 && v % (r * p) == (Quot(v, r) % p) * r + Rem(v, r)
  {
    QuotRem(v, r);
    var q := Quot(v, r);
    Decompose(q, p);
    DivNotNegative(q, p);
    Regroup(r, p, q / p, q % p, Rem(v, r));
    RegroupBound(r, p, q % p, Rem(v, r));
    DivUnique(v, r * p, q / p, (q % p) * r + Rem(v, r));
  }

  /** v has at most `room` digits to base r. */
  predicate Fits(v: nat, r: nat, room: nat)
    requires r >= 2
  {
    room > 0 && (Quot(v, r) == 0 || (Quot(v, r) > 0 && Fits(Quot(v, r), r, room - 1)))
  }

  lemma {:induction false} FitsBelowPower(v: nat, r: nat, room: nat)
    requires 2 <= r && 1 <= room && v < Power(r, room)
    ensures Fits(v, r, room)
    decreases room
  {
    DivBelow(v, r, Power(r, room - 1));
    if Quot(v, r) > 0 {
      FitsBelowPower(Quot(v, r), r, room - 1);
    }
  }

  lemma DivBelow(v: nat, r: nat, p: nat)
    requires 2 <= r && v < r * p
    ensures Quot(v, r) < p
  {
    QuotRem(v, r);
    if p <= Quot(v, r) {
      MulMonotone(r, p, Quot(v, r));
    }
  }

  /** The most significant digit of a number is not zero, unless the number is. */
  lemma {:induction false} LeadingDigit(v: nat, r: nat, lower: bool, room: nat)
    requires 2 <= r <= 16 && 1 <= room && Fits(v, r, room)
    ensures v == 0 ==> Reverse(Digits(v, r, lower, room)) == [ZERO]
    ensures v != 0 ==> Reverse(Digits(v, r, lower, room))[0] != ZERO
    ensures r <= 10 ==> ZERO <= Reverse(Digits(v, r, lower, room))[0] <= NINE
    decreases room
  {
    NumeralStep(v, r, lower, room);
    QuotRem(v, r);
    DigitOfChar(Rem(v, r), lower);
    if Quot(v, r) != 0 {
      LeadingDigit(Quot(v, r), r, lower, room - 1);
    }
  }

  /** A text that may follow a number: nothing, or something that starts with a blank. */
  predicate Ends(tail: Text) {
    tail == [] || tail[0] <= SPACE
  }

  lemma EndOfIs(s: Text, i: nat, j: nat)
    requires i <= j && CharAt(s, j) <= SPACE && forall k :: i <= k < j ==> CharAt(s, k) > SPACE
    ensures EndOf(s, i) == j
  {
  }

  /** A numeral at position i, followed by the end of the text or a blank, is read back. */
  lemma {:induction false} DigitsParsed(s: Text, i: nat, v: nat, r: nat, lower: bool, tail: Text)
    requires 2 <= r <= 16 && v < TWO_TO_32 && Ends(tail)
    requires i <= |s| && s[i..] == Numeral(v, r, lower, false) + tail
    ensures Low(v, r, BUFFER) < TWO_TO_32 && Value(s, i, EndOf(s, i), r) == Some(Low(v, r, BUFFER))
  {
    var t := Reverse(Digits(v, r, lower, BUFFER));
    PlainNumeral(v, r, lower);
    TailFollows(s, i, t, tail);
    ValueOfDigits(s, i, v, r, lower, BUFFER);
    EndOfIs(s, i, i + |t|);
  }

  lemma TailFollows(s: Text, i: nat, t: Text, tail: Text)
    requires i <= |s| && s[i..] == t + tail && Ends(tail)
    ensures Stands(s, i, t) && CharAt(s, i + |t|) <= SPACE
  {
    assert s[i..i + |t|] == s[i..][..|t|] == t;
    assert tail != [] ==> s[i + |t|] == s[i..][|t|] == tail[0];
  }

  lemma HexPower()
    ensures Power(16, BUFFER) >= TWO_TO_32
  {
    assert Power(16, 4) == 0x1_0000;
    assert Power(16, 8) == TWO_TO_32;
    assert Power(16, 12) == 0x1_0000 * TWO_TO_32;
  }

  lemma BinaryLow(v: Word)
    ensures Low(v, 2, BUFFER) == v % 0x1_0000
  {
    BinaryPower();
    LowIsMod(v, 2, BUFFER);
  }

  lemma BinaryPower()
    ensures Power(2, BUFFER) == 0x1_0000
  {
    assert Power(2, 4) == 16;
    assert Power(2, 8) == 256;
    assert Power(2, 12) == 4096;
  }

  lemma OctalPower()
    ensures Power(8, BUFFER) >= TWO_TO_32
  {
    assert Power(8, 4) == 4096;
    assert Power(8, 8) == 4096 * 4096;
    assert Power(8, 12) == 4096 * 4096 * 4096;
    assert Power(8, 16) == 4096 * 4096 * 4096 * 4096;
  }

  // ----- decimal numbers in fields -----

  lemma {:induction false} FillBlank(n: int, i: nat)
    requires i < |Fill(SPACE, n)|
    ensures Fill(SPACE, n)[i] == SPACE
    decreases n
  {
    if i < n - 1 {
      FillBlank(n - 1, i);
    }
  }

  lemma BlanksSkipped(s: Text, n: int, rest: Text)
    requires s == Fill(SPACE, n) + rest && CharAt(rest, 0) != SPACE
    ensures SkipBlanks(s, 0) == |Fill(SPACE, n)|
  {
    var k := |Fill(SPACE, n)|;
    forall i | 0 <= i < k
      ensures CharAt(s, i) == SPACE
    {
      FillBlank(n, i);
    }
    SkipBlanksIs(s, 0, k);
  }

  lemma SkipBlanksIs(s: Text, i: nat, j: nat)
    requires i <= j && CharAt(s, j) != SPACE && forall k :: i <= k < j ==> CharAt(s, k) == SPACE
    ensures SkipBlanks(s, i) == j
    decreases j - i
  {
  }

  lemma DecimalPower()
    ensures Power(10, BUFFER) >= TWO_TO_32
  {
    assert Power(10, 4) == 10000;
    assert Power(10, 8) == 10000 * 10000;
    assert Power(10, 12) == 10000 * 10000 * 10000;
    assert Power(10, 16) == 10000 * 10000 * 10000 * 10000;
  }

  /** The unsigned part of a decimal number at i. */
  lemma {:induction false} DecimalParsed(s: Text, i: nat, v: Word, tail: Text)
    requires Ends(tail) && i <= |s| && s[i..] == Numeral(v, 10, false, false) + tail
    ensures CharAt(s, i) != SPACE && CharAt(s, i) != MINUS
    ensures ParseUnsigned(s, i) == Some(v)
  {
    var t := Numeral(v, 10, false, false);
    DecimalPower();
    FitsBelowPower(v, 10, BUFFER);
    LowIsAll(v, 10, BUFFER);
    PlainNumeral(v, 10, false);
    LeadingDigit(v, 10, false, BUFFER);
    assert s[i] == s[i..][0] == t[0];
    TailFollows(s, i, t, tail);
    DigitsParsed(s, i, v, 10, false, tail);
  }

  lemma NegativeNumeral(v: nat)
    ensures Numeral(v, 10, false, true) == [MINUS] + Numeral(v, 10, false, false)
  {
    ReverseAppend(Digits(v, 10, false, BUFFER), [MINUS]);
    PlainNumeral(v, 10, false);
    assert Reverse([MINUS]) == [MINUS];
  }

  lemma {:induction false} PositiveParsed(s: Text, k: nat, v: Word, tail: Text)
    requires k <= |s| && s[k..] == Numeral(v, 10, false, false) + tail && Ends(tail)
    requires s[..k] == Fill(SPACE, k)
    ensures Parse(s, 0) == Some(v)
  {
    DecimalParsed(s, k, v, tail);
    var rest := s[k..];
    assert s == s[..k] + rest && CharAt(rest, 0) == CharAt(s, k);
    BlanksSkipped(s, k, rest);
  }

  lemma {:induction false} NegativeParsed(s: Text, k: nat, v: Word, tail: Text)
    requires k < |s| && s[k] == MINUS && s[k + 1..] == Numeral(v, 10, false, false) + tail && Ends(tail)
    requires s[..k] == Fill(SPACE, k)
    ensures Parse(s, 0) == Some(Wrap(0 - v as int))
  {
    DecimalParsed(s, k + 1, v, tail);
    var rest := s[k..];
    assert s == s[..k] + rest && CharAt(rest, 0) == MINUS;
    BlanksSkipped(s, k, rest);
  }

  /** A signed number after blanks and before a blank or the end is read back. */
  lemma {:induction false} SignedParsed(k: nat, v: Word, negative: bool, tail: Text)
    requires Ends(tail)
    ensures Parse(Fill(SPACE, k) + Numeral(v, 10, false, negative) + tail, 0) ==
            Some(if negative then Wrap(0 - v as int) else v)
  {
    var s := Fill(SPACE, k) + Numeral(v, 10, false, negative) + tail;
    assert s[..k] == Fill(SPACE, k) && s[k..] == Numeral(v, 10, false, negative) + tail;
    if negative {
      NegativeNumeral(v);
      assert s[k..] == [MINUS] + (Numeral(v, 10, false, false) + tail);
      assert s[k] == s[k..][0] && s[k + 1..] == s[k..][1..];
      NegativeParsed(s, k, v, tail);
    } else {
      PositiveParsed(s, k, v, tail);
    }
  }

  lemma FillEnds(n: int)
    ensures Ends(Fill(SPACE, n))
  {
    if n > 0 { FillBlank(n, 0); }
  }

  /** `%d` in a field of any width padded with blanks on either side: every 32-bit value is read back. */
  lemma {:induction false} DecimalRoundTrip(w: Word, left: bool, width: nat)
    ensures Parse(Padded(Numeral(Abs(Signed(w)), 10, false, Signed(w) < 0), left, false, width), 0) == Some(w)
  {
    var v, negative := Abs(Signed(w)), Signed(w) < 0;
    var t := Numeral(v, 10, false, negative);
    var n := if width > |t| then width - |t| else 0;
    assert Fill(SPACE, width - |t|) == Fill(SPACE, n);
    if left {
      FillEnds(n);
      SignedParsed(0, v, negative, Fill(SPACE, n));
      assert Fill(SPACE, 0) + t == t;
    } else {
      SignedParsed(n, v, negative, []);
      var s := Fill(SPACE, n) + t;
      assert s + [] == s;
    }
  }

  /** `%u` likewise. */
  lemma {:induction false} UnsignedRoundTrip(w: Word, left: bool, width: nat)
    ensures Parse(Padded(Numeral(w, 10, false, false), left, false, width), 0) == Some(w)
  {
    var t := Numeral(w, 10, false, false);
    var n := if width > |t| then width - |t| else 0;
    assert Fill(SPACE, width - |t|) == Fill(SPACE, n);
    if left {
      FillEnds(n);
      SignedParsed(0, w, false, Fill(SPACE, n));
      assert Fill(SPACE, 0) + t == t;
    } else {
      SignedParsed(n, w, false, []);
      var s := Fill(SPACE, n) + t;
      assert s + [] == s;
    }
  }
}
