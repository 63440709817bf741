/**
 * Printing and reading back (src/libc/xprintf.c:82-158, 168-179, 325-389): what xatoi makes of a number xsprintf has
 * written, for every base with the prefix by which the parser tells it, and of several numbers in one text.
 */
module PrintRead {
  import opened Prelude
  import opened Division
  import opened NumberText
  import opened XPrintf
  import opened ZeroPadding

  predicate IsBase(r: nat) {
    r == 2 || r == 8 || r == 10 || r == 16
  }

  /** The text in front of a number by which the parser tells its base: `0b`, `0`, nothing or `0x`. */
  function Prefix(r: nat): Text
    requires IsBase(r)
  {
    if r == 16 then [ZERO, LOWER_X] else if r == 2 then [ZERO, LOWER_B] else if r == 8 then [ZERO] else []
  }

  // ----- what such a format writes -----

  function NumberDirective(fmt: Text, r: nat): Directive
    requires IsBase(r)
  {
    ParseDirective(fmt, |Prefix(r)| + 1)
  }

  /** The format is the prefix of base r and one directive that prints to base r, such as `0x%08lx`. */
  predicate PrefixedFormat(fmt: Text, r: nat) {
    && IsBase(r) && Prefix(r) <= fmt && CharAt(fmt, |Prefix(r)|) == PERCENT
    && Base(NumberDirective(fmt, r).conv) == r && CharAt(fmt, NumberDirective(fmt, r).next) == 0
  }

  lemma FormatPrefixed(fmt: Text, r: nat, w: Word)
    requires PrefixedFormat(fmt, r)
    ensures Format(fmt, 0, [Number(w)], 0) == Some(Prefix(r) + NumberField(NumberDirective(fmt, r), w))
  {
    hide NumberField, ParseDirective, Prefix;
    var p, d := Prefix(r), NumberDirective(fmt, r);
    var t := NumberField(d, w);
    assert Format(fmt, d.next, [Number(w)], 1) == Some([]);
    assert t + [] == t;
    assert Format(fmt, |p|, [Number(w)], 0) == Some(t);
    PlainFront(fmt, r, [Number(w)], t);
  }

  /** The characters of the prefix are copied. */
  lemma PlainFront(fmt: Text, r: nat, args: seq<Arg>, t: Text)
    requires IsBase(r) && Prefix(r) <= fmt && Format(fmt, |Prefix(r)|, args, 0) == Some(t)
    ensures Format(fmt, 0, args, 0) == Some(Prefix(r) + t)
  {
    var p := Prefix(r);
    if |p| == 0 {
      assert p + t == t;
    } else if |p| == 1 {
      assert CharAt(fmt, 0) == ZERO;
    } else {
      assert CharAt(fmt, 0) == ZERO && CharAt(fmt, 1) == p[1];
      assert [p[0]] + ([p[1]] + t) == p + t;
    }
  }

  /** The plain directives: `0x%x`, `0%o`, `0b%b` and `%u` write the prefix and the numeral. */
  lemma PlainFormat(r: nat, conv: Byte, w: Word)
    requires IsBase(r) && Base(conv) == r && Upper(conv) != 68
    ensures Format(Prefix(r) + [PERCENT, conv], 0, [Number(w)], 0) ==
            Some(Prefix(r) + Numeral(w, r, conv == LOWER_X, false))
  {
    var fmt := Prefix(r) + [PERCENT, conv];
    var n := |Prefix(r)|;
    assert CharAt(fmt, n + 1) == conv && CharAt(fmt, n + 2) == 0;
    assert ParseDirective(fmt, n + 1) == Directive(false, false, 0, conv, n + 2);
    FormatPrefixed(fmt, r, w);
    var t := Numeral(w, r, conv == LOWER_X, false);
    assert Fill(SPACE, 0 - |t|) == [] && [] + t == t;
  }

  // ----- reading a numeral after its prefix -----

  /** Leading zeros do not count. */
  lemma {:induction false} ZerosSkipped(s: Text, i: nat, j: nat, k: nat, r: nat)
    requires i <= j <= k && Value(s, i, j, r) == Some(0)
    ensures Value(s, i, k, r) == Value(s, j, k, r)
    decreases k
  {
    hide DigitOf, Wrap;
    if j < k {
      ZerosSkipped(s, i, j, k - 1, r);
    }
  }

  lemma {:induction false} ValueOfZeros(s: Text, i: nat, m: nat, r: nat)
    requires r >= 2 && forall k :: i <= k < i + m ==> CharAt(s, k) == ZERO
    ensures Value(s, i, i + m, r) == Some(0)
  {
    if m > 0 {
      ValueOfZeros(s, i, m - 1, r);
      assert CharAt(s, i + m - 1) == ZERO && DigitOf(ZERO) == 0;
    }
  }

  /** What stands in a text behind the prefix: zeros, the numeral t and what follows it. */
  lemma PartsStand(s: Text, p: Text, m: nat, t: Text, tail: Text)
    requires s == p + (Fill(ZERO, m) + (t + tail))
    ensures |p| + m <= |s| && s[..|p|] == p && s[|p| + m..] == t + tail
    ensures forall k :: |p| <= k < |p| + m ==> CharAt(s, k) == ZERO
  {
    var rest := Fill(ZERO, m) + (t + tail);
    ZerosOfFill(rest, m, t + tail);
    assert s[|p|..] == rest;
    assert s[|p| + m..] == rest[m..];
    forall k | |p| <= k < |p| + m ensures CharAt(s, k) == ZERO {
      assert s[k] == rest[k - |p|] && CharAt(rest, k - |p|) == ZERO;
    }
  }

  /** The value of zeros and a numeral is what the numeral's digits hold. */
  lemma {:induction false} ZerosAndDigits(s: Text, i: nat, m: nat, v: Word, r: nat, lower: bool, tail: Text)
    requires 2 <= r <= 16 && Ends(tail) && i + m <= |s| && s[i + m..] == Numeral(v, r, lower, false) + tail
    requires forall k :: i <= k < i + m ==> CharAt(s, k) == ZERO
    ensures Low(v, r, BUFFER) < TWO_TO_32 && Value(s, i, EndOf(s, i), r) == Some(Low(v, r, BUFFER))
  {
    hide Value, Low, Numeral;
    DigitsParsed(s, i + m, v, r, lower, tail);
    EndFromWithin(s, i, i + m);
    ValueOfZeros(s, i, m, r);
    ZerosSkipped(s, i, i + m, EndOf(s, i), r);
  }

  /** The prefix tells the base, and the digits start behind it. */
  lemma RadixOfPrefix(s: Text, r: nat)
    requires IsBase(r) && Prefix(r) <= s
    requires r == 8 || r == 10 ==> ZERO <= CharAt(s, |Prefix(r)|) <= NINE
    requires r == 10 ==> CharAt(s, 0) != ZERO
    ensures SkipBlanks(s, 0) == 0 && CharAt(s, 0) != MINUS && Radix(s, 0) == Some((r, |Prefix(r)|))
  {
    assert r == 10 || s[0] == ZERO;
    assert r == 2 || r == 16 ==> s[1] == Prefix(r)[1];
  }

  lemma FirstOfNumeral(v: Word, lower: bool)
    ensures |Numeral(v, 8, lower, false)| > 0 && ZERO <= Numeral(v, 8, lower, false)[0] <= NINE
  {
    OctalPower();
    FitsBelowPower(v, 8, BUFFER);
    PlainNumeral(v, 8, lower);
    LeadingDigit(v, 8, lower, BUFFER);
  }

  /** What sixteen digits of a word hold: all of it, but of a binary number only the low half. */
  lemma LowOfWord(v: Word, r: nat)
    requires IsBase(r)
    ensures Low(v, r, BUFFER) == if r == 2 then v % 0x1_0000 else v
  {
    if r == 2 {
      BinaryLow(v);
    } else {
      HexPower();
      OctalPower();
      DecimalPower();
      FitsBelowPower(v, r, BUFFER);
      LowIsAll(v, r, BUFFER);
    }
  }

  /** A prefix, any number of zeros and the numeral. */
  lemma {:induction false} PrefixedParsed(r: nat, m: nat, v: Word, lower: bool, tail: Text)
    requires IsBase(r) && r != 10 && Ends(tail)
    ensures Parse(Prefix(r) + (Fill(ZERO, m) + (Numeral(v, r, lower, false) + tail)), 0) ==
            Some(if r == 2 then v % 0x1_0000 else v)
  {
    hide Value, Low, Numeral, SkipBlanks;
    var t := Numeral(v, r, lower, false);
    var s := Prefix(r) + (Fill(ZERO, m) + (t + tail));
    var n := |Prefix(r)|;
    PartsStand(s, Prefix(r), m, t, tail);
    if r == 8 {
      FirstOfNumeral(v, lower);
      assert m == 0 ==> s[n] == s[n..][0];
    }
    RadixOfPrefix(s, r);
    ZerosAndDigits(s, n, m, v, r, lower, tail);
    LowOfWord(v, r);
  }

  /** Blanks behind the prefix end the number before its first digit. */
  lemma BlankBehindPrefix(s: Text, r: nat)
    requires IsBase(r) && r != 10 && Prefix(r) <= s && CharAt(s, |Prefix(r)|) == SPACE
    ensures Parse(s, 0) == Some(0)
  {
    assert s[0] == ZERO;
    assert SkipBlanks(s, 0) == 0;
    if r != 8 {
      assert s[1] == Prefix(r)[1];
      assert Radix(s, 0) == Some((r, 2)) && EndOf(s, 2) == 2;
    }
  }

  // ----- reading what a directive wrote -----

  /** The number is pushed to the right with blanks. */
  predicate BlanksInFront(d: Directive, w: Word)
    requires IsBase(Base(d.conv))
  {
    !d.left && !d.zero && d.width > |Numeral(w, Base(d.conv), d.conv == LOWER_X, false)|
  }

  /** What is read back where w was printed with its prefix. */
  function ReadBack(d: Directive, w: Word): Word
    requires IsBase(Base(d.conv))
  {
    var r := Base(d.conv);
    if r == 10 then w
    else if BlanksInFront(d, w) then 0
    else if r == 2 then w % 0x1_0000
    else w
  }

  /**
   * Every field of every prefixed base: the value comes back, but a binary one only modulo 2^16, and with blanks
   * between prefix and digits it is zero that is read.
   */
  lemma PrefixedReading(d: Directive, w: Word)
    requires IsBase(Base(d.conv)) && (Base(d.conv) == 10 ==> !d.zero)
    ensures Parse(Prefix(Base(d.conv)) + NumberField(d, w), 0) == Some(ReadBack(d, w))
  {
    hide Parse, Numeral;
    var r := Base(d.conv);
    if r == 10 {
      FieldRoundTrip(d, w);
      assert [] + NumberField(d, w) == NumberField(d, w);
      return;
    }
    var t := Numeral(w, r, d.conv == LOWER_X, false);
    var n := if d.width > |t| then d.width - |t| else 0;
    var zeros := if d.zero && !d.left then n else 0;
    var blanks := Fill(SPACE, if d.left then n else 0);
    if BlanksInFront(d, w) {
      var s := Prefix(r) + (Fill(SPACE, n) + t);
      FillIs(SPACE, n, 0);
      assert s[|Prefix(r)|] == Fill(SPACE, n)[0];
      BlankBehindPrefix(s, r);
    } else {
      FillEnds(if d.left then n else 0);
      PrefixedParsed(r, zeros, w, d.conv == LOWER_X, blanks);
      NoFill(SPACE);
      NoFill(ZERO);
      assert t + [] == t && [] + t == t && [] + (t + blanks) == t + blanks;
    }
  }

  lemma NoFill(c: Byte)
    ensures forall n: int :: n <= 0 ==> Fill(c, n) == []
  {
  }

  /** The values that survive printing and reading: all without blanks behind a prefix, below 2^16 in binary. */
  lemma SurvivesExactly(d: Directive, w: Word)
    requires IsBase(Base(d.conv)) && (Base(d.conv) == 10 ==> !d.zero)
    ensures Parse(Prefix(Base(d.conv)) + NumberField(d, w), 0) == Some(w) <==>
            w == 0 || Base(d.conv) == 10 || (!BlanksInFront(d, w) && (Base(d.conv) == 2 ==> w < 0x1_0000))
  {
    hide Parse, NumberField, BlanksInFront, Prefix;
    PrefixedReading(d, w);
  }

  // ----- one number among others -----

  /** Position k of t is position i + k of s. */
  predicate SameAt(s: Text, i: nat, t: Text, k: nat) {
    CharAt(s, i + k) == CharAt(t, k)
  }

  lemma {:induction false} SameValue(s: Text, i: nat, t: Text, a: nat, b: nat, r: nat)
    requires a <= b && forall k :: a <= k < b ==> SameAt(s, i, t, k)
    ensures Value(s, i + a, i + b, r) == Value(t, a, b, r)
    decreases b
  {
    hide DigitOf, Wrap;
    if a < b {
      SameValue(s, i, t, a, b - 1, r);
      assert SameAt(s, i, t, b - 1);
      assert i + (b - 1) == i + b - 1;
    }
  }

  /** The characters of t from a to b - 1, all greater than a blank, stand in s, and there as in t a number ends. */
  predicate Alike(s: Text, i: nat, t: Text, a: nat, b: nat) {
    && a <= b && (forall k :: a <= k < b ==> SameAt(s, i, t, k) && CharAt(t, k) > SPACE)
    && CharAt(s, i + b) <= SPACE && CharAt(t, b) <= SPACE
  }

  lemma AlikeEnds(s: Text, i: nat, t: Text, a: nat, b: nat)
    requires Alike(s, i, t, a, b)
    ensures EndOf(s, i + a) == i + b && EndOf(t, a) == b
  {
    forall k | i + a <= k < i + b ensures CharAt(s, k) > SPACE {
      assert SameAt(s, i, t, k - i);
    }
    EndOfIs(s, i + a, i + b);
    EndOfIs(t, a, b);
  }

  lemma AlikeAt(s: Text, i: nat, t: Text, a: nat, b: nat, k: nat)
    requires Alike(s, i, t, a, b) && a <= k <= b
    ensures k < b ==> CharAt(s, i + k) == CharAt(t, k) > SPACE
    ensures k == b ==> CharAt(s, i + k) <= SPACE && CharAt(t, k) <= SPACE
    ensures Alike(s, i, t, k, b)
  {
    assert k < b ==> SameAt(s, i, t, k);
  }

  lemma SameRadix(s: Text, i: nat, t: Text, a: nat, b: nat)
    requires Alike(s, i, t, a, b) && a < b
    ensures match Radix(t, a)
            case None => Radix(s, i + a) == None
            case Some((r, p)) => a <= p <= b && Radix(s, i + a) == Some((r, i + p))
  {
    hide Alike;
    AlikeAt(s, i, t, a, b, a);
    AlikeAt(s, i, t, a, b, a + 1);
  }

  lemma {:induction false} SameUnsigned(s: Text, i: nat, t: Text, a: nat, b: nat)
    requires Alike(s, i, t, a, b) && a < b
    ensures ParseUnsigned(s, i + a) == ParseUnsigned(t, a)
  {
    hide Value, EndOf, Radix;
    SameRadix(s, i, t, a, b);
    if Radix(t, a).Some? && Radix(t, a).value.0 != 0 {
      var (r, p) := Radix(t, a).value;
      AlikeAt(s, i, t, a, b, p);
      AlikeEnds(s, i, t, p, b);
      SameValue(s, i, t, p, b, r);
    }
  }

  lemma CharsStand(s: Text, i: nat, t: Text)
    requires Stands(s, i, t)
    ensures forall k :: 0 <= k < |t| ==> SameAt(s, i, t, k)
  {
    forall k | 0 <= k < |t| ensures SameAt(s, i, t, k) {
      assert s[i + k] == s[i..i + |t|][k];
    }
  }

  /** t stands at i in s and has its first number from a to b. */
  lemma NumberStands(s: Text, i: nat, t: Text, a: nat, b: nat)
    requires Stands(s, i, t) && CharAt(s, i + |t|) <= SPACE && a == SkipBlanks(t, 0) && b == EndOf(t, a)
    requires CharAt(t, a) > SPACE
    ensures a < b <= |t| && SkipBlanks(s, i) == i + a && Alike(s, i, t, a, b)
  {
    CharsStand(s, i, t);
    EndWithin(t, a);
    assert b < |t| ==> SameAt(s, i, t, b);
    forall k | i <= k < i + a ensures CharAt(s, k) == SPACE {
      assert SameAt(s, i, t, k - i);
    }
    assert SameAt(s, i, t, a);
    SkipBlanksIs(s, i, i + a);
  }

  lemma SameSigned(s: Text, i: nat, t: Text, a: nat, b: nat)
    requires Alike(s, i, t, a, b) && a < b && (CharAt(t, a) == MINUS ==> a + 1 < b)
    ensures ParseSigned(s, i + a) == ParseSigned(t, a)
  {
    hide Alike, ParseUnsigned;
    AlikeAt(s, i, t, a, b, a);
    AlikeAt(s, i, t, a, b, a + 1);
    if CharAt(t, a) == MINUS {
      SameUnsigned(s, i, t, a + 1, b);
    } else {
      SameUnsigned(s, i, t, a, b);
    }
  }

  /** What is read at i in s is what is read in t, where t stands there and is followed by a blank or the end. */
  lemma {:induction false} ReadInPlace(s: Text, i: nat, t: Text)
    requires Parse(t, 0).Some? && Stands(s, i, t) && CharAt(s, i + |t|) <= SPACE
    ensures Parse(s, i) == Parse(t, 0) && Behind(s, i) == i + Behind(t, 0)
  {
    hide Alike, ParseSigned, EndOf, SkipBlanks;
    var a := SkipBlanks(t, 0);
    var b := EndOf(t, a);
    NumberHasDigits(t, 0);
    NumberStands(s, i, t, a, b);
    AlikeEnds(s, i, t, a, b);
    SameSigned(s, i, t, a, b);
  }

  /** A number that is read has a character, and after a sign another one. */
  lemma NumberHasDigits(t: Text, i: nat)
    requires Parse(t, i).Some?
    ensures var b := SkipBlanks(t, i);
            CharAt(t, b) > SPACE && (CharAt(t, b) == MINUS ==> CharAt(t, b + 1) > SPACE)
  {
  }

  lemma EndWithin(t: Text, i: nat)
    requires i <= |t|
    ensures EndOf(t, i) <= |t|
    decreases |t| - i
  {
  }

  // ----- several numbers in one text -----

  /** What n calls in turn read, each going on where the one before left the string pointer. */
  function ReadInTurn(s: Text, i: nat, n: nat): seq<Option<Word>>
    decreases n
  {
    if n == 0 then [] else [Parse(s, i)] + ReadInTurn(s, Behind(s, i), n - 1)
  }

  /** The fields one after the other, each followed by a blank. */
  function Spaced(fields: seq<Text>): Text {
    if fields == [] then [] else fields[0] + ([SPACE] + Spaced(fields[1..]))
  }

  /** A number and nothing but blanks behind it. */
  predicate OneField(t: Text, v: Word) {
    Parse(t, 0) == Some(v) && forall k :: Behind(t, 0) <= k < |t| ==> t[k] == SPACE
  }

  /** Fields written with blanks between them are read one after the other. */
  lemma {:induction false} FieldsInTurn(s: Text, i: nat, j: nat, fields: seq<Text>, values: seq<Word>)
    requires i <= j <= |s| && (forall k :: i <= k < j ==> s[k] == SPACE) && s[j..] == Spaced(fields)
    requires |fields| == |values| && forall k :: 0 <= k < |fields| ==> OneField(fields[k], values[k])
    ensures |ReadInTurn(s, i, |values|)| == |values|
    ensures forall k :: 0 <= k < |values| ==> ReadInTurn(s, i, |values|)[k] == Some(values[k])
    decreases |fields|
  {
    hide Parse, SkipBlanks, EndOf;
    if fields != [] {
      var t := fields[0];
      assert OneField(t, values[0]);
      var next := j + |t| + 1;
      SpacedParts(s, j, t, Spaced(fields[1..]));
      ReadInPlace(s, j, t);
      BlanksBefore(s, i, j);
      BehindWithin(t);
      forall k | Behind(s, i) <= k < next ensures s[k] == SPACE {
        assert k < j + |t| ==> s[k] == t[k - j];
      }
      FieldsInTurn(s, Behind(s, i), next, fields[1..], values[1..]);
    }
  }

  lemma SpacedParts(s: Text, j: nat, t: Text, rest: Text)
    requires j <= |s| && s[j..] == t + ([SPACE] + rest)
    ensures j + |t| + 1 <= |s| && Stands(s, j, t) && s[j + |t|] == SPACE && s[j + |t| + 1..] == rest
    ensures forall k :: j <= k < j + |t| ==> s[k] == t[k - j]
  {
    var u := s[j..];
    assert u[..|t|] == t && u[|t|] == SPACE && u[|t| + 1..] == rest;
  }

  lemma BlanksBefore(s: Text, i: nat, j: nat)
    requires i <= j <= |s| && forall k :: i <= k < j ==> s[k] == SPACE
    ensures Parse(s, i) == Parse(s, j) && Behind(s, i) == Behind(s, j)
  {
    SkipBlanksIs(s, i, SkipBlanks(s, j));
  }

  lemma BehindWithin(t: Text)
    requires Parse(t, 0).Some?
    ensures Behind(t, 0) <= |t|
  {
    NumberHasDigits(t, 0);
    EndWithin(t, SkipBlanks(t, 0));
  }

  // ----- the printed numbers -----

  predicate Visible(t: Text) {
    forall k :: 0 <= k < |t| ==> t[k] > SPACE
  }

  lemma {:induction false} NumeralVisible(v: Word, r: nat, lower: bool, negative: bool)
    requires 2 <= r <= 16
    ensures Visible(Numeral(v, r, lower, negative)) && |Numeral(v, r, lower, negative)| > 0
  {
    hide Value, Low, Digits;
    var t := Reverse(Digits(v, r, lower, BUFFER));
    ValueOfDigits(t, 0, v, r, lower, BUFFER);
    forall k | 0 <= k < |t| ensures t[k] > SPACE {
      assert CharAt(t, k) > SPACE;
    }
    if negative {
      ReverseAppend(Digits(v, r, lower, BUFFER), [MINUS]);
      assert Reverse([MINUS]) == [MINUS];
    } else {
      PlainNumeral(v, r, lower);
    }
  }

  /** Blanks, a visible text and blanks: the number ends with the visible text. */
  lemma EndOfVisible(s: Text, b: nat, core: Text, e: nat)
    requires s == Fill(SPACE, b) + (core + Fill(SPACE, e)) && Visible(core) && core != []
    ensures Behind(s, 0) == b + |core|
    ensures forall k :: Behind(s, 0) <= k < |s| ==> s[k] == SPACE
  {
    forall k | 0 <= k < b ensures CharAt(s, k) == SPACE {
      FillIs(SPACE, b, k);
    }
    var n := b + |core|;
    forall k | n <= k < |s| ensures s[k] == SPACE {
      FillIs(SPACE, e, k - n);
    }
    forall k | b <= k < n ensures CharAt(s, k) > SPACE {
      assert s[k] == core[k - b];
    }
    SkipBlanksIs(s, 0, b);
    EndOfIs(s, b, n);
  }

  lemma ZerosVisible(r: nat, m: nat, t: Text)
    requires IsBase(r) && Visible(t)
    ensures Visible(Prefix(r) + (Fill(ZERO, m) + t))
  {
    forall k | 0 <= k < m ensures Fill(ZERO, m)[k] > SPACE {
      FillIs(ZERO, m, k);
    }
  }

  /** A padded text as blanks, zeros, the text and blanks. */
  lemma PaddedParts(p: Text, t: Text, left: bool, zero: bool, width: nat)
    requires p == [] || left || zero || width <= |t|
    ensures var n := if width > |t| then width - |t| else 0;
            p + Padded(t, left, zero, width) ==
            Fill(SPACE, if left || zero then 0 else n)
            + ((p + (Fill(ZERO, if zero && !left then n else 0) + t)) + Fill(SPACE, if left then n else 0))
  {
    NoFill(SPACE);
    NoFill(ZERO);
    assert [] + t == t && t + [] == t;
    if left {
      assert p + (t + Fill(SPACE, width - |t|)) == (p + t) + Fill(SPACE, width - |t|);
    } else if zero {
      var z := Fill(ZERO, width - |t|);
      assert (p + (z + t)) + [] == p + (z + t);
    } else if width <= |t| {
      assert (p + t) + [] == p + t;
    } else {
      assert p + t == t;
    }
  }

  /** A printed number with its prefix is one field, unless blanks separate the two. */
  lemma PrintedIsOneField(d: Directive, w: Word)
    requires IsBase(Base(d.conv)) && (if Base(d.conv) == 10 then !d.zero else !BlanksInFront(d, w))
    ensures OneField(Prefix(Base(d.conv)) + NumberField(d, w), ReadBack(d, w))
  {
    hide Parse, Numeral, Fill, Padded, SkipBlanks, EndOf;
    var r := Base(d.conv);
    var negative := Upper(d.conv) == 68 && w >= 0x8000_0000;
    var v: Word := if negative then Wrap(0 - w as int) else w;
    var t := Numeral(v, r, d.conv == LOWER_X, negative);
    var n := if d.width > |t| then d.width - |t| else 0;
    var zeros := if d.zero && !d.left then n else 0;
    NumeralVisible(v, r, d.conv == LOWER_X, negative);
    ZerosVisible(r, zeros, t);
    PaddedParts(Prefix(r), t, d.left, d.zero, d.width);
    EndOfVisible(Prefix(r) + NumberField(d, w), if d.left || d.zero then 0 else n, Prefix(r) + (Fill(ZERO, zeros) + t),
                 if d.left then n else 0);
    PrefixedReading(d, w);
  }

  /** Numbers to print, each with its directive. */
  datatype Item = Item(d: Directive, w: Word)

  predicate Readable(x: Item) {
    && IsBase(Base(x.d.conv))
    && if Base(x.d.conv) == 10 then !x.d.zero else !BlanksInFront(x.d, x.w)
  }

  function Field(x: Item): Text
    requires Readable(x)
  {
    Prefix(Base(x.d.conv)) + NumberField(x.d, x.w)
  }

  function Fields(items: seq<Item>): (fields: seq<Text>)
    requires forall k :: 0 <= k < |items| ==> Readable(items[k])
    ensures |fields| == |items|
  {
    if items == [] then [] else [Field(items[0])] + Fields(items[1..])
  }

  function ReadAs(x: Item): Word
    requires Readable(x)
  {
    ReadBack(x.d, x.w)
  }

  function Values(items: seq<Item>): (values: seq<Word>)
    requires forall k :: 0 <= k < |items| ==> Readable(items[k])
    ensures |values| == |items|
  {
    if items == [] then [] else [ReadAs(items[0])] + Values(items[1..])
  }

  lemma {:induction false} FieldsAreOne(items: seq<Item>, k: nat)
    requires (forall j :: 0 <= j < |items| ==> Readable(items[j])) && k < |items|
    ensures OneField(Fields(items)[k], Values(items)[k])
  {
    hide OneField, NumberField, ReadBack, Prefix, BlanksInFront;
    if k == 0 {
      assert Readable(items[0]);
      PrintedIsOneField(items[0].d, items[0].w);
    } else {
      FieldsAreOne(items[1..], k - 1);
    }
  }

  /** Any number of printed numbers, to any mixture of bases, come back one after the other. */
  lemma PrintedInTurn(items: seq<Item>)
    requires forall k :: 0 <= k < |items| ==> Readable(items[k])
    ensures var s := Spaced(Fields(items));
            forall k :: 0 <= k < |items| ==>
              |ReadInTurn(s, 0, |items|)| == |items| && ReadInTurn(s, 0, |items|)[k] == Some(Values(items)[k])
  {
    hide OneField, Readable, Fields, Values, Spaced;
    var s := Spaced(Fields(items));
    forall k | 0 <= k < |items| ensures OneField(Fields(items)[k], Values(items)[k]) {
      FieldsAreOne(items, k);
    }
    assert s[0..] == s;
    FieldsInTurn(s, 0, 0, Fields(items), Values(items));
  }

  // ----- through memory -----

  lemma PrintedIsRead(buff: Text, t: Text)
    requires Parse(t, 0).Some? && |t| < |buff| && buff[..|t|] == t && buff[|t|] == 0
    ensures Parse(buff, 0) == Parse(t, 0) && Behind(buff, 0) == Behind(t, 0)
  {
    assert buff[0..0 + |t|] == t;
    ReadInPlace(buff, 0, t);
  }

  /** Printing a number with the prefix of its base and reading the buffer. */
  method PrintThenRead(buff: array<Byte>, fmt: Text, r: nat, w: Word) returns (ok: bool, res: Word, pos: nat)
    requires PrefixedFormat(fmt, r) && (r == 10 ==> !NumberDirective(fmt, r).zero)
    requires |Prefix(r)| + |NumberField(NumberDirective(fmt, r), w)| < buff.Length
    modifies buff
    ensures ok && res == ReadBack(NumberDirective(fmt, r), w)
  {
    hide Format, NumberField, Parse;
    ghost var d := NumberDirective(fmt, r);
    ghost var t := Prefix(r) + NumberField(d, w);
    FormatPrefixed(fmt, r, w);
    Xsprintf(buff, fmt, [Number(w)]);
    PrefixedReading(d, w);
    PrintedIsRead(buff[..], t);
    ok, res, pos := Xatoi(buff[..], 0);
  }
}
