/**
 * Decimal numbers padded with zeros (src/libc/xprintf.c:110-158, 336-389): the parser takes a leading zero for octal,
 * so they are read back only when there is no padding or the number is a single octal digit.
 */
module ZeroPadding {
  import opened Prelude
  import opened NumberText
  import opened XPrintf

  lemma {:induction false} FillIs(c: Byte, n: int, i: nat)
    requires i < |Fill(c, n)|
    ensures Fill(c, n)[i] == c
    decreases n
  {
    if i < n - 1 {
      FillIs(c, n - 1, i);
    }
  }

  /** The text starts with m zeros. */
  predicate Zeros(s: Text, m: nat) {
    m <= |s| && forall k :: 0 <= k < m ==> CharAt(s, k) == ZERO
  }

  lemma {:induction false} ZerosOfFill(s: Text, m: nat, t: Text)
    requires s == Fill(ZERO, m) + t
    ensures Zeros(s, m) && s[m..] == t && (t != [] ==> CharAt(s, m) == t[0])
  {
    forall k | 0 <= k < m ensures CharAt(s, k) == ZERO {
      FillIs(ZERO, m, k);
    }
  }

  lemma {:induction false} ZerosValue(s: Text, m: nat, k: nat)
    requires Zeros(s, m) && 1 <= k <= m
    ensures Value(s, 1, k, 8) == Some(0)
    decreases k
  {
    if k > 1 {
      ZerosValue(s, m, k - 1);
      assert CharAt(s, k - 1) == ZERO && DigitOf(ZERO) == 0;
    }
  }

  /** After a first zero and a digit, the number is read to base eight. */
  lemma {:induction false} ReadAsOctal(s: Text)
    requires CharAt(s, 0) == ZERO && ZERO <= CharAt(s, 1) <= NINE
    ensures Parse(s, 0) == Value(s, 1, EndOf(s, 1), 8)
  {
    assert SkipBlanks(s, 0) == 0;
    assert Radix(s, 0) == Some((8, 1));
  }

  // ----- a sign among the zeros -----

  lemma {:induction false} SignRefused(s: Text, m: nat)
    requires 1 <= m < |s| && Zeros(s, m) && s[m] == MINUS
    ensures Parse(s, 0) == None
  {
    assert CharAt(s, 0) == ZERO;
    if m == 1 {
      assert SkipBlanks(s, 0) == 0;
      assert Radix(s, 0) == None;
    } else {
      assert CharAt(s, 1) == ZERO;
      ReadAsOctal(s);
      ZerosValue(s, m, m);
      assert DigitOf(MINUS) >= 8 && CharAt(s, m) == MINUS;
      assert Value(s, 1, m + 1, 8) == None;
      EndAfter(s, m);
      ValueStaysNone(s, 1, m + 1, EndOf(s, 1), 8);
    }
  }

  lemma {:induction false} EndAfter(s: Text, m: nat)
    requires 1 <= m < |s| && Zeros(s, m) && s[m] > SPACE
    ensures EndOf(s, 1) > m
  {
  }

  // ----- decimal digits read to base eight -----

  /** What reading the digits of v to base eight can give. */
  predicate OctalReading(r: Option<Word>, v: nat) {
    match r
    case None => v >= 8
    case Some(x) => x <= v && (x == v <==> v < 8)
  }

  lemma {:induction false} NextDigit(s: Text, i: nat, j: nat, q: nat, d: nat)
    requires i <= j && d < 10 && q < TWO_TO_32 && 10 * q + d < TWO_TO_32
    requires OctalReading(Value(s, i, j, 8), q) && CharAt(s, j) == DigitChar(d, false)
    ensures q > 0 || Value(s, i, j, 8) == Some(0) ==> OctalReading(Value(s, i, j + 1, 8), 10 * q + d)
  {
    hide DigitOf;
    DigitOfChar(d, false);
    if Value(s, i, j, 8).Some? {
      var x: int := Value(s, i, j, 8).value;
      assert x * 8 + d < TWO_TO_32;
    }
  }

  lemma {:induction false} DigitsReadAsOctal(s: Text, i: nat, j: nat, v: nat, room: nat)
    requires 1 <= room && v < TWO_TO_32 && Fits(v, 10, room) && i <= j && Value(s, i, j, 8) == Some(0)
    requires Stands(s, j, Reverse(Digits(v, 10, false, room)))
    ensures OctalReading(Value(s, i, j + |Digits(v, 10, false, room)|, 8), v)
    decreases room
  {
    hide Value, OctalReading, Quot, Rem;
    NumeralStep(v, 10, false, room);
    QuotRem(v, 10);
    var q, d := Quot(v, 10), Rem(v, 10);
    var last := [DigitChar(d, false)];
    if q == 0 {
      assert [] + last == last;
      LastChar(s, j, DigitChar(d, false));
      ReadsNothing(Value(s, i, j, 8));
      NextDigit(s, i, j, 0, d);
    } else {
      var front := Reverse(Digits(q, 10, false, room - 1));
      StandsParts(s, j, front, last);
      DigitsReadAsOctal(s, i, j, q, room - 1);
      LastChar(s, j + |front|, DigitChar(d, false));
      NextDigit(s, i, j + |front|, q, d);
    }
  }

  lemma ReadsNothing(r: Option<Word>)
    requires r == Some(0)
    ensures OctalReading(r, 0)
  {
  }

  lemma LastChar(s: Text, j: nat, c: Byte)
    requires Stands(s, j, [c])
    ensures CharAt(s, j) == c
  {
    assert s[j] == s[j..j + 1][0];
  }

  /** A number without sign after at least one zero. */
  lemma {:induction false} PaddedReading(s: Text, m: nat, v: Word)
    requires m >= 1 && s == Fill(ZERO, m) + Numeral(v, 10, false, false)
    ensures OctalReading(Parse(s, 0), v)
  {
    hide Value, OctalReading, Parse, Reverse, Digits, Fits, Low, Power;
    var t := Numeral(v, 10, false, false);
    DecimalPower();
    FitsBelowPower(v, 10, BUFFER);
    PlainNumeral(v, 10, false);
    LeadingDigit(v, 10, false, BUFFER);
    ZerosOfFill(s, m, t);
    ZerosValue(s, m, m);
    assert CharAt(s, 0) == ZERO && ZERO <= CharAt(s, 1) <= NINE;
    ReadAsOctal(s);
    assert s[m..] == t + [];
    TailFollows(s, m, t, []);
    ValueOfDigits(s, m, v, 10, false, BUFFER);
    EndOfIs(s, 1, m + |t|);
    DigitsReadAsOctal(s, 1, m, v, BUFFER);
  }

  // ----- the field -----

  /** What is printed before the field is filled up. */
  function Bare(d: Directive, w: Word): Text
    requires Base(d.conv) == 10
  {
    NumberField(d.(left := true, width := 0), w)
  }

  predicate ShowsSign(d: Directive, w: Word) {
    Upper(d.conv) == 68 && w >= 0x8000_0000
  }

  /** Exactly when `%0d` and `%0u` are read back: without padding, or when a single octal digit is padded. */
  lemma {:induction false} ZeroPaddedRoundTrip(d: Directive, w: Word)
    requires Base(d.conv) == 10 && d.zero && !d.left
    ensures Parse(NumberField(d, w), 0) == Some(w) <==> d.width <= |Bare(d, w)| || w < 8
  {
    hide Parse, Numeral;
    var negative := ShowsSign(d, w);
    var v: Word := if negative then Wrap(0 - w as int) else w;
    var t := Numeral(v, 10, false, negative);
    assert Fill(SPACE, 0 - |t|) == [] && t + [] == t;
    assert Bare(d, w) == t;
    if d.width <= |t| {
      assert Fill(ZERO, d.width - |t|) == [] && Fill(SPACE, d.width - |t|) == [] && [] + t == t;
      FieldRoundTrip(d.(zero := false), w);
    } else {
      var m := d.width - |t|;
      var s := NumberField(d, w);
      assert s == Fill(ZERO, m) + t;
      if negative {
        NegativeNumeral(v);
        ZerosOfFill(s, m, t);
        SignRefused(s, m);
      } else {
        PaddedReading(s, m, v);
      }
    }
  }
}
