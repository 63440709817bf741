/**
 * What xsprintf makes of a format, piece by piece (src/libc/xprintf.c:95-158): text is copied, a conversion is read as
 * it is spelled, and where in its field the text of an argument stands. What xatoi takes for a digit
 * (src/libc/xprintf.c:374-381).
 */
module FormatLaws {
  import opened Prelude
  import opened NumberText
  import opened XPrintf

  // ----- formats from pieces -----

  lemma {:induction false} SameWidth(a: Text, b: Text, i: nat, w: Word)
    ensures Width(a + b, |a| + i, w) == (Width(b, i, w).0, |a| + Width(b, i, w).1)
    decreases |b| - i
  {
    assert CharAt(a + b, |a| + i) == CharAt(b, i);
    if IsDigit(CharAt(b, i)) {
      SameWidth(a, b, i + 1, Wrap((w as int) * 10 + (CharAt(b, i) as int) - 48));
    }
  }

  lemma {:induction false} SameDirective(a: Text, b: Text, i: nat)
    ensures var d := ParseDirective(b, i); ParseDirective(a + b, |a| + i) == d.(next := |a| + d.next)
  {
    hide Width;
    forall k: nat ensures CharAt(a + b, |a| + k) == CharAt(b, k) {
    }
    var c := CharAt(b, i);
    var from := if c == ZERO || c == MINUS then i + 1 else i;
    SameWidth(a, b, from, 0);
    var j := Width(b, from, 0).1;
    assert CharAt(a + b, |a| + j) == CharAt(b, j) && CharAt(a + b, |a| + (j + 1)) == CharAt(b, j + 1);
    assert CharAt(a + b, |a| + i) == c;
  }

  lemma SameConversion(d: Directive, next: nat, args: seq<Arg>, k: nat)
    ensures Convert(d.(next := next), args, k) == Convert(d, args, k)
  {
  }

  /** Behind a the format goes on as b does. */
  lemma {:induction false} FormatBehind(a: Text, b: Text, i: nat, args: seq<Arg>, k: nat)
    ensures Format(a + b, |a| + i, args, k) == Format(b, i, args, k)
    decreases |b| - i
  {
    hide Convert, ParseDirective;
    var c := CharAt(b, i);
    assert CharAt(a + b, |a| + i) == c;
    if c != 0 && c != PERCENT {
      FormatBehind(a, b, i + 1, args, k);
    } else if c != 0 {
      var d := ParseDirective(b, i + 1);
      SameDirective(a, b, i + 1);
      SameConversion(d, |a| + d.next, args, k);
      if d.conv != 0 && Convert(d, args, k).Some? {
        FormatBehind(a, b, d.next, args, k + Convert(d, args, k).value.1);
      }
    }
  }

  lemma OneCopied(c: Byte, rest: Text, args: seq<Arg>, k: nat)
    requires c != PERCENT && c != 0
    ensures Format([c] + rest, 0, args, k) == Prepend([c], Format(rest, 0, args, k))
  {
    hide ParseDirective, Convert;
    FormatBehind([c], rest, 0, args, k);
  }

  /** Text without `%` is copied. */
  lemma {:induction false} TextCopied(t: Text, rest: Text, args: seq<Arg>, k: nat)
    requires PERCENT !in t && 0 !in t
    ensures Format(t + rest, 0, args, k) == Prepend(t, Format(rest, 0, args, k))
  {
    hide Format;
    if t == [] {
      assert t + rest == rest;
      assert Format(rest, 0, args, k).Some? ==> [] + Format(rest, 0, args, k).value == Format(rest, 0, args, k).value;
    } else {
      var c, u := t[0], t[1..];
      assert t + rest == [c] + (u + rest) && t == [c] + u;
      OneCopied(c, u + rest, args, k);
      TextCopied(u, rest, args, k);
      if Format(rest, 0, args, k).Some? {
        var v := Format(rest, 0, args, k).value;
        assert [c] + (u + v) == t + v;
      }
    }
  }

  // ----- a conversion as it is spelled -----

  /** Flag, width, size prefix and conversion character. */
  datatype Conversion = Conversion(left: bool, zero: bool, width: Word, long: bool, conv: Byte)

  /** One flag at most, and a character that is neither the end nor part of what stands in front of it. */
  predicate Proper(c: Conversion) {
    && !(c.left && c.zero)
    && c.conv != 0 && !IsDigit(c.conv) && c.conv != MINUS && c.conv != 108 && c.conv != 76
  }

  /** A number in decimal digits; none for 0. */
  function Decimal(v: nat): Text {
    if v == 0 then [] else Decimal(v / 10) + [48 + v % 10]
  }

  function Flag(c: Conversion): Text {
    if c.left then [MINUS] else if c.zero then [ZERO] else []
  }

  function Size(c: Conversion): Text {
    if c.long then [108] else []
  }

  function Spelled(c: Conversion): Text {
    [PERCENT] + Flag(c) + Decimal(c.width) + Size(c) + [c.conv]
  }

  function Meant(c: Conversion): Directive {
    Directive(c.left, c.zero, c.width, c.conv, |Spelled(c)|)
  }

  lemma WidthStep(fmt: Text, j: nat, q: Word, d: nat, v: Word)
    requires CharAt(fmt, j) == 48 + d && d < 10 && v == 10 * q + d
    ensures Width(fmt, j, q) == Width(fmt, j + 1, v)
  {
  }

  lemma {:induction false} WidthRead(fmt: Text, i: nat, v: Word)
    requires Stands(fmt, i, Decimal(v))
    ensures Width(fmt, i, 0) == Width(fmt, i + |Decimal(v)|, v)
  {
    hide Width;
    if v > 0 {
      StandsParts(fmt, i, Decimal(v / 10), [48 + v % 10]);
      WidthRead(fmt, i, v / 10);
      var j := i + |Decimal(v / 10)|;
      assert CharAt(fmt, j) == fmt[j..j + 1][0];
      WidthStep(fmt, j, v / 10, v % 10, v);
    }
  }

  lemma {:induction false} NoLeadingZero(v: nat)
    requires v > 0
    ensures Decimal(v) != [] && ZERO < Decimal(v)[0] <= NINE
  {
    if v >= 10 {
      NoLeadingZero(v / 10);
    }
  }

  /** The parts of a spelled conversion stand one behind the other. */
  lemma SpelledParts(c: Conversion, rest: Text)
    ensures var s, n := Spelled(c) + rest, 1 + |Flag(c)|;
            && s[0] == PERCENT && Stands(s, 1, Flag(c)) && Stands(s, n, Decimal(c.width))
            && Stands(s, n + |Decimal(c.width)|, Size(c))
            && CharAt(s, n + |Decimal(c.width)| + |Size(c)|) == c.conv
  {
    hide Flag, Size, Decimal;
    var s, n := Spelled(c) + rest, 1 + |Flag(c)|;
    var m := n + |Decimal(c.width)|;
    assert s[1..n] == Flag(c);
    assert s[n..m] == Decimal(c.width);
    assert s[m..m + |Size(c)|] == Size(c);
  }

  /** The first character behind the flag. */
  lemma BehindFlag(c: Conversion, s: Text, n: nat)
    requires Proper(c) && Stands(s, n, Decimal(c.width)) && Stands(s, n + |Decimal(c.width)|, Size(c))
    requires CharAt(s, n + |Decimal(c.width)| + |Size(c)|) == c.conv
    ensures CharAt(s, n) != ZERO && CharAt(s, n) != MINUS
    ensures var x := CharAt(s, n + |Decimal(c.width)|); !IsDigit(x) && (x == 108 || x == 76 <==> c.long)
  {
    var m := n + |Decimal(c.width)|;
    if c.long {
      assert CharAt(s, m) == s[m..m + 1][0];
    }
    if c.width > 0 {
      NoLeadingZero(c.width);
      assert CharAt(s, n) == s[n..m][0];
    }
  }

  /** A conversion is read as what it spells, whatever follows. */
  lemma {:induction false} SpelledParses(c: Conversion, rest: Text)
    requires Proper(c)
    ensures ParseDirective(Spelled(c) + rest, 1) == Meant(c)
  {
    hide Decimal;
    var s, n := Spelled(c) + rest, 1 + |Flag(c)|;
    SpelledParts(c, rest);
    BehindFlag(c, s, n);
    WidthRead(s, n, c.width);
    if Flag(c) != [] {
      assert CharAt(s, 1) == s[1..2][0];
    }
  }

  /** The text of the argument, and then what the rest of the format writes. */
  lemma {:induction false} ConversionPrinted(c: Conversion, rest: Text, args: seq<Arg>, k: nat)
    requires Proper(c) && Convert(Meant(c), args, k).Some?
    ensures var (t, n) := Convert(Meant(c), args, k).value;
            Format(Spelled(c) + rest, 0, args, k) == Prepend(t, Format(rest, 0, args, k + n))
  {
    hide Convert, ParseDirective, Decimal;
    SpelledParses(c, rest);
    var (t, n) := Convert(Meant(c), args, k).value;
    FormatBehind(Spelled(c), rest, 0, args, k + n);
    assert CharAt(Spelled(c) + rest, 0) == PERCENT;
  }

  // ----- the field -----

  /** t stands in r, which is as wide as the field or as t: on the left with blanks behind, or on the right. */
  predicate InField(r: Text, t: Text, left: bool, pad: Byte, width: Word) {
    && |r| == (if |t| < width then width else |t|)
    && (left ==> r[..|t|] == t && forall j :: |t| <= j < |r| ==> r[j] == SPACE)
    && (!left ==> r[|r| - |t|..] == t && forall j :: 0 <= j < |r| - |t| ==> r[j] == pad)
  }

  lemma {:induction false} FillAll(c: Byte, n: int)
    ensures forall j :: 0 <= j < |Fill(c, n)| ==> Fill(c, n)[j] == c
  {
    if n > 0 {
      FillAll(c, n - 1);
    }
  }

  lemma PaddedInField(t: Text, left: bool, zero: bool, width: Word)
    ensures InField(Padded(t, left, zero, width), t, left, if zero then ZERO else SPACE, width)
  {
    hide Fill;
    FillAll(SPACE, width - |t|);
    FillAll(if zero then ZERO else SPACE, width - |t|);
  }

  lemma {:induction false} FirstZero(p: Text, i: nat, n: nat)
    requires i <= n <= |p| && CharAt(p, n) == 0 && forall j :: i <= j < n ==> p[j] != 0
    ensures Terminator(p, i) == n
    decreases n - i
  {
    if i < n {
      FirstZero(p, i + 1, n);
    }
  }

  /**
   * `%s`: the n characters in front of the first zero byte, on the left of their field with the flag `-` and on the
   * right without, filled up with blanks even under the flag `0`.
   */
  lemma {:induction false} StringPrinted(c: Conversion, rest: Text, args: seq<Arg>, k: nat, n: nat) returns (r: Text)
    requires Proper(c) && (c.conv == 115 || c.conv == 83) && k < |args| && args[k].Str?
    requires var p := args[k].t; n <= |p| && CharAt(p, n) == 0 && forall j :: 0 <= j < n ==> p[j] != 0
    ensures Format(Spelled(c) + rest, 0, args, k) == Prepend(r, Format(rest, 0, args, k + 1))
    ensures InField(r, args[k].t[..n], c.left, SPACE, c.width)
  {
    hide Format, Spelled, Padded, InField;
    FirstZero(args[k].t, 0, n);
    r := Padded(args[k].t[..n], c.left, false, c.width);
    PaddedInField(args[k].t[..n], c.left, false, c.width);
    assert Convert(Meant(c), args, k) == Some((r, 1));
    ConversionPrinted(c, rest, args, k);
  }

  /** `%c`: the low byte of the argument, without a field. */
  lemma {:induction false} CharPrinted(c: Conversion, rest: Text, args: seq<Arg>, k: nat)
    requires Proper(c) && (c.conv == 99 || c.conv == 67) && k < |args| && args[k].Number?
    ensures Format(Spelled(c) + rest, 0, args, k) == Prepend([args[k].w % 256], Format(rest, 0, args, k + 1))
  {
    hide Format, Spelled;
    assert Convert(Meant(c), args, k) == Some(([args[k].w % 256], 1));
    ConversionPrinted(c, rest, args, k);
  }

  /** The number shown, which only `%d` takes to have a sign. */
  predicate ShowsSign(c: Conversion, w: Word) {
    (c.conv == 100 || c.conv == 68) && w >= 0x8000_0000
  }

  function Shown(c: Conversion, w: Word): Text
    requires Base(c.conv) != 0
  {
    Numeral(if ShowsSign(c, w) then 0x1_0000_0000 - w else w, Base(c.conv), c.conv == LOWER_X, ShowsSign(c, w))
  }

  lemma ShownIs(c: Conversion, w: Word)
    requires Base(c.conv) != 0
    ensures NumberField(Meant(c), w) == Padded(Shown(c, w), c.left, c.zero, c.width)
  {
    hide Numeral, Padded, Spelled;
  }

  /** `%b`, `%o`, `%d`, `%u`, `%x` and their capitals: the numeral in its field, in which the flag `0` puts zeros. */
  lemma {:induction false} NumberPrinted(c: Conversion, rest: Text, args: seq<Arg>, k: nat) returns (r: Text)
    requires Proper(c) && Base(c.conv) != 0 && k < |args| && args[k].Number?
    ensures Format(Spelled(c) + rest, 0, args, k) == Prepend(r, Format(rest, 0, args, k + 1))
    ensures InField(r, Shown(c, args[k].w), c.left, if c.zero then ZERO else SPACE, c.width)
  {
    hide Format, Spelled, Padded, InField, Shown, NumberField;
    r := NumberField(Meant(c), args[k].w);
    ShownIs(c, args[k].w);
    PaddedInField(Shown(c, args[k].w), c.left, c.zero, c.width);
    assert Convert(Meant(c), args, k) == Some((r, 1));
    ConversionPrinted(c, rest, args, k);
  }

  /** Any other character behind `%`, such as a second one, is copied and takes no argument. */
  lemma {:induction false} OtherPrinted(c: Conversion, rest: Text, args: seq<Arg>, k: nat)
    requires Proper(c) && Base(c.conv) == 0 && c.conv != 115 && c.conv != 83 && c.conv != 99 && c.conv != 67
    ensures Format(Spelled(c) + rest, 0, args, k) == Prepend([c.conv], Format(rest, 0, args, k))
  {
    hide Format, Spelled;
    assert Convert(Meant(c), args, k) == Some(([c.conv], 0));
    ConversionPrinted(c, rest, args, k);
  }

  // ----- digits read -----

  /**
   * The characters xatoi takes for digits: to base 16 also those from `:` to `?`, which count from ten to fifteen like
   * the letters.
   */
  lemma DigitsTaken(c: Byte)
    ensures DigitOf(c) < 2 <==> 48 <= c <= 49
    ensures DigitOf(c) < 8 <==> 48 <= c <= 55
    ensures DigitOf(c) < 10 <==> 48 <= c <= 57
    ensures DigitOf(c) < 16 <==> 48 <= c <= 63 || 65 <= c <= 70 || 97 <= c <= 102
    ensures 48 <= c <= 63 ==> DigitOf(c) == c - 48
    ensures 65 <= c <= 70 ==> DigitOf(c) == c - 55
    ensures 97 <= c <= 102 ==> DigitOf(c) == c - 87
  {
  }

  /** So `0x:` is the number ten. */
  lemma ColonIsTen()
    ensures Parse([ZERO, LOWER_X, 58], 0) == Some(10)
  {
    var s: Text := [ZERO, LOWER_X, 58];
    assert SkipBlanks(s, 0) == 0 && EndOf(s, 3) == 3 && EndOf(s, 2) == 3;
    assert Value(s, 2, 2, 16) == Some(0);
  }
}
