/**
 * xsprintf and xatoi (src/libc/xprintf.c:29-158, 163-197, 336-389): the loops over format, digits and text,
 * proved to write and read what NumberText describes.
 */
module XPrintf {
  import opened Prelude
  import opened Division
  import opened NumberText

  // ----- what a format means -----

  /** A variable argument: a 32-bit number or a string. */
  datatype Arg = Number(w: Word) | Str(t: Text)

  /** Flags, field width and conversion character after a `%`, and where the format goes on. */
  datatype Directive = Directive(left: bool, zero: bool, width: Word, conv: Byte, next: nat)

  const PERCENT: Byte := 37

  predicate IsDigit(c: Byte) {
    ZERO <= c <= NINE
  }

  /** The width read so far and where it ends. */
  function Width(fmt: Text, i: nat, w: Word): (r: (Word, nat))
    ensures i <= r.1 && !IsDigit(CharAt(fmt, r.1))
    decreases |fmt| - i
  {
    var c := CharAt(fmt, i);
    if IsDigit(c) then Width(fmt, i + 1, Wrap((w as int) * 10 + (c as int) - 48)) else (w, i)
  }

  function ParseDirective(fmt: Text, i: nat): (d: Directive)
    ensures i < d.next
  {
    var c := CharAt(fmt, i);
    var (w, j) := Width(fmt, if c == ZERO || c == MINUS then i + 1 else i, 0);
    var x := CharAt(fmt, j);
    var k := if x == 108 || x == 76 then j + 1 else j;  // 'l', 'L'
    Directive(c == MINUS, c == ZERO, w, CharAt(fmt, k), k + 1)
  }

  function Upper(c: Byte): Byte {
    if c >= LOWER_A then c - 0x20 else c
  }

  /** The base of a number conversion; 0 for the others. */
  function Base(conv: Byte): nat {
    var d := Upper(conv);
    if d == 66 then 2 else if d == 79 then 8 else if d == 68 || d == 85 then 10 else if d == 88 then 16 else 0
  }

  /** A number in its field; only `%d` shows a sign. */
  function NumberField(d: Directive, w: Word): Text
    requires Base(d.conv) != 0
  {
    var negative := Upper(d.conv) == 68 && w >= 0x8000_0000;
    var v := if negative then Wrap(0 - w as int) else w;
    Padded(Numeral(v, Base(d.conv), d.conv == LOWER_X, negative), d.left, d.zero, d.width)
  }

  /** `for (j = 0; p[j]; j++) ;`: where the string's terminating zero is, from i on. */
  function Terminator(t: Text, i: nat): (j: nat)
    requires i <= |t|
    ensures i <= j <= |t| && CharAt(t, j) == 0
    ensures forall k :: i <= k < j ==> t[k] != 0
    decreases |t| - i
  {
    if CharAt(t, i) == 0 then i else Terminator(t, i + 1)
  }

  /** A string in memory ends at its first zero byte. */
  function CString(t: Text): Text {
    t[..Terminator(t, 0)]
  }

  /** The text of one directive and whether it takes an argument; None if that is of the wrong kind or missing. */
  function Convert(d: Directive, args: seq<Arg>, k: nat): Option<(Text, nat)> {
    var u := Upper(d.conv);
    if u == 83 then  // 'S'
      if k < |args| && args[k].Str? then Some((Padded(CString(args[k].t), d.left, false, d.width), 1)) else None
    else if u == 67 then  // 'C'
      if k < |args| && args[k].Number? then Some((OneChar(args[k].w % 256), 1)) else None
    else if Base(d.conv) != 0 then
      if k < |args| && args[k].Number? then Some((NumberField(d, args[k].w), 1)) else None
    else Some((OneChar(d.conv), 0))
  }

  function OneChar(c: Byte): Text {
    [c]
  }

  /** The text for the format from i on, with the arguments from k on; None where C leaves it undefined. */
  function Format(fmt: Text, i: nat, args: seq<Arg>, k: nat): Option<Text>
    decreases |fmt| - i
  {
    var c := CharAt(fmt, i);
    if c == 0 then Some([])
    else if c != PERCENT then Prepend([c], Format(fmt, i + 1, args, k))
    else
      var d := ParseDirective(fmt, i + 1);
      if d.conv == 0 then Some([])
      else match Convert(d, args, k)
        case None => None
        case Some((t, n)) => Prepend(t, Format(fmt, d.next, args, k + n))
  }

  function Prepend(t: Text, rest: Option<Text>): Option<Text> {
    match rest
    case None => None
    case Some(u) => Some(t + u)
  }

  // ----- writing to memory -----

  class Printer {
    const buff: array<Byte>
    var outptr: nat

    constructor (buff: array<Byte>)
      ensures this.buff == buff && outptr == 0
    {
      this.buff := buff;
      outptr := 0;
    }

    predicate Room(n: nat)
      reads this
    {
      outptr + n <= buff.Length
    }

    twostate predicate Wrote(t: Text)
      reads this, buff
    {
      && old(outptr) <= buff.Length && outptr == old(outptr) + |t| <= buff.Length
      && buff[..outptr] == old(buff[..outptr]) + t
    }

    method Xputc(c: Byte)
      requires Room(1)
      modifies this, buff
      ensures Wrote([c])
    {
      buff[outptr] := c;
      outptr := outptr + 1;
    }

    /** `while (*str) xputc(*str++);` */
    method Xputs(str: Text)
      requires Room(|CString(str)|)
      modifies this, buff
      ensures Wrote(CString(str))
    {
      var i := 0;
      while CharAt(str, i) != 0
        invariant i <= |str| && Terminator(str, i) == Terminator(str, 0)
        invariant outptr == old(outptr) + i && buff[..outptr] == old(buff[..outptr]) + str[..i]
        decreases |str| - i
      {
        Xputc(str[i]);
        assert str[..i + 1] == str[..i] + [str[i]];
        i := i + 1;
      }
    }

    /** `while (j++ < w) xputc(c)`, leaving j one past the failing test. */
    method PadTo(c: Byte, j: nat, w: nat) returns (j': nat)
      requires Room(if w > j then w - j else 0)
      modifies this, buff
      ensures Wrote(Fill(c, w - j)) && j' == (if w > j then w else j) + 1
    {
      j' := j;
      assert Fill(c, 0) == [];
      while j' < w
        invariant j <= j' && (j' <= w || j' == j) && outptr == old(outptr) + (j' - j)
        invariant buff[..outptr] == old(buff[..outptr]) + Fill(c, j' - j)
      {
        Xputc(c);
        j' := j' + 1;
      }
      j' := j' + 1;
    }

    /** `d = v % r; v /= r; ... s[i++] = d + '0';` where `/` and `%` are the target's own. */
    method PutDigit(s: array<Byte>, i: nat, v: Word, r: nat, lower: bool) returns (v': Word, i': nat)
      requires i < s.Length == BUFFER && 2 <= r <= 16
      modifies s
      ensures i' == i + 1 && s[..i'] == old(s[..i]) + [DigitChar(Rem(v, r), lower)] && v' == Quot(v, r)
    {
      QuotRemAreDivMod(v, r);
      var d := UDivMod(v, r, true);
      v' := UDivMod(v, r, false);
      s[i] := DigitChar(d, lower);
      i' := i + 1;
    }

    /** What is written, with the digits of v still to come if there are more, makes up all the digits. */
    ghost predicate Pending(all: Text, r: nat, lower: bool, written: Text, more: bool, v: Word)
      requires 2 <= r <= 16
    {
      && |written| <= BUFFER && (more ==> |written| < BUFFER)
      && all == written + if more then Digits(v, r, lower, BUFFER - |written|) else []
    }

    lemma {:induction false} PendingStep(all: Text, r: nat, lower: bool, written: Text, v: Word)
      requires 2 <= r <= 16 && Pending(all, r, lower, written, true, v)
      ensures Pending(all, r, lower, written + [DigitChar(Rem(v, r), lower)],
                      Quot(v, r) != 0 && |written| + 1 < BUFFER, Quot(v, r))
    {
      var room := BUFFER - |written|;
      var c := DigitChar(Rem(v, r), lower);
      var q := Quot(v, r);
      if q == 0 || room == 1 {
        assert Digits(v, r, lower, room) == [c] + [];
        Regrouped(written, c, []);
      } else {
        assert Digits(v, r, lower, room) == [c] + Digits(q, r, lower, room - 1);
        Regrouped(written, c, Digits(q, r, lower, room - 1));
      }
    }

    lemma Regrouped(s: Text, c: Byte, t: Text)
      ensures s + ([c] + t) == s + [c] + t
    {
    }

    /** The digits of v into the buffer s, least significant first. */
    method PutDigits(s: array<Byte>, v0: Word, r: nat, lower: bool) returns (i: nat)
      requires s.Length == BUFFER && 2 <= r <= 16
      modifies s
      ensures 1 <= i <= BUFFER && s[..i] == Digits(v0, r, lower, BUFFER)
    {
      var v, more := v0, true;
      i := 0;
      while more
        invariant i <= BUFFER && (!more ==> i > 0) && Pending(Digits(v0, r, lower, BUFFER), r, lower, s[..i], more, v)
        decreases more, BUFFER - i
      {
        PendingStep(Digits(v0, r, lower, BUFFER), r, lower, s[..i], v);
        v, i := PutDigit(s, i, v, r, lower);
        more := v != 0 && i < s.Length;
      }
    }

    /** `do xputc(s[--i]); while(i);` */
    method PutReversed(s: array<Byte>, n: nat)
      requires 1 <= n <= s.Length && Room(n) && s != buff
      modifies this, buff
      ensures Wrote(Reverse(s[..n]))
    {
      var i := n;
      ghost var t := s[..n];
      assert t[n..] == [] && Reverse([]) == [];
      while i > 0
        invariant 0 <= i <= n && s[..n] == t && outptr == old(outptr) + (n - i)
        invariant buff[..outptr] == old(buff[..outptr]) + Reverse(t[i..])
      {
        i := i - 1;
        ReverseFront(t, i);
        Xputc(s[i]);
      }
      assert t[0..] == t;
    }

    lemma ReverseFront(t: Text, i: nat)
      requires i < |t|
      ensures Reverse(t[i..]) == Reverse(t[i + 1..]) + [t[i]]
    {
      assert t[i..][1..] == t[i + 1..] && t[i..][0] == t[i];
    }

    /** The end of the number path: padding, sign and digits. */
    method PutNumber(d: Directive, w: Word)
      requires Base(d.conv) != 0 && Room(|NumberField(d, w)|)
      modifies this, buff
      ensures Wrote(NumberField(d, w))
    {
      var r := Base(d.conv);
      var v, negative := w, false;
      if Upper(d.conv) == 68 && w >= 0x8000_0000 {
        v := Wrap(0 - w as int);
        negative := true;
      }
      var s := new Byte[BUFFER];
      var i := PutDigits(s, v, r, d.conv == LOWER_X);
      if negative {
        SignFits(v, d.conv == LOWER_X);
        s[i] := MINUS;
        i := i + 1;
      }
      assert s[..i] == Digits(v, r, d.conv == LOWER_X, BUFFER) + if negative then [MINUS] else [];
      PutField(s, i, d);
    }

    /** The reversed buffer in its field. */
    method PutField(s: array<Byte>, i: nat, d: Directive)
      requires 1 <= i <= s.Length && s != buff && Room(|Padded(Reverse(s[..i]), d.left, d.zero, d.width)|)
      modifies this, buff
      ensures Wrote(Padded(Reverse(s[..i]), d.left, d.zero, d.width))
    {
      var j := i;
      if !d.left {
        j := PadTo(if d.zero then ZERO else SPACE, j, d.width);
      }
      PutReversed(s, i);
      j := PadTo(SPACE, j, d.width);
    }

    /** `%s`: the string in its field; the padding with blanks is on the side the flag says. */
    method PutString(d: Directive, p: Text)
      requires Room(|Padded(CString(p), d.left, false, d.width)|)
      modifies this, buff
      ensures Wrote(Padded(CString(p), d.left, false, d.width))
    {
      var j := StringLength(p);
      if !d.left {
        j := PadTo(SPACE, j, d.width);
      }
      Xputs(p);
      j := PadTo(SPACE, j, d.width);
    }

    method StringLength(p: Text) returns (j: nat)
      ensures j == |CString(p)|
    {
      j := 0;
      while CharAt(p, j) != 0
        invariant j <= |p| && Terminator(p, j) == Terminator(p, 0)
        decreases |p| - j
      {
        j := j + 1;
      }
    }

    /** One directive; n says whether it used up an argument. */
    method PutDirective(d: Directive, args: seq<Arg>, k: nat) returns (n: nat)
      requires Convert(d, args, k).Some? && Room(|Convert(d, args, k).value.0|)
      modifies this, buff
      ensures Wrote(Convert(d, args, k).value.0) && n == Convert(d, args, k).value.1
    {
      var u := Upper(d.conv);
      n := 1;
      if u == 83 {
        PutString(d, args[k].t);
      } else if u == 67 {
        Xputc(args[k].w % 256);
      } else if Base(d.conv) != 0 {
        PutNumber(d, args[k].w);
      } else {
        Xputc(d.conv);
        n := 0;
      }
    }

    /** One turn of the loop: a character of the format, or a directive; t is what it writes. */
    method PutItem(fmt: Text, i: nat, args: seq<Arg>, k: nat) returns (i': nat, k': nat, stop: bool, ghost t: Text)
      requires CharAt(fmt, i) != 0 && Format(fmt, i, args, k).Some? && Room(|Format(fmt, i, args, k).value|)
      modifies this, buff
      ensures Wrote(t) && i < i' && i < |fmt|
      ensures stop ==> Format(fmt, i, args, k) == Some(t)
      ensures !stop ==> Format(fmt, i', args, k').Some?
      ensures !stop ==> Format(fmt, i, args, k).value == t + Format(fmt, i', args, k').value
    {
      hide Convert, ParseDirective;
      var c := CharAt(fmt, i);
      stop := false;
      if c != PERCENT {
        t := [c];
        Xputc(c);
        i', k' := i + 1, k;
      } else {
        var d := ReadDirective(fmt, i + 1);
        if d.conv == 0 { return i + 1, k, true, []; }
        t := Convert(d, args, k).value.0;
        var n := PutDirective(d, args, k);
        i', k' := d.next, k + n;
      }
    }

    /** What is written, with the text of the format from i on unless it has been left, makes up the whole text. */
    ghost predicate ToCome(all: Text, written: Text, fmt: Text, i: nat, args: seq<Arg>, k: nat, stop: bool) {
      if stop then all == written
      else Format(fmt, i, args, k).Some? && all == written + Format(fmt, i, args, k).value
    }

    lemma {:induction false} Concatenated(a: Text, b: Text, c: Text)
      ensures a + (b + c) == (a + b) + c && |a + (b + c)| == |a| + |b| + |c|
    {
    }

    /** PutItem as one step towards the whole text. */
    method PutNext(ghost all: Text, ghost written: Text, fmt: Text, i: nat, args: seq<Arg>, k: nat)
      returns (i': nat, k': nat, stop: bool, ghost t: Text)
      requires CharAt(fmt, i) != 0 && ToCome(all, written, fmt, i, args, k, false)
      requires Room(|all| - |written|)
      modifies this, buff
      ensures Wrote(t) && i < i' && i < |fmt| && |written| + |t| <= |all|
      ensures ToCome(all, written + t, fmt, i', args, k', stop)
    {
      i', k', stop, t := PutItem(fmt, i, args, k);
      if !stop {
        Concatenated(written, t, Format(fmt, i', args, k').value);
      }
    }

    /** xvprintf: every text for which C defines the outcome is written as specified. */
    method Xvprintf(fmt: Text, args: seq<Arg>)
      requires Format(fmt, 0, args, 0).Some? && Room(|Format(fmt, 0, args, 0).value|)
      modifies this, buff
      ensures Wrote(Format(fmt, 0, args, 0).value)
    {
      var i, k, stop := 0, 0, false;
      ghost var before: Text, done: Text := buff[..outptr], [];
      ghost var all := Format(fmt, 0, args, 0).value;
      while CharAt(fmt, i) != 0 && !stop
        invariant |done| <= |all| && outptr == |before| + |done| && |before| + |all| <= buff.Length
        invariant buff[..outptr] == before + done
        invariant ToCome(all, done, fmt, i, args, k, stop)
        decreases !stop, |fmt| - i
      {
        ghost var t;
        i, k, stop, t := PutNext(all, done, fmt, i, args, k);
        Concatenated(before, done, t);
        done := done + t;
      }
      assert done + [] == done;
    }

    /** Flag, width and size prefix. */
    method ReadDirective(fmt: Text, start: nat) returns (d: Directive)
      ensures d == ParseDirective(fmt, start)
    {
      var i := start;
      var flag := CharAt(fmt, i);
      if flag == ZERO || flag == MINUS {
        i := i + 1;
      }
      var w: Word := 0;
      ghost var from := i;
      while IsDigit(CharAt(fmt, i))
        invariant Width(fmt, i, w) == Width(fmt, from, 0)
        decreases |fmt| - i
      {
        w := Wrap((w as int) * 10 + (CharAt(fmt, i) as int) - 48);
        i := i + 1;
      }
      if CharAt(fmt, i) == 108 || CharAt(fmt, i) == 76 {
        i := i + 1;
      }
      d := Directive(flag == MINUS, flag == ZERO, w, CharAt(fmt, i), i + 1);
    }
  }

  /** A signed number has at most ten digits, so the sign fits the buffer. */
  lemma SignFits(v: Word, lower: bool)
    ensures |Digits(v, 10, lower, BUFFER)| < BUFFER
  {
    assert Power(10, 4) == 10000;
    assert Power(10, 8) == 10000 * 10000;
    assert Power(10, 12) == 10000 * 10000 * 10000;
    FewDigits(v, 10, lower, BUFFER, 12);
  }

  lemma {:induction false} FewDigits(v: nat, r: nat, lower: bool, room: nat, n: nat)
    requires 2 <= r <= 16 && 1 <= n <= room && v < Power(r, n)
    ensures |Digits(v, r, lower, room)| <= n
    decreases n
  {
    DivBelow(v, r, Power(r, n - 1));
    if Quot(v, r) != 0 {
      FewDigits(Quot(v, r), r, lower, room - 1, n - 1);
    }
  }

  /** xsprintf: the formatted text and a terminating zero, from the start of the buffer. */
  method Xsprintf(buff: array<Byte>, fmt: Text, args: seq<Arg>)
    requires Format(fmt, 0, args, 0).Some? && |Format(fmt, 0, args, 0).value| < buff.Length
    modifies buff
    ensures var t := Format(fmt, 0, args, 0).value;
            buff[..|t|] == t && buff[|t|] == 0
  {
    var p := new Printer(buff);
    p.Xvprintf(fmt, args);
    buff[p.outptr] := 0;
  }

  // ----- reading -----

  /** Where the string pointer stands after a number read from `start` on: just behind it. */
  function Behind(s: Text, start: nat): nat {
    EndOf(s, SkipBlanks(s, start))
  }

  /** The end of what starts at i is the end of what starts at any place within it. */
  lemma EndFromWithin(s: Text, i: nat, j: nat)
    requires i <= j && forall k :: i <= k < j ==> CharAt(s, k) > SPACE
    ensures EndOf(s, i) == EndOf(s, j)
  {
    EndOfIs(s, i, EndOf(s, j));
  }

  /**
   * xatoi: success and value are those of Parse; `pos` is where the string pointer is left: behind the number, or
   * on failure at a character of it.
   */
  method Xatoi(str: Text, start: nat) returns (ok: bool, res: Word, pos: nat)
    ensures ok == Parse(str, start).Some?
    ensures res == if ok then Parse(str, start).value else 0
    ensures ok ==> pos == Behind(str, start)
    ensures !ok ==> SkipBlanks(str, start) <= pos <= Behind(str, start)
  {
    pos := start;
    while CharAt(str, pos) == SPACE
      invariant start <= pos && SkipBlanks(str, pos) == SkipBlanks(str, start)
      decreases |str| - pos
    {
      pos := pos + 1;
    }
    ghost var first := pos;
    var negative := CharAt(str, pos) == MINUS;
    if negative {
      pos := pos + 1;
      EndFromWithin(str, first, pos);
    }
    ok, res, pos := ReadUnsigned(str, pos);
    if ok && negative {
      res := Wrap(0 - res as int);
    }
  }

  /** The base and the digits. */
  method ReadUnsigned(str: Text, start: nat) returns (ok: bool, val: Word, pos: nat)
    ensures ParseUnsigned(str, start) == if ok then Some(val) else None
    ensures !ok ==> val == 0
    ensures start <= pos <= EndOf(str, start) && (ok ==> pos == EndOf(str, start))
  {
    pos := start;
    var r := 10;
    var c := CharAt(str, pos);
    if c == ZERO {
      pos := pos + 1;
      c := CharAt(str, pos);
      if c == LOWER_X {
        r := 16;
        pos := pos + 1;
      } else if c == LOWER_B {
        r := 2;
        pos := pos + 1;
      } else {
        EndFromWithin(str, start, pos);
        if c <= SPACE { return true, 0, pos; }
        if c < ZERO || c > NINE { return false, 0, pos; }
        r := 8;
      }
    } else if c < ZERO || c > NINE {
      return false, 0, pos;
    }
    EndFromWithin(str, start, pos);
    ok, val, pos := ReadDigits(str, pos, r);
  }

  /** The loop over the digits, up to the first character that is not greater than a blank. */
  method ReadDigits(str: Text, start: nat, r: nat) returns (ok: bool, val: Word, pos: nat)
    ensures Value(str, start, EndOf(str, start), r) == if ok then Some(val) else None
    ensures !ok ==> val == 0
    ensures start <= pos <= EndOf(str, start) && (ok ==> pos == EndOf(str, start))
  {
    val, pos := 0, start;
    while CharAt(str, pos) > SPACE
      invariant start <= pos <= EndOf(str, start) && Value(str, start, pos, r) == Some(val)
      invariant forall k :: start <= k < pos ==> CharAt(str, k) > SPACE
      decreases |str| - pos
    {
      EndFromWithin(str, start, pos);
      var d := DigitOf(CharAt(str, pos));
      if d >= r {
        ValueStaysNone(str, start, pos + 1, EndOf(str, start), r);
        return false, 0, pos;
      }
      val := Wrap((val as int) * r + d);
      pos := pos + 1;
    }
    EndOfIs(str, start, pos);
    ok := true;
  }

  lemma ValueStaysNone(s: Text, i: nat, j: nat, k: nat, r: nat)
    requires i <= j <= k && Value(s, i, j, r) == None
    ensures Value(s, i, k, r) == None
    decreases k - j
  {
    if j < k {
      ValueStaysNone(s, i, j, k - 1, r);
    }
  }

  // ----- reading what was printed -----

  /** `%d` and `%u` with any width and either justification, but not padded with zeros, are read back. */
  lemma FieldRoundTrip(d: Directive, w: Word)
    requires Base(d.conv) == 10 && !d.zero
    ensures Parse(NumberField(d, w), 0) == Some(w)
  {
    if Upper(d.conv) == 68 {
      Magnitude(w);
      DecimalRoundTrip(w, d.left, d.width);
    } else {
      UnsignedRoundTrip(w, d.left, d.width);
    }
  }
}
