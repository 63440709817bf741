/** LZG_Decode (src/libc/lzg.c:203-373): the pointer loop over two buffers, proved to compute LzgFormat.Decoded. */
module LzgDecode {
  import opened Prelude
  import opened LzgFormat
  import Checksum

  /** _LZG_LENGTH_DECODE_LUT */
  const LENGTH_DECODE_LUT: seq<Byte> := [
    2, 3, 4, 5, 6, 7, 8, 9, 10, 11, 12, 13, 14, 15, 16, 17,
    18, 19, 20, 21, 22, 23, 24, 25, 26, 27, 28, 29, 35, 48, 72, 128
  ]

  /** The table the decoder reads is the documented length encoding. */
  lemma DecodeLutIsLengthOf(field: int)
    requires 0 <= field < 32
    ensures |LENGTH_DECODE_LUT| == 32 && LENGTH_DECODE_LUT[field] == LengthOf(field)
  {
    if field < 28 {
      assert forall i :: 0 <= i < 28 ==> LENGTH_DECODE_LUT[i] == i + 2;
    }
  }

  /** `*dst++ = *copy++`: one byte of a copy of which `left` bytes ending at `end` are still to do. */
  method CopyByte(out: array<Byte>, dst: nat, copy: nat, ghost left: nat) returns (dst': nat, copy': nat)
    requires copy < dst && 1 <= left && dst + left <= out.Length
    modifies out
    ensures dst' == dst + 1 && copy' == copy + 1
    ensures CopyBack(out[..dst'], dst - copy, left - 1) == CopyBack(old(out[..dst]), dst - copy, left)
    ensures out[dst + left..] == old(out[dst + left..])
  {
    out[dst] := out[copy];
    dst', copy' := dst + 1, copy + 1;
    assert out[..dst'] == old(out[..dst]) + [old(out[..dst])[|old(out[..dst])| - (dst - copy)]];
  }

  function Min(a: nat, b: nat): nat {
    if a < b then a else b
  }

  /** `left` bytes of a copy that ends at `end` are still to do. */
  ghost predicate CopyLeft(out: array<Byte>, dst: nat, copy: nat, offset: nat, left: nat, end: nat) {
    1 <= offset <= dst && copy == dst - offset && dst + left == end <= out.Length
  }

  /** With `left'` bytes to do the copy ends as it would have ended before with `left`; nothing behind it changed. */
  twostate predicate Copied(out: array<Byte>, dst: nat, left: nat, dst': nat, left': nat, offset: nat, end: nat)
    requires 1 <= offset <= dst <= end <= out.Length && dst <= dst' <= end
    reads out
  {
    && CopyBack(out[..dst'], offset, left') == CopyBack(old(out[..dst]), offset, left)
    && out[end..] == old(out[end..])
  }

  /**
   * `case k: *dst++ = *copy++;`: a length of at least k has been switched to this case or falls through to it.
   * Before it min(length, k) bytes are to do, after it min(length, k - 1).
   */
  method CopyCase(out: array<Byte>, dst: nat, copy: nat, length: nat, k: nat, ghost offset: nat, ghost end: nat)
    returns (dst': nat, copy': nat)
    requires 1 <= k && CopyLeft(out, dst, copy, offset, Min(length, k), end)
    modifies out
    ensures CopyLeft(out, dst', copy', offset, Min(length, k - 1), end) && dst <= dst'
    ensures Copied(out, dst, Min(length, k), dst', Min(length, k - 1), offset, end)
  {
    dst', copy' := dst, copy;
    if length >= k {
      dst', copy' := CopyByte(out, dst, copy, k);
    }
  }

  /** Four of the cases, from k down. */
  method CopyFour(out: array<Byte>, dst: nat, copy: nat, length: nat, k: nat, ghost offset: nat, ghost end: nat)
    returns (dst': nat, copy': nat)
    requires 4 <= k && CopyLeft(out, dst, copy, offset, Min(length, k), end)
    modifies out
    ensures CopyLeft(out, dst', copy', offset, Min(length, k - 4), end) && dst <= dst'
    ensures Copied(out, dst, Min(length, k), dst', Min(length, k - 4), offset, end)
  {
    hide CopyBack, Min;
    dst', copy' := CopyCase(out, dst, copy, length, k, offset, end);
    dst', copy' := CopyCase(out, dst', copy', length, k - 1, offset, end);
    dst', copy' := CopyCase(out, dst', copy', length, k - 2, offset, end);
    dst', copy' := CopyCase(out, dst', copy', length, k - 3, offset, end);
  }

  /** `switch (length)`: all the cases, from 29 down to 1. */
  method CopyCases(out: array<Byte>, start: nat, from: nat, length: nat, ghost offset: nat, ghost end: nat)
    returns (dst: nat)
    requires CopyLeft(out, start, from, offset, Min(length, 29), end)
    modifies out
    ensures dst == end && out[..dst] == CopyBack(old(out[..start]), offset, Min(length, 29))
    ensures out[end..] == old(out[end..])
  {
    hide CopyBack, Min;
    var copy;
    dst, copy := CopyCase(out, start, from, length, 29, offset, end);
    dst, copy := CopyFour(out, dst, copy, length, 28, offset, end);
    dst, copy := CopyFour(out, dst, copy, length, 24, offset, end);
    dst, copy := CopyFour(out, dst, copy, length, 20, offset, end);
    dst, copy := CopyFour(out, dst, copy, length, 16, offset, end);
    dst, copy := CopyFour(out, dst, copy, length, 12, offset, end);
    dst, copy := CopyFour(out, dst, copy, length, 8, offset, end);
    dst, copy := CopyFour(out, dst, copy, length, 4, offset, end);
    CopyNone(out[..dst], offset, length);
  }

  lemma CopyNone(s: seq<Byte>, offset: nat, length: nat)
    requires 1 <= offset <= |s|
    ensures Min(length, 0) == 0 && CopyBack(s, offset, 0) == s
  {
  }

  /**
   * The unrolled copy: lengths above 29 enter at the default case, whose loop copies length - 29 bytes and
   * falls through into case 29; every other length enters at its own case. It is the byte-by-byte copy.
   */
  method CopyUnrolled(out: array<Byte>, start: nat, length: nat, offset: nat) returns (dst: nat)
    requires 1 <= offset <= start && 1 <= length && start + length <= out.Length
    modifies out
    ensures dst == start + length
    ensures out[..dst] == CopyBack(old(out[..start]), offset, length)
    ensures out[dst..] == old(out[dst..])
  {
    hide CopyBack;
    ghost var end := start + length;
    dst := start;
    var copy := start - offset;
    if length > 29 {
      dst, copy := CopyDefault(out, dst, copy, length, offset, end);
    }
    dst := CopyCases(out, dst, copy, length, offset, end);
  }

  /** `default: for (i = 29; i < length; ++i) *dst++ = *copy++;` */
  method CopyDefault(out: array<Byte>, start: nat, from: nat, length: nat, ghost offset: nat, ghost end: nat)
    returns (dst: nat, copy: nat)
    requires 29 < length && CopyLeft(out, start, from, offset, length, end)
    modifies out
    ensures CopyLeft(out, dst, copy, offset, 29, end) && start <= dst
    ensures Copied(out, start, length, dst, 29, offset, end)
  {
    dst, copy := start, from;
    for i := 29 to length
      invariant CopyLeft(out, dst, copy, offset, length - (i - 29), end) && start <= dst
      invariant Copied(out, start, length, dst, length - (i - 29), offset, end)
    {
      dst, copy := CopyByte(out, dst, copy, length - (i - 29));
    }
  }

  /** isMarkerSymbolLUT: which of the 256 symbols are markers. */
  ghost predicate LutOf(lut: array<bool>, m: Markers)
    reads lut
  {
    lut.Length == 256 && forall x :: 0 <= x < 256 ==> lut[x] == m.Has(x)
  }

  method MarkerLut(m: Markers) returns (lut: array<bool>)
    ensures fresh(lut) && LutOf(lut, m)
  {
    lut := new bool[256](_ => false);
    lut[m.m1] := true;
    lut[m.m2] := true;
    lut[m.m3] := true;
    lut[m.m4] := true;
  }

  /** Decodes the parameters of a back reference whose marker and first byte b, not zero, end before `src`. */
  method ReadReference(input: array<Byte>, start: nat, symbol: Byte, b: Byte, m: Markers)
    returns (ok: bool, src: nat, length: nat, offset: nat)
    requires 2 <= start <= input.Length && m.Has(symbol)
    requires symbol == input[start - 2] && b == input[start - 1]
    ensures start <= src && (ok ==> src <= input.Length)
    ensures ParseReference(m, input[start - 2..]) ==
            if ok then Some(Reference(length, offset, src - (start - 2))) else None
  {
    ok, src, length, offset := true, start, 0, 0;
    var high: int := b;
    DecodeLutIsLengthOf(high % 32);
    if symbol == m.m1 {
      if src + 2 > input.Length { return false, src, 0, 0; }
      length := LENGTH_DECODE_LUT[high % 32];
      var b2: int, b3: int := input[src], input[src + 1];
      src := src + 2;
      offset := high / 32 * 0x1_0000 + b2 * 256 + b3;
      offset := offset + 2056;
    } else if symbol == m.m2 {
      if src >= input.Length { return false, src, 0, 0; }
      length := LENGTH_DECODE_LUT[high % 32];
      var b2: int := input[src];
      src := src + 1;
      offset := high / 32 * 256 + b2;
      offset := offset + 8;
    } else if symbol == m.m3 {
      length := high / 64 + 3;
      offset := high % 64 + 8;
    } else {
      length := LENGTH_DECODE_LUT[high % 32];
      offset := high / 32 + 1;
    }
  }

  /** The stream from `src` on, read after the first `dst` bytes of output. */
  ghost function Remaining(m: Markers, input: array<Byte>, src: nat, out: array<Byte>, dst: nat): Option<seq<Byte>>
    requires src <= input.Length && dst <= out.Length
    reads input, out
  {
    Meaning(m, input[src..], out[..dst])
  }

  /** A meaning that fits an output buffer of n bytes. */
  ghost predicate Fits(meaning: Option<seq<Byte>>, n: nat) {
    meaning.Some? && |meaning.value| <= n
  }

  /** `CHECK_BOUNDS(dst < outEnd); *dst++ = symbol;` */
  method PutSymbol(out: array<Byte>, dst: nat, symbol: Byte) returns (ok: bool, dst': nat)
    requires dst <= out.Length
    modifies out
    ensures ok == (dst < out.Length)
    ensures ok ==> dst' == dst + 1 && out[..dst'] == old(out[..dst]) + [symbol] && out[dst'..] == old(out[dst'..])
  {
    if dst >= out.Length { return false, dst; }
    out[dst] := symbol;
    return true, dst + 1;
  }

  /** One turn of the main loop: a literal, an escaped marker or a back reference. */
  method DecodeSymbol(input: array<Byte>, start: nat, out: array<Byte>, at: nat, m: Markers, lut: array<bool>)
    returns (ok: bool, src: nat, dst: nat)
    requires input != out && start < input.Length && at <= out.Length && LutOf(lut, m)
    modifies out
    ensures ok ==> start < src <= input.Length && at <= dst <= out.Length && out[dst..] == old(out[dst..])
    ensures ok ==> Remaining(m, input, src, out, dst) == old(Remaining(m, input, start, out, at))
    ensures !ok ==> !Fits(old(Remaining(m, input, start, out, at)), out.Length)
  {
    ghost var s := input[start..];
    var symbol := input[start];
    src := start + 1;
    if !lut[symbol] {
      ok, dst := PutSymbol(out, at, symbol);
      assert s[1..] == input[src..];
    } else {
      if src >= input.Length { return false, src, at; }
      var b := input[src];
      src := src + 1;
      if b != 0 {
        ok, src, dst := DecodeReference(input, src, out, at, m);
      } else {
        ok, dst := PutSymbol(out, at, symbol);
        assert s[2..] == input[src..];
      }
    }
  }

  /** Parameters and copy of the back reference whose first two bytes end before `start`. */
  method DecodeReference(input: array<Byte>, start: nat, out: array<Byte>, at: nat, m: Markers)
    returns (ok: bool, src: nat, dst: nat)
    requires input != out && 2 <= start <= input.Length && at <= out.Length
    requires m.Has(input[start - 2]) && input[start - 1] != 0
    modifies out
    ensures ok ==> start <= src <= input.Length && at <= dst <= out.Length && out[dst..] == old(out[dst..])
    ensures ok ==> Remaining(m, input, src, out, dst) == old(Remaining(m, input, start - 2, out, at))
    ensures !ok ==> !Fits(old(Remaining(m, input, start - 2, out, at)), out.Length)
  {
    ghost var s := input[start - 2..];
    var length, offset;
    ok, src, length, offset := ReadReference(input, start, input[start - 2], input[start - 1], m);
    if !ok { return false, src, at; }
    assert s[src - (start - 2)..] == input[src..];
    if at < offset || at + length > out.Length { return false, src, at; }
    dst := CopyUnrolled(out, at, length, offset);
  }

  /** The main decompression loop, after the markers. */
  method Decompress(input: array<Byte>, start: nat, out: array<Byte>, m: Markers) returns (ok: bool, dst: nat)
    requires input != out && start <= input.Length
    modifies out
    ensures ok ==> dst <= out.Length && Meaning(m, input[start..], []) == Some(out[..dst])
    ensures ok ==> out[dst..] == old(out[dst..])
    ensures !ok ==> !Fits(Meaning(m, input[start..], []), out.Length)
  {
    var lut := MarkerLut(m);
    var src := start;
    ok, dst := true, 0;
    assert out[..dst] == [];
    while src < input.Length
      invariant start <= src <= input.Length && dst <= out.Length
      invariant Remaining(m, input, src, out, dst) == Meaning(m, input[start..], [])
      invariant out[dst..] == old(out[dst..]) && LutOf(lut, m)
      decreases input.Length - src
    {
      ghost var before := dst;
      ok, src, dst := DecodeSymbol(input, src, out, dst, m, lut);
      if !ok { return; }
      assert old(out[before..])[dst - before..] == old(out[dst..]);
    }
  }

  /** _LZG_GetUINT32 */
  method ReadUint32(input: array<Byte>, at: nat) returns (w: int)
    requires at + 4 <= input.Length
    ensures w == GetUint32(input[..], at)
  {
    var b0: int, b1: int, b2: int, b3: int := input[at], input[at + 1], input[at + 2], input[at + 3];
    w := b0 * 0x100_0000 + b1 * 0x1_0000 + b2 * 256 + b3;
  }

  /**
   * LZG_Decode. On success the decoded bytes fill the front of the output and nothing else is written; on
   * every other input it returns 0.
   */
  method Decode(input: array<Byte>, out: array<Byte>) returns (size: nat)
    requires input != out
    modifies out
    ensures match Decoded(input[..], out.Length)
            case None => size == 0
            case Some(x) => size == |x| <= out.Length && out[..size] == x && out[size..] == old(out[size..])
  {
    var valid, decodedSize := CheckHeader(input, out.Length);
    if !valid { return 0; }
    assert input[HEADER_SIZE..] == input[..][HEADER_SIZE..];
    if input[15] == METHOD_COPY {
      if decodedSize != input.Length - HEADER_SIZE { return 0; }
      CopyPlain(input, out, decodedSize);
      return decodedSize;
    }
    if input.Length < HEADER_SIZE + 4 { return 0; }
    var m := Markers(input[16], input[17], input[18], input[19]);
    assert input[..][HEADER_SIZE..][4..] == input[HEADER_SIZE + 4..];
    var ok, dst := Decompress(input, HEADER_SIZE + 4, out, m);
    if !ok || dst != decodedSize { return 0; }
    return decodedSize;
  }

  /** The checks before the first byte is written. */
  method CheckHeader(input: array<Byte>, outsize: nat) returns (valid: bool, decodedSize: nat)
    ensures valid == HeaderValid(input[..], outsize)
    ensures valid ==> decodedSize == GetUint32(input[..], 3)
  {
    if input.Length < HEADER_SIZE { return false, 0; }
    if input[0] != MAGIC[0] || input[1] != MAGIC[1] || input[2] != MAGIC[2] {
      assert input[..][..3] != MAGIC;
      return false, 0;
    }
    assert input[..][..3] == MAGIC;
    decodedSize := ReadUint32(input, 3);
    if outsize < decodedSize { return false, decodedSize; }
    var encodedSize := ReadUint32(input, 7);
    if encodedSize != input.Length - HEADER_SIZE { return false, decodedSize; }
    var checksum := ReadUint32(input, 11);
    var actual := Checksum.Calc(input, HEADER_SIZE, encodedSize);
    assert input[HEADER_SIZE..HEADER_SIZE + encodedSize] == input[..][HEADER_SIZE..];
    if actual != checksum { return false, decodedSize; }
    valid := input[15] <= METHOD_LZG1;
  }

  /** `for (i = decodedSize; i > 0; --i) *dst++ = *src++;` */
  method CopyPlain(input: array<Byte>, out: array<Byte>, n: nat)
    requires input != out && HEADER_SIZE + n <= input.Length && n <= out.Length
    modifies out
    ensures out[..n] == input[HEADER_SIZE..HEADER_SIZE + n]
    ensures out[n..] == old(out[n..])
  {
    var src, dst, i := HEADER_SIZE, 0, n;
    while i > 0
      invariant 0 <= i && dst + i == n && src == HEADER_SIZE + dst
      invariant out[..dst] == input[HEADER_SIZE..src]
      invariant out[n..] == old(out[n..])
    {
      out[dst] := input[src];
      src, dst, i := src + 1, dst + 1, i - 1;
    }
  }
}
