/** LZG_EncodeFull (src/libc/lzg.c:775-983): the loops over the buffers, proved to write what LzgStream describes. */
module LzgEncode {
  import opened Prelude
  import opened LzgFormat
  import opened LzgMatch
  import opened LzgSearch
  import opened LzgStream
  import LzgMarkers
  import LzgSearchLaws
  import LzgDecode
  import Checksum

  // ----- configuration -----

  /** lzg_encoder_config_t without the progress callback. */
  datatype Config = Config(level: int, fast: bool)

  const DEFAULT_CONFIG := Config(5, true)

  /** The row of _LZG_TUNING_PARAMETERS for the clamped level, and the key size. */
  function Tuning(config: Config): (p: Params)
    ensures p.Valid() && 2048 <= p.window <= 0x8_0000 && 30 <= p.maxMatches && 35 <= p.goodLength <= MAX_RUN_LENGTH
  {
    var preMatch := if config.fast then 3 else 2;
    if config.level <= 1 then Params(2048, 30, 35, preMatch)
    else if config.level == 2 then Params(4096, 40, 48, preMatch)
    else if config.level == 3 then Params(8192, 50, 72, preMatch)
    else if config.level == 4 then Params(16384, 60, 72, preMatch)
    else if config.level == 5 then Params(32768, 70, 72, preMatch)
    else if config.level == 6 then Params(65536, 80, 72, preMatch)
    else if config.level == 7 then Params(131072, 150, 128, preMatch)
    else if config.level == 8 then Params(262144, 250, 128, preMatch)
    else Params(524288, 524288, 128, preMatch)
  }

  /** A higher level never looks less far back, at fewer positions, or is content with less. */
  lemma TuningGrows(low: Config, high: Config)
    requires low.level <= high.level
    ensures Tuning(low).window <= Tuning(high).window && Tuning(low).maxMatches <= Tuning(high).maxMatches
    ensures Tuning(low).goodLength <= Tuning(high).goodLength
    ensures low.level < high.level && 1 <= low.level && high.level <= 9 ==>
              2 * Tuning(low).window <= Tuning(high).window
  {
  }

  // _LZG_LENGTH_ENCODE_LUT, a row of the source at a time.
  const ENCODE_ROW_0: seq<Byte> := [0, 1, 2, 3, 4, 5, 6, 7, 8, 9, 10, 11, 12, 13, 14, 15]
  const ENCODE_ROW_1: seq<Byte> := [16, 17, 18, 19, 20, 21, 22, 23, 24, 25, 26, 27, 28, 29, 29, 29]
  const ENCODE_ROW_2: seq<Byte> := [29, 29, 29, 30, 30, 30, 30, 30, 30, 30, 30, 30, 30, 30, 30, 30]
  const ENCODE_ROW_3: seq<Byte> := [31, 31, 31, 31, 31, 31, 31, 31, 31, 31, 31, 31, 31, 31, 31, 31]
  const ENCODE_ROW_4: seq<Byte> := [31, 31, 31, 31, 31, 31, 31, 31, 32, 32, 32, 32, 32, 32, 32, 32]
  const ENCODE_ROW_5: seq<Byte> := [32, 32, 32, 32, 32, 32, 32, 32, 32, 32, 32, 32, 32, 32, 32, 32]
  const ENCODE_ROW_6: seq<Byte> := [32, 32, 32, 32, 32, 32, 32, 32, 32, 32, 32, 32, 32, 32, 32, 32]
  const ENCODE_ROW_7: seq<Byte> := [32, 32, 32, 32, 32, 32, 32, 32, 32, 32, 32, 32, 32, 32, 32, 32]

  function EncodeLut(length: nat): (l: int)
    requires length <= MAX_RUN_LENGTH
    ensures Expressible(length) ==> l == LengthField(length) + 2
  {
    if length < 16 then ENCODE_ROW_0[length]
    else if length < 32 then ENCODE_ROW_1[length - 16]
    else if length < 48 then ENCODE_ROW_2[length - 32]
    else if length < 64 then ENCODE_ROW_3[length - 48]
    else if length < 80 then ENCODE_ROW_4[length - 64]
    else if length < 96 then ENCODE_ROW_5[length - 80]
    else if length < 112 then ENCODE_ROW_6[length - 96]
    else if length < 128 then ENCODE_ROW_7[length - 112]
    else 33
  }

  // ----- the result as a function of the input -----

  /** What the output buffer of `outsize` bytes holds at the end. */
  function Encoded(input: seq<Byte>, c: Coder, outsize: nat): seq<Byte>
    requires c.Valid() && HEADER_SIZE + |input| <= outsize < TWO_TO_32
  {
    var (payload, method') := Payload(input, c, outsize - HEADER_SIZE);
    Container(|input|, payload, method')
  }

  /** Decoding what was encoded gives back the input, for any buffer that can hold it. */
  lemma RoundTrip(input: seq<Byte>, c: Coder, outsize: nat, room: nat)
    requires c.Valid() && HEADER_SIZE + |input| <= outsize < TWO_TO_32 && |input| <= room
    ensures Decoded(Encoded(input, c, outsize), room) == Some(input)
  {
    var (payload, method') := Payload(input, c, outsize - HEADER_SIZE);
    PayloadMeansInput(input, c, outsize - HEADER_SIZE);
    DecodedContainer(payload, method', input, room);
  }

  /**
   * With the least common symbols as markers the payload exceeds the input by at most a sixty-fourth and
   * four bytes whatever room there is, and by nothing at all in a buffer of LZG_MaxEncodedSize.
   */
  lemma SizeBound(input: seq<Byte>, c: Coder, outsize: nat)
    requires c.Valid() && HEADER_SIZE + |input| <= outsize < TWO_TO_32
    requires LzgMarkers.LeastCommon(multiset(input), c.m)
    ensures var n := |Encoded(input, c, outsize)| - HEADER_SIZE;
            && n <= |input| + |input| / 64 + 4
            && n <= outsize - HEADER_SIZE
            && (outsize == HEADER_SIZE + |input| ==> n <= |input|)
  {
    EncodeLength(input, c, 0);
    assert input[0..] == input;
    MarkerCountIsMultiplicity(c.m, input);
    LzgMarkers.LeastCommonAreRare(input, c.m);
    Checksum.ClosedForm(Payload(input, c, outsize - HEADER_SIZE).0);
  }

  /** At every level a run of n equal bytes is encoded in header, markers and at most n / 64 + 12 bytes. */
  lemma RunEncodesShort(input: seq<Byte>, m: Markers, config: Config, outsize: nat)
    requires m.Distinct() && HEADER_SIZE + |input| <= outsize < TWO_TO_32
    requires forall i :: 0 <= i < |input| ==> input[i] == input[0]
    ensures |Encoded(input, Coder(m, Tuning(config)), outsize)| <= HEADER_SIZE + 4 + |input| / 64 + 12
  {
    var c := Coder(m, Tuning(config));
    LzgSearchLaws.RunIsShort(input, c);
    Checksum.ClosedForm(Payload(input, c, outsize - HEADER_SIZE).0);
  }

  // ----- the header -----

  method PutWord(out: array<Byte>, at: nat, w: Word)
    requires at + 4 <= out.Length
    modifies out
    ensures out[at..at + 4] == PutUint32(w)
    ensures forall i :: 0 <= i < out.Length && (i < at || at + 4 <= i) ==> out[i] == old(out[i])
  {
    out[at] := w / 256 / 256 / 256;
    out[at + 1] := w / 256 / 256 % 256;
    out[at + 2] := w / 256 % 256;
    out[at + 3] := w % 256;
  }

  /** _LZG_SetHeader: in front of a payload already in place, the bytes that make it a container. */
  method SetHeader(out: array<Byte>, decodedSize: Word, encodedSize: Word, method': Byte)
    requires HEADER_SIZE + encodedSize <= out.Length
    modifies out
    ensures out[..HEADER_SIZE + encodedSize] ==
            Container(decodedSize, old(out[HEADER_SIZE..HEADER_SIZE + encodedSize]), method')
  {
    ghost var end := HEADER_SIZE + encodedSize;
    ghost var payload := out[HEADER_SIZE..end];
    out[0] := MAGIC[0];
    out[1] := MAGIC[1];
    out[2] := MAGIC[2];
    PutWord(out, 3, decodedSize);
    PutWord(out, 7, encodedSize);
    assert out[HEADER_SIZE..end] == payload;
    var checksum := Checksum.Calc(out, HEADER_SIZE, encodedSize);
    Checksum.ClosedForm(payload);
    PutWord(out, 11, checksum);
    out[15] := method';
    AssembleContainer(out[..end], decodedSize, payload, method');
  }

  lemma AssembleContainer(whole: seq<Byte>, decodedSize: Word, payload: seq<Byte>, method': Byte)
    requires |payload| < TWO_TO_32 && |whole| == HEADER_SIZE + |payload| && whole[HEADER_SIZE..] == payload
    requires whole[..3] == MAGIC && whole[3..7] == PutUint32(decodedSize) && whole[7..11] == PutUint32(|payload|)
    requires 0 <= Checksum.Of(payload) < TWO_TO_32 && whole[11..15] == PutUint32(Checksum.Of(payload))
    requires whole[15] == method'
    ensures whole == Container(decodedSize, payload, method')
  {
    assert whole == whole[..3] + whole[3..7] + whole[7..11] + whole[11..15] + [whole[15]] + whole[HEADER_SIZE..];
  }

  // ----- the main loop -----

  /** The output so far, from the header on, has grown by `item`. */
  twostate predicate Appended(out: array<Byte>, at: nat, dst: nat, item: seq<Byte>)
    reads out
  {
    HEADER_SIZE <= at <= dst <= out.Length && out[HEADER_SIZE..dst] == old(out[HEADER_SIZE..at]) + item
  }

  method PutByte(out: array<Byte>, dst: nat, b: Byte) returns (dst': nat)
    requires HEADER_SIZE <= dst < out.Length
    modifies out
    ensures dst' == dst + 1 && Appended(out, dst, dst', [b])
  {
    out[dst] := b;
    dst' := dst + 1;
  }

  method PutTwo(out: array<Byte>, at: nat, b0: Byte, b1: Byte) returns (dst: nat)
    requires HEADER_SIZE <= at && at + 2 <= out.Length
    modifies out
    ensures Appended(out, at, dst, [b0, b1]) && dst == at + 2
  {
    dst := PutByte(out, at, b0);
    dst := PutByte(out, dst, b1);
  }

  /** Emits a reference, unless the buffer is too small for it. */
  method EmitReference(out: array<Byte>, at: nat, m: Markers, length: nat, offset: nat) returns (ok: bool, dst: nat)
    requires HEADER_SIZE <= at <= out.Length && Expressible(length) && 1 <= offset < 0x8_0000
    modifies out
    ensures ok == (at + |PutReference(m, length, offset)| <= out.Length)
    ensures ok ==> Appended(out, at, dst, PutReference(m, length, offset))
  {
    if length <= 6 && offset >= 9 && offset <= 71 {
      if at + 2 > out.Length { return false, at; }
      dst := PutTwo(out, at, m.m3, (length - 3) * 64 + (offset - 8));
    } else if offset <= 8 {
      if at + 2 > out.Length { return false, at; }
      dst := PutTwo(out, at, m.m4, (offset - 1) * 32 + (EncodeLut(length) - 2));
    } else if offset >= 2056 {
      if at + 4 > out.Length { return false, at; }
      dst := EmitDistant(out, at, m, EncodeLut(length), offset - 2056);
    } else {
      if at + 3 > out.Length { return false, at; }
      dst := EmitMedium(out, at, m, EncodeLut(length), offset - 8);
    }
    ok := true;
  }

  /** `((offset >> 11) & 0xe0) | (lengthEnc - 2)`, then the two low bytes of the offset. */
  method EmitDistant(out: array<Byte>, at: nat, m: Markers, lengthEnc: int, offset: nat) returns (dst: nat)
    requires HEADER_SIZE <= at && at + 4 <= out.Length && 3 <= lengthEnc < 34 && offset < 0x8_0000
    modifies out
    ensures Appended(out, at, dst,
                     [m.m1, offset / 256 / 256 * 32 + (lengthEnc - 2), offset / 256 % 256, offset % 256])
  {
    dst := PutTwo(out, at, m.m1, offset / 2048 / 32 % 8 * 32 + (lengthEnc - 2));
    dst := PutTwo(out, dst, offset / 256 % 256, offset % 256);
  }

  /** `((offset >> 3) & 0xe0) | (lengthEnc - 2)`, then the low byte of the offset. */
  method EmitMedium(out: array<Byte>, at: nat, m: Markers, lengthEnc: int, offset: nat) returns (dst: nat)
    requires HEADER_SIZE <= at && at + 3 <= out.Length && 3 <= lengthEnc < 34 && offset < 2048
    modifies out
    ensures Appended(out, at, dst, [m.m2, offset / 256 * 32 + (lengthEnc - 2), offset % 256])
  {
    dst := PutTwo(out, at, m.m2, offset / 8 / 32 % 8 * 32 + (lengthEnc - 2));
    dst := PutByte(out, dst, offset % 256);
  }

  /** Emits the symbol itself, and a zero after a marker. */
  method EmitLiteral(out: array<Byte>, at: nat, m: Markers, symbol: Byte, isMarkerSymbol: bool)
    returns (ok: bool, dst: nat)
    requires HEADER_SIZE <= at <= out.Length && isMarkerSymbol == m.Has(symbol)
    modifies out
    ensures ok == (at + |PutLiteral(m, symbol)| <= out.Length)
    ensures ok ==> Appended(out, at, dst, PutLiteral(m, symbol))
  {
    if at >= out.Length { return false, at; }
    dst := PutByte(out, at, symbol);
    if isMarkerSymbol {
      if dst >= out.Length { return false, dst; }
      dst := PutByte(out, dst, 0);
    }
    ok := true;
  }

  /** Positions src + 1 up to src + length - 1 are entered into the index when a match skips them. */
  method SkipAhead(sa: SearchAccel, input: array<Byte>, src: nat, length: nat)
    requires sa.Valid(input[..]) && sa.filled == src + 1 && 1 <= length && src + length <= input.Length
    modifies sa, sa.tab, sa.last
    ensures sa.Valid(input[..]) && sa.filled == src + length
  {
    ghost var s := input[..];
    for i := 1 to length
      invariant input[..] == s && sa.Valid(s) && sa.filled == src + i
    {
      sa.UpdateLastPos(input, src + i);
    }
  }

  /** One turn of the main loop: one item of the stream. */
  method EncodeItem(input: array<Byte>, start: nat, out: array<Byte>, at: nat, sa: SearchAccel, ghost c: Coder,
                    m: Markers, lut: array<bool>) returns (ok: bool, src: nat, dst: nat)
    requires input != out && start < input.Length && HEADER_SIZE <= at <= out.Length
    requires c.Valid() && m == c.m && sa.params == c.params && sa.Valid(input[..]) && sa.filled == start
    requires LzgDecode.LutOf(lut, m)
    modifies out, sa, sa.tab, sa.last
    ensures var item := ItemAt(input[..], c, start);
            && ok == (at + |item.bytes| <= out.Length)
            && (ok ==> src == item.next && Appended(out, at, dst, item.bytes) && sa.filled == src)
    ensures sa.Valid(input[..]) && LzgDecode.LutOf(lut, m)
  {
    ghost var s := input[..];
    var symbol := input[start];
    var isMarkerSymbol := lut[symbol];
    var symbolCost := if isMarkerSymbol then 2 else 1;
    sa.UpdateLastPos(input, start);
    var length, offset := sa.FindMatch(input, start, symbolCost);
    assert symbolCost == SymbolCost(m, symbol);
    FindIsSound(s, start, c.params, symbolCost);
    if length > 0 {
      ok, dst := EmitReference(out, at, m, length, offset);
      if ok {
        SkipAhead(sa, input, start, length);
      }
      src := start + length;
    } else {
      ok, dst := EmitLiteral(out, at, m, symbol, isMarkerSymbol);
      src := start + 1;
    }
  }

  /** The whole stream: the markers and the items for the whole input. */
  ghost function Stream(input: seq<Byte>, c: Coder): seq<Byte>
    requires c.Valid()
  {
    c.m.Bytes() + Encode(input, c, 0)
  }

  /** What is written so far, with what is still to come, makes up the stream. */
  ghost predicate OnTrack(input: seq<Byte>, c: Coder, src: nat, written: seq<Byte>)
    requires c.Valid()
  {
    src <= |input| && written + Encode(input, c, src) == Stream(input, c)
  }

  lemma OneMoreItem(input: seq<Byte>, c: Coder, src: nat, written: seq<Byte>)
    requires c.Valid() && src < |input| && OnTrack(input, c, src, written)
    ensures var item := ItemAt(input, c, src); OnTrack(input, c, item.next, written + item.bytes)
    ensures |written| + |ItemAt(input, c, src).bytes| <= |Stream(input, c)|
  {
    var item := ItemAt(input, c, src);
    assert written + (item.bytes + Encode(input, c, item.next)) == written + item.bytes + Encode(input, c, item.next);
  }

  /** Markers and main loop; gives up as soon as something does not fit. */
  method Compress(input: array<Byte>, out: array<Byte>, ghost c: Coder, m: Markers, params: Params)
    returns (ok: bool, dst: nat)
    requires input != out && HEADER_SIZE <= out.Length && c.Valid() && c == Coder(m, params)
    modifies out
    ensures ok == (HEADER_SIZE + |Stream(input[..], c)| <= out.Length)
    ensures ok ==> HEADER_SIZE <= dst <= out.Length && out[HEADER_SIZE..dst] == Stream(input[..], c)
  {
    ghost var s := input[..];
    if HEADER_SIZE + 4 > out.Length { return false, HEADER_SIZE; }
    dst := PutTwo(out, HEADER_SIZE, m.m1, m.m2);
    dst := PutTwo(out, dst, m.m3, m.m4);
    var sa := new SearchAccel(params, s, input.Length);
    var lut := LzgDecode.MarkerLut(m);
    var src := 0;
    ok := true;
    while src < input.Length
      invariant src <= input.Length && HEADER_SIZE <= dst <= out.Length && input[..] == s
      invariant OnTrack(s, c, src, out[HEADER_SIZE..dst])
      invariant sa.params == params && sa.Valid(s) && sa.filled == src && LzgDecode.LutOf(lut, m)
      decreases input.Length - src
    {
      OneMoreItem(s, c, src, out[HEADER_SIZE..dst]);
      ok, src, dst := EncodeItem(input, src, out, dst, sa, c, m, lut);
      if !ok { return; }
    }
    assert out[HEADER_SIZE..dst] + [] == out[HEADER_SIZE..dst];
  }

  /** `memcpy(out + LZG_HEADER_SIZE, in, insize)` */
  method CopyInput(input: array<Byte>, out: array<Byte>)
    requires input != out && HEADER_SIZE + input.Length <= out.Length
    modifies out
    ensures out[HEADER_SIZE..HEADER_SIZE + input.Length] == input[..]
  {
    forall i | 0 <= i < input.Length {
      out[HEADER_SIZE + i] := input[i];
    }
  }

  /**
   * LZG_EncodeFull. Returns 0, having written nothing, if the buffer cannot hold a plain copy of the input
   * with its header; otherwise the front of the buffer holds the encoded input, with the four least common
   * symbols of the input as markers. Both buffers lie in one 32-bit address space.
   */
  method EncodeFull(input: array<Byte>, out: array<Byte>, config: Option<Config>) returns (size: nat, ghost m: Markers)
    requires input != out && input.Length + out.Length < TWO_TO_32
    modifies out
    ensures out.Length < HEADER_SIZE + input.Length ==> size == 0 && out[..] == old(out[..])
    ensures HEADER_SIZE + input.Length <= out.Length ==>
      var c := Coder(m, Tuning(if config.Some? then config.value else DEFAULT_CONFIG));
      && LzgMarkers.LeastCommon(multiset(input[..]), m) && c.Valid()
      && HEADER_SIZE <= size <= out.Length && out[..size] == Encoded(input[..], c, out.Length)
  {
    m := Markers(0, 0, 0, 0);
    if out.Length < HEADER_SIZE + input.Length { return 0, m; }
    var params := Tuning(if config.Some? then config.value else DEFAULT_CONFIG);
    var markers := LzgMarkers.DetermineMarkers(input);
    LzgMarkers.LeastCommonDistinct(multiset(input[..]), markers);
    m := markers;
    ghost var s := input[..];
    var ok, dst := Compress(input, out, Coder(m, params), markers, params);
    if ok {
      SetHeader(out, input.Length, dst - HEADER_SIZE, METHOD_LZG1);
      size := dst;
    } else {
      CopyInput(input, out);
      SetHeader(out, input.Length, input.Length, METHOD_COPY);
      size := HEADER_SIZE + input.Length;
    }
  }

  /** Encoding into one buffer and decoding from a buffer with exactly the bytes written restores the input. */
  method EncodeThenDecode(input: array<Byte>, out: array<Byte>, back: array<Byte>, config: Option<Config>)
    returns (n: nat)
    requires input != out && input != back && input.Length + out.Length < TWO_TO_32
    requires HEADER_SIZE + input.Length <= out.Length && input.Length <= back.Length
    modifies out, back
    ensures n == input.Length && back[..n] == input[..]
  {
    ghost var s := input[..];
    var size, m := EncodeFull(input, out, config);
    var packed := new Byte[size](i requires 0 <= i < size reads out => out[i]);
    assert packed[..] == out[..size];
    ghost var c := Coder(m, Tuning(if config.Some? then config.value else DEFAULT_CONFIG));
    RoundTrip(s, c, out.Length, back.Length);
    n := LzgDecode.Decode(packed, back);
  }
}
