/**
 * The byte stream the encoder of src/libc/lzg.c:775-983 produces, as a function of the input, and the two
 * things it is for: it decodes to the input, and it is never much longer than the input.
 */
module LzgStream {
  import opened Prelude
  import opened LzgFormat
  import opened LzgMatch

  /** What the encoder has settled before its main loop. */
  datatype Coder = Coder(m: Markers, params: Params) {
    predicate Valid() {
      m.Distinct() && params.Valid() && params.window <= 0x8_0000
    }
  }

  // ----- one item of the stream -----

  /** The five-bit field that stands for an expressible length. */
  function LengthField(length: nat): (field: int)
    requires Expressible(length)
    ensures 1 <= field < 32 && LengthOf(field) == length
  {
    if length == 128 then 31 else if length == 72 then 30 else if length == 48 then 29
    else if length == 35 then 28 else length - 2
  }

  function PutReference(m: Markers, length: nat, offset: nat): (s: seq<Byte>)
    requires Expressible(length) && 1 <= offset < 0x8_0000
    ensures |s| == ReferenceSize(length, offset)
  {
    var field := LengthField(length);
    if length <= 6 && 9 <= offset <= 71 then
      [m.m3, (length - 3) * 64 + (offset - 8)]
    else if offset <= 8 then
      [m.m4, (offset - 1) * 32 + field]
    else if offset >= 2056 then
      var o := offset - 2056;
      [m.m1, o / 256 / 256 * 32 + field, o / 256 % 256, o % 256]
    else
      var o := offset - 8;
      [m.m2, o / 256 * 32 + field, o % 256]
  }

  function PutLiteral(m: Markers, symbol: Byte): seq<Byte> {
    if m.Has(symbol) then [symbol, 0] else [symbol]
  }

  lemma PackedField(high: nat, field: nat)
    requires field < 32
    ensures (high * 32 + field) % 32 == field && (high * 32 + field) / 32 == high
  {
  }

  lemma PackedShort(l: nat, o: nat)
    requires o < 64
    ensures (l * 64 + o) % 64 == o && (l * 64 + o) / 64 == l
  {
  }

  lemma OffsetBytes(o: nat)
    ensures o / 256 / 256 * 0x1_0000 + o / 256 % 256 * 256 + o % 256 == o
  {
  }

  lemma ParseFourByteReference(m: Markers, length: nat, offset: nat, t: seq<Byte>)
    requires m.Distinct() && Expressible(length) && 2056 <= offset < 0x8_0000
    requires |t| >= 4 && t[..4] == PutReference(m, length, offset)
    ensures ParseReference(m, t) == Some(Reference(length, offset, 4))
  {
    var o := offset - 2056;
    var s := t[..4];
    assert t[0] == s[0] && t[1] == s[1] && t[2] == s[2] && t[3] == s[3];
    PackedField(o / 256 / 256, LengthField(length));
    OffsetBytes(o);
  }

  lemma ParseShorterReference(m: Markers, length: nat, offset: nat, t: seq<Byte>)
    requires m.Distinct() && Expressible(length) && 1 <= offset < 2056
    requires var n := ReferenceSize(length, offset); |t| >= n && t[..n] == PutReference(m, length, offset)
    ensures ParseReference(m, t) == Some(Reference(length, offset, ReferenceSize(length, offset)))
  {
    var s := t[..ReferenceSize(length, offset)];
    assert t[0] == s[0] && t[1] == s[1] && (|s| == 3 ==> t[2] == s[2]);
    if length <= 6 && 9 <= offset <= 71 {
      PackedShort(length - 3, offset - 8);
    } else if offset <= 8 {
      PackedField(offset - 1, LengthField(length));
    } else {
      PackedField((offset - 8) / 256, LengthField(length));
    }
  }

  /** Reading back a reference yields the length and the offset that were put, whatever follows it. */
  lemma ParsePutReference(m: Markers, length: nat, offset: nat, rest: seq<Byte>)
    requires m.Distinct() && Expressible(length) && 1 <= offset < 0x8_0000
    ensures var s := PutReference(m, length, offset);
            && m.Has(s[0]) && s[1] != 0
            && ParseReference(m, s + rest) == Some(Reference(length, offset, |s|))
  {
    var s := PutReference(m, length, offset);
    assert (s + rest)[..|s|] == s;
    if offset >= 2056 {
      ParseFourByteReference(m, length, offset, s + rest);
    } else {
      ParseShorterReference(m, length, offset, s + rest);
    }
  }

  /** Copying back over a true match extends the output by the bytes that are there in the input. */
  lemma {:induction false} CopyBackMatch(input: seq<Byte>, pos: nat, offset: nat, length: nat)
    requires TrueMatch(input, pos, offset, length)
    ensures CopyBack(input[..pos], offset, length) == input[..pos + length]
    decreases length
  {
    if length != 0 {
      assert input[..pos] + [input[..pos][pos - offset]] == input[..pos + 1];
      CopyBackMatch(input, pos + 1, offset, length - 1);
    }
  }

  // ----- the whole stream -----

  function SymbolCost(m: Markers, symbol: Byte): nat {
    if m.Has(symbol) then 2 else 1
  }

  /** The bytes of one item of the stream, and the input position after it. */
  datatype Item = Item(bytes: seq<Byte>, next: nat)

  /** At pos, a reference if one saves a byte, else a literal. */
  function ItemAt(input: seq<Byte>, c: Coder, pos: nat): (item: Item)
    requires c.Valid() && pos < |input|
    ensures pos < item.next <= |input|
  {
    var symbolCost := SymbolCost(c.m, input[pos]);
    var best := Find(input, pos, c.params, symbolCost);
    FindIsSound(input, pos, c.params, symbolCost);
    if best.win > 0 then Item(PutReference(c.m, best.length, best.offset), pos + best.length)
    else Item(PutLiteral(c.m, input[pos]), pos + 1)
  }

  /** The stream from input position pos on. */
  function Encode(input: seq<Byte>, c: Coder, pos: nat): seq<Byte>
    requires c.Valid() && pos <= |input|
    decreases |input| - pos
  {
    if pos == |input| then []
    else
      var item := ItemAt(input, c, pos);
      item.bytes + Encode(input, c, item.next)
  }

  /** The method byte and the payload that go into the container, given the room there is for it. */
  function Payload(input: seq<Byte>, c: Coder, room: nat): (seq<Byte>, Byte)
    requires c.Valid()
  {
    var stream := c.m.Bytes() + Encode(input, c, 0);
    if |stream| <= room then (stream, METHOD_LZG1) else (input, METHOD_COPY)
  }

  // ----- it decodes to the input -----

  lemma LiteralMeaning(m: Markers, symbol: Byte, rest: seq<Byte>, out: seq<Byte>)
    ensures Meaning(m, PutLiteral(m, symbol) + rest, out) == Meaning(m, rest, out + [symbol])
  {
    var s := PutLiteral(m, symbol);
    assert (s + rest)[|s|..] == rest;
  }

  lemma ReferenceMeaning(m: Markers, input: seq<Byte>, pos: nat, offset: nat, length: nat, rest: seq<Byte>)
    requires m.Distinct() && Expressible(length) && offset < 0x8_0000 && TrueMatch(input, pos, offset, length)
    ensures Meaning(m, PutReference(m, length, offset) + rest, input[..pos]) ==
            Meaning(m, rest, input[..pos + length])
  {
    var s := PutReference(m, length, offset);
    ParsePutReference(m, length, offset, rest);
    CopyBackMatch(input, pos, offset, length);
    assert (s + rest)[|s|..] == rest;
  }

  lemma ItemMeaning(input: seq<Byte>, c: Coder, pos: nat, rest: seq<Byte>)
    requires c.Valid() && pos < |input|
    ensures Meaning(c.m, ItemAt(input, c, pos).bytes + rest, input[..pos]) ==
            Meaning(c.m, rest, input[..ItemAt(input, c, pos).next])
  {
    var symbolCost := SymbolCost(c.m, input[pos]);
    var best := Find(input, pos, c.params, symbolCost);
    var item := ItemAt(input, c, pos);
    if best.win > 0 {
      FindIsSound(input, pos, c.params, symbolCost);
      assert item == Item(PutReference(c.m, best.length, best.offset), pos + best.length);
      ReferenceMeaning(c.m, input, pos, best.offset, best.length, rest);
    } else {
      assert item == Item(PutLiteral(c.m, input[pos]), pos + 1);
      assert input[..pos] + [input[pos]] == input[..pos + 1];
      LiteralMeaning(c.m, input[pos], rest, input[..pos]);
    }
  }

  lemma {:induction false} EncodeMeansInput(input: seq<Byte>, c: Coder, pos: nat)
    requires c.Valid() && pos <= |input|
    ensures Meaning(c.m, Encode(input, c, pos), input[..pos]) == Some(input)
    decreases |input| - pos
  {
    if pos == |input| {
      assert input[..pos] == input;
    } else {
      var item := ItemAt(input, c, pos);
      EncodeMeansInput(input, c, item.next);
      ItemMeaning(input, c, pos, Encode(input, c, item.next));
    }
  }

  /** Whatever room there is, the payload stands for the input. */
  lemma PayloadMeansInput(input: seq<Byte>, c: Coder, room: nat)
    requires c.Valid()
    ensures var (payload, method') := Payload(input, c, room);
            PayloadMeaning(payload, method') == Some(input)
  {
    var stream := c.m.Bytes() + Encode(input, c, 0);
    EncodeMeansInput(input, c, 0);
    assert stream[4..] == Encode(input, c, 0);
    assert input[..0] == [];
  }

  // ----- it is not much longer than the input -----

  /** How many bytes of the input are markers. */
  function MarkerCount(m: Markers, input: seq<Byte>): nat {
    if input == [] then 0 else (if m.Has(input[0]) then 1 else 0) + MarkerCount(m, input[1..])
  }

  lemma {:induction false} MarkerCountSkip(m: Markers, input: seq<Byte>, n: nat)
    requires n <= |input|
    ensures MarkerCount(m, input[n..]) <= MarkerCount(m, input)
  {
    if n == 0 {
      assert input[0..] == input;
    } else {
      MarkerCountSkip(m, input[1..], n - 1);
      assert input[1..][n - 1..] == input[n..];
    }
  }

  lemma ItemLength(input: seq<Byte>, c: Coder, pos: nat)
    requires c.Valid() && pos < |input|
    ensures var item := ItemAt(input, c, pos);
            |item.bytes| + MarkerCount(c.m, input[item.next..]) <= item.next - pos + MarkerCount(c.m, input[pos..])
  {
    var symbolCost := SymbolCost(c.m, input[pos]);
    FindIsSound(input, pos, c.params, symbolCost);
    var skip := ItemAt(input, c, pos).next - pos;
    MarkerCountSkip(c.m, input[pos..], skip);
    assert input[pos..][skip..] == input[pos + skip..];
  }

  /** A literal costs one byte and a marker two; a reference costs no more than what it replaces. */
  lemma {:induction false} EncodeLength(input: seq<Byte>, c: Coder, pos: nat)
    requires c.Valid() && pos <= |input|
    ensures |Encode(input, c, pos)| <= |input| - pos + MarkerCount(c.m, input[pos..])
    decreases |input| - pos
  {
    if pos != |input| {
      EncodeLength(input, c, ItemAt(input, c, pos).next);
      ItemLength(input, c, pos);
    }
  }

  /** Each marker occurs as often as the input's multiset says. */
  lemma {:induction false} MarkerCountIsMultiplicity(m: Markers, input: seq<Byte>)
    requires m.Distinct()
    ensures MarkerCount(m, input) ==
            multiset(input)[m.m1] + multiset(input)[m.m2] + multiset(input)[m.m3] + multiset(input)[m.m4]
  {
    if input != [] {
      MarkerCountIsMultiplicity(m, input[1..]);
      assert input == [input[0]] + input[1..];
    }
  }
}
