/** The LZG container and its byte stream, as documented at src/libc/lzg.c:405-457. */
module LzgFormat {
  import opened Prelude
  import Checksum

  const HEADER_SIZE := 16
  const METHOD_COPY: Byte := 0
  const METHOD_LZG1: Byte := 1

  // ----- 32-bit words in the header, most significant byte first -----

  function PutUint32(w: Word): seq<Byte> {
    [w / 256 / 256 / 256, w / 256 / 256 % 256, w / 256 % 256, w % 256]
  }

  function GetUint32(s: seq<Byte>, at: nat): int
    requires at + 4 <= |s|
  {
    var b0: int, b1: int, b2: int, b3: int := s[at], s[at + 1], s[at + 2], s[at + 3];
    b0 * 0x100_0000 + b1 * 0x1_0000 + b2 * 256 + b3
  }

  lemma GetPutUint32(s: seq<Byte>, at: nat, w: Word)
    requires at + 4 <= |s| && s[at..at + 4] == PutUint32(w)
    ensures GetUint32(s, at) == w
  {
    var four := s[at..at + 4];
    assert four[0] == s[at] && four[1] == s[at + 1] && four[2] == s[at + 2] && four[3] == s[at + 3];
    FourDigits(w, s[at], s[at + 1], s[at + 2], s[at + 3]);
  }

  lemma FourDigits(w: int, b0: int, b1: int, b2: int, b3: int)
    requires b0 == w / 256 / 256 / 256 && b1 == w / 256 / 256 % 256 && b2 == w / 256 % 256 && b3 == w % 256
    ensures b0 * 0x100_0000 + b1 * 0x1_0000 + b2 * 256 + b3 == w
  {
  }

  // ----- the byte stream -----

  /** The four symbols that introduce a back reference. */
  datatype Markers = Markers(m1: Byte, m2: Byte, m3: Byte, m4: Byte) {
    predicate Has(x: Byte) {
      x == m1 || x == m2 || x == m3 || x == m4
    }

    predicate Distinct() {
      m1 != m2 && m1 != m3 && m1 != m4 && m2 != m3 && m2 != m4 && m3 != m4
    }

    function Bytes(): seq<Byte> {
      [m1, m2, m3, m4]
    }
  }

  /** Copy `length` bytes from `offset` bytes back; the reference takes `size` bytes of the stream. */
  datatype Reference = Reference(length: nat, offset: nat, size: nat)

  /** The five-bit length field: most lengths stand for themselves, the top four for larger ones. */
  function LengthOf(field: int): (length: nat)
    requires 0 <= field < 32
    ensures 2 <= length <= 128
  {
    var l := field + 2;
    if l == 33 then 128 else if l == 32 then 72 else if l == 31 then 48 else if l == 30 then 35 else l
  }

  /** The back reference at the start of s, by its marker. Equal markers are told apart in this order. */
  function ParseReference(m: Markers, s: seq<Byte>): (r: Option<Reference>)
    requires 2 <= |s| && m.Has(s[0])
    ensures r.Some? ==> 2 <= r.value.size <= |s| && 1 <= r.value.offset && 2 <= r.value.length
  {
    var b: int := s[1];
    if s[0] == m.m1 then
      if |s| < 4 then None
      else
        var mm: int, nn: int := s[2], s[3];
        Some(Reference(LengthOf(b % 32), b / 32 * 0x1_0000 + mm * 256 + nn + 2056, 4))
    else if s[0] == m.m2 then
      if |s| < 3 then None
      else
        var mm: int := s[2];
        Some(Reference(LengthOf(b % 32), b / 32 * 256 + mm + 8, 3))
    else if s[0] == m.m3 then
      Some(Reference(b / 64 + 3, b % 64 + 8, 2))
    else
      Some(Reference(LengthOf(b % 32), b / 32 + 1, 2))
  }

  /** Appends `length` bytes one at a time, each the one `offset` back; the copy may read what it wrote. */
  function CopyBack(out: seq<Byte>, offset: nat, length: nat): (r: seq<Byte>)
    requires 1 <= offset <= |out|
    ensures |r| == |out| + length && out <= r
    decreases length
  {
    if length == 0 then out else CopyBack(out + [out[|out| - offset]], offset, length - 1)
  }

  /** What the stream s says follows the output `out`; None where the stream is not well formed. */
  function Meaning(m: Markers, s: seq<Byte>, out: seq<Byte>): (r: Option<seq<Byte>>)
    ensures r.Some? ==> out <= r.value
    decreases |s|
  {
    if s == [] then Some(out)
    else if !m.Has(s[0]) then Meaning(m, s[1..], out + [s[0]])
    else if |s| < 2 then None
    else if s[1] == 0 then Meaning(m, s[2..], out + [s[0]])
    else match ParseReference(m, s)
      case None => None
      case Some(ref) =>
        if |out| < ref.offset then None
        else Meaning(m, s[ref.size..], CopyBack(out, ref.offset, ref.length))
  }

  // ----- the container -----

  const MAGIC: seq<Byte> := [76, 90, 71]  // "LZG"

  function Header(decodedSize: Word, payload: seq<Byte>, method': Byte): seq<Byte>
    requires |payload| < TWO_TO_32
  {
    Checksum.ClosedForm(payload);
    MAGIC + PutUint32(decodedSize) + PutUint32(|payload|) + PutUint32(Checksum.Of(payload)) + [method']
  }

  function Container(decodedSize: Word, payload: seq<Byte>, method': Byte): seq<Byte>
    requires |payload| < TWO_TO_32
  {
    Header(decodedSize, payload, method') + payload
  }

  /** The magic number, both sizes, the checksum and the method are those of a decodable stream. */
  predicate HeaderValid(stream: seq<Byte>, outsize: nat) {
    && HEADER_SIZE <= |stream|
    && stream[..3] == MAGIC
    && GetUint32(stream, 3) <= outsize
    && GetUint32(stream, 7) == |stream| - HEADER_SIZE
    && GetUint32(stream, 11) == Checksum.Of(stream[HEADER_SIZE..])
    && stream[15] <= METHOD_LZG1
  }

  /** The payload's meaning: itself, or the expansion of what follows the four markers. */
  function PayloadMeaning(payload: seq<Byte>, method': Byte): Option<seq<Byte>> {
    if method' == METHOD_COPY then Some(payload)
    else if |payload| < 4 then None
    else Meaning(Markers(payload[0], payload[1], payload[2], payload[3]), payload[4..], [])
  }

  /** The bytes a stream stands for, if its header is valid and announces as many as its payload means. */
  function Decoded(stream: seq<Byte>, outsize: nat): Option<seq<Byte>> {
    if !HeaderValid(stream, outsize) then None
    else match PayloadMeaning(stream[HEADER_SIZE..], stream[15])
      case None => None
      case Some(x) => if |x| == GetUint32(stream, 3) then Some(x) else None
  }

  /** A container decodes to the meaning of its payload, provided the sizes agree and it fits. */
  lemma DecodedContainer(payload: seq<Byte>, method': Byte, x: seq<Byte>, outsize: nat)
    requires |payload| < TWO_TO_32 && |x| < TWO_TO_32 && method' <= METHOD_LZG1
    requires PayloadMeaning(payload, method') == Some(x) && |x| <= outsize
    ensures Decoded(Container(|x|, payload, method'), outsize) == Some(x)
  {
    var c := Container(|x|, payload, method');
    Checksum.ClosedForm(payload);
    assert c[..3] == MAGIC;
    assert c[3..7] == PutUint32(|x|);
    assert c[7..11] == PutUint32(|payload|);
    assert c[11..15] == PutUint32(Checksum.Of(payload));
    assert c[HEADER_SIZE..] == payload;
    GetPutUint32(c, 3, |x|);
    GetPutUint32(c, 7, |payload|);
    GetPutUint32(c, 11, Checksum.Of(payload));
  }
}
