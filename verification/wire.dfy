/**
 * Wire types, field tags and the skipping of fields a schema does not know.
 */
module Wire {
  import opened Wrappers
  import opened Io

  /** The four wire categories the codec handles (the group markers 3 and 4 are not supported). */
  datatype WireType = Varint | LongLong | Bytes | Long

  /** The numeric value of a wire type: VARINT=0, LONG_LONG=1, BYTES=2, LONG=5. */
  function Code(w: WireType): (c: nat)
    ensures c < 8 && c != 3 && c != 4
  {
    match w
    case Varint => 0
    case LongLong => 1
    case Bytes => 2
    case Long => 5
  }

  /** The wire type with a given numeric value, if any. */
  function FromCode(c: nat): (r: Option<WireType>)
    ensures r.Some? ==> Code(r.value) == c
    ensures r.None? ==> forall w: WireType :: Code(w) != c
  {
    if c == 0 then Some(Varint)
    else if c == 1 then Some(LongLong)
    else if c == 2 then Some(Bytes)
    else if c == 5 then Some(Long)
    else None
  }

  /** A tag packs the field number above the three wire-type bits: `(number << 3) | wire_type`. */
  function MakeTag(number: nat, w: WireType): (tag: nat)
    ensures tag / 8 == number && FromCode(tag % 8) == Some(w)
  {
    number * 8 + Code(w)
  }

  function EncodeTag(number: nat, w: WireType): (r: seq<byte>)
    ensures |r| >= 1
  {
    EncodeVarint(MakeTag(number, w))
  }

  /** Reads a tag and splits it into field number and wire type. */
  function ReadTag(s: seq<byte>, pos: nat): (r: Result<(nat, WireType, nat), DecodeError>)
    ensures r.Success? ==> pos < r.value.2 <= |s|
  {
    var read :- ReadVarint(s, pos);
    var (tag, p) := read;
    match FromCode(tag % 8)
    case None => Failure(UnknownWireType(tag % 8))
    case Some(w) => Success((tag / 8, w, p))
  }

  /** Reading an encoded tag recovers the field number and the wire type. */
  lemma ReadEncodedTag(number: nat, w: WireType, s: seq<byte>, pos: nat)
    requires HasAt(s, pos, EncodeTag(number, w))
    ensures ReadTag(s, pos) == Success((number, w, pos + |EncodeTag(number, w)|))
  {
    ReadEncodedVarint(MakeTag(number, w), s, pos);
  }

  /**
   * Steps over the payload of a field nobody asked for: one varint, eight or
   * four raw bytes, or a length-delimited block, by wire type.
   */
  function SkipField(w: WireType, s: seq<byte>, pos: nat): (r: Result<nat, DecodeError>)
    ensures r.Success? ==> pos < r.value <= |s|
    ensures w == LongLong ==> r == if pos + 8 <= |s| then Success(pos + 8) else Failure(EndOfInput)
    ensures w == Long ==> r == if pos + 4 <= |s| then Success(pos + 4) else Failure(EndOfInput)
  {
    match w
    case Varint =>
      var read :- ReadVarint(s, pos);
      Success(read.1)
    case LongLong =>
      var read :- ReadFixed(s, pos, 8);
      Success(read.1)
    case Bytes =>
      var read :- ReadDelimited(s, pos);
      Success(read.1)
    case Long =>
      var read :- ReadFixed(s, pos, 4);
      Success(read.1)
  }

  /** Skipping an encoded varint or length-delimited payload lands just after it. */
  lemma SkipEncoded(w: WireType, n: nat, payload: seq<byte>, s: seq<byte>, pos: nat)
    requires w == Varint || w == Bytes
    requires HasAt(s, pos, if w == Varint then EncodeVarint(n) else EncodeDelimited(payload))
    ensures SkipField(w, s, pos)
      == Success(pos + |if w == Varint then EncodeVarint(n) else EncodeDelimited(payload)|)
  {
    if w == Varint {
      ReadEncodedVarint(n, s, pos);
    } else {
      ReadEncodedDelimited(payload, s, pos);
    }
  }

  /** A tag followed by some bytes: the tag reads back, and the bytes follow it. */
  lemma TagThen(s: seq<byte>, pos: nat, number: nat, w: WireType, rest: seq<byte>)
    requires HasAt(s, pos, EncodeTag(number, w) + rest)
    ensures pos < |s| && ReadTag(s, pos) == Success((number, w, pos + |EncodeTag(number, w)|))
    ensures HasAt(s, pos + |EncodeTag(number, w)|, rest)
  {
    HasAtAppend(s, pos, EncodeTag(number, w), rest);
    ReadEncodedTag(number, w, s, pos);
  }
}
