/**
 * The scalar serializers: one per scalar kind of the schema, each with a
 * fixed wire type, a validation rule, an encoder and a decoder. The packing
 * adapter frames scalar encodings in one length-delimited block.
 */
module Serializers {
  import opened Wrappers
  import opened Io
  import Utf8
  import Wire

  /** A Python value as the codec sees it. */
  datatype Value =
    | NoneValue
    | Bool(b: bool)
    | Int(i: int)
    | Float(bits: nat)                                 // an IEEE-754 float or double, by its bit pattern
    | Bytes(data: seq<byte>)
    | Str(s: string)
    | List(items: seq<Value>)
    | Message(typeName: string, attrs: map<string, Value>)

  /** One serializer of the scalar family. */
  datatype ScalarKind =
    | BoolKind                          // bool
    | BytesKind                         // bytes, ByteString
    | StringKind                        // str
    | UnsignedVarintKind                // uint: any non-negative int
    | SignedVarintKind                  // plain int: zigzag varint, any int
    | Int32Kind | Int64Kind             // two's-complement varint with a width check
    | UInt32Kind | UInt64Kind           // unsigned varint with a width check
    | SInt32Kind | SInt64Kind           // zigzag varint with a width check
    | Fixed32Kind | Fixed64Kind         // unsigned little-endian words
    | SFixed32Kind | SFixed64Kind       // signed little-endian words
    | FloatKind | DoubleKind            // IEEE-754 words
    | IntEnumKind(members: set<nat>)    // an IntEnum, by the values of its members

  const TWO_31: int := 0x8000_0000
  const TWO_32: int := 0x1_0000_0000
  const TWO_63: int := 0x8000_0000_0000_0000
  const TWO_64: int := 0x1_0000_0000_0000_0000

  lemma WordSizes()
    ensures Pow256(4) == TWO_32 && Pow256(8) == TWO_64
  {
    assert Pow256(4) == 256 * 256 * 256 * 256;
    assert Pow256(8) == 256 * 256 * 256 * 256 * Pow256(4);
  }

  function WireTypeOf(k: ScalarKind): Wire.WireType {
    match k
    case BytesKind | StringKind => Wire.Bytes
    case Fixed32Kind | SFixed32Kind | FloatKind => Wire.Long
    case Fixed64Kind | SFixed64Kind | DoubleKind => Wire.LongLong
    case _ => Wire.Varint
  }

  /** What `validate` accepts: the right Python type and, for sized kinds, a value in range. */
  predicate Valid(k: ScalarKind, v: Value) {
    match k
    case BoolKind => v.Bool?
    case BytesKind => v.Bytes?
    case StringKind => v.Str?
    case UnsignedVarintKind => v.Int? && 0 <= v.i
    case SignedVarintKind => v.Int?
    case Int32Kind => v.Int? && -TWO_31 <= v.i < TWO_31
    case Int64Kind => v.Int? && -TWO_63 <= v.i < TWO_63
    case UInt32Kind => v.Int? && 0 <= v.i < TWO_32
    case UInt64Kind => v.Int? && 0 <= v.i < TWO_64
    case SInt32Kind => v.Int? && -TWO_31 <= v.i < TWO_31
    case SInt64Kind => v.Int? && -TWO_63 <= v.i < TWO_63
    case Fixed32Kind => v.Int? && 0 <= v.i < TWO_32
    case Fixed64Kind => v.Int? && 0 <= v.i < TWO_64
    case SFixed32Kind => v.Int? && -TWO_31 <= v.i < TWO_31
    case SFixed64Kind => v.Int? && -TWO_63 <= v.i < TWO_63
    case FloatKind => v.Float? && v.bits < TWO_32
    case DoubleKind => v.Float? && v.bits < TWO_64
    case IntEnumKind(members) => v.Int? && v.i in members
  }

  // Each kind writes one of three shapes, by its wire type: a varint, a
  // length-delimited block or a little-endian word. The functions below say
  // which number, block or word a value becomes and how it comes back.

  /** The unsigned number a varint kind writes for a value. */
  function VarintOf(k: ScalarKind, v: Value): nat
    requires WireTypeOf(k) == Wire.Varint && Valid(k, v)
  {
    if k.BoolKind? then (if v.b then 1 else 0)
    else if k.SignedVarintKind? || k.SInt32Kind? || k.SInt64Kind? then ZigZag(v.i)
    else if k.Int32Kind? || k.Int64Kind? then ToTwosComplement(v.i, TWO_64)
    else v.i
  }

  /** The value a varint kind reads from an unsigned number. */
  function FromVarint(k: ScalarKind, n: nat): (r: Result<Value, DecodeError>)
    requires WireTypeOf(k) == Wire.Varint
    ensures r.Failure? <==> k.IntEnumKind? && n !in k.members
    ensures r.Failure? ==> r.error == NotEnumMember(n)
  {
    match k
    case BoolKind => Success(Bool(n != 0))
    case SignedVarintKind | SInt32Kind | SInt64Kind => Success(Int(UnZigZag(n)))
    case Int32Kind | Int64Kind => Success(Int(FromTwosComplement(n, TWO_64)))
    case IntEnumKind(members) => if n in members then Success(Int(n)) else Failure(NotEnumMember(n))
    case _ => Success(Int(n))
  }

  lemma FromVarintOf(k: ScalarKind, v: Value)
    requires WireTypeOf(k) == Wire.Varint && Valid(k, v)
    ensures FromVarint(k, VarintOf(k, v)) == Success(v)
  {
    if k.SignedVarintKind? || k.SInt32Kind? || k.SInt64Kind? {
      UnZigZagInverse(v.i);
    }
  }

  /** The block a length-delimited kind writes: the bytes, or the UTF-8 encoding of the text. */
  function BlockOf(k: ScalarKind, v: Value): seq<byte>
    requires WireTypeOf(k) == Wire.Bytes && Valid(k, v)
  {
    if k.BytesKind? then v.data else Utf8.Encode(v.s)
  }

  /** The value a length-delimited kind reads from a block. */
  function FromBlock(k: ScalarKind, block: seq<byte>): (r: Result<Value, DecodeError>)
    requires WireTypeOf(k) == Wire.Bytes
    ensures r.Failure? <==> k.StringKind? && Utf8.Decode(block).None?
    ensures r.Failure? ==> r.error == InvalidUtf8
  {
    if k.BytesKind? then Success(Bytes(block))
    else
      var text := Utf8.Decode(block);
      if text.None? then Failure(InvalidUtf8) else Success(Str(text.value))
  }

  lemma FromBlockOf(k: ScalarKind, v: Value)
    requires WireTypeOf(k) == Wire.Bytes && Valid(k, v)
    ensures FromBlock(k, BlockOf(k, v)) == Success(v)
  {
    if k.StringKind? {
      Utf8.DecodeEncode(v.s);
    }
  }

  /** The number of bytes of a fixed-width kind. */
  function Width(k: ScalarKind): (w: nat)
    requires WireTypeOf(k) == Wire.Long || WireTypeOf(k) == Wire.LongLong
    ensures w == 4 || w == 8
  {
    if WireTypeOf(k) == Wire.Long then 4 else 8
  }

  /** The word a fixed-width kind writes for a value. */
  function WordOf(k: ScalarKind, v: Value): (n: nat)
    requires WireTypeOf(k) == Wire.Long || WireTypeOf(k) == Wire.LongLong
    requires Valid(k, v)
    ensures n < Pow256(Width(k))
  {
    WordSizes();
    if k.SFixed32Kind? then ToTwosComplement(v.i, TWO_32)
    else if k.SFixed64Kind? then ToTwosComplement(v.i, TWO_64)
    else if k.FloatKind? || k.DoubleKind? then v.bits
    else v.i
  }

  /** The value a fixed-width kind reads from a word. */
  function FromWord(k: ScalarKind, n: nat): Value
    requires WireTypeOf(k) == Wire.Long || WireTypeOf(k) == Wire.LongLong
  {
    match k
    case SFixed32Kind => Int(FromTwosComplement(n, TWO_32))
    case SFixed64Kind => Int(FromTwosComplement(n, TWO_64))
    case FloatKind | DoubleKind => Float(n)
    case _ => Int(n)
  }

  lemma FromWordOf(k: ScalarKind, v: Value)
    requires WireTypeOf(k) == Wire.Long || WireTypeOf(k) == Wire.LongLong
    requires Valid(k, v)
    ensures FromWord(k, WordOf(k, v)) == v
  {
  }

  /** The payload a serializer writes for a validated value (no tag). */
  function Dump(k: ScalarKind, v: Value): (r: seq<byte>)
    requires Valid(k, v)
    ensures |r| >= 1
    ensures WireTypeOf(k) == Wire.Long ==> |r| == 4
    ensures WireTypeOf(k) == Wire.LongLong ==> |r| == 8
  {
    match WireTypeOf(k)
    case Varint => EncodeVarint(VarintOf(k, v))
    case Bytes => EncodeDelimited(BlockOf(k, v))
    case Long | LongLong => EncodeFixed(WordOf(k, v), Width(k))
  }

  /** Reads one payload of kind `k` at `pos`. */
  function Load(k: ScalarKind, s: seq<byte>, pos: nat): (r: Result<(Value, nat), DecodeError>)
    ensures r.Success? ==> pos < r.value.1 <= |s|
  {
    match WireTypeOf(k)
    case Varint =>
      var read :- ReadVarint(s, pos);
      var x :- FromVarint(k, read.0);
      Success((x, read.1))
    case Bytes =>
      var read :- ReadDelimited(s, pos);
      var x :- FromBlock(k, read.0);
      Success((x, read.1))
    case Long | LongLong =>
      var read :- ReadFixed(s, pos, Width(k));
      Success((FromWord(k, read.0), read.1))
  }

  /** Every serializer reads back exactly what it wrote, consuming exactly its bytes. */
  lemma LoadDump(k: ScalarKind, v: Value, s: seq<byte>, pos: nat)
    requires Valid(k, v)
    requires HasAt(s, pos, Dump(k, v))
    ensures Load(k, s, pos) == Success((v, pos + |Dump(k, v)|))
  {
    match WireTypeOf(k)
    case Varint => LoadDumpVarint(k, v, s, pos);
    case Bytes => LoadDumpBlock(k, v, s, pos);
    case Long | LongLong => LoadDumpWord(k, v, s, pos);
  }

  lemma LoadDumpVarint(k: ScalarKind, v: Value, s: seq<byte>, pos: nat)
    requires WireTypeOf(k) == Wire.Varint && Valid(k, v)
    requires HasAt(s, pos, EncodeVarint(VarintOf(k, v)))
    ensures Load(k, s, pos) == Success((v, pos + |EncodeVarint(VarintOf(k, v))|))
  {
    ReadEncodedVarint(VarintOf(k, v), s, pos);
    FromVarintOf(k, v);
  }

  lemma LoadDumpBlock(k: ScalarKind, v: Value, s: seq<byte>, pos: nat)
    requires WireTypeOf(k) == Wire.Bytes && Valid(k, v)
    requires HasAt(s, pos, EncodeDelimited(BlockOf(k, v)))
    ensures Load(k, s, pos) == Success((v, pos + |EncodeDelimited(BlockOf(k, v))|))
  {
    ReadEncodedDelimited(BlockOf(k, v), s, pos);
    FromBlockOf(k, v);
  }

  lemma LoadDumpWord(k: ScalarKind, v: Value, s: seq<byte>, pos: nat)
    requires (WireTypeOf(k) == Wire.Long || WireTypeOf(k) == Wire.LongLong) && Valid(k, v)
    requires HasAt(s, pos, EncodeFixed(WordOf(k, v), Width(k)))
    ensures Load(k, s, pos) == Success((v, pos + Width(k)))
  {
    ReadEncodedFixed(WordOf(k, v), Width(k), s, pos);
    FromWordOf(k, v);
  }

  // ---------------------------------------------------------------------
  // The packing adapter
  // ---------------------------------------------------------------------

  /** The packing adapter around a scalar serializer: the payload framed by its length. */
  function DumpPacked(k: ScalarKind, v: Value): (r: seq<byte>)
    requires Valid(k, v)
    ensures |r| > |Dump(k, v)|
  {
    EncodeDelimited(Dump(k, v))
  }

  /** Reads a framed block and the one payload inside it. */
  function LoadPacked(k: ScalarKind, s: seq<byte>, pos: nat): (r: Result<(Value, nat), DecodeError>)
    ensures r.Success? ==> pos < r.value.1 <= |s|
  {
    var block :- ReadDelimited(s, pos);
    var inner :- Load(k, block.0, 0);
    Success((inner.0, block.1))
  }

  lemma LoadDumpPacked(k: ScalarKind, v: Value)
    requires Valid(k, v)
    ensures LoadPacked(k, DumpPacked(k, v), 0) == Success((v, |DumpPacked(k, v)|))
  {
    var d := Dump(k, v);
    ReadWholeDelimited(d);
    HasAtSelf(d);
    LoadDump(k, v, d, 0);
  }

  /** Every element of a repeated field passes the element serializer's validation. */
  predicate AllValid(k: ScalarKind, items: seq<Value>) {
    forall i :: 0 <= i < |items| ==> Valid(k, items[i])
  }

  /** The concatenated, untagged payloads of a packed repeated field. */
  function DumpAll(k: ScalarKind, items: seq<Value>): (r: seq<byte>)
    requires AllValid(k, items)
    ensures |r| >= |items|
  {
    if items == [] then [] else Dump(k, items[0]) + DumpAll(k, items[1..])
  }

  /** Reads payloads of kind `k` one after another until the block is exhausted. */
  function LoadAll(k: ScalarKind, block: seq<byte>): (r: Result<seq<Value>, DecodeError>)
    ensures r.Success? ==> |r.value| <= |block|
    decreases |block|
  {
    if block == [] then Success([])
    else
      var first :- Load(k, block, 0);
      var rest :- LoadAll(k, block[first.1..]);
      Success([first.0] + rest)
  }

  /** A packed block reads back as the list that was packed into it. */
  lemma {:induction false} LoadDumpAll(k: ScalarKind, items: seq<Value>)
    requires AllValid(k, items)
    ensures LoadAll(k, DumpAll(k, items)) == Success(items)
    decreases |items|
  {
    if items != [] {
      assert Valid(k, items[0]) && AllValid(k, items[1..]);
      var rest := DumpAll(k, items[1..]);
      LoadDumpFirst(k, items[0], rest);
      LoadDumpAll(k, items[1..]);
      LoadAllCons(k, Dump(k, items[0]), rest, items[0], items[1..]);
      assert [items[0]] + items[1..] == items;
    }
  }

  /** A payload at the front of a block reads back, whatever follows it. */
  lemma LoadDumpFirst(k: ScalarKind, v: Value, rest: seq<byte>)
    requires Valid(k, v)
    ensures Load(k, Dump(k, v) + rest, 0) == Success((v, |Dump(k, v)|))
  {
    HasAtFront(Dump(k, v), rest);
    LoadDump(k, v, Dump(k, v) + rest, 0);
  }

  /** A block read as one payload `e` and then the rest of the block. */
  lemma LoadAllCons(k: ScalarKind, e: seq<byte>, rest: seq<byte>, x: Value, tail: seq<Value>)
    requires e != [] && Load(k, e + rest, 0) == Success((x, |e|)) && LoadAll(k, rest) == Success(tail)
    ensures LoadAll(k, e + rest) == Success([x] + tail)
  {
    assert (e + rest)[|e|..] == rest;
  }
}
