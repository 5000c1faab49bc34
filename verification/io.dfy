/**
 * Byte-level primitives of the Protocol Buffers wire format: base-128
 * varints, the zigzag and two's-complement views of signed integers,
 * little-endian fixed-width integers and length-delimited blocks.
 *
 * A stream is a `seq<byte>` read from an index; every reader returns the
 * decoded value together with the index just past it.
 */
module Io {
  import opened Wrappers

  newtype byte = x: int | 0 <= x < 256

  /** Why a byte stream could not be decoded. */
  datatype DecodeError =
    | EndOfInput                    // the stream ends inside a value
    | UnknownWireType(code: nat)    // a tag's low three bits name no wire type
    | InvalidUtf8                   // a string payload is not well-formed UTF-8
    | NotEnumMember(value: int)     // an enum payload names no member of the enum
    | MissingArgument(name: string) // a field without a default never occurred

  /**
   * `e` occurs in `s` at `pos`, stated byte by byte. Proofs that follow a
   * stream through several reads carry this rather than the slice equation
   * it is equivalent to (`HasAtSlice`, `SliceHasAt`).
   */
  predicate HasAt(s: seq<byte>, pos: nat, e: seq<byte>)
    ensures HasAt(s, pos, e) ==> pos + |e| <= |s|
    decreases |e|
  {
    if e == [] then pos <= |s| else pos < |s| && s[pos] == e[0] && HasAt(s, pos + 1, e[1..])
  }

  lemma {:induction false} HasAtSlice(s: seq<byte>, pos: nat, e: seq<byte>)
    requires HasAt(s, pos, e)
    ensures pos + |e| <= |s| && s[pos..pos + |e|] == e
    decreases |e|
  {
    if e != [] {
      HasAtSlice(s, pos + 1, e[1..]);
      assert s[pos..pos + |e|] == [s[pos]] + s[pos + 1..pos + |e|];
      assert e == [e[0]] + e[1..];
    }
  }

  lemma {:induction false} SliceHasAt(s: seq<byte>, pos: nat, e: seq<byte>)
    requires pos + |e| <= |s| && s[pos..pos + |e|] == e
    ensures HasAt(s, pos, e)
    decreases |e|
  {
    if e != [] {
      assert s[pos] == s[pos..pos + |e|][0];
      assert s[pos + 1..pos + 1 + |e[1..]|] == s[pos..pos + |e|][1..];
      SliceHasAt(s, pos + 1, e[1..]);
    }
  }

  /** A byte string sits at the start of itself. */
  lemma HasAtSelf(e: seq<byte>)
    ensures HasAt(e, 0, e)
  {
    assert e[0..|e|] == e;
    SliceHasAt(e, 0, e);
  }

  /** The first part of a concatenation sits at its start. */
  lemma HasAtFront(e: seq<byte>, c: seq<byte>)
    ensures HasAt(e + c, 0, e)
  {
    assert (e + c)[0..|e|] == e;
    SliceHasAt(e + c, 0, e);
  }

  /** The middle part of a concatenation sits right after the first part. */
  lemma HasAtMiddle(a: seq<byte>, e: seq<byte>, c: seq<byte>)
    ensures HasAt((a + e) + c, |a|, e)
  {
    var s := (a + e) + c;
    assert s[|a|..|a| + |e|] == e;
    SliceHasAt(s, |a|, e);
  }

  /** Where `a + b` occurs at `pos`, `a` occurs there and `b` follows it. */
  lemma HasAtAppend(s: seq<byte>, pos: nat, a: seq<byte>, b: seq<byte>)
    requires HasAt(s, pos, a + b)
    ensures HasAt(s, pos, a) && HasAt(s, pos + |a|, b)
  {
    HasAtSlice(s, pos, a + b);
    SliceParts(s, pos, a, b);
    SliceHasAt(s, pos, a);
    SliceHasAt(s, pos + |a|, b);
  }

  /** A window of `s` that holds `a + b` holds `a` and then `b`. */
  lemma SliceParts(s: seq<byte>, pos: nat, a: seq<byte>, b: seq<byte>)
    requires pos + |a| + |b| <= |s| && s[pos..pos + |a| + |b|] == a + b
    ensures s[pos..pos + |a|] == a && s[pos + |a|..pos + |a| + |b|] == b
  {
    assert s[pos..pos + |a|] == (a + b)[..|a|];
    assert s[pos + |a|..pos + |a| + |b|] == (a + b)[|a|..];
  }

  // ---------------------------------------------------------------------
  // Unsigned base-128 varint
  // ---------------------------------------------------------------------

  /** Seven bits per byte, least significant group first; bit 7 says "more follows". */
  function EncodeVarint(n: nat): (r: seq<byte>)
    ensures 1 <= |r|
    ensures (|r| == 1) == (n < 128)
    decreases n
  {
    if n < 128 then [n as byte]
    else [(n % 128 + 128) as byte] + EncodeVarint(n / 128)
  }

  /** Every byte but the last carries the continuation bit; the last does not. */
  lemma {:induction false} ContinuationBits(n: nat)
    ensures var r := EncodeVarint(n);
      r[|r| - 1] < 128 && forall i :: 0 <= i < |r| - 1 ==> r[i] >= 128
    decreases n
  {
    if n >= 128 {
      ContinuationBits(n / 128);
      var r, rest := EncodeVarint(n), EncodeVarint(n / 128);
      assert forall i :: 1 <= i < |r| ==> r[i] == rest[i - 1];
    }
  }

  /** Reads one varint at `pos`; fails if the stream ends before its last byte. */
  function ReadVarint(s: seq<byte>, pos: nat): (r: Result<(nat, nat), DecodeError>)
    ensures r.Success? ==> pos < r.value.1 <= |s|
    ensures r.Failure? ==> r.error == EndOfInput
    decreases |s| - pos
  {
    if pos >= |s| then Failure(EndOfInput)
    else if s[pos] < 128 then Success((s[pos] as nat, pos + 1))
    else
      match ReadVarint(s, pos + 1)
      case Failure(e) => Failure(e)
      case Success(rest) => Success(((s[pos] - 128) as nat + 128 * rest.0, rest.1))
  }

  /** Reading back an encoded varint yields the number and consumes exactly its bytes. */
  lemma {:induction false} ReadEncodedVarint(n: nat, s: seq<byte>, pos: nat)
    requires HasAt(s, pos, EncodeVarint(n))
    ensures ReadVarint(s, pos) == Success((n, pos + |EncodeVarint(n)|))
    decreases n
  {
    var e := EncodeVarint(n);
    assert pos < |s| && s[pos] == e[0];
    if n >= 128 {
      var e' := EncodeVarint(n / 128);
      assert e[1..] == e';
      assert HasAt(s, pos + 1, e');
      ReadEncodedVarint(n / 128, s, pos + 1);
      assert |e| == 1 + |e'|;
      assert (s[pos] - 128) as nat == n % 128;
      assert n == n % 128 + 128 * (n / 128);
      assert ReadVarint(s, pos + 1) == Success((n / 128, pos + 1 + |e'|));
      assert ReadVarint(s, pos) == Success((n, pos + |e|));
    } else {
      assert ReadVarint(s, pos) == Success((n, pos + |e|));
    }
  }

  /** The varint encoding is injective: different numbers never share bytes. */
  lemma EncodeVarintInjective(m: nat, n: nat)
    requires EncodeVarint(m) == EncodeVarint(n)
    ensures m == n
  {
    var e := EncodeVarint(m);
    HasAtSelf(e);
    ReadEncodedVarint(m, e, 0);
    ReadEncodedVarint(n, e, 0);
  }

  // ---------------------------------------------------------------------
  // Signed views of an unsigned varint
  // ---------------------------------------------------------------------

  /** Zigzag: 0, -1, 1, -2, … become 0, 1, 2, 3, …, so small magnitudes stay short. */
  function ZigZag(n: int): (u: nat)
    ensures (u % 2 == 1) == (n < 0)
    ensures u <= 2 * (if n < 0 then -n else n)
  {
    if n >= 0 then 2 * n else -2 * n - 1
  }

  /** Inverse of `ZigZag`. */
  function UnZigZag(u: nat): (n: int)
    ensures ZigZag(n) == u
  {
    if u % 2 == 0 then u / 2 else -((u + 1) / 2)
  }

  /** Zigzag is a bijection between the integers and the naturals. */
  lemma UnZigZagInverse(n: int)
    ensures UnZigZag(ZigZag(n)) == n
  {
  }

  /** Reinterprets the low bits of `u` (a word of `modulus` = 2^width values) as two's complement. */
  function FromTwosComplement(u: nat, modulus: nat): (n: int)
    requires modulus > 0 && modulus % 2 == 0
    ensures -(modulus / 2) <= n < modulus / 2
    ensures u < modulus / 2 ==> n == u
    ensures modulus / 2 <= u < modulus ==> n == u - modulus
  {
    var w := u % modulus;
    SmallRemainder(u, modulus);
    if w >= modulus / 2 then w - modulus else w
  }

  lemma SmallRemainder(u: nat, modulus: nat)
    requires modulus > 0
    ensures 0 <= u % modulus < modulus
    ensures u < modulus ==> u % modulus == u
  {
  }

  /** The unsigned bit pattern of a signed word; inverse of `FromTwosComplement`. */
  function ToTwosComplement(n: int, modulus: nat): (u: nat)
    requires modulus > 0 && modulus % 2 == 0
    requires -(modulus / 2) <= n < modulus / 2
    ensures u < modulus
    ensures FromTwosComplement(u, modulus) == n
  {
    if n >= 0 then n else n + modulus
  }

  // ---------------------------------------------------------------------
  // Fixed-width little-endian integers
  // ---------------------------------------------------------------------

  function Pow256(width: nat): (p: nat)
    ensures p >= 1
  {
    if width == 0 then 1 else 256 * Pow256(width - 1)
  }

  /** The number a little-endian byte string stands for. */
  function LittleEndianValue(s: seq<byte>): (n: nat)
    ensures n < Pow256(|s|)
  {
    if s == [] then 0 else s[0] as nat + 256 * LittleEndianValue(s[1..])
  }

  /** `width` bytes, least significant first. */
  function EncodeFixed(n: nat, width: nat): (r: seq<byte>)
    requires n < Pow256(width)
    ensures |r| == width
    ensures LittleEndianValue(r) == n
  {
    if width == 0 then []
    else
      var rest := EncodeFixed(n / 256, width - 1);
      assert ([(n % 256) as byte] + rest)[1..] == rest;
      [(n % 256) as byte] + rest
  }

  /** Reads a `width`-byte little-endian integer at `pos`. */
  function ReadFixed(s: seq<byte>, pos: nat, width: nat): (r: Result<(nat, nat), DecodeError>)
    ensures r.Success? ==> r.value.1 == pos + width <= |s| && r.value.0 < Pow256(width)
    ensures r.Failure? <==> pos + width > |s|
  {
    if pos + width > |s| then Failure(EndOfInput)
    else Success((LittleEndianValue(s[pos..pos + width]), pos + width))
  }

  /** Reading back a fixed-width encoding yields the number and consumes `width` bytes. */
  lemma ReadEncodedFixed(n: nat, width: nat, s: seq<byte>, pos: nat)
    requires n < Pow256(width)
    requires HasAt(s, pos, EncodeFixed(n, width))
    ensures ReadFixed(s, pos, width) == Success((n, pos + width))
  {
    HasAtSlice(s, pos, EncodeFixed(n, width));
  }

  // ---------------------------------------------------------------------
  // Length-delimited blocks
  // ---------------------------------------------------------------------

  /** A varint byte count followed by the bytes themselves. */
  function EncodeDelimited(payload: seq<byte>): (r: seq<byte>)
    ensures |r| > |payload|
  {
    EncodeVarint(|payload|) + payload
  }

  /** Reads a length prefix and then exactly that many bytes. */
  function ReadDelimited(s: seq<byte>, pos: nat): (r: Result<(seq<byte>, nat), DecodeError>)
    ensures r.Success? ==> pos < r.value.1 <= |s| && |r.value.0| < r.value.1 - pos
  {
    var prefix :- ReadVarint(s, pos);
    var (len, p) := prefix;
    if p + len > |s| then Failure(EndOfInput)
    else Success((s[p..p + len], p + len))
  }

  lemma ReadWholeDelimited(payload: seq<byte>)
    ensures ReadDelimited(EncodeDelimited(payload), 0)
      == Success((payload, |EncodeDelimited(payload)|))
  {
    HasAtSelf(EncodeDelimited(payload));
    ReadEncodedDelimited(payload, EncodeDelimited(payload), 0);
  }

  /** Reading back a length-delimited block yields the payload and consumes exactly its bytes. */
  lemma ReadEncodedDelimited(payload: seq<byte>, s: seq<byte>, pos: nat)
    requires HasAt(s, pos, EncodeDelimited(payload))
    ensures ReadDelimited(s, pos) == Success((payload, pos + |EncodeDelimited(payload)|))
  {
    var prefix := EncodeVarint(|payload|);
    HasAtAppend(s, pos, prefix, payload);
    ReadEncodedVarint(|payload|, s, pos);
    HasAtSlice(s, pos + |prefix|, payload);
  }
}
