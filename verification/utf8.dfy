/**
 * UTF-8, the text encoding of the wire format's `string` payloads.
 *
 * A Dafny `char` is a Unicode scalar value, so every string has exactly one
 * encoding. The decoder is strict (no overlong forms, no surrogates, nothing
 * past U+10FFFF), which makes encoding and decoding mutually inverse.
 */
module Utf8 {
  import opened Wrappers
  import opened Io

  function EncodeChar(c: char): (r: seq<byte>)
    ensures 1 <= |r| <= 4
    ensures (|r| == 1) == (c as int < 0x80)
  {
    var cp := c as int;
    if cp < 0x80 then [cp as byte]
    else if cp < 0x800 then
      [(0xC0 + cp / 64) as byte, (0x80 + cp % 64) as byte]
    else if cp < 0x1_0000 then
      [(0xE0 + cp / 4096) as byte, (0x80 + (cp / 64) % 64) as byte, (0x80 + cp % 64) as byte]
    else
      [(0xF0 + cp / 0x4_0000) as byte, (0x80 + (cp / 4096) % 64) as byte,
       (0x80 + (cp / 64) % 64) as byte, (0x80 + cp % 64) as byte]
  }

  function Encode(s: string): (r: seq<byte>)
    ensures |s| <= |r| <= 4 * |s|
  {
    if s == [] then [] else EncodeChar(s[0]) + Encode(s[1..])
  }

  predicate IsContinuation(b: byte) {
    0x80 <= b < 0xC0
  }

  /** Decodes the scalar value starting at `pos`, or None if the bytes there are not UTF-8. */
  function DecodeCharAt(b: seq<byte>, pos: nat): (r: Option<(char, nat)>)
    ensures r.Some? ==> pos < r.value.1 <= |b|
  {
    if pos >= |b| then None
    else
      var b0 := b[pos];
      if b0 < 0x80 then Some((b0 as int as char, pos + 1))
      else if 0xC2 <= b0 <= 0xDF then DecodeTwoAt(b, pos)
      else if 0xE0 <= b0 <= 0xEF then DecodeThreeAt(b, pos)
      else if 0xF0 <= b0 <= 0xF4 then DecodeFourAt(b, pos)
      else None
  }

  /** A two-byte sequence: a lead byte and one continuation byte. */
  function DecodeTwoAt(b: seq<byte>, pos: nat): (r: Option<(char, nat)>)
    requires pos < |b| && 0xC2 <= b[pos] <= 0xDF
    ensures r.Some? ==> r.value.1 == pos + 2 <= |b|
  {
    if pos + 1 < |b| && IsContinuation(b[pos + 1]) then
      var cp := (b[pos] as int - 0xC0) * 64 + (b[pos + 1] as int - 0x80);
      Some((cp as char, pos + 2))
    else None
  }

  /** A three-byte sequence, refusing overlong forms and surrogates. */
  function DecodeThreeAt(b: seq<byte>, pos: nat): (r: Option<(char, nat)>)
    requires pos < |b|
    ensures r.Some? ==> r.value.1 == pos + 3 <= |b|
  {
    if pos + 2 < |b| && IsContinuation(b[pos + 1]) && IsContinuation(b[pos + 2]) then
      var cp := (b[pos] as int - 0xE0) * 4096 + (b[pos + 1] as int - 0x80) * 64 + (b[pos + 2] as int - 0x80);
      if 0x800 <= cp < 0x1_0000 && !(0xD800 <= cp < 0xE000) then Some((cp as char, pos + 3)) else None
    else None
  }

  /** A four-byte sequence, refusing overlong forms and values past U+10FFFF. */
  function DecodeFourAt(b: seq<byte>, pos: nat): (r: Option<(char, nat)>)
    requires pos < |b|
    ensures r.Some? ==> r.value.1 == pos + 4 <= |b|
  {
    if pos + 3 < |b| && IsContinuation(b[pos + 1]) && IsContinuation(b[pos + 2]) && IsContinuation(b[pos + 3]) then
      var cp := (b[pos] as int - 0xF0) * 0x4_0000 + (b[pos + 1] as int - 0x80) * 4096
                + (b[pos + 2] as int - 0x80) * 64 + (b[pos + 3] as int - 0x80);
      if 0x1_0000 <= cp < 0x11_0000 then Some((cp as char, pos + 4)) else None
    else None
  }

  /** Decodes `b[pos..]` entirely, or None if any part of it is not UTF-8. */
  function DecodeFrom(b: seq<byte>, pos: nat): (r: Option<string>)
    requires pos <= |b|
    ensures r.Some? ==> |r.value| <= |b| - pos
    decreases |b| - pos
  {
    if pos == |b| then Some([])
    else
      match DecodeCharAt(b, pos)
      case None => None
      case Some(cp) =>
        match DecodeFrom(b, cp.1)
        case None => None
        case Some(rest) => Some([cp.0] + rest)
  }

  function Decode(b: seq<byte>): Option<string> {
    DecodeFrom(b, 0)
  }

  /** One encoded character decodes back to itself. */
  lemma DecodeEncodedChar(c: char, b: seq<byte>, pos: nat)
    requires HasAt(b, pos, EncodeChar(c))
    ensures DecodeCharAt(b, pos) == Some((c, pos + |EncodeChar(c)|))
  {
    var e := EncodeChar(c);
    HasAtSlice(b, pos, e);
    forall i | 0 <= i < |e| ensures b[pos + i] == e[i] {
      assert b[pos + i] == b[pos..pos + |e|][i];
    }
    var cp := c as int;
    if cp < 0x80 {
    } else if cp < 0x800 {
      DecodeTwo(cp, b, pos);
    } else if cp < 0x1_0000 {
      DecodeThree(cp, b, pos);
    } else {
      DecodeFour(cp, b, pos);
    }
  }

  lemma DecodeTwo(cp: int, b: seq<byte>, pos: nat)
    requires 0x80 <= cp < 0x800 && pos + 1 < |b|
    requires b[pos] as int == 0xC0 + cp / 64 && b[pos + 1] as int == 0x80 + cp % 64
    ensures DecodeTwoAt(b, pos) == Some((cp as char, pos + 2))
  {
    assert cp == (cp / 64) * 64 + cp % 64;
  }

  lemma DecodeThree(cp: int, b: seq<byte>, pos: nat)
    requires 0x800 <= cp < 0x1_0000 && !(0xD800 <= cp < 0xE000) && pos + 2 < |b|
    requires b[pos] as int == 0xE0 + cp / 4096 && b[pos + 1] as int == 0x80 + (cp / 64) % 64
    requires b[pos + 2] as int == 0x80 + cp % 64
    ensures DecodeThreeAt(b, pos) == Some((cp as char, pos + 3))
  {
    assert cp == (cp / 64) * 64 + cp % 64;
    assert cp / 64 == (cp / 4096) * 64 + (cp / 64) % 64;
  }

  lemma DecodeFour(cp: int, b: seq<byte>, pos: nat)
    requires 0x1_0000 <= cp < 0x11_0000 && pos + 3 < |b|
    requires b[pos] as int == 0xF0 + cp / 0x4_0000 && b[pos + 1] as int == 0x80 + (cp / 4096) % 64
    requires b[pos + 2] as int == 0x80 + (cp / 64) % 64 && b[pos + 3] as int == 0x80 + cp % 64
    ensures DecodeFourAt(b, pos) == Some((cp as char, pos + 4))
  {
    assert cp == (cp / 64) * 64 + cp % 64;
    assert cp / 64 == (cp / 4096) * 64 + (cp / 64) % 64;
    assert cp / 4096 == (cp / 0x4_0000) * 64 + (cp / 4096) % 64;
  }

  /** Splitting off the low six bits of a number built from six-bit digits. */
  lemma SplitSixBits(hi: int, lo: int)
    requires 0 <= hi && 0 <= lo < 64
    ensures (hi * 64 + lo) / 64 == hi && (hi * 64 + lo) % 64 == lo
  {
  }

  lemma DivideTwice(x: nat)
    ensures x / 4096 == x / 64 / 64 && x / 0x4_0000 == x / 64 / 64 / 64
  {
  }

  /** The strict decoder accepts only the encoding of the character it returns. */
  lemma EncodeDecodedChar(b: seq<byte>, pos: nat)
    requires DecodeCharAt(b, pos).Some?
    ensures var (c, p) := DecodeCharAt(b, pos).value; EncodeChar(c) == b[pos..p]
  {
    var b0 := b[pos];
    if b0 < 0x80 {
      assert b[pos..pos + 1] == [b0];
    } else if 0xC2 <= b0 <= 0xDF {
      EncodeTwo(b, pos);
    } else if 0xE0 <= b0 <= 0xEF {
      EncodeThree(b, pos);
    } else {
      EncodeFour(b, pos);
    }
  }

  lemma EncodeTwo(b: seq<byte>, pos: nat)
    requires pos < |b| && 0xC2 <= b[pos] <= 0xDF && DecodeTwoAt(b, pos).Some?
    ensures EncodeChar(DecodeTwoAt(b, pos).value.0) == b[pos..pos + 2]
  {
    var cp := DecodeTwoAt(b, pos).value.0 as int;
    SplitSixBits(b[pos] as int - 0xC0, b[pos + 1] as int - 0x80);
    assert b[pos..pos + 2] == [b[pos], b[pos + 1]];
  }

  lemma EncodeThree(b: seq<byte>, pos: nat)
    requires pos < |b| && 0xE0 <= b[pos] <= 0xEF && DecodeThreeAt(b, pos).Some?
    ensures EncodeChar(DecodeThreeAt(b, pos).value.0) == b[pos..pos + 3]
  {
    var cp := DecodeThreeAt(b, pos).value.0 as int;
    var d0, d1, d2 := b[pos] as int - 0xE0, b[pos + 1] as int - 0x80, b[pos + 2] as int - 0x80;
    assert cp == (d0 * 64 + d1) * 64 + d2;
    SplitSixBits(d0 * 64 + d1, d2);
    SplitSixBits(d0, d1);
    DivideTwice(cp);
    assert b[pos..pos + 3] == [b[pos], b[pos + 1], b[pos + 2]];
  }

  lemma EncodeFour(b: seq<byte>, pos: nat)
    requires pos < |b| && 0xF0 <= b[pos] <= 0xF4 && DecodeFourAt(b, pos).Some?
    ensures EncodeChar(DecodeFourAt(b, pos).value.0) == b[pos..pos + 4]
  {
    var cp := DecodeFourAt(b, pos).value.0 as int;
    var d0, d1, d2, d3 := b[pos] as int - 0xF0, b[pos + 1] as int - 0x80,
                          b[pos + 2] as int - 0x80, b[pos + 3] as int - 0x80;
    assert cp == ((d0 * 64 + d1) * 64 + d2) * 64 + d3;
    SplitSixBits((d0 * 64 + d1) * 64 + d2, d3);
    SplitSixBits(d0 * 64 + d1, d2);
    SplitSixBits(d0, d1);
    DivideTwice(cp);
    assert b[pos..pos + 4] == [b[pos], b[pos + 1], b[pos + 2], b[pos + 3]];
  }

  lemma DecodeFromStep(b: seq<byte>, pos: nat, c: char, p: nat, rest: string)
    requires pos < |b| && DecodeCharAt(b, pos) == Some((c, p))
    requires DecodeFrom(b, p) == Some(rest)
    ensures DecodeFrom(b, pos) == Some([c] + rest)
  {
  }

  /** Decoding inverts encoding: `bytes.decode(str.encode(s)) == s`. */
  lemma {:induction false} DecodeEncode(s: string)
    ensures Decode(Encode(s)) == Some(s)
  {
    assert [] + Encode(s) == Encode(s);
    DecodeFromEncoded(s, []);
  }

  lemma {:induction false} DecodeFromEncoded(s: string, prefix: seq<byte>)
    ensures DecodeFrom(prefix + Encode(s), |prefix|) == Some(s)
    decreases |s|
  {
    if s != [] {
      var e := EncodeChar(s[0]);
      EncodeCons(prefix, s);
      DecodeCharBetween(prefix, s[0], Encode(s[1..]));
      DecodeFromEncoded(s[1..], prefix + e);
      DecodeFromCons(prefix, e, Encode(s[1..]), s[0], s[1..]);
      assert [s[0]] + s[1..] == s;
    }
  }

  /** A character decoded right after `prefix`, then the rest decoded after it. */
  lemma DecodeFromCons(prefix: seq<byte>, e: seq<byte>, rest: seq<byte>, c: char, tail: string)
    requires 1 <= |e| && DecodeCharAt((prefix + e) + rest, |prefix|) == Some((c, |prefix| + |e|))
    requires DecodeFrom((prefix + e) + rest, |prefix + e|) == Some(tail)
    ensures DecodeFrom((prefix + e) + rest, |prefix|) == Some([c] + tail)
  {
    DecodeFromStep((prefix + e) + rest, |prefix|, c, |prefix| + |e|, tail);
  }

  lemma EncodeCons(prefix: seq<byte>, s: string)
    requires s != []
    ensures prefix + Encode(s) == (prefix + EncodeChar(s[0])) + Encode(s[1..])
  {
  }

  /** An encoded character between any two byte strings decodes back to itself. */
  lemma DecodeCharBetween(prefix: seq<byte>, c: char, rest: seq<byte>)
    ensures DecodeCharAt((prefix + EncodeChar(c)) + rest, |prefix|) == Some((c, |prefix| + |EncodeChar(c)|))
  {
    HasAtMiddle(prefix, EncodeChar(c), rest);
    DecodeEncodedChar(c, (prefix + EncodeChar(c)) + rest, |prefix|);
  }

  /** Encoding inverts decoding: a byte string the strict decoder accepts is the encoding of its result. */
  lemma {:induction false} EncodeDecode(b: seq<byte>)
    requires Decode(b).Some?
    ensures Encode(Decode(b).value) == b
  {
    EncodeDecodedFrom(b, 0);
  }

  lemma {:induction false} EncodeDecodedFrom(b: seq<byte>, pos: nat)
    requires pos <= |b|
    requires DecodeFrom(b, pos).Some?
    ensures Encode(DecodeFrom(b, pos).value) == b[pos..]
    decreases |b| - pos
  {
    if pos < |b| {
      var (c, p) := DecodeCharAt(b, pos).value;
      EncodeDecodedChar(b, pos);
      EncodeDecodedFrom(b, p);
      var s := DecodeFrom(b, pos).value;
      assert s[0] == c && s[1..] == DecodeFrom(b, p).value;
      assert b[pos..] == b[pos..p] + b[p..];
    }
  }
}
