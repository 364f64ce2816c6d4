/**
  UTF-8 encoding of a password (Python's `str.encode('utf-8')`), as laid
  down in section 3 of RFC 3629.

  A Dafny `char` is a Unicode scalar value, so every string has an
  encoding. The decoder is a left inverse of the encoder: decoding an
  encoding gives the string back, which makes the encoding injective, so
  two different passwords never reach the key derivation as the same bytes.
 */
module Utf8 {
  import opened Wrappers
  import opened Bytes

  /** Code points that a `char` may hold: everything up to U+10FFFF except the surrogates. */
  predicate IsScalar(cp: int)
  {
    (0 <= cp < 0xD800) || (0xE000 <= cp < 0x11_0000)
  }

  /** A continuation byte `10xxxxxx`. */
  predicate IsContinuation(b: byte)
  {
    0x80 <= b < 0xC0
  }

  /** The one-to-four byte sequence of a single scalar value (RFC 3629, section 3). */
  function EncodeChar(c: char): (r: seq<byte>)
    ensures 1 <= |r| <= 4
    ensures (|r| == 1) == (c as int < 0x80)
    ensures forall k :: 1 <= k < |r| ==> IsContinuation(r[k])
  {
    var cp := c as int;
    if cp < 0x80 then
      [cp as byte]
    else if cp < 0x800 then
      [(0xC0 + cp / 0x40) as byte, (0x80 + cp % 0x40) as byte]
    else if cp < 0x1_0000 then
      [(0xE0 + cp / 0x1000) as byte,
       (0x80 + (cp / 0x40) % 0x40) as byte,
       (0x80 + cp % 0x40) as byte]
    else
      [(0xF0 + cp / 0x4_0000) as byte,
       (0x80 + (cp / 0x1000) % 0x40) as byte,
       (0x80 + (cp / 0x40) % 0x40) as byte,
       (0x80 + cp % 0x40) as byte]
  }

  /** Python's `s.encode('utf-8')`: the characters' encodings, in order. */
  function Encode(s: string): (r: seq<byte>)
    ensures |s| <= |r| <= 4 * |s|
    ensures (forall i :: 0 <= i < |s| ==> s[i] as int < 0x80) ==> |r| == |s|
  {
    if s == [] then [] else EncodeChar(s[0]) + Encode(s[1..])
  }

  /** Text made of ASCII characters encodes to the same values, one byte each. */
  lemma {:induction false} EncodeAscii(s: string)
    requires forall i :: 0 <= i < |s| ==> s[i] as int < 0x80
    ensures |Encode(s)| == |s|
    ensures forall i :: 0 <= i < |s| ==> Encode(s)[i] as int == s[i] as int
  {
    if s != [] {
      EncodeAscii(s[1..]);
    }
  }

  /** ASCII text encodes to exactly the bytes holding its character codes. */
  lemma EncodeAsciiExactly(s: string, bs: seq<byte>)
    requires |s| == |bs|
    requires forall i :: 0 <= i < |s| ==> s[i] as int == bs[i] as int < 0x80
    ensures Encode(s) == bs
  {
    EncodeAscii(s);
  }

  /** Reads one scalar value off the front of `bs`: the character and the
      number of bytes it took. Overlong forms, surrogates, values above
      U+10FFFF and truncated sequences are refused. */
  function DecodeFirst(bs: seq<byte>): (r: Option<(char, nat)>)
    ensures r.Some? ==> 1 <= r.value.1 <= |bs| && r.value.1 <= 4
  {
    if |bs| == 0 then None
    else
      var b0 := bs[0] as int;
      if b0 < 0x80 then
        Some((b0 as char, 1))
      else if 0xC2 <= b0 < 0xE0 && |bs| >= 2 && IsContinuation(bs[1]) then
        var cp := (b0 - 0xC0) * 0x40 + (bs[1] as int - 0x80);
        Some((cp as char, 2))
      else if 0xE0 <= b0 < 0xF0 && |bs| >= 3 && IsContinuation(bs[1]) && IsContinuation(bs[2]) then
        var cp := (b0 - 0xE0) * 0x1000 + (bs[1] as int - 0x80) * 0x40 + (bs[2] as int - 0x80);
        if 0x800 <= cp && IsScalar(cp) then Some((cp as char, 3)) else None
      else if 0xF0 <= b0 < 0xF5 && |bs| >= 4
              && IsContinuation(bs[1]) && IsContinuation(bs[2]) && IsContinuation(bs[3]) then
        var cp := (b0 - 0xF0) * 0x4_0000 + (bs[1] as int - 0x80) * 0x1000
                  + (bs[2] as int - 0x80) * 0x40 + (bs[3] as int - 0x80);
        if 0x1_0000 <= cp < 0x11_0000 then Some((cp as char, 4)) else None
      else
        None
  }

  /** Decodes a whole byte string, or fails on the first ill-formed sequence. */
  function Decode(bs: seq<byte>): (r: Option<string>)
    ensures r.Some? ==> |r.value| <= |bs|
    decreases |bs|
  {
    if bs == [] then Some([])
    else match DecodeFirst(bs)
      case None => None
      case Some((c, n)) =>
        match Decode(bs[n..])
        case None => None
        case Some(rest) => Some([c] + rest)
  }

  /** Decoding the front of an encoded character gives that character and
      consumes exactly its bytes, whatever follows it. */
  lemma DecodeFirstEncodeChar(c: char, rest: seq<byte>)
    ensures DecodeFirst(EncodeChar(c) + rest) == Some((c, |EncodeChar(c)|))
  {
    var cp := c as int;
    var e := EncodeChar(c);
    var bs := e + rest;
    assert bs[..|e|] == e;
    if cp < 0x80 {
    } else if cp < 0x800 {
      assert cp == (cp / 0x40) * 0x40 + cp % 0x40;
    } else if cp < 0x1_0000 {
      var hi, mid, lo := cp / 0x1000, (cp / 0x40) % 0x40, cp % 0x40;
      assert cp / 0x40 == hi * 0x40 + mid;
      assert cp == hi * 0x1000 + mid * 0x40 + lo;
    } else {
      var top, hi, mid, lo := cp / 0x4_0000, (cp / 0x1000) % 0x40, (cp / 0x40) % 0x40, cp % 0x40;
      assert cp / 0x1000 == top * 0x40 + hi;
      assert cp / 0x40 == (cp / 0x1000) * 0x40 + mid;
      assert cp == top * 0x4_0000 + hi * 0x1000 + mid * 0x40 + lo;
    }
  }

  /** Decoding undoes encoding. */
  lemma {:induction false} DecodeEncode(s: string)
    ensures Decode(Encode(s)) == Some(s)
  {
    if s != [] {
      var e, tail := EncodeChar(s[0]), Encode(s[1..]);
      DecodeFirstEncodeChar(s[0], tail);
      assert (e + tail)[|e|..] == tail;
      DecodeEncode(s[1..]);
      assert [s[0]] + s[1..] == s;
    }
  }

  /** Different passwords are different byte strings: the encoding is injective. */
  lemma EncodeInjective(s: string, t: string)
    ensures Encode(s) == Encode(t) <==> s == t
  {
    if Encode(s) == Encode(t) {
      DecodeEncode(s);
      DecodeEncode(t);
    }
  }
}
