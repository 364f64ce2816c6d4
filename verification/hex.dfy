/**
  Lower-case hexadecimal rendering of a digest, as Python's `hexdigest()`
  produces it: two characters per byte, high nibble first, digits `0-9a-f`.

  The parser `Parse` is a left inverse of the rendering; the round trip makes the
  rendering injective, so comparing two renderings compares the digests.
 */
module Hex {
  import opened Wrappers
  import opened Bytes

  const DIGITS: string := "0123456789abcdef"

  predicate IsLowerHexDigit(c: char)
  {
    ('0' <= c <= '9') || ('a' <= c <= 'f')
  }

  function Digit(n: int): (c: char)
    requires 0 <= n < 16
    ensures IsLowerHexDigit(c)
  {
    DIGITS[n]
  }

  /** The value of one lower-case hex digit, or None for any other character. */
  function DigitValue(c: char): (r: Option<int>)
    ensures r.Some? <==> IsLowerHexDigit(c)
    ensures r.Some? ==> 0 <= r.value < 16 && Digit(r.value) == c
  {
    if '0' <= c <= '9' then Some(c as int - '0' as int)
    else if 'a' <= c <= 'f' then Some(c as int - 'a' as int + 10)
    else None
  }

  /** `bytes.hex()` / `hexdigest()`. */
  function Render(d: seq<byte>): (r: string)
    ensures |r| == 2 * |d|
    ensures forall i :: 0 <= i < |r| ==> IsLowerHexDigit(r[i])
  {
    if d == [] then "" else [Digit(d[0] as int / 16), Digit(d[0] as int % 16)] + Render(d[1..])
  }

  /** Reads a string of lower-case hex digit pairs back into bytes. */
  function Parse(s: string): (r: Option<seq<byte>>)
    ensures r.Some? ==> 2 * |r.value| == |s|
    decreases |s|
  {
    if s == [] then Some([])
    else if |s| == 1 then None
    else match (DigitValue(s[0]), DigitValue(s[1]), Parse(s[2..]))
      case (Some(hi), Some(lo), Some(rest)) => Some([(hi * 16 + lo) as byte] + rest)
      case _ => None
  }

  /** Parsing a rendering gives the bytes back. */
  lemma {:induction false} ParseRender(d: seq<byte>)
    ensures Parse(Render(d)) == Some(d)
  {
    if d != [] {
      var b := d[0] as int;
      var r := Render(d);
      assert r[2..] == Render(d[1..]);
      assert DigitValue(r[0]) == Some(b / 16);
      assert DigitValue(r[1]) == Some(b % 16);
      ParseRender(d[1..]);
      assert [d[0]] + d[1..] == d;
    }
  }

  /** Two digests render to the same string exactly when they are equal. */
  lemma RenderInjective(d: seq<byte>, e: seq<byte>)
    ensures Render(d) == Render(e) <==> d == e
  {
    if Render(d) == Render(e) {
      ParseRender(d);
      ParseRender(e);
    }
  }
}
