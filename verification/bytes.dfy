/**
  Octets and Python's slice expression `s[lo:hi]`.

  Python clamps both bounds of a slice to the length of the sequence and
  returns an empty sequence for an inverted range; slicing never raises.
  The envelope parser depends on exactly that behaviour, so it is written
  out here once and the parser uses nothing else to cut its input.
 */
module Bytes {

  /** One octet of a Python `bytes` object. */
  newtype byte = x: int | 0 <= x < 0x100

  function Min(a: int, b: int): (m: int)
    ensures m <= a && m <= b && (m == a || m == b)
  {
    if a <= b then a else b
  }

  /** Python's `s[lo:hi]` for non-negative bounds. */
  function Slice<T>(s: seq<T>, lo: nat, hi: nat): (r: seq<T>)
    ensures lo <= hi <= |s| ==> r == s[lo..hi]
    ensures lo <= |s| <= hi ==> r == s[lo..]
    ensures |s| <= lo || hi <= lo ==> r == []
    ensures |r| <= |s| && |r| <= if hi < lo then 0 else hi - lo
    ensures forall k :: 0 <= k < |r| ==> lo + k < |s| && r[k] == s[lo + k]
  {
    var a := Min(lo, |s|);
    var b := Min(hi, |s|);
    if a <= b then s[a..b] else []
  }

  /** Python's `s[lo:]`. */
  function From<T>(s: seq<T>, lo: nat): (r: seq<T>)
    ensures lo <= |s| ==> r == s[lo..]
    ensures |s| <= lo ==> r == []
  {
    Slice(s, lo, |s|)
  }

  /** Two adjacent slices put back together give the slice that spans both:
      cutting a sequence at clamped offsets loses and duplicates nothing. */
  lemma SliceAdjacent<T>(s: seq<T>, lo: nat, mid: nat, hi: nat)
    requires lo <= mid <= hi
    ensures Slice(s, lo, mid) + Slice(s, mid, hi) == Slice(s, lo, hi)
  {
  }

  /** `s[:n] + s[n:] == s` for every `n`, in range or not. */
  lemma SplitAt<T>(s: seq<T>, n: nat)
    ensures Slice(s, 0, n) + From(s, n) == s
  {
  }
}
