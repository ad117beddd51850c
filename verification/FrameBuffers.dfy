/** Bytes written into a part of a buffer. */
module FrameBuffers {
  import opened BlockFormat

  /** `x` in place of the bytes at `at`. */
  function Replace(buf: seq<byte>, at: nat, x: seq<byte>): (r: seq<byte>)
    requires at + |x| <= |buf|
    ensures |r| == |buf| && r[..at + |x|] == buf[..at] + x
    ensures r[at..at + |x|] == x && r[..at] == buf[..at]
  {
    buf[..at] + x + buf[at + |x|..]
  }

  /** `a` and `b` at the front of a buffer. */
  function Front(buf: seq<byte>, a: seq<byte>, b: seq<byte>): (r: seq<byte>)
    requires |a| + |b| <= |buf|
    ensures |r| == |buf| && r[..|a|] == a && r[|a|..|a| + |b|] == b
  {
    a + b + buf[|a| + |b|..]
  }

  /** Only the part between `lo` and `hi` may differ. */
  predicate SameOutside(d: seq<byte>, d': seq<byte>, lo: nat, hi: nat) {
    |d| == |d'| && forall i :: 0 <= i < |d| && !(lo <= i < hi) ==> d[i] == d'[i]
  }

  lemma SliceOutside(d: seq<byte>, d': seq<byte>, lo: nat, hi: nat, a: nat, b: nat)
    requires SameOutside(d, d', lo, hi) && a <= b <= |d| && (b <= lo || hi <= a)
    ensures d[a..b] == d'[a..b]
  {
  }

  lemma SameWider(d: seq<byte>, d': seq<byte>, lo: nat, hi: nat, hi': nat)
    requires SameOutside(d, d', lo, hi) && hi <= hi'
    ensures SameOutside(d, d', lo, hi')
  {
  }

  /** memcpy into a buffer. */
  method WriteOut(dst: array<byte>, at: nat, x: seq<byte>)
    requires at + |x| <= dst.Length
    modifies dst
    ensures dst[..][at..at + |x|] == x && SameOutside(old(dst[..]), dst[..], at, at + |x|)
  {
    forall k | 0 <= k < |x| { dst[at + k] := x[k]; }
  }
}
