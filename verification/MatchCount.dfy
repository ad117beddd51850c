/** Counting the common bytes of two positions, eight at a time (LZ4_count). */
module MatchCount {
  import opened BlockFormat
  import opened SourceParse

  /** How far the bytes at `a` repeat those at `b`, without passing `limit`. */
  function CommonLength(buf: seq<byte>, a: nat, b: nat, limit: nat): (n: nat)
    requires b <= a <= limit <= |buf|
    ensures a + n <= limit
    decreases limit - a
  {
    if a == limit || buf[a] != buf[b] then 0 else 1 + CommonLength(buf, a + 1, b + 1, limit)
  }

  /** The common length is the longest repetition there is. */
  lemma {:induction false} CommonLengthIsLongest(buf: seq<byte>, a: nat, b: nat, limit: nat, len: nat)
    requires b <= a && a + len <= limit <= |buf|
    ensures len <= CommonLength(buf, a, b, limit) <==> Repeats(buf, a, b, len)
    decreases limit - a
  {
    if len != 0 {
      RepeatsFromFront(buf, a, b, len);
      if buf[a] == buf[b] {
        CommonLengthIsLongest(buf, a + 1, b + 1, limit, len - 1);
      }
    }
  }

  /** A match of offset `offset` that ends at `end` is as long as it may be. */
  predicate CannotGrow(buf: seq<byte>, offset: nat, end: nat) {
    end + LASTLITERALS == |buf| || (offset <= end < |buf| && buf[end] != buf[end - offset])
  }

  lemma {:induction false} CommonLengthStops(buf: seq<byte>, a: nat, b: nat, limit: nat)
    requires b <= a <= limit <= |buf|
    ensures var end := a + CommonLength(buf, a, b, limit); end == limit || buf[end] != buf[end - (a - b)]
    decreases limit - a
  {
    if a != limit && buf[a] == buf[b] {
      CommonLengthStops(buf, a + 1, b + 1, limit);
    }
  }

  /** The common bytes of two positions cannot grow. */
  lemma CommonCannotGrow(buf: seq<byte>, a: nat, b: nat, limit: nat)
    requires b <= a <= limit && limit + LASTLITERALS == |buf|
    ensures CannotGrow(buf, a - b, a + CommonLength(buf, a, b, limit))
  {
    CommonLengthStops(buf, a, b, limit);
  }

  lemma RepeatsFromFront(buf: seq<byte>, a: nat, b: nat, len: nat)
    requires 0 < len && a + len <= |buf| && b + len <= |buf|
    ensures Repeats(buf, a, b, len) <==> buf[a] == buf[b] && Repeats(buf, a + 1, b + 1, len - 1)
  {
    RepeatsIsEquality(buf, a, b, len);
    RepeatsIsEquality(buf, a + 1, b + 1, len - 1);
    var x, y := buf[a..a + len], buf[b..b + len];
    assert x == [buf[a]] + buf[a + 1..a + len] && y == [buf[b]] + buf[b + 1..b + len];
    assert x[0] == buf[a] && y[0] == buf[b];
    assert x[1..] == buf[a + 1..a + len] && y[1..] == buf[b + 1..b + len];
  }

  /** Equal strides can be skipped. */
  lemma {:induction false} SkipEqual(buf: seq<byte>, a: nat, b: nat, limit: nat, n: nat)
    requires b <= a && a + n <= limit <= |buf|
    requires buf[a..a + n] == buf[b..b + n]
    ensures CommonLength(buf, a, b, limit) == n + CommonLength(buf, a + n, b + n, limit)
    decreases n
  {
    if n != 0 {
      assert buf[a] == buf[a..a + n][0] == buf[b..b + n][0] == buf[b];
      assert buf[a + 1..a + 1 + (n - 1)] == buf[a..a + n][1..];
      assert buf[b + 1..b + 1 + (n - 1)] == buf[b..b + n][1..];
      SkipEqual(buf, a + 1, b + 1, limit, n - 1);
    }
  }

  /** The number of leading bytes two different strides share. */
  function CommonBytes(x: seq<byte>, y: seq<byte>): (n: nat)
    requires |x| == |y| && x != y
    ensures n < |x| && x[..n] == y[..n] && x[n] != y[n]
  {
    if x[0] != y[0] then 0
    else
      assert x == [x[0]] + x[1..] && y == [y[0]] + y[1..];
      1 + CommonBytes(x[1..], y[1..])
  }

  lemma StrideDiffers(buf: seq<byte>, a: nat, b: nat, limit: nat, n: nat)
    requires b <= a && a + n <= limit <= |buf|
    requires buf[b..b + n] != buf[a..a + n]
    ensures CommonLength(buf, a, b, limit) < n
  {
    RepeatsIsEquality(buf, a, b, n);
    CommonLengthIsLongest(buf, a, b, limit, n);
  }

  /** A stride of `n` bytes, taken if they fit and are equal; if not, fewer than `n` are. */
  method CountStride(buf: seq<byte>, ip: nat, m: nat, limit: nat, n: nat) returns (ip': nat, m': nat)
    requires m <= ip <= limit <= |buf| && 0 < n && CommonLength(buf, ip, m, limit) <= 2 * n - 1
    ensures ip <= ip' <= limit && m' == m + (ip' - ip)
    ensures CommonLength(buf, ip, m, limit) == ip' - ip + CommonLength(buf, ip', m', limit)
    ensures CommonLength(buf, ip', m', limit) <= n - 1
  {
    ip', m' := ip, m;
    if ip + n - 1 < limit {
      if buf[m..m + n] == buf[ip..ip + n] {
        SkipEqual(buf, ip, m, limit, n);
        ip', m' := ip + n, m + n;
      } else {
        StrideDiffers(buf, ip, m, limit, n);
      }
    }
  }

  /** The last seven positions: strides of four, two and one. */
  method CountTail(buf: seq<byte>, start: nat, match0: nat, limit: nat) returns (n: nat)
    requires match0 <= start <= limit <= |buf| && limit <= start + 7
    ensures n == CommonLength(buf, start, match0, limit)
  {
    var ip, m := CountStride(buf, start, match0, limit, 4);
    ip, m := CountStride(buf, ip, m, limit, 2);
    if ip < limit && buf[m] == buf[ip] { ip := ip + 1; }
    n := ip - start;
  }

  method Count(buf: seq<byte>, start: nat, match0: nat, limit: nat) returns (n: nat)
    requires match0 <= start <= limit <= |buf|
    ensures n == CommonLength(buf, start, match0, limit)
  {
    var ip, m := start, match0;
    while ip + 7 < limit
      invariant start <= ip <= limit && m == match0 + (ip - start)
      invariant CommonLength(buf, start, match0, limit) == ip - start + CommonLength(buf, ip, m, limit)
    {
      if buf[ip..ip + 8] != buf[m..m + 8] {
        var c := CommonBytes(buf[m..m + 8], buf[ip..ip + 8]);
        DifferenceAt(buf, ip, m, limit, c);
        return ip + c - start;
      }
      SkipEqual(buf, ip, m, limit, 8);
      ip, m := ip + 8, m + 8;
    }
    n := CountTail(buf, ip, m, limit);
    n := ip - start + n;
  }

  lemma DifferenceAt(buf: seq<byte>, a: nat, b: nat, limit: nat, c: nat)
    requires b <= a && a + 8 <= limit <= |buf|
    requires buf[b..b + 8] != buf[a..a + 8]
    requires c == CommonBytes(buf[b..b + 8], buf[a..a + 8])
    ensures CommonLength(buf, a, b, limit) == c
  {
    var x, y := buf[a..a + 8], buf[b..b + 8];
    assert buf[a..a + c] == x[..c] && buf[b..b + c] == y[..c];
    SkipEqual(buf, a, b, limit, c);
    assert buf[a + c] == x[c] && buf[b + c] == y[c];
  }
}
